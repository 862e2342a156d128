/**
 * The release a publication proof names stayed selected from the selected-release read to the
 * proof: the install lock keeps every cooperating cutover out of that window.
 */
module ReleaseWindow {
  import opened Options
  import opened InstallProtocol
  import opened InstallSafety

  /** Publisher p is between its selected-release read and its proof, with selection (r, m). */
  ghost predicate HasSelection(s: Sys, p: Pid, r: ReleaseId, m: Manifest) {
    p in s.procs && s.procs[p].Publisher?
    && (var ph := s.procs[p].pub;
        (ph.Selected? || ph.Loop? || ph.Putting? || ph.Proved?) && ph.rel == r && ph.man == m)
  }

  /** Publisher p gave up its selection, or is gone. */
  ghost predicate LostSelection(s: Sys, p: Pid) {
    p in s.procs && (s.procs[p].Dead? || (s.procs[p].Publisher? && s.procs[p].pub.PFinishing?))
  }

  /** While p holds a selection it holds the lock, so nobody else is renaming the link. */
  lemma NoCutoverBeside(s: Sys, p: Pid, r: ReleaseId, m: Manifest, q: Pid, e: Event, s': Sys)
    requires LockOk(s) && HasSelection(s, p, r, m) && Next(s, q, e) == Some(s')
    ensures !e.Rename?
  {
    assert Holds(s.procs[p]);
    assert q in s.procs && Holds(s.procs[q]) ==> q == p;
  }

  /** An event moves the counter of the process that takes it, and no other. */
  lemma OneProcessMoves(s: Sys, q: Pid, e: Event, s': Sys)
    requires Next(s, q, e) == Some(s')
    ensures q in s'.procs && s'.procs == s.procs[q := s'.procs[q]]
  {
    if e.StartInstall? || e.StartPublish? || e.StartDaemon? {
    } else if s.procs[q].Installer? {
      InstallTouchesOnlyItself(s, q, e, s');
    } else if s.procs[q].Publisher? {
      assert PublishNext(s, q, s.procs[q].packages, s.procs[q].pub, e) == Some(s');
    } else {
      assert DaemonNext(s, q, s.procs[q], e) == Some(s');
    }
  }

  lemma SelectionKeptOrLost(s: Sys, p: Pid, r: ReleaseId, m: Manifest, q: Pid, e: Event, s': Sys)
    requires HasSelection(s, p, r, m) && Next(s, q, e) == Some(s')
    ensures HasSelection(s', p, r, m) || LostSelection(s', p)
  {
    OneProcessMoves(s, q, e, s');
    if q == p {
      assert PublishNext(s, p, s.procs[p].packages, s.procs[p].pub, e) == Some(s');
    }
  }

  lemma LostStaysLost(s: Sys, p: Pid, q: Pid, e: Event, s': Sys)
    requires LostSelection(s, p) && Next(s, q, e) == Some(s')
    ensures LostSelection(s', p)
  {
    OneProcessMoves(s, q, e, s');
    if q == p && s.procs[p].Publisher? {
      assert PublishNext(s, p, s.procs[p].packages, s.procs[p].pub, e) == Some(s');
    }
  }

  lemma {:induction false} LostForGood(s: Sys, p: Pid, steps: seq<Step>, s': Sys)
    requires LostSelection(s, p) && Run(s, steps) == Some(s')
    ensures LostSelection(s', p)
    decreases |steps|
  {
    if steps != [] {
      var t := Next(s, steps[0].0, steps[0].1).value;
      LostStaysLost(s, p, steps[0].0, steps[0].1, t);
      LostForGood(t, p, steps[1..], s');
    }
  }

  /** At every state of the run the link names r with manifest m, and no step is a cutover. */
  ghost predicate SelectedThroughout(s: Sys, steps: seq<Step>, r: ReleaseId, m: Manifest)
    decreases |steps|
  {
    SelectionHolds(s, r, m) &&
    (steps == [] ||
     (!steps[0].1.Rename? && Next(s, steps[0].0, steps[0].1).Some?
      && SelectedThroughout(Next(s, steps[0].0, steps[0].1).value, steps[1..], r, m)))
  }

  /** Every package is in the registry at the version of the manifest, with its build. */
  ghost predicate Published(s: Sys, packages: seq<string>, m: Manifest) {
    forall name | name in packages ::
      (name, m.build.version) in s.registry && s.registry[(name, m.build.version)] == m.build
  }

  lemma ProvedMeansPublished(s: Sys, packages: seq<string>, m: Manifest)
    ensures AllProved(s, packages, m) <==> Published(s, packages, m)
  {
    if AllProved(s, packages, m) {
      forall name | name in packages
        ensures (name, m.build.version) in s.registry && s.registry[(name, m.build.version)] == m.build
      {
        var i :| 0 <= i < |packages| && packages[i] == name;
        assert PackageKey(m, packages[i]) == (name, m.build.version);
      }
    }
    if Published(s, packages, m) {
      forall i | 0 <= i < |packages|
        ensures PackageKey(m, packages[i]) in s.registry && s.registry[PackageKey(m, packages[i])] == m.build
      {
        assert packages[i] in packages;
      }
    }
  }

  /** From the read to the proof, whatever the other processes do meanwhile. */
  lemma {:induction false} ProofNamesTheCurrentRelease(
      s: Sys, steps: seq<Step>, s': Sys, p: Pid, r: ReleaseId, m: Manifest)
    requires Inv(s) && FreshRun(s, steps) && Run(s, steps) == Some(s')
    requires HasSelection(s, p, r, m) && HasSelection(s', p, r, m) && s'.procs[p].pub.Proved?
    ensures SelectedThroughout(s, steps, r, m)
    ensures Published(s', s'.procs[p].packages, m)
    decreases |steps|
  {
    assert ProcOk(s, s.procs[p]);
    ProvedMeansPublished(s', s'.procs[p].packages, m);
    if steps != [] {
      var q, e := steps[0].0, steps[0].1;
      var t := Next(s, q, e).value;
      StepKeeps(s, q, e, t);
      NoCutoverBeside(s, p, r, m, q, e, t);
      SelectionKeptOrLost(s, p, r, m, q, e, t);
      if LostSelection(t, p) {
        LostForGood(t, p, steps[1..], s');
      }
      ProofNamesTheCurrentRelease(t, steps[1..], s', p, r, m);
    }
  }

  /** Among cooperating processes the final unchanged check cannot be what stops a publication. */
  lemma UnchangedCheckPasses(s: Sys, p: Pid, r: ReleaseId, m: Manifest, packages: seq<string>)
    requires Inv(s) && p in s.procs && s.procs[p] == Publisher(packages, Loop(r, m, |packages|))
    ensures Next(s, p, Prove).Some? <==> Published(s, packages, m)
  {
    assert ProcOk(s, s.procs[p]);
    ProvedMeansPublished(s, packages, m);
  }
}
