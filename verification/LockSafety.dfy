/**
 * What the lock alone guarantees, for every run and whatever the release ids: one process inside, a link that
 * stays present, and, as long as the last read before each upload is answered, a registry that only grows.
 */
module LockSafety {
  import opened Options
  import opened InstallProtocol
  import opened InstallSafety
  import opened ReleaseWindow

  ghost predicate LinkStays(s: Sys, s': Sys) {
    s.current.Some? ==> s'.current.Some?
  }

  ghost predicate RegistryGrows(s: Sys, s': Sys) {
    forall k | k in s.registry :: k in s'.registry && s'.registry[k] == s.registry[k]
  }

  /** The read before an upload is answered. */
  predicate Answered(e: Event) {
    e.CheckMissing? ==> e.answered
  }

  /** A publisher about to put a package has just seen its place empty, when its read was answered. */
  predicate SlotFree(s: Sys, pk: seq<string>, ph: PublishPhase) {
    ph.Putting? ==> ph.sure && ph.next < |pk| && PackageKey(ph.man, pk[ph.next]) !in s.registry
  }

  lemma InstallOnlyAdds(s: Sys, p: Pid, id: ReleaseId, ph: InstallPhase, e: Event, s': Sys)
    requires InstallNext(s, p, id, ph, e) == Some(s')
    ensures LinkStays(s, s') && s'.registry == s.registry
  {
  }

  lemma PublishOnlyAdds(s: Sys, p: Pid, pk: seq<string>, ph: PublishPhase, e: Event, s': Sys)
    requires PublishNext(s, p, pk, ph, e) == Some(s')
    ensures LinkStays(s, s') && (SlotFree(s, pk, ph) ==> RegistryGrows(s, s'))
  {
  }

  lemma DaemonOnlyAdds(s: Sys, p: Pid, d: Proc, e: Event, s': Sys)
    requires d.Daemon? && DaemonNext(s, p, d, e) == Some(s')
    ensures LinkStays(s, s') && s'.registry == s.registry
  {
  }

  ghost predicate Locked(s: Sys) {
    LockOk(s) && forall q | q in s.procs && s.procs[q].Publisher? :: SlotFree(s, s.procs[q].packages, s.procs[q].pub)
  }

  lemma StepKeepsLock(s: Sys, p: Pid, e: Event, s': Sys)
    requires LockOk(s) && Next(s, p, e) == Some(s')
    ensures LockOk(s')
  {
    OneProcessMoves(s, p, e, s');
    if !e.StartInstall? && !e.StartPublish? && !e.StartDaemon? {
      match s.procs[p]
      case Installer(_, _) => InstallKeepsLock(s, p, e, s');
      case Publisher(_, _) => PublishTouchesOnlyItself(s, p, e, s');
      case Daemon(_, _, _) => DaemonKeepsLock(s, p, s.procs[p], e, s');
    }
  }

  lemma DaemonKeepsLock(s: Sys, p: Pid, d: Proc, e: Event, s': Sys)
    requires d.Daemon? && DaemonNext(s, p, d, e) == Some(s')
    ensures s'.lock == s.lock && s'.owner == s.owner && s'.registry == s.registry && !Holds(s'.procs[p])
  {
  }

  lemma PublisherSlot(s: Sys, p: Pid, pk: seq<string>, ph: PublishPhase, e: Event, s': Sys)
    requires PublishNext(s, p, pk, ph, e) == Some(s') && SlotFree(s, pk, ph) && Answered(e)
    ensures p in s'.procs && (s'.procs[p].Publisher? ==> SlotFree(s', s'.procs[p].packages, s'.procs[p].pub))
  {
  }

  lemma StepKeepsSlots(s: Sys, p: Pid, e: Event, s': Sys, q: Pid)
    requires Locked(s) && Next(s, p, e) == Some(s') && Answered(e) && q in s'.procs && s'.procs[q].Publisher?
    ensures SlotFree(s', s'.procs[q].packages, s'.procs[q].pub)
  {
    OneProcessMoves(s, p, e, s');
    if !e.StartInstall? && !e.StartPublish? && !e.StartDaemon? {
      match s.procs[p]
      case Installer(id, ph) =>
        InstallTouchesOnlyItself(s, p, e, s');
      case Publisher(pk, ph) =>
        if q == p { PublisherSlot(s, p, pk, ph, e, s'); }
      case Daemon(_, _, _) => DaemonKeepsLock(s, p, s.procs[p], e, s');
    }
  }

  lemma StepKeepsLink(s: Sys, p: Pid, e: Event, s': Sys)
    requires Next(s, p, e) == Some(s')
    ensures LinkStays(s, s')
  {
    if !e.StartInstall? && !e.StartPublish? && !e.StartDaemon? {
      match s.procs[p]
      case Installer(id, ph) => InstallOnlyAdds(s, p, id, ph, e, s');
      case Publisher(pk, ph) => PublishOnlyAdds(s, p, pk, ph, e, s');
      case Daemon(_, _, _) => DaemonOnlyAdds(s, p, s.procs[p], e, s');
    }
  }

  lemma StepKeepsLocked(s: Sys, p: Pid, e: Event, s': Sys)
    requires Locked(s) && Next(s, p, e) == Some(s') && Answered(e)
    ensures Locked(s') && RegistryGrows(s, s')
  {
    StepKeepsLock(s, p, e, s');
    forall q | q in s'.procs && s'.procs[q].Publisher? ensures SlotFree(s', s'.procs[q].packages, s'.procs[q].pub) {
      StepKeepsSlots(s, p, e, s', q);
    }
    if !e.StartInstall? && !e.StartPublish? && !e.StartDaemon? {
      match s.procs[p]
      case Installer(id, ph) => InstallOnlyAdds(s, p, id, ph, e, s');
      case Publisher(pk, ph) => PublishOnlyAdds(s, p, pk, ph, e, s');
      case Daemon(_, _, _) => DaemonOnlyAdds(s, p, s.procs[p], e, s');
    }
  }

  lemma {:induction false} RunKeepsLock(s: Sys, steps: seq<Step>, s': Sys)
    requires LockOk(s) && Run(s, steps) == Some(s')
    ensures LockOk(s') && LinkStays(s, s')
    decreases |steps|
  {
    if steps != [] {
      var t := Next(s, steps[0].0, steps[0].1).value;
      StepKeepsLock(s, steps[0].0, steps[0].1, t);
      StepKeepsLink(s, steps[0].0, steps[0].1, t);
      RunKeepsLock(t, steps[1..], s');
    }
  }

  predicate AllAnswered(steps: seq<Step>) {
    forall i | 0 <= i < |steps| :: Answered(steps[i].1)
  }

  lemma {:induction false} RunKeepsLocked(s: Sys, steps: seq<Step>, s': Sys)
    requires Locked(s) && Run(s, steps) == Some(s') && AllAnswered(steps)
    ensures RegistryGrows(s, s')
    decreases |steps|
  {
    if steps != [] {
      var t := Next(s, steps[0].0, steps[0].1).value;
      StepKeepsLocked(s, steps[0].0, steps[0].1, t);
      RunKeepsLocked(t, steps[1..], s');
    }
  }

  ghost predicate Quiet(s: Sys) {
    s.procs == map[] && s.lock.None? && s.owner.None?
  }

  /** Over every run from a quiet host, with crashes and failures anywhere and any release ids. */
  lemma LockIsSafe(s: Sys, steps: seq<Step>, s': Sys)
    requires Quiet(s) && Run(s, steps) == Some(s')
    ensures MutualExclusion(s') && (s'.owner.Some? ==> s'.owner == s'.lock)
    ensures s.current.Some? ==> s'.current.Some?
    ensures AllAnswered(steps) ==> RegistryGrows(s, s')
  {
    RunKeepsLock(s, steps, s');
    if AllAnswered(steps) {
      RunKeepsLocked(s, steps, s');
    }
  }

  const PUBLISHER: Pid := 0

  /** The publisher's next action. */
  lemma Then(s: Sys, t: Sys, pk: seq<string>, ph: PublishPhase, e: Event) returns (u: Sys)
    requires RunBy(s, PUBLISHER, t) && PUBLISHER in t.procs && t.procs[PUBLISHER] == Publisher(pk, ph)
    requires !e.StartInstall? && !e.StartPublish? && !e.StartDaemon? && PublishNext(t, PUBLISHER, pk, ph, e).Some?
    ensures RunBy(s, PUBLISHER, u) && PublishNext(t, PUBLISHER, pk, ph, e) == Some(u)
  {
    assert Next(t, PUBLISHER, e) == PublishNext(t, PUBLISHER, pk, ph, e);
    RunByNext(s, PUBLISHER, t, e);
    u := PublishNext(t, PUBLISHER, pk, ph, e).value;
  }

  lemma PublisherSelects(s: Sys, r: ReleaseId, m: Manifest, name: string) returns (t: Sys)
    requires Quiet(s) && SelectionHolds(s, r, m)
    ensures RunBy(s, PUBLISHER, t) && PUBLISHER in t.procs && t.procs[PUBLISHER] == Publisher([name], Selected(r, m))
    ensures t.registry == s.registry
  {
    RunByNothing(s, PUBLISHER);
    RunByNext(s, PUBLISHER, s, StartPublish([name]));
    t := Next(s, PUBLISHER, StartPublish([name])).value;
    t := Then(s, t, [name], PLockDir, WriteOwner);
    t := Then(s, t, [name], PBegin, Select);
  }

  lemma PublisherLoops(s: Sys, r: ReleaseId, m: Manifest, name: string) returns (t: Sys)
    requires Quiet(s) && SelectionHolds(s, r, m)
    ensures RunBy(s, PUBLISHER, t) && PUBLISHER in t.procs && t.procs[PUBLISHER] == Publisher([name], Loop(r, m, 0))
    ensures t.registry == s.registry
  {
    t := PublisherSelects(s, r, m, name);
    assert !Shown(t, m, [name][0], [name][0] !in {name});
    t := Then(s, t, [name], Selected(r, m), Inspect({name}, {}));
  }

  /** Without the answer, one publisher alone replaces an entry another build left under its version. */
  lemma UnansweredReadReplaces(s: Sys, r: ReleaseId, m: Manifest, name: string) returns (t: Sys)
    requires Quiet(s) && SelectionHolds(s, r, m)
    requires PackageKey(m, name) in s.registry && s.registry[PackageKey(m, name)] != m.build
    ensures RunBy(s, PUBLISHER, t) && !RegistryGrows(s, t)
    ensures PackageKey(m, name) in t.registry && t.registry[PackageKey(m, name)] == m.build
  {
    t := PublisherChecks(s, r, m, name);
    t := Then(s, t, [name], Putting(r, m, 0, false), Put);
    assert t.registry[PackageKey(m, name)] == m.build;
  }

  lemma PublisherChecks(s: Sys, r: ReleaseId, m: Manifest, name: string) returns (t: Sys)
    requires Quiet(s) && SelectionHolds(s, r, m)
    ensures RunBy(s, PUBLISHER, t) && PUBLISHER in t.procs && t.registry == s.registry
    ensures t.procs[PUBLISHER] == Publisher([name], Putting(r, m, 0, false))
  {
    t := PublisherLoops(s, r, m, name);
    t := Then(s, t, [name], Loop(r, m, 0), CheckMissing(false));
  }

  lemma OnlyRenameMovesTheLink(s: Sys, p: Pid, e: Event, s': Sys)
    requires Next(s, p, e) == Some(s') && s.current.Some? && !e.Rename?
    ensures s'.current == s.current
  {
    if !e.StartInstall? && !e.StartPublish? && !e.StartDaemon? {
      match s.procs[p]
      case Installer(id, ph) => InstallMovesLink(s, p, id, ph, e, s');
      case Publisher(pk, ph) => assert PublishNext(s, p, pk, ph, e) == Some(s');
      case Daemon(_, _, _) => assert DaemonNext(s, p, s.procs[p], e) == Some(s');
    }
  }

  lemma InstallMovesLink(s: Sys, p: Pid, id: ReleaseId, ph: InstallPhase, e: Event, s': Sys)
    requires InstallNext(s, p, id, ph, e) == Some(s') && s.current.Some? && !e.Rename?
    ensures s'.current == s.current
  {
  }

  /** At every state of the run the link names r, and no step is a cutover. */
  ghost predicate NamedThroughout(s: Sys, steps: seq<Step>, r: ReleaseId)
    decreases |steps|
  {
    s.current == Some(Release(r)) &&
    (steps == [] ||
     (!steps[0].1.Rename? && Next(s, steps[0].0, steps[0].1).Some?
      && NamedThroughout(Next(s, steps[0].0, steps[0].1).value, steps[1..], r)))
  }

  /** From the selected-release read to the proof no cutover falls, whatever the release ids. */
  lemma {:induction false} ProofNamesTheNamedRelease(s: Sys, steps: seq<Step>, s': Sys, p: Pid, r: ReleaseId,
                                                       m: Manifest)
    requires LockOk(s) && Run(s, steps) == Some(s') && s.current == Some(Release(r))
    requires HasSelection(s, p, r, m) && HasSelection(s', p, r, m)
    ensures NamedThroughout(s, steps, r)
    decreases |steps|
  {
    if steps != [] {
      var q, e := steps[0].0, steps[0].1;
      var t := Next(s, q, e).value;
      StepKeepsLock(s, q, e, t);
      NoCutoverBeside(s, p, r, m, q, e, t);
      OnlyRenameMovesTheLink(s, q, e, t);
      SelectionKeptOrLost(s, p, r, m, q, e, t);
      if LostSelection(t, p) {
        LostForGood(t, p, steps[1..], s');
      }
      ProofNamesTheNamedRelease(t, steps[1..], s', p, r, m);
    }
  }

  /**
   * The whole protocol, over every interleaving in which no directory is made that sorts before the release of
   * a daemon then pruning: one process in the lock, a link that never disappears and never names a missing or
   * unvalidated release, and no running daemon's release removed.
   */
  lemma ProtocolIsSafe(s: Sys, steps: seq<Step>, s': Sys)
    requires Quiet(s) && CurrentOk(s)
    requires FreshRun(s, steps) && Run(s, steps) == Some(s')
    ensures MutualExclusion(s') && CurrentOk(s') && TreesKept(s')
    ensures s.current.Some? ==> Resolves(s')
  {
    LockIsSafe(s, steps, s');
    RunKeeps(s, steps, s');
  }

  ghost predicate NobodyPrunes(s: Sys) {
    forall q | q in s.procs && s.procs[q].Daemon? :: s.procs[q].prune.NotPruning?
  }

  predicate NoStartupPrune(steps: seq<Step>) {
    forall i | 0 <= i < |steps| :: !steps[i].1.SeeLockFree?
  }

  lemma StaysUnpruned(s: Sys, p: Pid, e: Event, s': Sys)
    requires NobodyPrunes(s) && Next(s, p, e) == Some(s') && !e.SeeLockFree?
    ensures NobodyPrunes(s')
  {
    OneProcessMoves(s, p, e, s');
    if !e.StartInstall? && !e.StartPublish? && !e.StartDaemon? {
      match s.procs[p]
      case Installer(_, _) => InstallTouchesOnlyItself(s, p, e, s');
      case Publisher(pk, ph) => assert PublishNext(s, p, pk, ph, e) == Some(s');
      case Daemon(_, _, _) => assert DaemonNext(s, p, s.procs[p], e) == Some(s');
    }
  }

  lemma {:induction false} UnprunedIsFresh(s: Sys, steps: seq<Step>)
    requires NobodyPrunes(s) && NoStartupPrune(steps)
    ensures FreshRun(s, steps)
    decreases |steps|
  {
    if steps != [] {
      var p, e := steps[0].0, steps[0].1;
      if Next(s, p, e).Some? {
        StaysUnpruned(s, p, e, Next(s, p, e).value);
        UnprunedIsFresh(Next(s, p, e).value, steps[1..]);
      }
    }
  }

  /** Where no daemon prunes at startup, the release ids do not matter at all. */
  lemma NoStartupPruneIsSafe(s: Sys, steps: seq<Step>, s': Sys)
    requires Quiet(s) && CurrentOk(s) && NoStartupPrune(steps) && Run(s, steps) == Some(s')
    ensures MutualExclusion(s') && CurrentOk(s') && TreesKept(s')
    ensures s.current.Some? ==> Resolves(s')
  {
    UnprunedIsFresh(s, steps);
    ProtocolIsSafe(s, steps, s');
  }
}
