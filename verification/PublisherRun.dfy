/**
 * The publisher's run over the registry and its events in the protocol are one publisher: every run of the
 * canonical branch, whatever goes wrong in it, is a sequence of the publisher's own events.
 */
module PublisherRun {
  import opened Options
  import opened InstallProtocol
  import opened LockSafety
  import P = Publication
  import S = PublicationSafety

  /** All reads of the event are answered. */
  predicate Heard(e: Event) {
    Answered(e) && (e.Inspect? ==> e.blind == {} && e.again == {})
  }

  predicate AllHeard(steps: seq<Step>) {
    forall i | 0 <= i < |steps| :: Heard(steps[i].1)
  }

  /** t is reached from s by events of p alone, with every read answered where that is asked. */
  ghost predicate Published(s: Sys, p: Pid, t: Sys, answered: bool) {
    exists steps: seq<Step> ::
      (forall i | 0 <= i < |steps| :: steps[i].0 == p) && Run(s, steps) == Some(t) && (answered ==> AllHeard(steps))
  }

  lemma PublishedNothing(s: Sys, p: Pid, answered: bool)
    ensures Published(s, p, s, answered)
  {
    var none: seq<Step> := [];
    assert Run(s, none) == Some(s);
  }

  lemma PublishedNext(s: Sys, p: Pid, t: Sys, e: Event, answered: bool)
    requires Published(s, p, t, answered) && Next(t, p, e).Some? && (answered ==> Heard(e))
    ensures Published(s, p, Next(t, p, e).value, answered)
  {
    var steps: seq<Step> :| (forall i | 0 <= i < |steps| :: steps[i].0 == p) && Run(s, steps) == Some(t)
                            && (answered ==> AllHeard(steps));
    RunSnoc(s, steps, t, p, e);
    var more := steps + [(p, e)];
    assert forall i | 0 <= i < |more| :: more[i].0 == p && (answered ==> Heard(more[i].1));
  }

  /** Only the registry and the program counter of p differ. */
  function With(s: Sys, p: Pid, registry: map<Key, Build>, proc: Proc): Sys {
    s.(registry := registry, procs := s.procs[p := proc])
  }

  /** p stands at this point of its program, having left everything else but the registry alone. */
  ghost predicate Stands(s: Sys, p: Pid, registry: map<Key, Build>, proc: Proc, answered: bool) {
    p in s.procs && s.procs[p].Publisher? && Published(s, p, With(s, p, registry, proc), answered)
  }

  /** The publisher's next event. */
  lemma Then(s: Sys, p: Pid, pk: seq<string>, registry: map<Key, Build>, ph: PublishPhase, e: Event,
             registry': map<Key, Build>, proc: Proc, answered: bool)
    requires Stands(s, p, registry, Publisher(pk, ph), answered) && (answered ==> Heard(e))
    requires !e.StartInstall? && !e.StartPublish? && !e.StartDaemon?
    requires PublishNext(With(s, p, registry, Publisher(pk, ph)), p, pk, ph, e)
             == Some(Set(With(s, p, registry, Publisher(pk, ph)), p, proc).(registry := registry'))
    ensures Stands(s, p, registry', proc, answered)
  {
    var t := With(s, p, registry, Publisher(pk, ph));
    PublishedNext(s, p, t, e, answered);
    assert s.procs[p := Publisher(pk, ph)][p := proc] == s.procs[p := proc];
  }

  function KeysOf(man: Manifest, pk: seq<string>): seq<Key> {
    seq(|pk|, i requires 0 <= i < |pk| => PackageKey(man, pk[i]))
  }

  /** Where the protocol leaves a publisher whose run ended so. */
  function EndPhase(o: P.Outcome, rel: ReleaseId, man: Manifest, pk: seq<string>): Proc {
    if o.Proved? then Publisher(pk, Loop(rel, man, |pk|))
    else if o.Stopped? then Dead
    else Publisher(pk, PFinishing)
  }

  lemma Ends(s: Sys, p: Pid, pk: seq<string>, registry: map<Key, Build>, ph: PublishPhase, o: P.Outcome,
             rel: ReleaseId, man: Manifest, answered: bool)
    requires Stands(s, p, registry, Publisher(pk, ph), answered) && !o.Proved?
    requires !ph.PLockDir? && !ph.Proved? && !ph.PFinishing?
    ensures Stands(s, p, registry, EndPhase(o, rel, man, pk), answered)
  {
    if o.Stopped? {
      Then(s, p, pk, registry, ph, Crash, registry, Dead, answered);
    } else {
      Then(s, p, pk, registry, ph, Fail, registry, Publisher(pk, PFinishing), answered);
    }
  }

  /** What the run of the registry has done so far, told by the protocol. */
  ghost predicate Follows(s: Sys, p: Pid, pk: seq<string>, rel: ReleaseId, man: Manifest, st: P.Store, o: P.Outcome,
                          answered: bool) {
    Stands(s, p, st.entries, EndPhase(o, rel, man, pk), answered)
    && (o.Proved? ==> AllProved(With(s, p, st.entries, EndPhase(o, rel, man, pk)), pk, man))
  }

  lemma VerifyFollows(s: Sys, p: Pid, pk: seq<string>, rel: ReleaseId, man: Manifest, st: P.Store, w: P.World,
                      answered: bool)
    requires Stands(s, p, st.entries, Publisher(pk, Loop(rel, man, |pk|)), answered)
    ensures var (st', o) := P.Finish(P.VerifySet(st, w, KeysOf(man, pk), man.build));
            Follows(s, p, pk, rel, man, st', o, answered)
  {
    var keys := KeysOf(man, pk);
    var (st', o) := P.Finish(P.VerifySet(st, w, keys, man.build));
    S.VerifyReadsAll(st, w, keys, man.build);
    if o.Proved? {
      forall i | 0 <= i < |pk|
        ensures PackageKey(man, pk[i]) in st.entries && st.entries[PackageKey(man, pk[i])] == man.build
      {
        assert keys[i] in keys;
      }
    } else {
      Ends(s, p, pk, st.entries, Loop(rel, man, |pk|), o, rel, man, answered);
    }
  }

  /** The check before an upload that finds nothing, because nothing is there or because it gets no answer. */
  lemma Checks(s: Sys, p: Pid, pk: seq<string>, rel: ReleaseId, man: Manifest, n: nat, registry: map<Key, Build>,
               answered: bool)
    requires n < |pk| && Stands(s, p, registry, Publisher(pk, Loop(rel, man, n)), answered)
    requires answered ==> PackageKey(man, pk[n]) !in registry
    ensures Stands(s, p, registry, Publisher(pk, Putting(rel, man, n, PackageKey(man, pk[n]) !in registry)), answered)
  {
    var sure := PackageKey(man, pk[n]) !in registry;
    Then(s, p, pk, registry, Loop(rel, man, n), CheckMissing(sure), registry,
         Publisher(pk, Putting(rel, man, n, sure)), answered);
  }

  lemma Puts(s: Sys, p: Pid, pk: seq<string>, rel: ReleaseId, man: Manifest, n: nat, registry: map<Key, Build>,
             sure: bool, answered: bool)
    requires n < |pk| && Stands(s, p, registry, Publisher(pk, Putting(rel, man, n, sure)), answered)
    ensures Stands(s, p, registry[PackageKey(man, pk[n]) := man.build], Publisher(pk, Loop(rel, man, n + 1)), answered)
  {
    Then(s, p, pk, registry, Putting(rel, man, n, sure), Put, registry[PackageKey(man, pk[n]) := man.build],
         Publisher(pk, Loop(rel, man, n + 1)), answered);
  }

  /** How far an upload gets before it ends or fails. */
  datatype Reach = BeforeCheck | BeforePut | AfterPut

  function ReachOf(st: P.Store, w: P.World, k: Key): Reach {
    if w(st.clock).Dies? || P.Sees(st, w, k) then BeforeCheck
    else if w(st.clock + 1).Dies? || w(st.clock + 1).PutRefused? then BeforePut
    else AfterPut
  }

  lemma UploadReaches(st: P.Store, w: P.World, k: Key, b: Build)
    ensures var (st', o) := P.PublishOne(st, w, k, b, false);
            var reach := ReachOf(st, w, k);
            st'.entries == (if reach.AfterPut? then st.entries[k := b] else st.entries)
            && (o.None? ==> reach.AfterPut?) && (o.Some? ==> !o.value.Proved?)
            && (S.Truthful(w) && !reach.BeforeCheck? ==> k !in st.entries)
  {
  }

  /** One upload: the check, the put, and what becomes of it. */
  lemma OneFollows(s: Sys, p: Pid, pk: seq<string>, rel: ReleaseId, man: Manifest, n: nat, st: P.Store, w: P.World)
    requires n < |pk| && Stands(s, p, st.entries, Publisher(pk, Loop(rel, man, n)), S.Truthful(w))
    ensures var (st', o) := P.PublishOne(st, w, PackageKey(man, pk[n]), man.build, false);
            if o.None? then Stands(s, p, st'.entries, Publisher(pk, Loop(rel, man, n + 1)), S.Truthful(w))
            else !o.value.Proved? && Stands(s, p, st'.entries, EndPhase(o.value, rel, man, pk), S.Truthful(w))
  {
    var k := PackageKey(man, pk[n]);
    var o := P.PublishOne(st, w, k, man.build, false).1;
    UploadReaches(st, w, k, man.build);
    UploadFollows(s, p, pk, rel, man, n, st.entries, ReachOf(st, w, k), o, S.Truthful(w));
  }

  lemma UploadFollows(s: Sys, p: Pid, pk: seq<string>, rel: ReleaseId, man: Manifest, n: nat,
                      registry: map<Key, Build>, reach: Reach, o: Option<P.Outcome>, answered: bool)
    requires n < |pk| && Stands(s, p, registry, Publisher(pk, Loop(rel, man, n)), answered)
    requires (o.None? ==> reach.AfterPut?) && (o.Some? ==> !o.value.Proved?)
    requires answered && !reach.BeforeCheck? ==> PackageKey(man, pk[n]) !in registry
    ensures var after := if reach.AfterPut? then registry[PackageKey(man, pk[n]) := man.build] else registry;
            Stands(s, p, after,
                   if o.None? then Publisher(pk, Loop(rel, man, n + 1)) else EndPhase(o.value, rel, man, pk), answered)
  {
    if reach.BeforeCheck? {
      Ends(s, p, pk, registry, Loop(rel, man, n), o.value, rel, man, answered);
    } else {
      var sure := PackageKey(man, pk[n]) !in registry;
      Checks(s, p, pk, rel, man, n, registry, answered);
      if reach.BeforePut? {
        Ends(s, p, pk, registry, Putting(rel, man, n, sure), o.value, rel, man, answered);
      } else {
        Puts(s, p, pk, rel, man, n, registry, sure, answered);
        if o.Some? {
          Ends(s, p, pk, registry[PackageKey(man, pk[n]) := man.build], Loop(rel, man, n + 1), o.value, rel, man,
               answered);
        }
      }
    }
  }

  lemma {:induction false} EachFollows(s: Sys, p: Pid, pk: seq<string>, rel: ReleaseId, man: Manifest, n: nat,
                                       st: P.Store, w: P.World)
    requires n <= |pk| && Stands(s, p, st.entries, Publisher(pk, Loop(rel, man, n)), S.Truthful(w))
    ensures var (st', o) := P.PublishEach(st, w, KeysOf(man, pk)[n..], man.build, false);
            if o.None? then Stands(s, p, st'.entries, Publisher(pk, Loop(rel, man, |pk|)), S.Truthful(w))
            else !o.value.Proved? && Stands(s, p, st'.entries, EndPhase(o.value, rel, man, pk), S.Truthful(w))
    decreases |pk| - n
  {
    var keys := KeysOf(man, pk);
    if n < |pk| {
      OneFollows(s, p, pk, rel, man, n, st, w);
      var (s1, o) := P.PublishOne(st, w, keys[n], man.build, false);
      assert keys[n..][0] == keys[n] && keys[n..][1..] == keys[n + 1..];
      if o.None? { EachFollows(s, p, pk, rel, man, n + 1, s1, w); }
    }
  }

  /** The first look: it shows all packages, or none because none is there or their reads get no answer. */
  lemma Inspects(s: Sys, p: Pid, pk: seq<string>, rel: ReleaseId, man: Manifest, registry: map<Key, Build>, all: bool,
                 answered: bool)
    requires Stands(s, p, registry, Publisher(pk, Selected(rel, man)), answered)
    requires all ==> forall i | 0 <= i < |pk| :: PackageKey(man, pk[i]) in registry
    requires !all ==> pk != [] && (answered ==> forall i | 0 <= i < |pk| :: PackageKey(man, pk[i]) !in registry)
    ensures Stands(s, p, registry, Publisher(pk, Loop(rel, man, if all then |pk| else 0)), answered)
  {
    var blind := if all then {} else set n | n in pk && PackageKey(man, n) in registry;
    var t := With(s, p, registry, Publisher(pk, Selected(rel, man)));
    if all {
      assert AllShown(t, pk, man, blind);
    } else {
      assert !Shown(t, man, pk[0], pk[0] !in blind);
      assert NoneShown(t, pk, man, blind);
      assert answered ==> blind == {};
    }
    Then(s, p, pk, registry, Selected(rel, man), Inspect(blind, blind), registry,
         Publisher(pk, Loop(rel, man, if all then |pk| else 0)), answered);
  }

  /** The uploads and the verification after them. */
  lemma UploadsFollow(s: Sys, p: Pid, pk: seq<string>, rel: ReleaseId, man: Manifest, st: P.Store, w: P.World)
    requires Stands(s, p, st.entries, Publisher(pk, Loop(rel, man, 0)), S.Truthful(w))
    ensures var (s1, o) := P.PublishEach(st, w, KeysOf(man, pk), man.build, false);
            var (st', end) := if o.Some? then (s1, o.value)
                              else P.Finish(P.VerifySet(s1, w, KeysOf(man, pk), man.build));
            Follows(s, p, pk, rel, man, st', end, S.Truthful(w))
  {
    var keys := KeysOf(man, pk);
    assert keys[0..] == keys;
    EachFollows(s, p, pk, rel, man, 0, st, w);
    var (s1, o) := P.PublishEach(st, w, keys, man.build, false);
    if o.None? { VerifyFollows(s, p, pk, rel, man, s1, w, S.Truthful(w)); }
  }

  lemma KeyAt(man: Manifest, pk: seq<string>, seen: seq<bool>, registry: map<Key, Build>)
    requires |seen| == |pk| && forall i | 0 <= i < |pk| :: seen[i] ==> KeysOf(man, pk)[i] in registry
    ensures false !in seen ==> forall i | 0 <= i < |pk| :: PackageKey(man, pk[i]) in registry
  {
    if false !in seen {
      forall i | 0 <= i < |pk| ensures PackageKey(man, pk[i]) in registry {
        assert seen[i] in seen;
      }
    }
  }

  /** A run that is not a dry run, from the first look on. */
  lemma LiveRunFollows(s: Sys, p: Pid, pk: seq<string>, rel: ReleaseId, man: Manifest, st: P.Store, w: P.World)
    requires Stands(s, p, st.entries, Publisher(pk, Selected(rel, man)), S.Truthful(w))
    ensures var (st', o) := P.PublishRun(st, w, KeysOf(man, pk), man.build, false);
            Follows(s, p, pk, rel, man, st', o, S.Truthful(w))
  {
    var keys, answered := KeysOf(man, pk), S.Truthful(w);
    var (s1, seen) := P.Look(st, w, keys);
    S.LookOnly(st, w, keys);
    S.RefusalOnlyReads(s1, w, keys);
    if seen.None? {
      Ends(s, p, pk, st.entries, Selected(rel, man), P.Stopped, rel, man, answered);
    } else if false !in seen.value {
      S.SeenIsThere(st, w, keys);
      KeyAt(man, pk, seen.value, st.entries);
      Inspects(s, p, pk, rel, man, st.entries, true, answered);
      VerifyFollows(s, p, pk, rel, man, s1, w, answered);
    } else {
      var (s2, refused) := if true in seen.value then P.RefuseReplacement(s1, w, keys) else (s1, None);
      if refused.Some? {
        Ends(s, p, pk, st.entries, Selected(rel, man), refused.value, rel, man, answered);
      } else {
        if answered { NothingThere(st, w, keys); }
        forall i | 0 <= i < |pk| && answered ensures PackageKey(man, pk[i]) !in st.entries {
          assert keys[i] in keys;
        }
        Inspects(s, p, pk, rel, man, st.entries, false, answered);
        UploadsFollow(s, p, pk, rel, man, s2, w);
      }
    }
  }

  /** Where the reads are answered, going on to upload means that nothing of the tuple is there. */
  lemma NothingThere(st: P.Store, w: P.World, keys: seq<Key>)
    requires S.Truthful(w) && S.GoesOn(st, w, keys) && false in P.Look(st, w, keys).1.value
    ensures forall k | k in keys :: k !in st.entries
  {
    var (s1, seen) := P.Look(st, w, keys);
    S.LookOnly(st, w, keys);
    S.RefusalOnlyReads(s1, w, keys);
    if true !in seen.value {
      forall k | k in keys ensures k !in st.entries {
        var i :| 0 <= i < |keys| && keys[i] == k;
        assert !seen.value[i];
      }
    }
  }

  /**
   * A run of the canonical branch, in any world, is a sequence of the publisher's events with the same effect on
   * the registry and on nothing else but its own program counter; it stands ready to prove exactly when the run
   * proved the set. Where the reads are answered, so are those of the events.
   */
  lemma RunIsPublisher(s: Sys, p: Pid, pk: seq<string>, rel: ReleaseId, man: Manifest, st: P.Store, w: P.World,
                       dry: bool)
    requires p in s.procs && s.procs[p] == Publisher(pk, Selected(rel, man)) && st.entries == s.registry
    ensures var (st', o) := P.PublishRun(st, w, KeysOf(man, pk), man.build, dry);
            Follows(s, p, pk, rel, man, st', o, S.Truthful(w))
  {
    var keys, b, answered := KeysOf(man, pk), man.build, S.Truthful(w);
    var (st', o) := P.PublishRun(st, w, keys, b, dry);
    PublishedNothing(s, p, answered);
    assert With(s, p, st.entries, s.procs[p]) == s;
    if dry {
      if o.Proved? { S.ProofMeansComplete(st, w, keys, b, dry); }
      var from := S.RunIsItsUploads(st, w, keys, b, dry);
      S.EachOnlyAdds(from, w, keys, b, dry);
      Ends(s, p, pk, st.entries, Selected(rel, man), o, rel, man, answered);
    } else {
      LiveRunFollows(s, p, pk, rel, man, st, w);
    }
  }
}
