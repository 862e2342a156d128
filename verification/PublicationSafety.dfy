/** What any sequence of canonical publication runs, stopped anywhere, does to the registry. */
module PublicationSafety {
  import opened Options
  import opened Publication

  /** Every metadata read answers. */
  ghost predicate Truthful(w: World) {
    forall n: nat :: !w(n).ReadDown?
  }

  predicate Keeps(a: map<Key, Build>, b: map<Key, Build>) {
    forall k | k in a :: k in b && b[k] == a[k]
  }

  predicate Distinct(keys: seq<Key>) {
    forall i, j | 0 <= i < j < |keys| :: keys[i] != keys[j]
  }

  lemma {:induction false} LookOnly(st: Store, w: World, keys: seq<Key>)
    ensures Look(st, w, keys).0.entries == st.entries && Look(st, w, keys).0.tags == st.tags
    ensures Look(st, w, keys).1.Some? ==> |Look(st, w, keys).1.value| == |keys|
    ensures Truthful(w) && Look(st, w, keys).1.Some? ==>
              forall i | 0 <= i < |keys| :: Look(st, w, keys).1.value[i] <==> keys[i] in st.entries
    decreases |keys|
  {
    if keys != [] && !w(st.clock).Dies? {
      LookOnly(Tock(st), w, keys[1..]);
    }
  }

  lemma {:induction false} SeenIsThere(st: Store, w: World, keys: seq<Key>)
    requires Look(st, w, keys).1.Some?
    ensures |Look(st, w, keys).1.value| == |keys|
    ensures forall i | 0 <= i < |keys| :: Look(st, w, keys).1.value[i] ==> keys[i] in st.entries
    decreases |keys|
  {
    if keys != [] { SeenIsThere(Tock(st), w, keys[1..]); }
  }

  lemma {:induction false} RefusalOnlyReads(st: Store, w: World, keys: seq<Key>)
    ensures RefuseReplacement(st, w, keys).0.entries == st.entries
    ensures RefuseReplacement(st, w, keys).1 in {None, Some(Refused), Some(Stopped)}
    ensures Truthful(w) && (exists k :: k in keys && k in st.entries) ==> RefuseReplacement(st, w, keys).1.Some?
    decreases |keys|
  {
    if keys != [] && !w(st.clock).Dies? && !Sees(st, w, keys[0]) {
      RefusalOnlyReads(Tock(st), w, keys[1..]);
    }
  }

  /** The entries with these keys holding the build. */
  function Filled(entries: map<Key, Build>, keys: seq<Key>, b: Build): map<Key, Build> {
    map k | k in entries.Keys + (set x | x in keys) :: if k in keys then b else entries[k]
  }

  /** The tags with each of these packages at its version, the later ones last. */
  function Tagged(tags: map<string, string>, keys: seq<Key>): map<string, string>
    decreases |keys|
  {
    if keys == [] then tags else Tagged(tags[keys[0].0 := keys[0].1], keys[1..])
  }

  lemma FillFirst(entries: map<Key, Build>, k: Key, keys: seq<Key>, b: Build)
    ensures Filled(entries[k := b], keys, b) == Filled(entries, [k] + keys, b)
  {
  }

  lemma TagFirst(tags: map<string, string>, k: Key, keys: seq<Key>)
    ensures Tagged(tags[k.0 := k.1], keys) == Tagged(tags, [k] + keys)
  {
    assert ([k] + keys)[1..] == keys;
  }

  /** One upload: all of it or nothing, all when it succeeds. */
  lemma UploadsOneOrNothing(st: Store, w: World, k: Key, b: Build, dry: bool) returns (stored: bool)
    ensures var (s, o) := PublishOne(st, w, k, b, dry);
            s.entries == (if stored then st.entries[k := b] else st.entries)
            && s.tags == (if stored then st.tags[k.0 := k.1] else st.tags)
            && (o.None? && !dry ==> stored) && (dry ==> !stored) && (stored && Truthful(w) ==> k !in st.entries)
  {
    stored := !w(st.clock).Dies? && !Sees(st, w, k) && !dry && !w(st.clock + 1).Dies? && !w(st.clock + 1).PutRefused?;
  }

  /** The two stores agree on a first part of the tuple uploaded. */
  predicate FirstPart(before: Store, after: Store, keys: seq<Key>, b: Build, n: nat) {
    n <= |keys| && after.entries == Filled(before.entries, keys[..n], b) && after.tags == Tagged(before.tags, keys[..n])
  }

  lemma NothingIsFirstPart(before: Store, after: Store, keys: seq<Key>, b: Build)
    requires after.entries == before.entries && after.tags == before.tags
    ensures FirstPart(before, after, keys, b, 0)
  {
  }

  lemma OneMoreFirst(before: Store, one: Store, after: Store, keys: seq<Key>, b: Build, n: nat)
    requires keys != [] && FirstPart(one, after, keys[1..], b, n)
    requires one.entries == before.entries[keys[0] := b] && one.tags == before.tags[keys[0].0 := keys[0].1]
    ensures FirstPart(before, after, keys, b, n + 1)
  {
    assert keys[..n + 1] == [keys[0]] + keys[1..][..n];
    FillFirst(before.entries, keys[0], keys[1..][..n], b);
    TagFirst(before.tags, keys[0], keys[1..][..n]);
  }

  lemma AfterOne(before: Store, one: Store, after: Store, keys: seq<Key>, b: Build, stored: bool, m: nat)
      returns (n: nat)
    requires keys != [] && FirstPart(one, after, keys[1..], b, m) && (!stored ==> m == 0)
    requires one.entries == (if stored then before.entries[keys[0] := b] else before.entries)
    requires one.tags == (if stored then before.tags[keys[0].0 := keys[0].1] else before.tags)
    ensures FirstPart(before, after, keys, b, n) && n == if stored then m + 1 else 0
  {
    if stored {
      OneMoreFirst(before, one, after, keys, b, m);
      n := m + 1;
    } else {
      assert keys[1..][..0] == [] && Filled(one.entries, [], b) == one.entries;
      NothingIsFirstPart(before, after, keys, b);
      n := 0;
    }
  }

  /**
   * Uploading one package after the other stores a first part of the tuple and nothing else, wherever it
   * stops: the whole of it when it succeeds, none of it in a dry run, and with answered reads only versions
   * that were not there.
   */
  lemma {:induction false} UploadsAFirstPart(st: Store, w: World, keys: seq<Key>, b: Build, dry: bool)
      returns (n: nat)
    ensures var (s, o) := PublishEach(st, w, keys, b, dry);
            FirstPart(st, s, keys, b, n) && (o.None? && !dry ==> n == |keys|) && (dry ==> n == 0)
    ensures Truthful(w) ==> forall i | 0 <= i < n :: keys[i] !in st.entries
    decreases |keys|
  {
    n := 0;
    if keys == [] {
      NothingIsFirstPart(st, st, keys, b);
    } else {
      var (s1, o) := PublishOne(st, w, keys[0], b, dry);
      var stored := UploadsOneOrNothing(st, w, keys[0], b, dry);
      if o.Some? {
        NothingIsFirstPart(s1, s1, keys[1..], b);
        n := AfterOne(st, s1, s1, keys, b, stored, 0);
      } else {
        n := UploadsAFirstPart(s1, w, keys[1..], b, dry);
        n := AfterOne(st, s1, PublishEach(s1, w, keys[1..], b, dry).0, keys, b, stored, n);
      }
    }
  }

  /** What was there is there, and every entry is as before or one of these with the build. */
  predicate Adds(before: map<Key, Build>, after: map<Key, Build>, keys: seq<Key>, b: Build) {
    before.Keys <= after.Keys
    && forall k | k in after :: (k in before && after[k] == before[k]) || (k in keys && after[k] == b)
  }

  /** With answered reads an upload never lands on an existing version; it only ever stores tuple entries. */
  lemma EachOnlyAdds(st: Store, w: World, keys: seq<Key>, b: Build, dry: bool)
    ensures Truthful(w) ==> Keeps(st.entries, PublishEach(st, w, keys, b, dry).0.entries)
    ensures dry ==> PublishEach(st, w, keys, b, dry).0.entries == st.entries
    ensures Adds(st.entries, PublishEach(st, w, keys, b, dry).0.entries, keys, b)
  {
    var n := UploadsAFirstPart(st, w, keys, b, dry);
    FillingAdds(st.entries, keys[..n], keys, b);
    assert dry ==> Filled(st.entries, keys[..0], b) == st.entries;
    assert forall k | k in keys[..n] :: exists i :: 0 <= i < n && keys[i] == k;
  }

  lemma FillingAdds(entries: map<Key, Build>, some: seq<Key>, keys: seq<Key>, b: Build)
    requires forall k | k in some :: k in keys
    ensures Adds(entries, Filled(entries, some, b), keys, b)
  {
  }

  lemma {:induction false} VerifyReadsAll(st: Store, w: World, keys: seq<Key>, b: Build)
    ensures VerifySet(st, w, keys, b).0.entries == st.entries
    ensures VerifySet(st, w, keys, b).1.None? ==> forall k | k in keys :: k in st.entries && st.entries[k] == b
    ensures VerifySet(st, w, keys, b).1 in {None, Some(Stopped), Some(SetMismatch)}
    decreases |keys|
  {
    if keys != [] && !w(st.clock).Dies? && Sees(st, w, keys[0]) && st.entries[keys[0]] == b {
      VerifyReadsAll(Tock(st), w, keys[1..], b);
    }
  }

  /** A look that finds nothing, or some but not all and then nothing on looking again. */
  predicate GoesOn(st: Store, w: World, keys: seq<Key>) {
    var (s1, seen) := Look(st, w, keys);
    seen.Some? && (true in seen.value ==> RefuseReplacement(s1, w, keys).1.None?)
  }

  /** Everything a run does to the entries, its uploads do. */
  lemma RunIsItsUploads(st: Store, w: World, keys: seq<Key>, b: Build, dry: bool) returns (from: Store)
    ensures from.entries == st.entries
    ensures PublishRun(st, w, keys, b, dry).0.entries in
              {st.entries, PublishEach(from, w, keys, b, dry).0.entries}
    ensures PublishRun(st, w, keys, b, dry).0.entries != st.entries ==> GoesOn(st, w, keys)
  {
    var (s1, seen) := Look(st, w, keys);
    LookOnly(st, w, keys);
    RefusalOnlyReads(s1, w, keys);
    from := s1;
    if seen.Some? && false in seen.value {
      if true in seen.value { from := RefuseReplacement(s1, w, keys).0; }
      VerifyReadsAll(PublishEach(from, w, keys, b, dry).0, w, keys, b);
    } else {
      VerifyReadsAll(s1, w, keys, b);
    }
  }

  /** One run, wherever it stops, replaces no entry of a registry whose reads answer. */
  lemma RunReplacesNothing(st: Store, w: World, keys: seq<Key>, b: Build, dry: bool)
    requires Truthful(w)
    ensures Keeps(st.entries, PublishRun(st, w, keys, b, dry).0.entries)
  {
    var from := RunIsItsUploads(st, w, keys, b, dry);
    EachOnlyAdds(from, w, keys, b, dry);
  }

  /** None of the tuple's versions that are there is seen by the look that starts at this time. */
  ghost predicate BlindTo(st: Store, w: World, keys: seq<Key>, start: nat) {
    forall i | 0 <= i < |keys| && keys[i] in st.entries :: w(start + i).ReadDown?
  }

  lemma {:induction false} UnseenIsBlind(st: Store, w: World, keys: seq<Key>)
    requires Look(st, w, keys).1.Some? && true !in Look(st, w, keys).1.value
    ensures BlindTo(st, w, keys, st.clock)
    decreases |keys|
  {
    if keys != [] {
      var rest := Look(Tock(st), w, keys[1..]).1.value;
      assert Look(st, w, keys).1.value == [Sees(st, w, keys[0])] + rest;
      UnseenIsBlind(Tock(st), w, keys[1..]);
      assert forall i | 0 < i < |keys| :: keys[i] == keys[1..][i - 1];
    }
  }

  lemma {:induction false} UnrefusedIsBlind(st: Store, w: World, keys: seq<Key>)
    requires RefuseReplacement(st, w, keys).1.None?
    ensures BlindTo(st, w, keys, st.clock)
    decreases |keys|
  {
    if keys != [] {
      UnrefusedIsBlind(Tock(st), w, keys[1..]);
      assert forall i | 0 < i < |keys| :: keys[i] == keys[1..][i - 1];
    }
  }

  lemma {:induction false} LookTicks(st: Store, w: World, keys: seq<Key>)
    requires Look(st, w, keys).1.Some?
    ensures Look(st, w, keys).0 == st.(clock := st.clock + |keys|)
    decreases |keys|
  {
    if keys != [] { LookTicks(Tock(st), w, keys[1..]); }
  }

  lemma BlindLook(st: Store, w: World, keys: seq<Key>)
    requires GoesOn(st, w, keys)
    ensures BlindTo(st, w, keys, st.clock) || BlindTo(st, w, keys, st.clock + |keys|)
  {
    var s1 := Look(st, w, keys).0;
    LookTicks(st, w, keys);
    if true in Look(st, w, keys).1.value {
      UnrefusedIsBlind(s1, w, keys);
    } else {
      UnseenIsBlind(st, w, keys);
    }
  }

  /**
   * A run writes only after a whole look at the tuple, the first one or the one before uploading, got no
   * answer for any version that is there.
   */
  lemma WritesOnlyBlind(st: Store, w: World, keys: seq<Key>, b: Build, dry: bool)
    requires PublishRun(st, w, keys, b, dry).0.entries != st.entries
    ensures !dry && (BlindTo(st, w, keys, st.clock) || BlindTo(st, w, keys, st.clock + |keys|))
  {
    var from := RunIsItsUploads(st, w, keys, b, dry);
    BlindLook(st, w, keys);
    if dry { EachOnlyAdds(from, w, keys, b, dry); }
  }

  /** A tuple of which anything is already there is left alone: refused when partial, verified when complete. */
  lemma StartedTupleIsNotTouched(st: Store, w: World, keys: seq<Key>, b: Build, dry: bool)
    requires Truthful(w) && exists k :: k in keys && k in st.entries
    ensures PublishRun(st, w, keys, b, dry).0.entries == st.entries
    ensures (exists k :: k in keys && k !in st.entries) ==>
              PublishRun(st, w, keys, b, dry).1 in {Refused, Stopped}
  {
    var (s1, seen) := Look(st, w, keys);
    LookOnly(st, w, keys);
    RefusalOnlyReads(s1, w, keys);
    if PublishRun(st, w, keys, b, dry).0.entries != st.entries { WritesOnlyBlind(st, w, keys, b, dry); }
    if seen.Some? {
      var k :| k in keys && k in st.entries;
      var i :| 0 <= i < |keys| && keys[i] == k;
      assert seen.value[i];
      if k' :| k' in keys && k' !in st.entries {
        var j :| 0 <= j < |keys| && keys[j] == k';
        assert !seen.value[j];
      }
    }
  }

  /** A proof is printed only over a complete registry, whatever the reads did: every entry is the selected build. */
  lemma ProofMeansComplete(st: Store, w: World, keys: seq<Key>, b: Build, dry: bool)
    requires PublishRun(st, w, keys, b, dry).1 == Proved
    ensures !dry
    ensures forall k | k in keys ::
              k in PublishRun(st, w, keys, b, dry).0.entries && PublishRun(st, w, keys, b, dry).0.entries[k] == b
  {
    var (s1, seen) := Look(st, w, keys);
    RefusalOnlyReads(s1, w, keys);
    var s2 := RefuseReplacement(s1, w, keys).0;
    EachNeverProves(s1, w, keys, b, dry);
    EachNeverProves(s2, w, keys, b, dry);
    VerifyReadsAll(s1, w, keys, b);
    VerifyReadsAll(s2, w, keys, b);
    VerifyReadsAll(PublishEach(s1, w, keys, b, dry).0, w, keys, b);
    VerifyReadsAll(PublishEach(s2, w, keys, b, dry).0, w, keys, b);
  }

  lemma {:induction false} EachNeverProves(st: Store, w: World, keys: seq<Key>, b: Build, dry: bool)
    ensures PublishEach(st, w, keys, b, dry).1 != Some(Proved)
    ensures PublishEach(st, w, keys, b, dry).1 != Some(DryRunDone)
    decreases |keys|
  {
    if keys != [] && PublishOne(st, w, keys[0], b, dry).1.None? {
      EachNeverProves(PublishOne(st, w, keys[0], b, dry).0, w, keys[1..], b, dry);
    }
  }

  /** A world in which nothing goes wrong. */
  ghost predicate AllFine(w: World) {
    forall n: nat :: w(n).Fine?
  }

  lemma {:induction false} EachFills(st: Store, w: World, keys: seq<Key>, b: Build)
    requires AllFine(w) && Distinct(keys) && forall k | k in keys :: k !in st.entries
    ensures PublishEach(st, w, keys, b, false).1.None?
    ensures Keeps(st.entries, PublishEach(st, w, keys, b, false).0.entries)
    ensures forall k | k in keys ::
              k in PublishEach(st, w, keys, b, false).0.entries && PublishEach(st, w, keys, b, false).0.entries[k] == b
    decreases |keys|
  {
    if keys != [] {
      var s1 := PublishOne(st, w, keys[0], b, false).0;
      assert s1.entries == st.entries[keys[0] := b];
      assert Distinct(keys[1..]);
      EachFills(s1, w, keys[1..], b);
    }
  }

  lemma {:induction false} VerifyPasses(st: Store, w: World, keys: seq<Key>, b: Build)
    requires AllFine(w) && forall k | k in keys :: k in st.entries && st.entries[k] == b
    ensures VerifySet(st, w, keys, b).1.None?
    decreases |keys|
  {
    if keys != [] {
      VerifyPasses(Tock(st), w, keys[1..], b);
    }
  }

  lemma {:induction false} LookAnswers(st: Store, w: World, keys: seq<Key>)
    requires AllFine(w)
    ensures Look(st, w, keys).1.Some?
    decreases |keys|
  {
    if keys != [] {
      LookAnswers(Tock(st), w, keys[1..]);
    }
  }

  /** The refusals do not make the publisher useless: an untouched tuple is published and proved. */
  lemma FreshTupleIsPublished(st: Store, w: World, keys: seq<Key>, b: Build)
    requires AllFine(w) && Distinct(keys) && keys != [] && forall k | k in keys :: k !in st.entries
    ensures PublishRun(st, w, keys, b, false).1 == Proved
  {
    LookOnly(st, w, keys);
    LookAnswers(st, w, keys);
    var s1 := Look(st, w, keys).0;
    var seen := Look(st, w, keys).1.value;
    assert true !in seen;
    assert !seen[0];
    EachFills(s1, w, keys, b);
    VerifyPasses(PublishEach(s1, w, keys, b, false).0, w, keys, b);
  }

  datatype RunSpec = RunSpec(world: World, keys: seq<Key>, build: Build, dry: bool)

  /** Runs one after another, as the install lock makes them; each may have stopped anywhere. */
  function PublishRuns(st: Store, runs: seq<RunSpec>): Store
    decreases |runs|
  {
    if runs == [] then st
    else PublishRuns(PublishRun(st, runs[0].world, runs[0].keys, runs[0].build, runs[0].dry).0, runs[1..])
  }

  lemma RunOnlyAdds(st: Store, w: World, keys: seq<Key>, b: Build, dry: bool)
    ensures Adds(st.entries, PublishRun(st, w, keys, b, dry).0.entries, keys, b)
  {
    var from := RunIsItsUploads(st, w, keys, b, dry);
    EachOnlyAdds(from, w, keys, b, dry);
  }

  /** Reads go unanswered only in runs whose build is the one every earlier version of their packages holds. */
  ghost predicate Agreeing(st: Store, runs: seq<RunSpec>) {
    forall i | 0 <= i < |runs| :: Truthful(runs[i].world) || Agrees(st, runs, i)
  }

  ghost predicate Agrees(st: Store, runs: seq<RunSpec>, i: nat)
    requires i < |runs|
  {
    (forall k | k in runs[i].keys && k in st.entries :: st.entries[k] == runs[i].build)
    && forall j, k | 0 <= j < i && k in runs[j].keys && k in runs[i].keys :: runs[j].build == runs[i].build
  }

  lemma AgreesLater(st: Store, after: Store, runs: seq<RunSpec>, i: nat)
    requires i + 1 < |runs| && Agrees(st, runs, i + 1)
    requires Adds(st.entries, after.entries, runs[0].keys, runs[0].build)
    ensures Agrees(after, runs[1..], i)
  {
    assert forall j | 0 <= j < |runs[1..]| :: runs[1..][j] == runs[j + 1];
  }

  /** Such runs replace no entry, however many there are and wherever each stops. */
  lemma {:induction false} RunsReplaceNothing(st: Store, runs: seq<RunSpec>)
    requires Agreeing(st, runs)
    ensures Keeps(st.entries, PublishRuns(st, runs).entries)
    decreases |runs|
  {
    if runs != [] {
      var r := runs[0];
      var s1 := PublishRun(st, r.world, r.keys, r.build, r.dry).0;
      RunOnlyAdds(st, r.world, r.keys, r.build, r.dry);
      if Truthful(r.world) {
        RunReplacesNothing(st, r.world, r.keys, r.build, r.dry);
      } else {
        assert Agrees(st, runs, 0);
      }
      assert Keeps(st.entries, s1.entries);
      forall i | 0 <= i < |runs[1..]| ensures Truthful(runs[1..][i].world) || Agrees(s1, runs[1..], i) {
        if !Truthful(runs[i + 1].world) { AgreesLater(st, s1, runs, i); }
      }
      RunsReplaceNothing(s1, runs[1..]);
    }
  }

  predicate Holds(st: Store, keys: seq<Key>, b: Build) {
    forall k | k in keys :: k in st.entries && st.entries[k] == b
  }

  /** A run that cannot take this tuple away: it reads truly, or publishes the same build, or other packages. */
  ghost predicate Harmless(r: RunSpec, keys: seq<Key>, b: Build) {
    Truthful(r.world) || r.build == b || forall k | k in keys :: k !in r.keys
  }

  lemma {:induction false} HarmlessRunsHold(st: Store, runs: seq<RunSpec>, keys: seq<Key>, b: Build)
    requires Holds(st, keys, b) && forall i | 0 <= i < |runs| :: Harmless(runs[i], keys, b)
    ensures Holds(PublishRuns(st, runs), keys, b)
    decreases |runs|
  {
    if runs != [] {
      var r := runs[0];
      assert Harmless(r, keys, b);
      RunOnlyAdds(st, r.world, r.keys, r.build, r.dry);
      if Truthful(r.world) { RunReplacesNothing(st, r.world, r.keys, r.build, r.dry); }
      HarmlessRunsHold(PublishRun(st, r.world, r.keys, r.build, r.dry).0, runs[1..], keys, b);
    }
  }

  lemma HeldIsNotTouched(st: Store, w: World, keys: seq<Key>, b: Build, dry: bool)
    requires Holds(st, keys, b)
    ensures PublishRun(st, w, keys, b, dry).0.entries == st.entries
  {
    RunOnlyAdds(st, w, keys, b, dry);
  }

  lemma HeldIsProved(st: Store, w: World, keys: seq<Key>, b: Build)
    requires AllFine(w) && Holds(st, keys, b)
    ensures PublishRun(st, w, keys, b, false).1 == Proved
  {
    LookOnly(st, w, keys);
    LookAnswers(st, w, keys);
    var (s1, seen) := Look(st, w, keys);
    forall i | 0 <= i < |keys| ensures seen.value[i] { assert keys[i] in keys; }
    VerifyPasses(s1, w, keys, b);
  }

  /**
   * Once a tuple is proved it stays so, and no later run of it writes, whatever harmless runs are in between; a
   * later run of the same build in which nothing goes wrong proves it again.
   */
  lemma ProvedTupleStaysProved(st: Store, first: RunSpec, between: seq<RunSpec>, again: RunSpec)
    requires first.keys == again.keys && first.keys != []
    requires PublishRun(st, first.world, first.keys, first.build, first.dry).1 == Proved
    requires forall i | 0 <= i < |between| :: Harmless(between[i], first.keys, first.build)
    requires Truthful(again.world) || again.build == first.build
    ensures
      var s1 := PublishRun(st, first.world, first.keys, first.build, first.dry).0;
      var s2 := PublishRuns(s1, between);
      Holds(s2, first.keys, first.build)
      && PublishRun(s2, again.world, again.keys, again.build, again.dry).0.entries == s2.entries
      && (AllFine(again.world) && again.build == first.build && !again.dry ==>
            PublishRun(s2, again.world, again.keys, again.build, again.dry).1 == Proved)
  {
    var s1 := PublishRun(st, first.world, first.keys, first.build, first.dry).0;
    var s2 := PublishRuns(s1, between);
    ProofMeansComplete(st, first.world, first.keys, first.build, first.dry);
    HarmlessRunsHold(s1, between, first.keys, first.build);
    assert first.keys[0] in s2.entries;
    if Truthful(again.world) {
      StartedTupleIsNotTouched(s2, again.world, again.keys, again.build, again.dry);
    } else {
      HeldIsNotTouched(s2, again.world, again.keys, first.build, again.dry);
    }
    if AllFine(again.world) { HeldIsProved(s2, again.world, again.keys, first.build); }
  }

  /** Some run of this tuple, in some world, changes an entry that is already there. */
  ghost predicate CanReplace(st: Store, keys: seq<Key>, b: Build) {
    exists w: World :: !Keeps(st.entries, PublishRun(st, w, keys, b, false).0.entries)
  }

  /** Reads go unanswered and every upload goes through. */
  function BlindWorld(lookups: nat): World {
    (n: nat) => if n < lookups then ReadDown else if (n - lookups) % 3 == 0 then ReadDown else Fine
  }

  lemma {:induction false} LookBlind(st: Store, w: World, keys: seq<Key>)
    requires forall n: nat | st.clock <= n < st.clock + |keys| :: w(n) == ReadDown
    ensures Look(st, w, keys).1.Some? && true !in Look(st, w, keys).1.value
    ensures Look(st, w, keys).0 == st.(clock := st.clock + |keys|)
    ensures |Look(st, w, keys).1.value| == |keys|
    decreases |keys|
  {
    if keys != [] {
      LookBlind(Tock(st), w, keys[1..]);
    }
  }

  /** Uploading blind stores the whole tuple over whatever was there. */
  lemma {:induction false} EachBlind(st: Store, base: nat, keys: seq<Key>, b: Build)
    requires base <= st.clock && (st.clock - base) % 3 == 0
    ensures PublishEach(st, BlindWorld(base), keys, b, false).1.None?
    ensures forall k | k in keys :: k in PublishEach(st, BlindWorld(base), keys, b, false).0.entries
                                    && PublishEach(st, BlindWorld(base), keys, b, false).0.entries[k] == b
    ensures forall k | k in st.entries && st.entries[k] == b ::
              k in PublishEach(st, BlindWorld(base), keys, b, false).0.entries
              && PublishEach(st, BlindWorld(base), keys, b, false).0.entries[k] == b
    decreases |keys|
  {
    if keys != [] {
      var w := BlindWorld(base);
      assert w(st.clock) == ReadDown && w(st.clock + 1) == Fine && w(st.clock + 2) == Fine;
      var s1 := PublishOne(st, w, keys[0], b, false).0;
      assert s1 == Store(st.entries[keys[0] := b], st.tags[keys[0].0 := keys[0].1], st.clock + 3);
      EachBlind(s1, base, keys[1..], b);
    }
  }

  /** Blind, a run stores the whole tuple. */
  lemma BlindRun(st: Store, keys: seq<Key>, b: Build) returns (w: World)
    requires keys != []
    ensures Holds(PublishRun(st, w, keys, b, false).0, keys, b)
  {
    var base := st.clock + |keys|;
    w := BlindWorld(base);
    LookBlind(st, w, keys);
    var s1 := Look(st, w, keys).0;
    var seen := Look(st, w, keys).1.value;
    assert !seen[0];
    EachBlind(s1, base, keys, b);
    var s3 := PublishEach(s1, w, keys, b, false).0;
    VerifyReadsAll(s3, w, keys, b);
    assert PublishRun(st, w, keys, b, false).0.entries == s3.entries;
  }

  /**
   * The publisher takes an unanswered read for a missing version. So the registry's own refusal is
   * needed exactly for hosts whose registry already holds a tuple entry with another build.
   */
  lemma ReplacementNeedsTheRegistry(st: Store, keys: seq<Key>, b: Build)
    ensures CanReplace(st, keys, b) <==> exists k :: k in keys && k in st.entries && st.entries[k] != b
  {
    if k :| k in keys && k in st.entries && st.entries[k] != b {
      var w := BlindRun(st, keys, b);
      assert k in st.entries && PublishRun(st, w, keys, b, false).0.entries[k] != st.entries[k];
    } else {
      forall w: World ensures Keeps(st.entries, PublishRun(st, w, keys, b, false).0.entries) {
        RunOnlyAdds(st, w, keys, b, false);
      }
    }
  }

  /** Some run of this tuple, in some world, changes the registry. */
  ghost predicate CanWrite(st: Store, keys: seq<Key>, b: Build) {
    exists w: World :: PublishRun(st, w, keys, b, false).0.entries != st.entries
  }

  /** Unanswered reads can get a started tuple written exactly when it is partial or holds another build. */
  lemma StartedTupleIsWrittenExactly(st: Store, keys: seq<Key>, b: Build)
    requires exists k :: k in keys && k in st.entries
    ensures CanWrite(st, keys, b) <==> !Holds(st, keys, b)
  {
    if Holds(st, keys, b) {
      forall w: World ensures PublishRun(st, w, keys, b, false).0.entries == st.entries {
        HeldIsNotTouched(st, w, keys, b, false);
      }
    } else {
      var w := BlindRun(st, keys, b);
      assert PublishRun(st, w, keys, b, false).0.entries != st.entries;
    }
  }
}
