/**
 * How a canonical publication run ends, told from the registry it finds and from what happens on the way.
 */
module PublicationOutcomes {
  import opened Options
  import opened Publication
  import opened PublicationSafety

  predicate NoneThere(st: Store, keys: seq<Key>) {
    forall k | k in keys :: k !in st.entries
  }

  predicate AllThere(st: Store, keys: seq<Key>) {
    forall k | k in keys :: k in st.entries
  }

  ghost predicate Lives(w: World) {
    forall n: nat :: !w(n).Dies?
  }

  // ---------- a tuple of which something is there ----------

  lemma {:induction false} LivingLookEnds(st: Store, w: World, keys: seq<Key>)
    requires Lives(w)
    ensures Look(st, w, keys).1.Some?
    decreases |keys|
  {
    if keys != [] { LivingLookEnds(Tock(st), w, keys[1..]); }
  }

  lemma {:induction false} LivingRefusal(st: Store, w: World, keys: seq<Key>)
    requires Truthful(w) && Lives(w) && exists k :: k in keys && k in st.entries
    ensures RefuseReplacement(st, w, keys).1 == Some(Refused) && RefuseReplacement(st, w, keys).0.tags == st.tags
    decreases |keys|
  {
    if keys[0] !in st.entries { LivingRefusal(Tock(st), w, keys[1..]); }
  }

  lemma {:induction false} LivingVerify(st: Store, w: World, keys: seq<Key>, b: Build)
    requires Truthful(w) && Lives(w)
    ensures VerifySet(st, w, keys, b).1 == if Holds(st, keys, b) then None else Some(SetMismatch)
    ensures VerifySet(st, w, keys, b).0.tags == st.tags
    decreases |keys|
  {
    if keys != [] {
      LivingVerify(Tock(st), w, keys[1..], b);
      assert keys[0] in keys;
      assert Holds(st, keys, b) <==>
             keys[0] in st.entries && st.entries[keys[0]] == b && Holds(Tock(st), keys[1..], b);
    }
  }

  /** What the look shows of a tuple, where the reads are answered. */
  lemma LookShows(st: Store, w: World, keys: seq<Key>)
    requires Truthful(w) && Lives(w)
    ensures Look(st, w, keys).1.Some?
    ensures true !in Look(st, w, keys).1.value <==> NoneThere(st, keys)
    ensures false !in Look(st, w, keys).1.value <==> AllThere(st, keys)
    ensures Look(st, w, keys).0 == st.(clock := st.clock + |keys|)
  {
    LivingLookEnds(st, w, keys);
    LookOnly(st, w, keys);
    LookTicks(st, w, keys);
    var seen := Look(st, w, keys).1.value;
    forall k | k in keys ensures (k in st.entries) in seen {
      var i :| 0 <= i < |keys| && keys[i] == k;
      assert seen[i] == (k in st.entries);
    }
    forall x | x in seen ensures exists k :: k in keys && x == (k in st.entries) {
      var i :| 0 <= i < |seen| && seen[i] == x;
      assert keys[i] in keys;
    }
  }

  /**
   * Over a tuple of which something is there, a run that lives and whose reads are answered changes nothing. It
   * refuses a partial tuple; a complete one it proves or finds different, or in a dry run only names.
   */
  lemma StartedRunExactly(st: Store, w: World, keys: seq<Key>, b: Build, dry: bool)
    requires Truthful(w) && Lives(w) && !NoneThere(st, keys)
    ensures var (s, o) := PublishRun(st, w, keys, b, dry);
            && s.entries == st.entries && s.tags == st.tags
            && o == if !AllThere(st, keys) then Refused
                    else if dry then DryRunDone
                    else if Holds(st, keys, b) then Proved
                    else SetMismatch
  {
    var s1 := Look(st, w, keys).0;
    LookShows(st, w, keys);
    if AllThere(st, keys) {
      LivingVerify(s1, w, keys, b);
      VerifyReadsAll(s1, w, keys, b);
      assert Holds(s1, keys, b) == Holds(st, keys, b);
    } else {
      LivingRefusal(s1, w, keys);
      RefusalOnlyReads(s1, w, keys);
    }
  }

  // ---------- a tuple of which nothing is there ----------

  /** What ends the run at the look number i after this time: only that the process stops there. */
  function AtLook(w: World, start: nat, i: nat): Option<Outcome> {
    if w(start + i).Dies? then Some(Stopped) else None
  }

  /** The uploads take three ticks a package: a read, the upload, the tag. */
  function AtUpload(w: World, start: nat, i: nat): Option<Outcome>
    decreases i
  {
    if i >= 3 then AtUpload(w, start + 3, i - 3)
    else if w(start + i).Dies? then Some(Stopped)
    else if i == 1 && (w(start + 1).PutRefused? || w(start + 1).PutLost?) then Some(UploadFailed)
    else if i == 2 && w(start + 2).ReadDown? then Some(TagMismatch)
    else None
  }

  function AtVerify(w: World, start: nat, i: nat): Option<Outcome> {
    var t := w(start + i);
    if t.Dies? then Some(Stopped) else if t.ReadDown? then Some(SetMismatch) else None
  }

  /** A run over an absent tuple of n packages: n looks, three ticks for each upload, n verifications. */
  function Ending(w: World, start: nat, n: nat, i: nat): Option<Outcome> {
    if i < n then AtLook(w, start, i)
    else if i < 4 * n then AtUpload(w, start + n, i - n)
    else AtVerify(w, start + 4 * n, i - 4 * n)
  }

  /** The packages that are stored when the uploads end at tick i. */
  function StoredAt(w: World, start: nat, i: nat): nat
    decreases i
  {
    if i >= 3 then StoredAt(w, start + 3, i - 3) + 1
    else if i == 2 || (i == 1 && w(start + 1).PutLost?) then 1
    else 0
  }

  function StoredBy(w: World, start: nat, n: nat, i: nat): nat {
    if i < n then 0 else if i < 4 * n then StoredAt(w, start + n, i - n) else n
  }

  type Ended = (Store, Option<Outcome>)

  ghost predicate LookEnds(st: Store, w: World, n: nat, s: Store, seen: Option<seq<bool>>, j: nat) {
    && j <= n && (forall i: nat | i < j :: AtLook(w, st.clock, i).None?)
    && if j < n then seen.None? && AtLook(w, st.clock, j) == Some(Stopped) && s == st.(clock := s.clock)
       else seen.Some? && |seen.value| == n && true !in seen.value && s == st.(clock := st.clock + n)
  }

  lemma {:induction false} LookEndsAt(st: Store, w: World, keys: seq<Key>) returns (j: nat)
    requires NoneThere(st, keys)
    ensures LookEnds(st, w, |keys|, Look(st, w, keys).0, Look(st, w, keys).1, j)
    decreases |keys|
  {
    if keys == [] || w(st.clock).Dies? {
      j := 0;
    } else {
      var rest := LookEndsAt(Tock(st), w, keys[1..]);
      j := rest + 1;
      forall i: nat | 0 < i < j ensures AtLook(w, st.clock, i).None? {
        assert AtLook(w, Tock(st).clock, i - 1).None?;
      }
      assert AtLook(w, st.clock, j) == AtLook(w, Tock(st).clock, rest);
    }
  }

  ghost predicate VerifyEnds(st: Store, w: World, n: nat, r: Ended, j: nat) {
    && j <= n && (forall i: nat | i < j :: AtVerify(w, st.clock, i).None?)
    && r.0 == st.(clock := r.0.clock)
    && if j < n then r.1.Some? && r.1 == AtVerify(w, st.clock, j) else r.1.None?
  }

  lemma {:induction false} VerifyEndsAt(st: Store, w: World, keys: seq<Key>, b: Build) returns (j: nat)
    requires Holds(st, keys, b)
    ensures VerifyEnds(st, w, |keys|, VerifySet(st, w, keys, b), j)
    decreases |keys|
  {
    if keys == [] || AtVerify(w, st.clock, 0).Some? {
      j := 0;
    } else {
      var rest := VerifyEndsAt(Tock(st), w, keys[1..], b);
      j := rest + 1;
      forall i: nat | 0 < i < j ensures AtVerify(w, st.clock, i).None? {
        assert AtVerify(w, Tock(st).clock, i - 1).None?;
      }
      assert AtVerify(w, st.clock, j) == AtVerify(w, Tock(st).clock, rest);
    }
  }

  /** The upload of one absent package ends at this tick of it, or goes through. */
  ghost predicate OneEnds(st: Store, w: World, k: Key, b: Build, r: Ended, j: nat) {
    var stored := j == 3 || StoredAt(w, st.clock, j) == 1;
    && j <= 3 && (forall i: nat | i < j :: AtUpload(w, st.clock, i).None?)
    && r.0.entries == (if stored then st.entries[k := b] else st.entries)
    && r.0.tags == (if stored then st.tags[k.0 := k.1] else st.tags)
    && if j < 3 then r.1.Some? && r.1 == AtUpload(w, st.clock, j) else r.1.None? && r.0.clock == st.clock + 3
  }

  lemma OneEndsAt(st: Store, w: World, k: Key, b: Build) returns (j: nat)
    requires k !in st.entries
    ensures OneEnds(st, w, k, b, PublishOne(st, w, k, b, false), j)
  {
    j := if AtUpload(w, st.clock, 0).Some? then 0
         else if AtUpload(w, st.clock, 1).Some? then 1
         else if AtUpload(w, st.clock, 2).Some? then 2
         else 3;
  }

  /** The uploads of an absent tuple end at the first tick that ends one of them, with the first part stored. */
  ghost predicate UploadsEnd(st: Store, w: World, keys: seq<Key>, b: Build, r: Ended, j: nat) {
    && j <= 3 * |keys| && (forall i: nat | i < j :: AtUpload(w, st.clock, i).None?)
    && FirstPart(st, r.0, keys, b, if j < 3 * |keys| then StoredAt(w, st.clock, j) else |keys|)
    && if j < 3 * |keys| then r.1.Some? && r.1 == AtUpload(w, st.clock, j)
       else r.1.None? && r.0.clock == st.clock + 3 * |keys|
  }

  lemma LaterTicks(w: World, start: nat, later: nat, j: nat)
    requires later == start + 3 && forall i: nat | i < j :: AtUpload(w, later, i).None?
    ensures forall i: nat | 3 <= i < j + 3 :: AtUpload(w, start, i).None?
  {
    forall i: nat | 3 <= i < j + 3 ensures AtUpload(w, start, i).None? {
      assert AtUpload(w, later, i - 3).None?;
    }
  }

  lemma UploadsStopFirst(st: Store, w: World, keys: seq<Key>, b: Build, r: Ended, j: nat)
    requires keys != [] && OneEnds(st, w, keys[0], b, r, j) && j < 3
    ensures UploadsEnd(st, w, keys, b, r, j)
  {
    NothingIsFirstPart(r.0, r.0, keys[1..], b);
    var m := AfterOne(st, r.0, r.0, keys, b, StoredAt(w, st.clock, j) == 1, 0);
  }

  lemma UploadsGoOn(st: Store, one: Ended, w: World, keys: seq<Key>, b: Build, r: Ended, j: nat)
    requires keys != [] && OneEnds(st, w, keys[0], b, one, 3) && UploadsEnd(one.0, w, keys[1..], b, r, j)
    ensures UploadsEnd(st, w, keys, b, r, j + 3)
  {
    var later, n := one.0.clock, |keys[1..]|;
    LaterTicks(w, st.clock, later, j);
    assert AtUpload(w, st.clock, j + 3) == AtUpload(w, later, j);
    assert StoredAt(w, st.clock, j + 3) == StoredAt(w, later, j) + 1;
    OneMoreFirst(st, one.0, r.0, keys, b, if j < 3 * n then StoredAt(w, later, j) else n);
  }

  lemma RestIsAbsent(st: Store, one: Store, keys: seq<Key>, b: Build)
    requires keys != [] && Distinct(keys) && NoneThere(st, keys) && one.entries == st.entries[keys[0] := b]
    ensures Distinct(keys[1..]) && NoneThere(one, keys[1..])
  {
    assert forall k | k in keys[1..] :: k != keys[0];
  }

  lemma {:induction false} UploadsEndAt(st: Store, w: World, keys: seq<Key>, b: Build) returns (j: nat)
    requires Distinct(keys) && NoneThere(st, keys)
    ensures UploadsEnd(st, w, keys, b, PublishEach(st, w, keys, b, false), j)
    decreases |keys|
  {
    if keys == [] {
      j := 0;
      NothingIsFirstPart(st, st, keys, b);
    } else {
      var one := PublishOne(st, w, keys[0], b, false);
      j := OneEndsAt(st, w, keys[0], b);
      if j < 3 {
        UploadsStopFirst(st, w, keys, b, one, j);
      } else {
        RestIsAbsent(st, one.0, keys, b);
        var rest := UploadsEndAt(one.0, w, keys[1..], b);
        UploadsGoOn(st, one, w, keys, b, PublishEach(one.0, w, keys[1..], b, false), rest);
        j := rest + 3;
      }
    }
  }

  /** The run over an absent tuple ends at this tick of it. */
  ghost predicate FreshRunEnds(st: Store, w: World, keys: seq<Key>, b: Build, r: (Store, Outcome), j: nat) {
    var n := |keys|;
    && j <= 5 * n && (forall i: nat | i < j :: Ending(w, st.clock, n, i).None?)
    && (if j < 5 * n then Ending(w, st.clock, n, j) == Some(r.1) else r.1.Proved?)
    && FirstPart(st, r.0, keys, b, if j < 5 * n then StoredBy(w, st.clock, n, j) else n)
  }

  lemma LookStops(st: Store, w: World, keys: seq<Key>, b: Build, s: Store, j: nat)
    requires j < |keys| && LookEnds(st, w, |keys|, s, None, j)
    ensures FreshRunEnds(st, w, keys, b, (s, Stopped), j)
  {
    NothingIsFirstPart(st, s, keys, b);
    forall i: nat | i < j ensures Ending(w, st.clock, |keys|, i).None? {
      assert AtLook(w, st.clock, i).None?;
    }
  }

  lemma EarlyTicks(w: World, start: nat, looked: nat, n: nat, u: nat)
    requires forall i: nat | i < n :: AtLook(w, start, i).None?
    requires looked == start + n && u <= 3 * n && forall i: nat | i < u :: AtUpload(w, looked, i).None?
    ensures forall i: nat | i < n + u :: Ending(w, start, n, i).None?
  {
    forall i: nat | i < n + u ensures Ending(w, start, n, i).None? {
      if i >= n { assert AtUpload(w, looked, i - n).None?; }
    }
  }

  lemma UploadsStop(st: Store, s1: Store, w: World, keys: seq<Key>, b: Build, seen: seq<bool>, r: Ended, u: nat)
    requires LookEnds(st, w, |keys|, s1, Some(seen), |keys|) && u < 3 * |keys| && UploadsEnd(s1, w, keys, b, r, u)
    ensures r.1.Some? && FreshRunEnds(st, w, keys, b, (r.0, r.1.value), |keys| + u)
  {
    var n := |keys|;
    EarlyTicks(w, st.clock, s1.clock, n, u);
    assert Ending(w, st.clock, n, n + u) == AtUpload(w, s1.clock, u);
    assert StoredBy(w, st.clock, n, n + u) == StoredAt(w, s1.clock, u);
  }

  lemma UploadsPass(st: Store, s1: Store, w: World, keys: seq<Key>, b: Build, seen: seq<bool>, s2: Store, r: Ended,
                    v: nat)
    requires LookEnds(st, w, |keys|, s1, Some(seen), |keys|)
    requires UploadsEnd(s1, w, keys, b, (s2, None), 3 * |keys|) && VerifyEnds(s2, w, |keys|, r, v)
    ensures FreshRunEnds(st, w, keys, b, Finish(r), 4 * |keys| + v)
  {
    var n := |keys|;
    EarlyTicks(w, st.clock, s1.clock, n, 3 * n);
    forall i: nat | 4 * n <= i < 4 * n + v ensures Ending(w, st.clock, n, i).None? {
      assert AtVerify(w, s2.clock, i - 4 * n).None?;
    }
    assert v < n ==> Ending(w, st.clock, n, 4 * n + v) == AtVerify(w, s2.clock, v);
  }

  /** A run that has seen nothing is its uploads and the verification. */
  lemma UnseenRun(st: Store, w: World, keys: seq<Key>, b: Build, s1: Store, seen: seq<bool>)
    requires Look(st, w, keys) == (s1, Some(seen)) && seen != [] && true !in seen
    ensures var r := PublishEach(s1, w, keys, b, false);
            PublishRun(st, w, keys, b, false)
            == if r.1.Some? then (r.0, r.1.value) else Finish(VerifySet(r.0, w, keys, b))
  {
    assert !seen[0];
  }

  lemma AllStored(st: Store, s: Store, keys: seq<Key>, b: Build)
    requires FirstPart(st, s, keys, b, |keys|)
    ensures Holds(s, keys, b)
  {
    assert keys[..|keys|] == keys;
  }

  /**
   * Over an absent tuple, in any world, the run ends at the first tick that ends it: stopped, with a failed upload,
   * a wrong tag or a wrong set, and proved when there is none. Stored are the packages uploaded by then, in order.
   */
  lemma FreshRunExactly(st: Store, w: World, keys: seq<Key>, b: Build) returns (j: nat)
    requires Distinct(keys) && keys != [] && NoneThere(st, keys)
    ensures FreshRunEnds(st, w, keys, b, PublishRun(st, w, keys, b, false), j)
  {
    j := LookEndsAt(st, w, keys);
    var (s1, seen) := Look(st, w, keys);
    if j < |keys| {
      LookStops(st, w, keys, b, s1, j);
    } else {
      j := LookPasses(st, w, keys, b, s1, seen.value);
    }
  }

  lemma LookPasses(st: Store, w: World, keys: seq<Key>, b: Build, s1: Store, seen: seq<bool>) returns (j: nat)
    requires Distinct(keys) && keys != [] && NoneThere(st, keys)
    requires Look(st, w, keys) == (s1, Some(seen)) && LookEnds(st, w, |keys|, s1, Some(seen), |keys|)
    ensures FreshRunEnds(st, w, keys, b, PublishRun(st, w, keys, b, false), j)
  {
    UnseenRun(st, w, keys, b, s1, seen);
    var u := UploadsEndAt(s1, w, keys, b);
    var r := PublishEach(s1, w, keys, b, false);
    if u < 3 * |keys| {
      UploadsStop(st, s1, w, keys, b, seen, r, u);
      j := |keys| + u;
    } else {
      j := VerificationEnds(st, s1, w, keys, b, seen, r.0);
    }
  }

  lemma VerificationEnds(st: Store, s1: Store, w: World, keys: seq<Key>, b: Build, seen: seq<bool>, s2: Store)
      returns (j: nat)
    requires LookEnds(st, w, |keys|, s1, Some(seen), |keys|) && UploadsEnd(s1, w, keys, b, (s2, None), 3 * |keys|)
    ensures FreshRunEnds(st, w, keys, b, Finish(VerifySet(s2, w, keys, b)), j)
  {
    AllStored(s1, s2, keys, b);
    var v := VerifyEndsAt(s2, w, keys, b);
    UploadsPass(st, s1, w, keys, b, seen, s2, VerifySet(s2, w, keys, b), v);
    j := 4 * |keys| + v;
  }

  lemma {:induction false} DryUploads(st: Store, w: World, keys: seq<Key>, b: Build)
    requires NoneThere(st, keys) && Lives(w)
    ensures PublishEach(st, w, keys, b, true).1.None?
    ensures PublishEach(st, w, keys, b, true).0.entries == st.entries
    ensures PublishEach(st, w, keys, b, true).0.tags == st.tags
    decreases |keys|
  {
    if keys != [] { DryUploads(Tock(st), w, keys[1..], b); }
  }

  // ---------- a run in which nothing goes wrong ----------

  lemma {:induction false} FineUploads(w: World, start: nat, i: nat)
    requires AllFine(w)
    ensures AtUpload(w, start, i).None?
    decreases i
  {
    if i >= 3 { FineUploads(w, start + 3, i - 3); }
  }

  lemma FineEndsNothing(w: World, start: nat, n: nat, i: nat)
    requires AllFine(w)
    ensures Ending(w, start, n, i).None?
  {
    if n <= i < 4 * n { FineUploads(w, start + n, i - n); }
  }

  /**
   * When nothing goes wrong, the registry alone decides: an absent tuple is published and proved, a complete one is
   * proved again when every package holds the build and otherwise found different, a partial one is refused; a dry
   * run of an absent or complete tuple is done without a proof. Only the first of these writes.
   */
  lemma FineRunExactly(st: Store, w: World, keys: seq<Key>, b: Build, dry: bool)
    requires AllFine(w) && Distinct(keys)
    ensures var (s, o) := PublishRun(st, w, keys, b, dry);
            var none, all := NoneThere(st, keys), AllThere(st, keys);
            && (o.Proved? <==> !dry && (none || Holds(st, keys, b)))
            && (o.SetMismatch? <==> !dry && !none && all && !Holds(st, keys, b))
            && (o.DryRunDone? <==> dry && (none || all))
            && (o.Refused? <==> !none && !all)
            && FirstPart(st, s, keys, b, if none && !dry then |keys| else 0)
  {
    var s := PublishRun(st, w, keys, b, dry).0;
    if !NoneThere(st, keys) {
      StartedRunExactly(st, w, keys, b, dry);
      NothingIsFirstPart(st, s, keys, b);
    } else if keys == [] {
      NothingIsFirstPart(st, s, keys, b);
    } else if dry {
      var s1 := Look(st, w, keys).0;
      LookShows(st, w, keys);
      assert keys[0] in keys;
      DryUploads(s1, w, keys, b);
      NothingIsFirstPart(st, s, keys, b);
    } else {
      var j := FreshRunExactly(st, w, keys, b);
      FineEndsNothing(w, st.clock, |keys|, j);
      assert keys[..|keys|] == keys;
    }
  }
}
