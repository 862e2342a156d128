/**
 * Canonical publication of one package tuple into a registry.
 *
 * The registry itself is modelled as overwriting whatever it is given, so that never replacing
 * an entry is something the publisher must achieve. Each registry action consults the outside
 * world, which may leave a read unanswered, refuse or lose an upload, or end the process.
 */
module Publication {
  import opened Options
  import Protocol = InstallProtocol

  type Key = Protocol.Key
  type Build = Protocol.Build

  datatype Tick =
    | Fine
    | ReadDown     // a metadata read that is not ok: the source takes it as "no such version"
    | PutRefused   // npm fails and nothing was stored
    | PutLost      // npm fails although the entry was stored
    | Dies         // the process stops here

  type World = nat -> Tick

  datatype Store = Store(entries: map<Key, Build>, tags: map<string, string>, clock: nat)

  datatype Outcome = Proved | DryRunDone | Refused | UploadFailed | TagMismatch | SetMismatch | Stopped

  function Tock(st: Store): Store {
    st.(clock := st.clock + 1)
  }

  predicate Sees(st: Store, w: World, k: Key) {
    !w(st.clock).ReadDown? && k in st.entries
  }

  /** The first look: which of the tuple's versions exist. None when the process stopped. */
  function Look(st: Store, w: World, keys: seq<Key>): (Store, Option<seq<bool>>)
    decreases |keys|
  {
    if keys == [] then (st, Some([]))
    else if w(st.clock).Dies? then (st, None)
    else
      var (st', rest) := Look(Tock(st), w, keys[1..]);
      (st', if rest.None? then None else Some([Sees(st, w, keys[0])] + rest.value))
  }

  /** `assertNoCanonicalVersionReplacement`: None when no version was seen. */
  function RefuseReplacement(st: Store, w: World, keys: seq<Key>): (Store, Option<Outcome>)
    decreases |keys|
  {
    if keys == [] then (st, None)
    else if w(st.clock).Dies? then (st, Some(Stopped))
    else if Sees(st, w, keys[0]) then (Tock(st), Some(Refused))
    else RefuseReplacement(Tock(st), w, keys[1..])
  }

  function Stored(st: Store, k: Key, b: Build): Store {
    Tock(st).(entries := st.entries[k := b], tags := st.tags[k.0 := k.1])
  }

  /** `publishPackedPackage`: look, upload, check the tag. */
  function PublishOne(st: Store, w: World, k: Key, b: Build, dry: bool): (Store, Option<Outcome>) {
    if w(st.clock).Dies? then (st, Some(Stopped))
    else if Sees(st, w, k) then (Tock(st), Some(Refused))
    else
      var s1 := Tock(st);
      if dry then (s1, None)
      else match w(s1.clock)
        case Dies => (s1, Some(Stopped))
        case PutRefused => (Tock(s1), Some(UploadFailed))
        case PutLost => (Stored(s1, k, b), Some(UploadFailed))
        case _ =>
          var s2 := Stored(s1, k, b);
          match w(s2.clock)
          case Dies => (s2, Some(Stopped))
          case ReadDown => (Tock(s2), Some(TagMismatch))
          case _ => (Tock(s2), None)
  }

  function PublishEach(st: Store, w: World, keys: seq<Key>, b: Build, dry: bool): (Store, Option<Outcome>)
    decreases |keys|
  {
    if keys == [] then (st, None)
    else
      var (s1, o) := PublishOne(st, w, keys[0], b, dry);
      if o.Some? then (s1, o) else PublishEach(s1, w, keys[1..], b, dry)
  }

  /** `verifyCanonicalPublishedSet`: every package is there, with the selected build tuple. */
  function VerifySet(st: Store, w: World, keys: seq<Key>, b: Build): (Store, Option<Outcome>)
    decreases |keys|
  {
    if keys == [] then (st, None)
    else if w(st.clock).Dies? then (st, Some(Stopped))
    else if !Sees(st, w, keys[0]) || st.entries[keys[0]] != b then (Tock(st), Some(SetMismatch))
    else VerifySet(Tock(st), w, keys[1..], b)
  }

  function Finish(r: (Store, Option<Outcome>)): (Store, Outcome) {
    (r.0, if r.1.Some? then r.1.value else Proved)
  }

  /** The part of the publisher's `main` between packing and the unchanged check. */
  function PublishRun(st: Store, w: World, keys: seq<Key>, b: Build, dry: bool): (Store, Outcome) {
    var (s1, seen) := Look(st, w, keys);
    if seen.None? then (s1, Stopped)
    else
      var some, all := true in seen.value, false !in seen.value;
      var (s2, refused) := if some && !all then RefuseReplacement(s1, w, keys) else (s1, None);
      if refused.Some? then (s2, refused.value)
      else if all then
        if dry then (s2, DryRunDone) else Finish(VerifySet(s2, w, keys, b))
      else
        var (s3, o) := PublishEach(s2, w, keys, b, dry);
        if o.Some? then (s3, o.value)
        else if dry then (s3, DryRunDone)
        else Finish(VerifySet(s3, w, keys, b))
  }

  /** The same run as the source writes it, on a registry updated in place. */
  class Registry {
    var entries: map<Key, Build>
    var tags: map<string, string>
    var clock: nat

    function View(): Store
      reads this
    {
      Store(entries, tags, clock)
    }

    method VersionExists(w: World, k: Key) returns (stopped: bool, exists_: bool)
      modifies this`clock
      ensures stopped <==> w(old(clock)).Dies?
      ensures stopped ==> View() == old(View())
      ensures !stopped ==> View() == Tock(old(View())) && (exists_ <==> Sees(old(View()), w, k))
    {
      stopped, exists_ := w(clock).Dies?, false;
      if !stopped {
        exists_ := !w(clock).ReadDown? && k in entries;
        clock := clock + 1;
      }
    }

    method PublishPackedPackage(w: World, k: Key, b: Build, dry: bool) returns (o: Option<Outcome>)
      modifies this
      ensures (View(), o) == PublishOne(old(View()), w, k, b, dry)
    {
      var stopped, found := VersionExists(w, k);
      if stopped { return Some(Stopped); }
      if found { return Some(Refused); }
      if dry { return None; }
      if w(clock).Dies? { return Some(Stopped); }
      if w(clock).PutRefused? {
        clock := clock + 1;
        return Some(UploadFailed);
      }
      var lost := w(clock).PutLost?;
      entries, tags, clock := entries[k := b], tags[k.0 := k.1], clock + 1;
      if lost { return Some(UploadFailed); }
      if w(clock).Dies? { return Some(Stopped); }
      var tagged := if w(clock).ReadDown? || k.0 !in tags then None else Some(tags[k.0]);
      clock := clock + 1;
      o := if tagged == Some(k.1) then None else Some(TagMismatch);
    }

    /** The look at every version: whether some, and whether all of them were seen. */
    method LookAtAll(w: World, keys: seq<Key>) returns (stopped: bool, some: bool, all: bool)
      modifies this`clock
      ensures View() == Look(old(View()), w, keys).0
      ensures stopped <==> Look(old(View()), w, keys).1.None?
      ensures !stopped ==>
                var seen := Look(old(View()), w, keys).1.value;
                (some <==> true in seen) && (all <==> false !in seen)
    {
      ghost var st := View();
      stopped, some, all := false, false, true;
      var i := 0;
      ghost var seen: seq<bool> := [];
      LookFromNothing(st, w, keys);
      assert keys[0..] == keys;
      while i < |keys|
        invariant 0 <= i <= |keys| && |seen| == i && !stopped
        invariant Look(st, w, keys) == LookFrom(View(), w, keys[i..], seen)
        invariant (some <==> true in seen) && (all <==> false !in seen)
        invariant entries == st.entries && tags == st.tags
      {
        if !w(clock).Dies? { LookFromNext(View(), w, keys[i..], seen); }
        var found;
        stopped, found := VersionExists(w, keys[i]);
        if stopped {
          assert Look(st, w, keys) == (View(), None);
          return;
        }
        assert keys[i..][1..] == keys[i + 1..];
        seen := seen + [found];
        some, all, i := some || found, all && found, i + 1;
      }
      assert keys[i..] == [] && Look(st, w, keys) == (View(), Some(seen + []));
      assert seen + [] == seen;
    }

    method AssertNoCanonicalVersionReplacement(w: World, keys: seq<Key>) returns (o: Option<Outcome>)
      modifies this`clock
      ensures (View(), o) == RefuseReplacement(old(View()), w, keys)
    {
      ghost var st := View();
      var i := 0;
      while i < |keys|
        invariant 0 <= i <= |keys|
        invariant RefuseReplacement(st, w, keys) == RefuseReplacement(View(), w, keys[i..])
      {
        var stopped, found := VersionExists(w, keys[i]);
        if stopped { return Some(Stopped); }
        if found { return Some(Refused); }
        assert keys[i..][1..] == keys[i + 1..];
        i := i + 1;
      }
      o := None;
    }

    method PublishPackages(w: World, keys: seq<Key>, b: Build, dry: bool) returns (o: Option<Outcome>)
      modifies this
      ensures (View(), o) == PublishEach(old(View()), w, keys, b, dry)
    {
      ghost var st := View();
      var i := 0;
      while i < |keys|
        invariant 0 <= i <= |keys|
        invariant PublishEach(st, w, keys, b, dry) == PublishEach(View(), w, keys[i..], b, dry)
      {
        o := PublishPackedPackage(w, keys[i], b, dry);
        if o.Some? { return; }
        assert keys[i..][1..] == keys[i + 1..];
        i := i + 1;
      }
      o := None;
    }

    method CanonicalRun(w: World, keys: seq<Key>, b: Build, dry: bool) returns (o: Outcome)
      modifies this
      ensures (View(), o) == PublishRun(old(View()), w, keys, b, dry)
    {
      var stopped, some, all := LookAtAll(w, keys);
      if stopped { return Stopped; }
      if some && !all {
        var refused := AssertNoCanonicalVersionReplacement(w, keys);
        if refused.Some? { return refused.value; }
      }
      if !all {
        var failed := PublishPackages(w, keys, b, dry);
        if failed.Some? { return failed.value; }
      }
      if dry { return DryRunDone; }
      o := VerifyPublishedSet(w, keys, b);
    }

    method VerifyPublishedSet(w: World, keys: seq<Key>, b: Build) returns (o: Outcome)
      modifies this`clock
      ensures (View(), o) == Finish(VerifySet(old(View()), w, keys, b))
    {
      ghost var st := View();
      var i := 0;
      while i < |keys|
        invariant 0 <= i <= |keys|
        invariant VerifySet(st, w, keys, b) == VerifySet(View(), w, keys[i..], b)
        invariant entries == st.entries
      {
        var stopped, found := VersionExists(w, keys[i]);
        if stopped { return Stopped; }
        if !found || entries[keys[i]] != b { return SetMismatch; }
        assert keys[i..][1..] == keys[i + 1..];
        i := i + 1;
      }
      o := Proved;
    }
  }

  /** `Look` with the answers already collected in front. */
  ghost function LookFrom(st: Store, w: World, keys: seq<Key>, seen: seq<bool>): (Store, Option<seq<bool>>) {
    var (st', rest) := Look(st, w, keys);
    (st', if rest.None? then None else Some(seen + rest.value))
  }

  lemma LookFromNothing(st: Store, w: World, keys: seq<Key>)
    ensures LookFrom(st, w, keys, []) == Look(st, w, keys)
  {
    var rest := Look(st, w, keys).1;
    assert rest.Some? ==> [] + rest.value == rest.value;
  }

  lemma LookFromNext(st: Store, w: World, keys: seq<Key>, seen: seq<bool>)
    requires keys != [] && !w(st.clock).Dies?
    ensures LookFrom(st, w, keys, seen) == LookFrom(Tock(st), w, keys[1..], seen + [Sees(st, w, keys[0])])
  {
    var rest := Look(Tock(st), w, keys[1..]).1;
    if rest.Some? {
      assert seen + ([Sees(st, w, keys[0])] + rest.value) == (seen + [Sees(st, w, keys[0])]) + rest.value;
    }
  }
}
