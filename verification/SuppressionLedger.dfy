/**
 * The accounting of the suppression check: a baseline holds how many suppressions of each key are
 * tolerated, the first ones found use it up, and the rest need a reviewed exception.
 */
module SuppressionLedger {
  import opened Options

  /** A suppression comment; `excepted` says whether a valid exception stands next to it. */
  datatype Suppression = Suppression(file: string, rule: string, hash: string, line: nat, excepted: bool)

  datatype Entry = Entry(file: string, rule: string, hash: string, count: nat)

  /** A number field as the baseline file may hold it. */
  datatype Count = Absent | Whole(n: int) | NotWhole

  /** A value of the baseline list: any field may be missing or of another type. */
  datatype Raw = Raw(file: Option<string>, rule: Option<string>, hash: Option<string>, count: Count)

  const NUL: char := '\U{0}'

  function Key(file: string, rule: string, hash: string): string {
    file + [NUL] + rule + [NUL] + hash
  }

  function KeyOf(s: Suppression): string {
    Key(s.file, s.rule, s.hash)
  }

  function EntryKey(e: Entry): string {
    Key(e.file, e.rule, e.hash)
  }

  // ---------- the check ----------

  function Available(counts: map<string, nat>, key: string): nat {
    if key in counts then counts[key] else 0
  }

  /** How many of the suppressions have the key. */
  function Occurrences(ss: seq<Suppression>, key: string): nat {
    if ss == [] then 0 else Occurrences(ss[..|ss| - 1], key) + if KeyOf(ss[|ss| - 1]) == key then 1 else 0
  }

  /** A suppression fails when the baseline is used up by the earlier ones and no exception covers it. */
  predicate Fails(ss: seq<Suppression>, counts: map<string, nat>, i: nat)
    requires i < |ss|
  {
    Occurrences(ss[..i], KeyOf(ss[i])) >= Available(counts, KeyOf(ss[i])) && !ss[i].excepted
  }

  function Failures(ss: seq<Suppression>, counts: map<string, nat>): seq<Suppression> {
    if ss == [] then []
    else
      var n := |ss| - 1;
      Failures(ss[..n], counts) + if Fails(ss, counts, n) then [ss[n]] else []
  }

  function Less(a: nat, b: nat): nat {
    if b < a then a - b else 0
  }

  /** Taking one more suppression into account. */
  lemma OneSuppressionMore(ss: seq<Suppression>, i: nat, counts: map<string, nat>)
    requires i < |ss|
    ensures forall k :: Occurrences(ss[..i + 1], k) == Occurrences(ss[..i], k) + if KeyOf(ss[i]) == k then 1 else 0
    ensures Failures(ss[..i + 1], counts)
            == Failures(ss[..i], counts)
               + if Occurrences(ss[..i], KeyOf(ss[i])) >= Available(counts, KeyOf(ss[i])) && !ss[i].excepted
                 then [ss[i]] else []
  {
    var now := ss[..i + 1];
    assert now[..i] == ss[..i] && now[i] == ss[i] && |now| - 1 == i;
  }

  /** The slots that are left of the baseline after some suppressions. */
  ghost predicate IsLeft(available: map<string, nat>, baseline: map<string, nat>, seen: seq<Suppression>) {
    forall k :: Available(available, k) == Less(Available(baseline, k), Occurrences(seen, k))
  }

  lemma SlotIsTaken(available: map<string, nat>, baseline: map<string, nat>, ss: seq<Suppression>, i: nat)
    requires i < |ss| && IsLeft(available, baseline, ss[..i])
    ensures var key := KeyOf(ss[i]);
            var left := Available(available, key);
            IsLeft(if left > 0 then available[key := left - 1] else available, baseline, ss[..i + 1])
  {
    OneSuppressionMore(ss, i, baseline);
  }

  /** The loop of the check, which counts the baseline down: the first `min(n, b)` of a key are let through. */
  method CheckSuppressions(suppressions: seq<Suppression>, baseline: map<string, nat>)
    returns (failures: seq<Suppression>)
    ensures failures == Failures(suppressions, baseline)
  {
    failures := [];
    var available := baseline;
    for i := 0 to |suppressions|
      invariant failures == Failures(suppressions[..i], baseline)
      invariant IsLeft(available, baseline, suppressions[..i])
    {
      OneSuppressionMore(suppressions, i, baseline);
      SlotIsTaken(available, baseline, suppressions, i);
      var key := KeyOf(suppressions[i]);
      var left := if key in available then available[key] else 0;
      assert left == Available(available, key);
      if left > 0 {
        available := available[key := left - 1];
        continue;
      }
      if suppressions[i].excepted { continue; }
      failures := failures + [suppressions[i]];
    }
    assert suppressions[..|suppressions|] == suppressions;
  }

  /** How many suppressions of a key the baseline lets through. */
  function Absorbed(ss: seq<Suppression>, counts: map<string, nat>, key: string): nat {
    if ss == [] then 0
    else
      var n := |ss| - 1;
      Absorbed(ss[..n], counts, key)
      + if KeyOf(ss[n]) == key && Occurrences(ss[..n], key) < Available(counts, key) then 1 else 0
  }

  /** Of `n` occurrences and `b` slots, exactly `min(n, b)` are let through. */
  lemma {:induction false} AbsorbsTheFirst(ss: seq<Suppression>, counts: map<string, nat>, key: string)
    ensures Absorbed(ss, counts, key)
      == if Occurrences(ss, key) < Available(counts, key) then Occurrences(ss, key) else Available(counts, key)
  {
    if ss != [] { AbsorbsTheFirst(ss[..|ss| - 1], counts, key); }
  }

  // ---------- writing and reading the baseline ----------

  /** The map of entries keeps its keys in the order they first appear. */
  function CountIn(es: seq<Entry>, key: string, s: Suppression): seq<Entry> {
    if es == [] then [Entry(s.file, s.rule, s.hash, 1)]
    else if EntryKey(es[0]) == key then [OneMore(es[0])] + es[1..]
    else [es[0]] + CountIn(es[1..], key, s)
  }

  function Entries(ss: seq<Suppression>): seq<Entry> {
    if ss == [] then [] else CountIn(Entries(ss[..|ss| - 1]), KeyOf(ss[|ss| - 1]), ss[|ss| - 1])
  }

  function Written(e: Entry): Raw {
    Raw(Some(e.file), Some(e.rule), Some(e.hash), Whole(e.count))
  }

  function ParseEntry(r: Raw): Option<Entry> {
    var count := if r.count.Absent? then Whole(1) else r.count;
    if r.file.None? || r.rule.None? || r.hash.None? || !count.Whole? || count.n < 1 then None
    else Some(Entry(r.file.value, r.rule.value, r.hash.value, count.n))
  }

  /** What the entries of a list add up to for a key; entries that do not parse count nothing. */
  function Total(rs: seq<Raw>, key: string): nat {
    if rs == [] then 0 else Total(rs[..|rs| - 1], key) + Share(rs[|rs| - 1], key)
  }

  function Share(r: Raw, key: string): nat {
    match ParseEntry(r)
    case None => 0
    case Some(e) => if EntryKey(e) == key then e.count else 0
  }

  method ReadBaseline(values: seq<Raw>) returns (counts: map<string, nat>)
    ensures forall k :: Available(counts, k) == Total(values, k)
  {
    counts := map[];
    for i := 0 to |values|
      invariant forall k :: Available(counts, k) == Total(values[..i], k)
    {
      assert values[..i + 1][..i] == values[..i];
      var entry := ParseEntry(values[i]);
      if entry.None? { continue; }
      var key := EntryKey(entry.value);
      counts := counts[key := Available(counts, key) + entry.value.count];
    }
    assert values[..|values|] == values;
  }

  method EntriesForSuppressions(suppressions: seq<Suppression>) returns (entries: seq<Entry>)
    ensures entries == Entries(suppressions)
  {
    entries := [];
    for i := 0 to |suppressions|
      invariant entries == Entries(suppressions[..i])
    {
      assert suppressions[..i + 1][..i] == suppressions[..i];
      entries := CountOne(entries, suppressions[i]);
    }
    assert suppressions[..|suppressions|] == suppressions;
  }

  /** The entry of the suppression's key counts one more, or is new at the end. */
  method CountOne(entries: seq<Entry>, s: Suppression) returns (counted: seq<Entry>)
    ensures counted == CountIn(entries, KeyOf(s), s)
  {
    var key, at := KeyOf(s), 0;
    while at < |entries| && EntryKey(entries[at]) != key
      invariant at <= |entries| && forall j | 0 <= j < at :: EntryKey(entries[j]) != key
    {
      at := at + 1;
    }
    CountInAt(entries, key, s, at);
    if at < |entries| {
      counted := entries[at := OneMore(entries[at])];
    } else {
      counted := entries + [Entry(s.file, s.rule, s.hash, 1)];
    }
  }

  function OneMore(e: Entry): Entry {
    e.(count := e.count + 1)
  }

  lemma {:induction false} CountInAt(es: seq<Entry>, key: string, s: Suppression, at: nat)
    requires at <= |es| && (forall j | 0 <= j < at :: EntryKey(es[j]) != key)
    requires at < |es| ==> EntryKey(es[at]) == key
    ensures CountIn(es, key, s)
      == if at < |es| then es[at := OneMore(es[at])] else es + [Entry(s.file, s.rule, s.hash, 1)]
    decreases |es|
  {
    if at > 0 {
      CountInAt(es[1..], key, s, at - 1);
      if at < |es| { UpdateLater(es, at, OneMore(es[at])); } else { AppendLater(es, Entry(s.file, s.rule, s.hash, 1)); }
    } else if es != [] {
      assert es[0 := OneMore(es[0])] == [OneMore(es[0])] + es[1..];
    }
  }

  lemma UpdateLater(es: seq<Entry>, at: nat, e: Entry)
    requires 0 < at < |es|
    ensures es[at := e] == [es[0]] + es[1..][at - 1 := e]
  {
  }

  lemma AppendLater(es: seq<Entry>, e: Entry)
    requires es != []
    ensures es + [e] == [es[0]] + (es[1..] + [e])
  {
  }

  function WrittenAll(es: seq<Entry>): seq<Raw> {
    seq(|es|, i requires 0 <= i < |es| => Written(es[i]))
  }

  lemma CancelOne(m: multiset<Raw>, r: Raw, p: multiset<Raw>, q: multiset<Raw>)
    requires m + multiset{r} == p + multiset{r} + q
    ensures m == p + q
  {
    forall x ensures m[x] == (p + q)[x] {
      assert (m + multiset{r})[x] == (p + multiset{r} + q)[x];
    }
  }

  lemma TakeOut(a: seq<Raw>, b: seq<Raw>) returns (i: nat)
    requires a != [] && multiset(a) == multiset(b)
    ensures i < |b| && b[i] == a[|a| - 1] && multiset(b[..i] + b[i + 1..]) == multiset(a[..|a| - 1])
  {
    var n := |a| - 1;
    assert a == a[..n] + [a[n]];
    assert a[n] in multiset(b);
    i :| 0 <= i < |b| && b[i] == a[n];
    assert b == b[..i] + [b[i]] + b[i + 1..];
    assert multiset(b) == multiset(b[..i]) + multiset{a[n]} + multiset(b[i + 1..]);
    CancelOne(multiset(a[..n]), a[n], multiset(b[..i]), multiset(b[i + 1..]));
  }

  /** The list is sorted before it is written; the sum does not depend on the order. */
  lemma {:induction false} TotalIgnoresOrder(a: seq<Raw>, b: seq<Raw>, key: string)
    requires multiset(a) == multiset(b)
    ensures Total(a, key) == Total(b, key)
    decreases |a|
  {
    if a == [] {
      assert |multiset(b)| == 0;
    } else {
      var n := |a| - 1;
      var i := TakeOut(a, b);
      TotalIgnoresOrder(a[..n], b[..i] + b[i + 1..], key);
      TotalConcat(b[..i], b[i + 1..], key);
      TotalConcat(b[..i] + [b[i]], b[i + 1..], key);
      TotalConcat(b[..i], [b[i]], key);
      assert b == b[..i] + [b[i]] + b[i + 1..];
      assert Total([b[i]], key) == Share(b[i], key) by { assert [b[i]][..0] == []; }
    }
  }

  lemma {:induction false} TotalConcat(a: seq<Raw>, b: seq<Raw>, key: string)
    ensures Total(a + b, key) == Total(a, key) + Total(b, key)
    decreases |b|
  {
    if b == [] {
      assert a + b == a;
    } else {
      var n := |b| - 1;
      assert (a + b)[..|a + b| - 1] == a + b[..n];
      TotalConcat(a, b[..n], key);
    }
  }

  lemma {:induction false} CountInAdds(es: seq<Entry>, s: Suppression, key: string)
    requires forall e | e in es :: e.count > 0
    ensures forall e | e in CountIn(es, KeyOf(s), s) :: e.count > 0
    ensures Total(WrittenAll(CountIn(es, KeyOf(s), s)), key)
            == Total(WrittenAll(es), key) + if KeyOf(s) == key then 1 else 0
  {
    var one := Entry(s.file, s.rule, s.hash, 1);
    if es == [] {
      assert WrittenAll([one])[..0] == [] && WrittenAll([one])[0] == Written(one);
    } else {
      var r := CountIn(es, KeyOf(s), s);
      TotalFirst(es, key);
      TotalFirst(r, key);
      if EntryKey(es[0]) == KeyOf(s) {
        assert r[1..] == es[1..];
      } else {
        assert r[1..] == CountIn(es[1..], KeyOf(s), s);
        CountInAdds(es[1..], s, key);
      }
    }
  }

  lemma TotalFirst(es: seq<Entry>, key: string)
    requires es != []
    ensures Total(WrittenAll(es), key) == Share(Written(es[0]), key) + Total(WrittenAll(es[1..]), key)
  {
    assert WrittenAll(es) == [Written(es[0])] + WrittenAll(es[1..]);
    TotalConcat([Written(es[0])], WrittenAll(es[1..]), key);
    assert [Written(es[0])][..0] == [];
  }

  /** The entries of a tree add up to its suppressions, key by key. */
  lemma {:induction false} EntriesConserve(ss: seq<Suppression>, key: string)
    ensures Total(WrittenAll(Entries(ss)), key) == Occurrences(ss, key)
    ensures forall e | e in Entries(ss) :: e.count > 0
  {
    if ss != [] {
      EntriesConserve(ss[..|ss| - 1], key);
      CountInAdds(Entries(ss[..|ss| - 1]), ss[|ss| - 1], key);
    }
  }

  /** No earlier suppression has the key. */
  ghost predicate First(ss: seq<Suppression>, i: nat)
    requires i < |ss|
  {
    forall j | 0 <= j < i :: KeyOf(ss[j]) != KeyOf(ss[i])
  }

  function EntryOf(s: Suppression, count: nat): Entry {
    Entry(s.file, s.rule, s.hash, count)
  }

  /** The entry stands for the first suppression of its key, at f, with how many there are of its key. */
  ghost predicate EntryIs(e: Entry, ss: seq<Suppression>, f: nat) {
    f < |ss| && First(ss, f) && e == EntryOf(ss[f], Occurrences(ss, KeyOf(ss[f])))
  }

  /** The entries stand for the first suppressions of the keys, in order. */
  ghost predicate EntriesOf(es: seq<Entry>, ss: seq<Suppression>, firsts: seq<nat>) {
    && |es| == |firsts| && (forall k, l | 0 <= k < l < |firsts| :: firsts[k] < firsts[l])
    && (forall k | 0 <= k < |firsts| :: EntryIs(es[k], ss, firsts[k]))
    && forall i: nat | i < |ss| && First(ss, i) :: i in firsts
  }

  lemma {:induction false} FirstOfKey(ss: seq<Suppression>, i: nat) returns (f: nat)
    requires i < |ss|
    ensures f <= i && KeyOf(ss[f]) == KeyOf(ss[i]) && First(ss, f)
    decreases i
  {
    f := i;
    if j :| 0 <= j < i && KeyOf(ss[j]) == KeyOf(ss[i]) {
      f := FirstOfKey(ss, j);
    }
  }

  lemma {:induction false} NoOccurrence(ss: seq<Suppression>, key: string)
    ensures Occurrences(ss, key) == 0 <==> forall i | 0 <= i < |ss| :: KeyOf(ss[i]) != key
  {
    if ss != [] { NoOccurrence(ss[..|ss| - 1], key); }
  }

  lemma OccurrencesSnoc(front: seq<Suppression>, s: Suppression, key: string)
    ensures Occurrences(front + [s], key) == Occurrences(front, key) + if KeyOf(s) == key then 1 else 0
  {
    assert (front + [s])[..|front|] == front;
  }

  lemma FirstSnoc(front: seq<Suppression>, s: Suppression, i: nat)
    requires i < |front|
    ensures First(front + [s], i) <==> First(front, i)
  {
    var all := front + [s];
    assert forall j | 0 <= j < |front| :: all[j] == front[j];
  }

  lemma EntriesSnoc(front: seq<Suppression>, s: Suppression)
    ensures Entries(front + [s]) == CountIn(Entries(front), KeyOf(s), s)
  {
    assert (front + [s])[..|front|] == front;
  }

  lemma EntryStep(t: Suppression, s: Suppression, e: Entry, n: nat)
    requires e == EntryOf(t, n)
    ensures EntryKey(e) == KeyOf(t)
    ensures if KeyOf(s) == KeyOf(t) then OneMore(e) == EntryOf(t, n + 1) else e == EntryOf(t, n)
  {
  }

  /** What becomes of an entry by one suppression more. */
  lemma EntryBefore(front: seq<Suppression>, s: Suppression, e: Entry, f: nat)
    requires EntryIs(e, front, f)
    ensures EntryKey(e) == KeyOf(front[f])
    ensures EntryIs(if KeyOf(s) == KeyOf(front[f]) then OneMore(e) else e, front + [s], f)
  {
    var t := front[f];
    assert (front + [s])[f] == t;
    FirstSnoc(front, s, f);
    OccurrencesSnoc(front, s, KeyOf(t));
    EntryStep(t, s, e, Occurrences(front, KeyOf(t)));
  }

  lemma FirstsBefore(front: seq<Suppression>, s: Suppression, es: seq<Entry>, firsts: seq<nat>)
    requires EntriesOf(es, front, firsts)
    ensures forall i: nat | i < |front| && First(front + [s], i) :: i in firsts
  {
    forall i: nat | i < |front| && First(front + [s], i) ensures i in firsts { FirstSnoc(front, s, i); }
  }

  /** The suppression's key has not been there, so it has no entry. */
  lemma NoEntryYet(front: seq<Suppression>, s: Suppression, e: Entry, f: nat)
    requires First(front + [s], |front|) && EntryIs(e, front, f)
    ensures EntryKey(e) != KeyOf(s) && EntryIs(e, front + [s], f)
  {
    var all := front + [s];
    assert all[f] == front[f] && all[|front|] == s && KeyOf(all[f]) != KeyOf(all[|front|]);
    EntryBefore(front, s, e, f);
  }

  lemma EntryIsNew(front: seq<Suppression>, s: Suppression)
    requires First(front + [s], |front|)
    ensures EntryIs(EntryOf(s, 1), front + [s], |front|)
  {
    var all := front + [s];
    forall j | 0 <= j < |front| ensures KeyOf(front[j]) != KeyOf(s) {
      assert all[j] == front[j] && all[|front|] == s;
    }
    NoOccurrence(front, KeyOf(s));
    OccurrencesSnoc(front, s, KeyOf(s));
  }

  lemma NewEntry(front: seq<Suppression>, s: Suppression, es: seq<Entry>, firsts: seq<nat>)
    requires EntriesOf(es, front, firsts) && First(front + [s], |front|)
    ensures EntriesOf(CountIn(es, KeyOf(s), s), front + [s], firsts + [|front|])
  {
    forall k | 0 <= k < |firsts| ensures EntryKey(es[k]) != KeyOf(s) && EntryIs(es[k], front + [s], firsts[k]) {
      NoEntryYet(front, s, es[k], firsts[k]);
    }
    CountInAt(es, KeyOf(s), s, |es|);
    EntryIsNew(front, s);
    FirstsBefore(front, s, es, firsts);
    Assemble(es, EntryOf(s, 1), firsts, front + [s], |front|);
  }

  lemma Assemble(es: seq<Entry>, e: Entry, firsts: seq<nat>, ss: seq<Suppression>, n: nat)
    requires |es| == |firsts| && forall k | 0 <= k < |firsts| :: EntryIs(es[k], ss, firsts[k]) && firsts[k] < n
    requires forall k, l | 0 <= k < l < |firsts| :: firsts[k] < firsts[l]
    requires n + 1 == |ss| && EntryIs(e, ss, n) && forall i: nat | i < n && First(ss, i) :: i in firsts
    ensures EntriesOf(es + [e], ss, firsts + [n])
  {
  }

  lemma CountedEntry(front: seq<Suppression>, s: Suppression, es: seq<Entry>, firsts: seq<nat>, k: nat)
    requires EntriesOf(es, front, firsts) && k < |firsts| && KeyOf(front[firsts[k]]) == KeyOf(s)
    ensures EntriesOf(CountIn(es, KeyOf(s), s), front + [s], firsts)
  {
    EntryBefore(front, s, es[k], firsts[k]);
    forall l | 0 <= l < |firsts| && l != k
      ensures EntryKey(es[l]) != KeyOf(s) && EntryIs(es[l], front + [s], firsts[l])
    {
      EntryBefore(front, s, es[l], firsts[l]);
      FirstsDiffer(front, firsts[l], firsts[k]);
    }
    CountInAt(es, KeyOf(s), s, k);
    FirstsBefore(front, s, es, firsts);
    NotFirst(front, s, firsts[k]);
  }

  lemma FirstsDiffer(ss: seq<Suppression>, i: nat, j: nat)
    requires i < |ss| && j < |ss| && i != j && First(ss, i) && First(ss, j)
    ensures KeyOf(ss[i]) != KeyOf(ss[j])
  {
  }

  lemma NotFirst(front: seq<Suppression>, s: Suppression, f: nat)
    requires f < |front| && KeyOf(front[f]) == KeyOf(s)
    ensures !First(front + [s], |front|)
  {
    assert (front + [s])[f] == front[f] && (front + [s])[|front|] == s;
  }

  /** One entry for each key, in the order of first appearance, with the number of suppressions of that key. */
  lemma {:induction false} EntriesExactly(ss: seq<Suppression>) returns (firsts: seq<nat>)
    ensures EntriesOf(Entries(ss), ss, firsts)
  {
    if ss == [] {
      firsts := [];
    } else {
      var front, s, n := ss[..|ss| - 1], ss[|ss| - 1], |ss| - 1;
      assert ss == front + [s];
      var before := EntriesExactly(front);
      EntriesSnoc(front, s);
      if First(ss, n) {
        NewEntry(front, s, Entries(front), before);
        firsts := before + [n];
      } else {
        var k := EntryForKey(front, s, Entries(front), before);
        CountedEntry(front, s, Entries(front), before, k);
        firsts := before;
      }
    }
  }

  lemma EntryForKey(front: seq<Suppression>, s: Suppression, es: seq<Entry>, firsts: seq<nat>) returns (k: nat)
    requires EntriesOf(es, front, firsts) && !First(front + [s], |front|)
    ensures k < |firsts| && KeyOf(front[firsts[k]]) == KeyOf(s)
  {
    var all := front + [s];
    var j :| 0 <= j < |front| && KeyOf(all[j]) == KeyOf(all[|front|]);
    assert all[j] == front[j];
    var f := FirstOfKey(front, j);
    k :| 0 <= k < |firsts| && firsts[k] == f;
  }

  lemma {:induction false} EnoughMeansNoFailure(ss: seq<Suppression>, counts: map<string, nat>)
    requires forall k :: Occurrences(ss, k) <= Available(counts, k)
    ensures Failures(ss, counts) == []
  {
    if ss != [] {
      var n := |ss| - 1;
      forall k ensures Occurrences(ss[..n], k) <= Available(counts, k) {
        assert Occurrences(ss, k) <= Available(counts, k);
      }
      EnoughMeansNoFailure(ss[..n], counts);
      assert Occurrences(ss, KeyOf(ss[n])) <= Available(counts, KeyOf(ss[n]));
    }
  }

  /** A baseline written from a tree, in whatever order it is sorted, makes that tree pass. */
  lemma WrittenBaselinePasses(ss: seq<Suppression>, values: seq<Raw>, counts: map<string, nat>)
    requires multiset(values) == multiset(WrittenAll(Entries(ss)))
    requires forall k :: Available(counts, k) == Total(values, k)
    ensures Failures(ss, counts) == []
  {
    forall k ensures Occurrences(ss, k) <= Available(counts, k) {
      TotalIgnoresOrder(values, WrittenAll(Entries(ss)), k);
      EntriesConserve(ss, k);
    }
    EnoughMeansNoFailure(ss, counts);
  }

  // ---------- deleting suppressions ----------

  /** A suppression wherever its line has moved to. */
  datatype Unlined = Unlined(file: string, rule: string, hash: string, excepted: bool)

  function Unline(s: Suppression): Unlined {
    Unlined(s.file, s.rule, s.hash, s.excepted)
  }

  /** The suppressions of a list, without their lines. */
  function Kinds(ss: seq<Suppression>): multiset<Unlined> {
    if ss == [] then multiset{} else Kinds(ss[..|ss| - 1]) + multiset{Unline(ss[|ss| - 1])}
  }

  /**
   * `a` is what is left of `b` after some suppressions were deleted; the lines of the others may have changed,
   * their exceptions have not.
   */
  ghost predicate Left(a: seq<Suppression>, b: seq<Suppression>) {
    if b == [] then a == []
    else
      || Left(a, b[..|b| - 1])
      || (a != [] && Unline(a[|a| - 1]) == Unline(b[|b| - 1]) && Left(a[..|a| - 1], b[..|b| - 1]))
  }

  lemma {:induction false} LeftHasFewer(a: seq<Suppression>, b: seq<Suppression>, key: string)
    requires Left(a, b)
    ensures Occurrences(a, key) <= Occurrences(b, key)
    decreases |b|
  {
    if b != [] {
      var front := b[..|b| - 1];
      if Left(a, front) {
        LeftHasFewer(a, front, key);
      } else {
        LeftHasFewer(a[..|a| - 1], front, key);
      }
    }
  }

  lemma KindsSnoc(ss: seq<Suppression>, s: Suppression)
    ensures Kinds(ss + [s]) == Kinds(ss) + multiset{Unline(s)}
  {
    assert (ss + [s])[..|ss|] == ss;
  }

  lemma {:induction false} KindsCount(ss: seq<Suppression>)
    ensures |Kinds(ss)| == |ss|
  {
    if ss != [] { KindsCount(ss[..|ss| - 1]); }
  }

  lemma {:induction false} FailureKinds(ss: seq<Suppression>, counts: map<string, nat>)
    requires ss != []
    ensures var n := |ss| - 1;
            Kinds(Failures(ss, counts))
            == Kinds(Failures(ss[..n], counts)) + if Fails(ss, counts, n) then multiset{Unline(ss[n])} else multiset{}
  {
    var n := |ss| - 1;
    LastFailure(Failures(ss[..n], counts), ss[n], Fails(ss, counts, n), Failures(ss, counts));
  }

  lemma LastFailure(front: seq<Suppression>, s: Suppression, fails: bool, all: seq<Suppression>)
    requires all == front + if fails then [s] else []
    ensures Kinds(all) == Kinds(front) + if fails then multiset{Unline(s)} else multiset{}
  {
    if fails {
      KindsSnoc(front, s);
    } else {
      assert all == front;
    }
  }

  lemma {:induction false} FailsBefore(a: seq<Suppression>, b: seq<Suppression>, counts: map<string, nat>)
    requires Left(a, b)
    ensures Kinds(Failures(a, counts)) <= Kinds(Failures(b, counts))
    decreases |b|
  {
    if b != [] {
      var front, last := b[..|b| - 1], b[|b| - 1];
      FailureKinds(b, counts);
      if Left(a, front) {
        FailsBefore(a, front, counts);
      } else {
        var rest := a[..|a| - 1];
        FailureKinds(a, counts);
        FailsBefore(rest, front, counts);
        LeftHasFewer(rest, front, KeyOf(last));
        assert KeyOf(a[|a| - 1]) == KeyOf(last);
        assert Fails(a, counts, |a| - 1) ==> Fails(b, counts, |b| - 1);
      }
    }
  }

  /** Deleting suppressions fails nothing new: what fails afterwards failed before, perhaps on another line. */
  lemma DeletingFailsNothingNew(a: seq<Suppression>, b: seq<Suppression>, counts: map<string, nat>)
    requires Left(a, b)
    ensures Kinds(Failures(a, counts)) <= Kinds(Failures(b, counts))
    ensures |Failures(a, counts)| <= |Failures(b, counts)|
  {
    FailsBefore(a, b, counts);
    KindsCount(Failures(a, counts));
    KindsCount(Failures(b, counts));
    NoLarger(Kinds(Failures(a, counts)), Kinds(Failures(b, counts)));
  }

  lemma NoLarger(x: multiset<Unlined>, y: multiset<Unlined>)
    requires x <= y
    ensures |x| <= |y|
  {
    assert y == x + (y - x);
  }

  // ---------- keys ----------

  /** Joined with NUL, a key names its file, rule and hash: no path and no hash holds a NUL. */
  lemma KeyIsUnique(file: string, rule: string, hash: string, file': string, rule': string, hash': string)
    requires NUL !in file && NUL !in file' && NUL !in hash && NUL !in hash'
    requires Key(file, rule, hash) == Key(file', rule', hash')
    ensures file == file' && rule == rule' && hash == hash'
  {
    assert Key(file, rule, hash) == file + [NUL] + (rule + [NUL] + hash);
    assert Key(file', rule', hash') == file' + [NUL] + (rule' + [NUL] + hash');
    FirstNul(file, rule + [NUL] + hash, file', rule' + [NUL] + hash');
    LastNul(rule, hash, rule', hash');
  }

  lemma FirstNul(a: string, x: string, b: string, y: string)
    requires NUL !in a && NUL !in b && a + [NUL] + x == b + [NUL] + y
    ensures a == b && x == y
  {
    var s, t := a + [NUL] + x, b + [NUL] + y;
    assert s[|a|] == NUL && t[|b|] == NUL;
    assert s[..|a|] == a && t[..|b|] == b;
    assert s[|a| + 1..] == x && t[|b| + 1..] == y;
  }

  lemma LastNul(x: string, a: string, y: string, b: string)
    requires NUL !in a && NUL !in b && x + [NUL] + a == y + [NUL] + b
    ensures x == y && a == b
  {
    var s, t := x + [NUL] + a, y + [NUL] + b;
    assert s[|x|] == NUL && t[|y|] == NUL;
    assert s[..|x|] == x && t[..|y|] == y;
    assert s[|x| + 1..] == a && t[|y| + 1..] == b;
  }

  // ---------- which suppressions fail ----------

  /** The earlier positions of the same file, rule and hash. */
  function SameBefore(ss: seq<Suppression>, i: nat): set<nat>
    requires i < |ss|
  {
    set j: nat | j < i && ss[j].file == ss[i].file && ss[j].rule == ss[i].rule && ss[j].hash == ss[i].hash
  }

  /** Paths and hashes hold no NUL, so that keys name them. */
  ghost predicate NoNul(ss: seq<Suppression>, values: seq<Raw>) {
    (forall i | 0 <= i < |ss| :: NUL !in ss[i].file && NUL !in ss[i].hash)
    && (forall i | 0 <= i < |values| ::
          (values[i].file.Some? ==> NUL !in values[i].file.value)
          && (values[i].hash.Some? ==> NUL !in values[i].hash.value))
  }

  /** What one value of the baseline list tolerates of a file, rule and hash. */
  function SlotsOf(r: Raw, file: string, rule: string, hash: string): nat {
    if r.file != Some(file) || r.rule != Some(rule) || r.hash != Some(hash) then 0
    else match r.count
      case Absent => 1
      case Whole(n) => if n < 0 then 0 else n
      case NotWhole => 0
  }

  function Slots(values: seq<Raw>, file: string, rule: string, hash: string): nat {
    if values == [] then 0 else SlotsOf(values[0], file, rule, hash) + Slots(values[1..], file, rule, hash)
  }

  /** Not excepted, and the baseline's slots are taken by earlier ones. */
  ghost predicate MustFail(ss: seq<Suppression>, values: seq<Raw>, i: nat)
    requires i < |ss|
  {
    !ss[i].excepted && |SameBefore(ss, i)| >= Slots(values, ss[i].file, ss[i].rule, ss[i].hash)
  }

  lemma {:induction false} OccurrencesAre(ss: seq<Suppression>, n: nat, key: string)
    requires n <= |ss|
    ensures Occurrences(ss[..n], key) == |set j: nat | j < n && KeyOf(ss[j]) == key|
  {
    var places := set j: nat | j < n && KeyOf(ss[j]) == key;
    if n == 0 {
      assert places == {};
    } else {
      var before := set j: nat | j < n - 1 && KeyOf(ss[j]) == key;
      assert ss[..n][..n - 1] == ss[..n - 1];
      OccurrencesAre(ss, n - 1, key);
      assert places == if KeyOf(ss[n - 1]) == key then before + {n - 1} else before;
    }
  }

  lemma {:induction false} TotalIsSlots(values: seq<Raw>, file: string, rule: string, hash: string)
    requires NUL !in file && NUL !in hash && NoNul([], values)
    ensures Total(values, Key(file, rule, hash)) == Slots(values, file, rule, hash)
    decreases |values|
  {
    if values != [] {
      var r, rest := values[0], values[1..];
      assert values == [r] + rest && [r][..0] == [];
      TotalConcat([r], rest, Key(file, rule, hash));
      ShareIsSlots(r, file, rule, hash);
      TotalIsSlots(rest, file, rule, hash);
    }
  }

  lemma ShareIsSlots(r: Raw, file: string, rule: string, hash: string)
    requires NUL !in file && NUL !in hash
    requires (r.file.Some? ==> NUL !in r.file.value) && (r.hash.Some? ==> NUL !in r.hash.value)
    ensures Share(r, Key(file, rule, hash)) == SlotsOf(r, file, rule, hash)
  {
    var parsed := ParseEntry(r);
    if parsed.Some? && EntryKey(parsed.value) == Key(file, rule, hash) {
      KeyIsUnique(parsed.value.file, parsed.value.rule, parsed.value.hash, file, rule, hash);
    }
  }

  lemma FailsMeans(ss: seq<Suppression>, values: seq<Raw>, counts: map<string, nat>, i: nat)
    requires i < |ss| && NoNul(ss, values) && forall k :: Available(counts, k) == Total(values, k)
    ensures Fails(ss, counts, i) <==> MustFail(ss, values, i)
  {
    var s := ss[i];
    OccurrencesAre(ss, i, KeyOf(s));
    TotalIsSlots(values, s.file, s.rule, s.hash);
    forall j: nat | j < i
      ensures KeyOf(ss[j]) == KeyOf(s) <==> ss[j].file == s.file && ss[j].rule == s.rule && ss[j].hash == s.hash
    {
      if KeyOf(ss[j]) == KeyOf(s) { KeyIsUnique(ss[j].file, ss[j].rule, ss[j].hash, s.file, s.rule, s.hash); }
    }
    assert SameBefore(ss, i) == set j: nat | j < i && KeyOf(ss[j]) == KeyOf(s);
  }

  /** `out` shows the elements of `ss` at these places, in order. */
  ghost predicate Shows(out: seq<Suppression>, ss: seq<Suppression>, places: seq<nat>) {
    |out| == |places| && (forall k | 0 <= k < |places| :: places[k] < |ss| && out[k] == ss[places[k]])
    && forall k, l | 0 <= k < l < |places| :: places[k] < places[l]
  }

  lemma MustFailInPrefix(ss: seq<Suppression>, values: seq<Raw>, n: nat, i: nat)
    requires i < n <= |ss|
    ensures MustFail(ss, values, i) <==> MustFail(ss[..n], values, i)
  {
    assert SameBefore(ss, i) == SameBefore(ss[..n], i);
  }

  lemma ShowsOneMore(out: seq<Suppression>, ss: seq<Suppression>, places: seq<nat>, n: nat)
    requires n < |ss| && Shows(out, ss[..n], places)
    ensures Shows(out, ss, places) && Shows(out + [ss[n]], ss, places + [n])
  {
  }

  /**
   * The check against the values of the baseline file fails, in order, exactly the suppressions that are not
   * excepted and have at least as many earlier ones of their file, rule and hash as the file has slots for them.
   */
  lemma {:induction false} FailuresExactly(ss: seq<Suppression>, values: seq<Raw>, counts: map<string, nat>)
      returns (places: seq<nat>)
    requires NoNul(ss, values) && forall k :: Available(counts, k) == Total(values, k)
    ensures Shows(Failures(ss, counts), ss, places)
    ensures forall i: nat | i < |ss| :: i in places <==> MustFail(ss, values, i)
    decreases |ss|
  {
    places := [];
    if ss != [] {
      var n := |ss| - 1;
      var before := FailuresExactly(ss[..n], values, counts);
      FailsMeans(ss, values, counts, n);
      ShowsOneMore(Failures(ss[..n], counts), ss, before, n);
      places := if Fails(ss, counts, n) then before + [n] else before;
      forall i: nat | i < |ss| ensures i in places <==> MustFail(ss, values, i) {
        if i < n { MustFailInPrefix(ss, values, n, i); }
      }
    }
  }

  /** The check passes exactly when every suppression without an exception finds a slot before it is used up. */
  lemma PassesExactly(ss: seq<Suppression>, values: seq<Raw>, counts: map<string, nat>)
    requires NoNul(ss, values) && forall k :: Available(counts, k) == Total(values, k)
    ensures Failures(ss, counts) == [] <==> forall i: nat | i < |ss| :: !MustFail(ss, values, i)
  {
    var places := FailuresExactly(ss, values, counts);
    if places != [] {
      assert places[0] in places;
    }
  }

  /** Where no exception stands, of `n` suppressions of a key and `b` slots exactly `n - min(n, b)` fail. */
  lemma {:induction false} FailuresOfKey(ss: seq<Suppression>, counts: map<string, nat>, key: string)
    requires forall i | 0 <= i < |ss| && KeyOf(ss[i]) == key :: !ss[i].excepted
    ensures Occurrences(Failures(ss, counts), key) == Less(Occurrences(ss, key), Available(counts, key))
  {
    if ss != [] {
      var n := |ss| - 1;
      FailuresOfKey(ss[..n], counts, key);
      if Fails(ss, counts, n) {
        var before := Failures(ss[..n], counts);
        assert (before + [ss[n]])[..|before|] == before;
      } else {
        assert Failures(ss, counts) == Failures(ss[..n], counts);
      }
    }
  }
}
