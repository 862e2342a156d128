/**
 * The test-double ratchet: a file may have as many nonconforming doubles as its baseline entry says, and
 * the producer doubles listed there need no capture. Lowering the baseline removes what was fixed.
 */
module DoubleRatchet {
  import opened Options

  /**
   * A declared double. `id` is its name and the hash of its text; `problem` says whether the fixture it
   * is tagged with fails the capture check.
   */
  datatype Double = Double(id: string, start: nat, end: nat, typed: bool, producer: bool, captured: bool, problem: bool)

  /** A test source with its doubles and the places where type errors start. */
  datatype Source = Source(path: string, doubles: seq<Double>, errors: seq<nat>)

  datatype Baseline = Baseline(nonconforming: map<string, nat>, uncaptured: map<string, seq<string>>)

  datatype Violation =
    | Above(path: string, count: nat, allowed: nat)
    | Below(path: string, count: nat, allowed: nat)
    | BadFixture(path: string, id: string)
    | NewUncaptured(path: string, id: string)
    | Stale(path: string, id: string)

  /** `missingCounts` and `missingUncaptured` are the entries whose file is gone. */
  datatype Report = Report(violations: seq<Violation>, observed: Baseline,
                           missingCounts: set<string>, missingUncaptured: set<string>)

  // ---------- one file ----------

  predicate Conforms(d: Double, errors: seq<nat>) {
    d.typed && forall i | 0 <= i < |errors| :: !(d.start <= errors[i] < d.end)
  }

  function Nonconforming(ds: seq<Double>, errors: seq<nat>): nat {
    if ds == [] then 0
    else Nonconforming(ds[..|ds| - 1], errors) + if Conforms(ds[|ds| - 1], errors) then 0 else 1
  }

  function Allowed(counts: map<string, nat>, path: string): nat {
    if path in counts then counts[path] else 0
  }

  function Listed(lists: map<string, seq<string>>, path: string): seq<string> {
    if path in lists then lists[path] else []
  }

  function CountViolation(path: string, count: nat, allowed: nat): seq<Violation> {
    if count > allowed then [Above(path, count, allowed)]
    else if count < allowed then [Below(path, count, allowed)]
    else []
  }

  /** The list without the first `id`. */
  function Without(ids: seq<string>, id: string): (r: seq<string>)
    requires id in ids
    ensures multiset(r) + multiset{id} == multiset(ids)
  {
    if ids[0] == id then
      assert ids == [ids[0]] + ids[1..];
      ids[1..]
    else
      assert ids == [ids[0]] + ids[1..];
      [ids[0]] + Without(ids[1..], id)
  }

  /** How the doubles of a file use up its list: what is left, what was taken, and what violates. */
  datatype Use = Use(left: seq<string>, kept: seq<string>, violations: seq<Violation>)

  function UseUp(path: string, legacy: seq<string>, ds: seq<Double>): Use
    decreases |ds|
  {
    if ds == [] then Use(legacy, [], [])
    else
      var d := ds[0];
      if !d.producer then UseUp(path, legacy, ds[1..])
      else if d.captured then
        var rest := UseUp(path, legacy, ds[1..]);
        rest.(violations := (if d.problem then [BadFixture(path, d.id)] else []) + rest.violations)
      else if d.id in legacy then
        var rest := UseUp(path, Without(legacy, d.id), ds[1..]);
        rest.(kept := [d.id] + rest.kept)
      else
        var rest := UseUp(path, legacy, ds[1..]);
        rest.(violations := [NewUncaptured(path, d.id)] + rest.violations)
  }

  function StaleEntries(path: string, left: seq<string>): seq<Violation> {
    seq(|left|, i requires 0 <= i < |left| => Stale(path, left[i]))
  }

  function FileViolations(f: Source, b: Baseline): seq<Violation> {
    var use := UseUp(f.path, Listed(b.uncaptured, f.path), f.doubles);
    CountViolation(f.path, Nonconforming(f.doubles, f.errors), Allowed(b.nonconforming, f.path))
    + use.violations + StaleEntries(f.path, use.left)
  }

  // ---------- all files ----------

  function Violations(files: seq<Source>, b: Baseline): seq<Violation> {
    if files == [] then []
    else Violations(files[..|files| - 1], b) + FileViolations(files[|files| - 1], b)
  }

  /** What the files show: only counts above zero and lists that are not empty are recorded. */
  function Observed(files: seq<Source>, b: Baseline): Baseline {
    if files == [] then Baseline(map[], map[])
    else
      var f := files[|files| - 1];
      Recorded(Observed(files[..|files| - 1], b), f, UseUp(f.path, Listed(b.uncaptured, f.path), f.doubles).kept)
  }

  function Recorded(o: Baseline, f: Source, kept: seq<string>): Baseline {
    var count := Nonconforming(f.doubles, f.errors);
    Baseline(if count > 0 then o.nonconforming[f.path := count] else o.nonconforming,
             if kept != [] then o.uncaptured[f.path := Listed(o.uncaptured, f.path) + kept] else o.uncaptured)
  }

  function Paths(files: seq<Source>): set<string> {
    set i | 0 <= i < |files| :: files[i].path
  }

  function Check(files: seq<Source>, b: Baseline): Report {
    Report(Violations(files, b), Observed(files, b),
           b.nonconforming.Keys - Paths(files), b.uncaptured.Keys - Paths(files))
  }

  /** The new baseline, refused when a count went up. */
  function LowerBaseline(b: Baseline, observed: Baseline): Option<Baseline> {
    if exists p | p in observed.nonconforming :: observed.nonconforming[p] > Allowed(b.nonconforming, p) then None
    else Some(observed)
  }

  // ---------- the loops ----------

  method IndexOf(ids: seq<string>, id: string) returns (index: int)
    ensures id in ids <==> index >= 0
    ensures index >= 0 ==> index < |ids| && ids[index] == id && id !in ids[..index]
  {
    index := 0;
    while index < |ids|
      invariant 0 <= index <= |ids| && id !in ids[..index]
    {
      if ids[index] == id { return; }
      index := index + 1;
    }
    index := -1;
  }

  /** Taking out a later element is keeping the first and taking it out of the rest. */
  lemma SpliceLater(ids: seq<string>, i: nat)
    requires 0 < i < |ids|
    ensures ids[..i] + ids[i + 1..] == [ids[0]] + (ids[1..][..i - 1] + ids[1..][i..])
    ensures ids[1..][i - 1] == ids[i] && ids[..i] == [ids[0]] + ids[1..][..i - 1]
  {
  }

  lemma {:induction false} SpliceIsWithout(ids: seq<string>, i: nat)
    requires i < |ids| && ids[i] !in ids[..i]
    ensures ids[..i] + ids[i + 1..] == Without(ids, ids[i])
    decreases |ids|
  {
    if i == 0 {
      assert ids[..0] + ids[1..] == ids[1..];
    } else {
      SpliceLater(ids, i);
      SpliceIsWithout(ids[1..], i - 1);
    }
  }

  function After(kept: seq<string>, violations: seq<Violation>, rest: Use): Use {
    Use(rest.left, kept + rest.kept, violations + rest.violations)
  }

  lemma AfterAfter(kept: seq<string>, vs: seq<Violation>, kept': seq<string>, vs': seq<Violation>, rest: Use)
    ensures After(kept + kept', vs + vs', rest) == After(kept, vs, After(kept', vs', rest))
  {
    assert (kept + kept') + rest.kept == kept + (kept' + rest.kept);
    assert (vs + vs') + rest.violations == vs + (vs' + rest.violations);
  }

  method CheckDoubles(path: string, listed: seq<string>, ds: seq<Double>)
    returns (legacy: seq<string>, kept: seq<string>, violations: seq<Violation>)
    ensures Use(legacy, kept, violations) == UseUp(path, listed, ds)
  {
    legacy, kept, violations := listed, [], [];
    for k := 0 to |ds|
      invariant UseUp(path, listed, ds) == After(kept, violations, UseUp(path, legacy, ds[k..]))
    {
      var d := ds[k];
      ghost var later := ds[k + 1..];
      assert ds[k..][0] == d && ds[k..][1..] == later;
      if !d.producer { continue; }
      if d.captured {
        if d.problem {
          AfterAfter(kept, violations, [], [BadFixture(path, d.id)], UseUp(path, legacy, later));
          violations := violations + [BadFixture(path, d.id)];
        }
        continue;
      }
      var index := IndexOf(legacy, d.id);
      if index >= 0 {
        SpliceIsWithout(legacy, index);
        legacy := legacy[..index] + legacy[index + 1..];
        AfterAfter(kept, violations, [d.id], [], UseUp(path, legacy, later));
        kept := kept + [d.id];
        continue;
      }
      AfterAfter(kept, violations, [], [NewUncaptured(path, d.id)], UseUp(path, legacy, later));
      violations := violations + [NewUncaptured(path, d.id)];
    }
  }

  method FindDoubleViolations(files: seq<Source>, baseline: Baseline) returns (r: Report)
    ensures r == Check(files, baseline)
  {
    var violations: seq<Violation> := [];
    var observed := Baseline(map[], map[]);
    for k := 0 to |files|
      invariant violations == Violations(files[..k], baseline) && observed == Observed(files[..k], baseline)
    {
      var f := files[k];
      assert files[..k + 1][..k] == files[..k] && files[..k + 1][k] == f;
      var count := Nonconforming(f.doubles, f.errors);
      if count > 0 {
        observed := observed.(nonconforming := observed.nonconforming[f.path := count]);
      }
      var legacy, kept, found := CheckDoubles(f.path, Listed(baseline.uncaptured, f.path), f.doubles);
      if kept != [] {
        observed := observed.(uncaptured :=
          observed.uncaptured[f.path := Listed(observed.uncaptured, f.path) + kept]);
      }
      violations := violations
        + (CountViolation(f.path, count, Allowed(baseline.nonconforming, f.path)) + found
           + StaleEntries(f.path, legacy));
    }
    assert files[..|files|] == files;
    var seen := Paths(files);
    r := Report(violations, observed, baseline.nonconforming.Keys - seen, baseline.uncaptured.Keys - seen);
  }

  method Lower(baseline: Baseline, observed: Baseline) returns (r: Option<Baseline>)
    ensures r == LowerBaseline(baseline, observed)
  {
    var nonconforming: map<string, nat> := map[];
    var todo := observed.nonconforming.Keys;
    while todo != {}
      invariant todo + nonconforming.Keys == observed.nonconforming.Keys && todo !! nonconforming.Keys
      invariant forall p | p in nonconforming ::
                  nonconforming[p] == observed.nonconforming[p] <= Allowed(baseline.nonconforming, p)
      decreases todo
    {
      var path :| path in todo;
      if observed.nonconforming[path] > Allowed(baseline.nonconforming, path) { return None; }
      nonconforming := nonconforming[path := observed.nonconforming[path]];
      todo := todo - {path};
    }
    assert nonconforming == observed.nonconforming;
    r := Some(Baseline(nonconforming, observed.uncaptured));
  }

  // ---------- using up a list twice ----------

  lemma {:induction false} UseKeepsElements(path: string, legacy: seq<string>, ds: seq<Double>)
    ensures var u := UseUp(path, legacy, ds); multiset(u.left) + multiset(u.kept) == multiset(legacy)
    decreases |ds|
  {
    if ds != [] {
      var d := ds[0];
      if d.producer && !d.captured && d.id in legacy {
        UseKeepsElements(path, Without(legacy, d.id), ds[1..]);
      } else {
        UseKeepsElements(path, legacy, ds[1..]);
      }
    }
  }

  /** What was taken is exactly what is needed: the second time nothing is left and the rest is the same. */
  lemma {:induction false} KeptIsEnough(path: string, legacy: seq<string>, ds: seq<Double>)
    ensures var u := UseUp(path, legacy, ds); UseUp(path, u.kept, ds) == Use([], u.kept, u.violations)
    decreases |ds|
  {
    if ds != [] {
      var d := ds[0];
      var u := UseUp(path, legacy, ds);
      if d.producer && !d.captured && d.id in legacy {
        var rest := UseUp(path, Without(legacy, d.id), ds[1..]);
        KeptIsEnough(path, Without(legacy, d.id), ds[1..]);
        assert u.kept[0] == d.id && u.kept[1..] == rest.kept;
        assert Without(u.kept, d.id) == rest.kept;
      } else {
        KeptIsEnough(path, legacy, ds[1..]);
        UseKeepsElements(path, legacy, ds[1..]);
        if d.producer && !d.captured {
          assert d.id !in multiset(legacy);
          assert d.id !in multiset(UseUp(path, legacy, ds[1..]).kept);
        }
      }
    }
  }

  /** The producer doubles that need a place in the list. */
  function Uncaptured(ds: seq<Double>): multiset<string> {
    if ds == [] then multiset{}
    else (if ds[0].producer && !ds[0].captured then multiset{ds[0].id} else multiset{}) + Uncaptured(ds[1..])
  }

  function BadFixtures(ds: seq<Double>): multiset<string> {
    if ds == [] then multiset{}
    else
      (if ds[0].producer && ds[0].captured && ds[0].problem then multiset{ds[0].id} else multiset{})
      + BadFixtures(ds[1..])
  }

  function NewIds(vs: seq<Violation>): multiset<string> {
    if vs == [] then multiset{} else (if vs[0].NewUncaptured? then multiset{vs[0].id} else multiset{}) + NewIds(vs[1..])
  }

  function BadIds(vs: seq<Violation>): multiset<string> {
    if vs == [] then multiset{} else (if vs[0].BadFixture? then multiset{vs[0].id} else multiset{}) + BadIds(vs[1..])
  }

  /** The outcome of a use accounts for what is needed, what the list has and the bad fixtures. */
  predicate Accounts(u: Use, need: multiset<string>, have: multiset<string>, bad: multiset<string>) {
    && multiset(u.kept) == need * have
    && multiset(u.left) == have - need
    && NewIds(u.violations) == need - have
    && BadIds(u.violations) == bad
  }

  lemma AccountTaken(rest: Use, need: multiset<string>, have: multiset<string>, bad: multiset<string>, id: string)
    requires Accounts(rest, need, have, bad)
    ensures Accounts(rest.(kept := [id] + rest.kept), multiset{id} + need, have + multiset{id}, bad)
  {
    TakeOne(need, have, id);
  }

  lemma AccountNew(rest: Use, need: multiset<string>, have: multiset<string>, bad: multiset<string>, path: string,
                   id: string)
    requires Accounts(rest, need, have, bad) && id !in have
    ensures Accounts(rest.(violations := [NewUncaptured(path, id)] + rest.violations), multiset{id} + need, have, bad)
  {
    assert ([NewUncaptured(path, id)] + rest.violations)[1..] == rest.violations;
    MissOne(need, have, id);
  }

  lemma AccountBad(rest: Use, need: multiset<string>, have: multiset<string>, bad: multiset<string>, path: string,
                   id: string)
    requires Accounts(rest, need, have, bad)
    ensures Accounts(rest.(violations := [BadFixture(path, id)] + rest.violations), need, have, multiset{id} + bad)
  {
    assert ([BadFixture(path, id)] + rest.violations)[1..] == rest.violations;
  }

  /**
   * A list is used up exactly: what the doubles need is taken as far as the list has it, the rest of the need
   * is new, the rest of the list is left over, and every bad fixture is reported.
   */
  lemma {:induction false} UsesUpExactly(path: string, legacy: seq<string>, ds: seq<Double>)
    ensures var u := UseUp(path, legacy, ds);
            && multiset(u.kept) == Uncaptured(ds) * multiset(legacy)
            && multiset(u.left) == multiset(legacy) - Uncaptured(ds)
            && NewIds(u.violations) == Uncaptured(ds) - multiset(legacy)
            && BadIds(u.violations) == BadFixtures(ds)
  {
    UseAccounts(path, legacy, ds);
  }

  ghost predicate UseIsExact(path: string, legacy: seq<string>, ds: seq<Double>) {
    Accounts(UseUp(path, legacy, ds), Uncaptured(ds), multiset(legacy), BadFixtures(ds))
  }

  lemma TakenIsExact(path: string, legacy: seq<string>, ds: seq<Double>)
    requires ds != [] && ds[0].producer && !ds[0].captured && ds[0].id in legacy
    requires UseIsExact(path, Without(legacy, ds[0].id), ds[1..])
    ensures UseIsExact(path, legacy, ds)
  {
    var kept := Without(legacy, ds[0].id);
    AccountTaken(UseUp(path, kept, ds[1..]), Uncaptured(ds[1..]), multiset(kept), BadFixtures(ds[1..]), ds[0].id);
  }

  lemma NewIsExact(path: string, legacy: seq<string>, ds: seq<Double>)
    requires ds != [] && ds[0].producer && !ds[0].captured && ds[0].id !in legacy
    requires UseIsExact(path, legacy, ds[1..])
    ensures UseIsExact(path, legacy, ds)
  {
    AccountNew(UseUp(path, legacy, ds[1..]), Uncaptured(ds[1..]), multiset(legacy), BadFixtures(ds[1..]), path,
               ds[0].id);
  }

  lemma BadIsExact(path: string, legacy: seq<string>, ds: seq<Double>)
    requires ds != [] && ds[0].producer && ds[0].captured && ds[0].problem
    requires UseIsExact(path, legacy, ds[1..])
    ensures UseIsExact(path, legacy, ds)
  {
    AccountBad(UseUp(path, legacy, ds[1..]), Uncaptured(ds[1..]), multiset(legacy), BadFixtures(ds[1..]), path,
               ds[0].id);
  }

  /** A double that asks for nothing changes nothing. */
  lemma QuietIsExact(path: string, legacy: seq<string>, ds: seq<Double>)
    requires ds != [] && (!ds[0].producer || (ds[0].captured && !ds[0].problem))
    requires UseIsExact(path, legacy, ds[1..])
    ensures UseIsExact(path, legacy, ds)
  {
    var rest := UseUp(path, legacy, ds[1..]);
    assert [] + rest.violations == rest.violations;
    assert UseUp(path, legacy, ds) == rest;
    assert Uncaptured(ds) == Uncaptured(ds[1..]) && BadFixtures(ds) == BadFixtures(ds[1..]);
  }

  lemma {:induction false} UseAccounts(path: string, legacy: seq<string>, ds: seq<Double>)
    ensures UseIsExact(path, legacy, ds)
    decreases |ds|
  {
    if ds != [] {
      var d := ds[0];
      if d.producer && !d.captured && d.id in legacy {
        UseAccounts(path, Without(legacy, d.id), ds[1..]);
        TakenIsExact(path, legacy, ds);
      } else {
        UseAccounts(path, legacy, ds[1..]);
        if d.producer && !d.captured {
          NewIsExact(path, legacy, ds);
        } else if d.producer && d.problem {
          BadIsExact(path, legacy, ds);
        } else {
          QuietIsExact(path, legacy, ds);
        }
      }
    }
  }

  lemma TakeOne(need: multiset<string>, have: multiset<string>, id: string)
    ensures (multiset{id} + need) * (have + multiset{id}) == multiset{id} + need * have
    ensures (have + multiset{id}) - (multiset{id} + need) == have - need
    ensures (multiset{id} + need) - (have + multiset{id}) == need - have
  {
  }

  lemma MissOne(need: multiset<string>, have: multiset<string>, id: string)
    requires id !in have
    ensures (multiset{id} + need) * have == need * have
    ensures have - (multiset{id} + need) == have - need
    ensures (multiset{id} + need) - have == multiset{id} + (need - have)
  {
  }

  /** No captures are concerned by a baseline count, and the other way round. */
  predicate IsCapture(v: Violation) {
    v.BadFixture? || v.NewUncaptured?
  }

  function Captures(vs: seq<Violation>): seq<Violation> {
    if vs == [] then []
    else Captures(vs[..|vs| - 1]) + if IsCapture(vs[|vs| - 1]) then [vs[|vs| - 1]] else []
  }

  lemma {:induction false} CapturesConcat(a: seq<Violation>, b: seq<Violation>)
    ensures Captures(a + b) == Captures(a) + Captures(b)
    decreases |b|
  {
    if b == [] {
      assert a + b == a;
    } else {
      assert (a + b)[..|a + b| - 1] == a + b[..|b| - 1];
      CapturesConcat(a, b[..|b| - 1]);
    }
  }

  lemma {:induction false} CapturesNone(vs: seq<Violation>)
    requires forall i | 0 <= i < |vs| :: !IsCapture(vs[i])
    ensures Captures(vs) == []
  {
    if vs != [] { CapturesNone(vs[..|vs| - 1]); }
  }

  lemma {:induction false} CapturesAll(vs: seq<Violation>)
    requires forall i | 0 <= i < |vs| :: IsCapture(vs[i])
    ensures Captures(vs) == vs
  {
    if vs != [] { CapturesAll(vs[..|vs| - 1]); }
  }

  lemma {:induction false} UseIsCapture(path: string, legacy: seq<string>, ds: seq<Double>)
    ensures forall i | 0 <= i < |UseUp(path, legacy, ds).violations| :: IsCapture(UseUp(path, legacy, ds).violations[i])
    decreases |ds|
  {
    if ds != [] {
      var d := ds[0];
      if d.producer && !d.captured && d.id in legacy {
        UseIsCapture(path, Without(legacy, d.id), ds[1..]);
      } else {
        UseIsCapture(path, legacy, ds[1..]);
      }
    }
  }

  // ---------- the ratchet ----------

  ghost predicate DistinctPaths(files: seq<Source>) {
    forall i, j | 0 <= i < j < |files| :: files[i].path != files[j].path
  }

  /** The observation of a file is its own. */
  lemma {:induction false} ObservedAt(files: seq<Source>, b: Baseline, i: nat)
    requires DistinctPaths(files) && i < |files|
    ensures var f := files[i];
            && Allowed(Observed(files, b).nonconforming, f.path) == Nonconforming(f.doubles, f.errors)
            && Listed(Observed(files, b).uncaptured, f.path)
               == UseUp(f.path, Listed(b.uncaptured, f.path), f.doubles).kept
  {
    var front, f := files[..|files| - 1], files[|files| - 1];
    var kept := UseUp(f.path, Listed(b.uncaptured, f.path), f.doubles).kept;
    FrontIsDistinct(files);
    if i < |front| {
      ObservedAt(front, b, i);
      assert front[i] == files[i];
      RecordedOther(Observed(front, b), f, kept, files[i].path);
    } else {
      ObservedOnly(front, b);
      RecordedFirst(Observed(front, b), f, kept);
    }
  }

  lemma FrontIsDistinct(files: seq<Source>)
    requires DistinctPaths(files) && files != []
    ensures DistinctPaths(files[..|files| - 1]) && files[|files| - 1].path !in Paths(files[..|files| - 1])
  {
  }

  lemma RecordedOther(o: Baseline, f: Source, kept: seq<string>, path: string)
    requires path != f.path
    ensures Allowed(Recorded(o, f, kept).nonconforming, path) == Allowed(o.nonconforming, path)
    ensures Listed(Recorded(o, f, kept).uncaptured, path) == Listed(o.uncaptured, path)
  {
  }

  lemma RecordedFirst(o: Baseline, f: Source, kept: seq<string>)
    requires f.path !in o.nonconforming && f.path !in o.uncaptured
    ensures Allowed(Recorded(o, f, kept).nonconforming, f.path) == Nonconforming(f.doubles, f.errors)
    ensures Listed(Recorded(o, f, kept).uncaptured, f.path) == kept
  {
    assert [] + kept == kept;
  }

  lemma {:induction false} ObservedOnly(files: seq<Source>, b: Baseline)
    ensures Observed(files, b).nonconforming.Keys <= Paths(files)
    ensures Observed(files, b).uncaptured.Keys <= Paths(files)
  {
    if files != [] {
      var front := files[..|files| - 1];
      ObservedOnly(front, b);
      assert Paths(front) <= Paths(files) by {
        forall p | p in Paths(front) ensures p in Paths(files) {
          var i :| 0 <= i < |front| && front[i].path == p;
          assert files[i].path == p;
        }
      }
      assert files[|files| - 1].path in Paths(files);
    }
  }

  lemma {:induction false} ObservedIsPositive(files: seq<Source>, b: Baseline)
    ensures forall p | p in Observed(files, b).nonconforming :: Observed(files, b).nonconforming[p] > 0
    ensures forall p | p in Observed(files, b).uncaptured :: Observed(files, b).uncaptured[p] != []
  {
    if files != [] { ObservedIsPositive(files[..|files| - 1], b); }
  }

  /** A file checked against its own observation violates only where it did, and only for its captures. */
  lemma FileAgain(f: Source, b: Baseline, o: Baseline)
    requires Allowed(o.nonconforming, f.path) == Nonconforming(f.doubles, f.errors)
    requires Listed(o.uncaptured, f.path) == UseUp(f.path, Listed(b.uncaptured, f.path), f.doubles).kept
    ensures FileViolations(f, o) == Captures(FileViolations(f, b))
    ensures UseUp(f.path, Listed(o.uncaptured, f.path), f.doubles).kept
            == UseUp(f.path, Listed(b.uncaptured, f.path), f.doubles).kept
  {
    var use := UseUp(f.path, Listed(b.uncaptured, f.path), f.doubles);
    var count := CountViolation(f.path, Nonconforming(f.doubles, f.errors), Allowed(b.nonconforming, f.path));
    KeptIsEnough(f.path, Listed(b.uncaptured, f.path), f.doubles);
    CapturesConcat(count + use.violations, StaleEntries(f.path, use.left));
    CapturesConcat(count, use.violations);
    CapturesNone(count);
    CapturesNone(StaleEntries(f.path, use.left));
    UseIsCapture(f.path, Listed(b.uncaptured, f.path), f.doubles);
    CapturesAll(use.violations);
    assert FileViolations(f, o) == [] + use.violations + [];
  }

  lemma {:induction false} FilesAgain(files: seq<Source>, b: Baseline, n: nat)
    requires DistinctPaths(files) && n <= |files|
    ensures Violations(files[..n], Observed(files, b)) == Captures(Violations(files[..n], b))
    ensures Observed(files[..n], Observed(files, b)) == Observed(files[..n], b)
  {
    if n > 0 {
      var front, o := files[..n - 1], Observed(files, b);
      FilesAgain(files, b, n - 1);
      ObservedAt(files, b, n - 1);
      FileAgain(files[n - 1], b, o);
      OneMoreFile(files, b, n);
      OneMoreFile(files, o, n);
      CapturesConcat(Violations(front, b), FileViolations(files[n - 1], b));
    }
  }

  lemma OneMoreFile(files: seq<Source>, b: Baseline, n: nat)
    requires 0 < n <= |files|
    ensures Violations(files[..n], b) == Violations(files[..n - 1], b) + FileViolations(files[n - 1], b)
    ensures var f := files[n - 1];
            Observed(files[..n], b)
            == Recorded(Observed(files[..n - 1], b), f, UseUp(f.path, Listed(b.uncaptured, f.path), f.doubles).kept)
  {
    assert files[..n][..n - 1] == files[..n - 1] && files[..n][n - 1] == files[n - 1];
  }

  /**
   * After the baseline is lowered a check finds the violations of captures it found before, in the same
   * order, and nothing else: no count, no stale entry, no entry whose file is gone.
   */
  lemma RecheckIsClean(files: seq<Source>, b: Baseline, lowered: Baseline)
    requires DistinctPaths(files) && LowerBaseline(b, Check(files, b).observed) == Some(lowered)
    ensures Check(files, lowered) == Report(Captures(Check(files, b).violations), lowered, {}, {})
  {
    FilesAgain(files, b, |files|);
    assert files[..|files|] == files;
    ObservedOnly(files, b);
  }

  /** Lowering what was lowered changes nothing. */
  lemma LoweringIsAFixpoint(files: seq<Source>, b: Baseline, lowered: Baseline)
    requires DistinctPaths(files) && LowerBaseline(b, Check(files, b).observed) == Some(lowered)
    ensures LowerBaseline(lowered, Check(files, lowered).observed) == Some(lowered)
  {
    RecheckIsClean(files, b, lowered);
  }

  /** The lists of an observation were listed before: nothing is added, and nothing more often. */
  lemma {:induction false} ObservedWithin(files: seq<Source>, b: Baseline, p: string)
    requires DistinctPaths(files)
    ensures multiset(Listed(Observed(files, b).uncaptured, p)) <= multiset(Listed(b.uncaptured, p))
  {
    if p in Observed(files, b).uncaptured {
      ObservedOnly(files, b);
      var i :| 0 <= i < |files| && files[i].path == p;
      ObservedAt(files, b, i);
      UseKeepsElements(p, Listed(b.uncaptured, p), files[i].doubles);
    }
  }

  /** An accepted baseline is below the old one: no entry is new, no count is higher, no list is longer. */
  lemma LoweringOnlyLowers(files: seq<Source>, b: Baseline, lowered: Baseline)
    requires DistinctPaths(files) && LowerBaseline(b, Check(files, b).observed) == Some(lowered)
    ensures forall p | p in lowered.nonconforming ::
              p in b.nonconforming && 0 < lowered.nonconforming[p] <= b.nonconforming[p]
    ensures forall p | p in lowered.uncaptured ::
              p in b.uncaptured && lowered.uncaptured[p] != []
              && multiset(lowered.uncaptured[p]) <= multiset(b.uncaptured[p])
  {
    ObservedIsPositive(files, b);
    forall p | p in lowered.uncaptured
      ensures p in b.uncaptured && multiset(lowered.uncaptured[p]) <= multiset(b.uncaptured[p])
    {
      ObservedWithin(files, b, p);
    }
  }

  ghost predicate IsAbove(f: Source, b: Baseline) {
    Nonconforming(f.doubles, f.errors) > Allowed(b.nonconforming, f.path)
  }

  ghost predicate HasAbove(vs: seq<Violation>) {
    exists v | v in vs :: v.Above?
  }

  lemma FileIsAbove(f: Source, b: Baseline)
    ensures HasAbove(FileViolations(f, b)) <==> IsAbove(f, b)
  {
    UseIsCapture(f.path, Listed(b.uncaptured, f.path), f.doubles);
    if IsAbove(f, b) {
      assert FileViolations(f, b)[0].Above?;
    }
  }

  lemma {:induction false} AboveIsFound(files: seq<Source>, b: Baseline)
    ensures HasAbove(Violations(files, b)) <==> exists i | 0 <= i < |files| :: IsAbove(files[i], b)
  {
    if files != [] {
      var front, f := files[..|files| - 1], files[|files| - 1];
      AboveIsFound(front, b);
      FileIsAbove(f, b);
      if HasAbove(Violations(files, b)) {
        if HasAbove(Violations(front, b)) {
          var i :| 0 <= i < |front| && IsAbove(front[i], b);
          assert IsAbove(files[i], b);
        }
      }
      if i :| 0 <= i < |files| && IsAbove(files[i], b) {
        if i < |front| { assert IsAbove(front[i], b); }
      }
    }
  }

  /** Lowering is refused exactly when some file is above its baseline. */
  lemma RefusedExactlyWhenAbove(files: seq<Source>, b: Baseline)
    requires DistinctPaths(files)
    ensures LowerBaseline(b, Check(files, b).observed).None?
      <==> HasAbove(Check(files, b).violations)
  {
    AboveIsFound(files, b);
    var o := Observed(files, b);
    if p :| p in o.nonconforming && o.nonconforming[p] > Allowed(b.nonconforming, p) {
      ObservedOnly(files, b);
      var i :| 0 <= i < |files| && files[i].path == p;
      ObservedAt(files, b, i);
    }
    if i :| 0 <= i < |files| && IsAbove(files[i], b) {
      ObservedAt(files, b, i);
      assert files[i].path in o.nonconforming;
    }
  }

  // ---------- what a report says ----------

  /** Not typed against production code, or with a type error inside. */
  predicate Wrong(d: Double, errors: seq<nat>) {
    !d.typed || exists at :: at in errors && d.start <= at < d.end
  }

  function WrongPlaces(f: Source): set<nat> {
    set i: nat | i < |f.doubles| && Wrong(f.doubles[i], f.errors)
  }

  function WrongBelow(ds: seq<Double>, errors: seq<nat>, n: nat): set<nat>
    requires n <= |ds|
  {
    set i: nat | i < n && Wrong(ds[i], errors)
  }

  lemma WrongOneMore(ds: seq<Double>, errors: seq<nat>, n: nat)
    requires n < |ds|
    ensures WrongBelow(ds, errors, n + 1) == WrongBelow(ds, errors, n) + if Wrong(ds[n], errors) then {n} else {}
    ensures n !in WrongBelow(ds, errors, n)
  {
  }

  lemma NonconformingOneMore(ds: seq<Double>, errors: seq<nat>, n: nat)
    requires n < |ds|
    ensures Nonconforming(ds[..n + 1], errors)
            == Nonconforming(ds[..n], errors) + if Wrong(ds[n], errors) then 1 else 0
  {
    var front := ds[..n + 1];
    assert front[..n] == ds[..n] && front[n] == ds[n];
    ConformsMeans(ds[n], errors);
  }

  lemma {:induction false} NonconformingAre(ds: seq<Double>, errors: seq<nat>, n: nat)
    requires n <= |ds|
    ensures Nonconforming(ds[..n], errors) == |WrongBelow(ds, errors, n)|
  {
    if n == 0 {
      assert WrongBelow(ds, errors, 0) == {};
    } else {
      NonconformingAre(ds, errors, n - 1);
      NonconformingOneMore(ds, errors, n - 1);
      WrongOneMore(ds, errors, n - 1);
    }
  }

  lemma ConformsMeans(d: Double, errors: seq<nat>)
    ensures Conforms(d, errors) <==> !Wrong(d, errors)
  {
    if at :| at in errors && d.start <= at < d.end {
      var i :| 0 <= i < |errors| && errors[i] == at;
    }
    if i :| 0 <= i < |errors| && d.start <= errors[i] < d.end {
      assert errors[i] in errors;
    }
  }

  lemma CountIs(f: Source)
    ensures Nonconforming(f.doubles, f.errors) == |WrongPlaces(f)|
  {
    assert f.doubles[..|f.doubles|] == f.doubles;
    NonconformingAre(f.doubles, f.errors, |f.doubles|);
    assert WrongBelow(f.doubles, f.errors, |f.doubles|) == WrongPlaces(f);
  }

  /** How often a violation is owed to a file, told from its doubles, its errors and its baseline entries. */
  ghost function Owed(f: Source, b: Baseline, v: Violation): nat {
    var count := |WrongPlaces(f)|;
    var allowed := if f.path in b.nonconforming then b.nonconforming[f.path] else 0;
    var listed := if f.path in b.uncaptured then multiset(b.uncaptured[f.path]) else multiset{};
    if v.path != f.path then 0
    else match v
      case Above(_, c, a) => if c == count && a == allowed && count > allowed then 1 else 0
      case Below(_, c, a) => if c == count && a == allowed && count < allowed then 1 else 0
      case BadFixture(_, id) => BadFixtures(f.doubles)[id]
      case NewUncaptured(_, id) => (Uncaptured(f.doubles) - listed)[id]
      case Stale(_, id) => (listed - Uncaptured(f.doubles))[id]
  }

  ghost function OwedBy(files: seq<Source>, b: Baseline, v: Violation): nat {
    if files == [] then 0 else OwedBy(files[..|files| - 1], b, v) + Owed(files[|files| - 1], b, v)
  }

  ghost predicate OfFile(vs: seq<Violation>, path: string) {
    forall i | 0 <= i < |vs| :: vs[i].path == path
  }

  lemma {:induction false} UseIsOfFile(path: string, legacy: seq<string>, ds: seq<Double>)
    ensures OfFile(UseUp(path, legacy, ds).violations, path)
    decreases |ds|
  {
    if ds != [] {
      var d := ds[0];
      UseIsOfFile(path, if d.producer && !d.captured && d.id in legacy then Without(legacy, d.id) else legacy, ds[1..]);
    }
  }

  lemma {:induction false} IdsCount(vs: seq<Violation>, path: string, id: string)
    requires OfFile(vs, path)
    ensures NewIds(vs)[id] == multiset(vs)[NewUncaptured(path, id)]
    ensures BadIds(vs)[id] == multiset(vs)[BadFixture(path, id)]
  {
    if vs != [] {
      assert vs == [vs[0]] + vs[1..];
      IdsCount(vs[1..], path, id);
    }
  }

  lemma {:induction false} StaleCount(path: string, left: seq<string>, id: string)
    ensures multiset(StaleEntries(path, left))[Stale(path, id)] == multiset(left)[id]
    decreases |left|
  {
    if left != [] {
      StaleCount(path, left[1..], id);
      assert StaleEntries(path, left) == [Stale(path, left[0])] + StaleEntries(path, left[1..]);
      assert left == [left[0]] + left[1..];
    }
  }

  lemma NoneOfThem(vs: seq<Violation>, v: Violation)
    requires forall i | 0 <= i < |vs| :: vs[i] != v
    ensures multiset(vs)[v] == 0
  {
    assert v !in vs;
  }

  /** The captures of a file, counted. */
  lemma CapturesOwed(f: Source, b: Baseline, v: Violation)
    requires IsCapture(v)
    ensures multiset(UseUp(f.path, Listed(b.uncaptured, f.path), f.doubles).violations)[v] == Owed(f, b, v)
  {
    var vs := UseUp(f.path, Listed(b.uncaptured, f.path), f.doubles).violations;
    UseIsOfFile(f.path, Listed(b.uncaptured, f.path), f.doubles);
    if v.path != f.path {
      NoneOfThem(vs, v);
    } else {
      UsesUpExactly(f.path, Listed(b.uncaptured, f.path), f.doubles);
      IdsCount(vs, f.path, v.id);
    }
  }

  lemma StaleOwed(f: Source, b: Baseline, v: Violation)
    requires v.Stale?
    ensures var left := UseUp(f.path, Listed(b.uncaptured, f.path), f.doubles).left;
            multiset(StaleEntries(f.path, left))[v] == Owed(f, b, v)
  {
    var left := UseUp(f.path, Listed(b.uncaptured, f.path), f.doubles).left;
    if v.path != f.path {
      NoneOfThem(StaleEntries(f.path, left), v);
    } else {
      UsesUpExactly(f.path, Listed(b.uncaptured, f.path), f.doubles);
      StaleCount(f.path, left, v.id);
    }
  }

  lemma AddCounts(a: seq<Violation>, b: seq<Violation>, c: seq<Violation>, v: Violation)
    ensures multiset(a + b + c)[v] == multiset(a)[v] + multiset(b)[v] + multiset(c)[v]
  {
  }

  lemma CountOwed(f: Source, b: Baseline, v: Violation)
    requires v.Above? || v.Below?
    ensures multiset(CountViolation(f.path, Nonconforming(f.doubles, f.errors), Allowed(b.nonconforming, f.path)))[v]
            == Owed(f, b, v)
  {
    CountIs(f);
  }

  lemma FileOwed(f: Source, b: Baseline, v: Violation)
    ensures multiset(FileViolations(f, b))[v] == Owed(f, b, v)
  {
    var use := UseUp(f.path, Listed(b.uncaptured, f.path), f.doubles);
    var count := CountViolation(f.path, Nonconforming(f.doubles, f.errors), Allowed(b.nonconforming, f.path));
    var stale := StaleEntries(f.path, use.left);
    AddCounts(count, use.violations, stale, v);
    UseIsCapture(f.path, Listed(b.uncaptured, f.path), f.doubles);
    if IsCapture(v) {
      CapturesOwed(f, b, v);
      NoneOfThem(count, v);
      NoneOfThem(stale, v);
    } else if v.Stale? {
      StaleOwed(f, b, v);
      NoneOfThem(count, v);
      NoneOfThem(use.violations, v);
    } else {
      CountOwed(f, b, v);
      NoneOfThem(use.violations, v);
      NoneOfThem(stale, v);
    }
  }

  /**
   * Each violation is reported as often as the files owe it: a count above or below its entry, a fixture that does
   * not validate, a double that the list has no place for, an entry that no double takes. The entries of missing
   * files are those that no file has the path of.
   */
  lemma ReportsExactly(files: seq<Source>, b: Baseline, v: Violation, path: string)
    ensures var r := Check(files, b);
            && multiset(r.violations)[v] == OwedBy(files, b, v)
            && (path in r.missingCounts <==> path in b.nonconforming && forall f | f in files :: f.path != path)
            && (path in r.missingUncaptured <==> path in b.uncaptured && forall f | f in files :: f.path != path)
  {
    FilesOwe(files, b, v);
    if f :| f in files && f.path == path {
      var i :| 0 <= i < |files| && files[i] == f;
    }
  }

  lemma {:induction false} FilesOwe(files: seq<Source>, b: Baseline, v: Violation)
    ensures multiset(Violations(files, b))[v] == OwedBy(files, b, v)
  {
    if files != [] {
      var front, f := files[..|files| - 1], files[|files| - 1];
      FilesOwe(front, b, v);
      FileOwed(f, b, v);
      assert multiset(Violations(files, b)) == multiset(Violations(front, b)) + multiset(FileViolations(f, b));
    }
  }

  /** What is observed of a file: how many of its doubles are wrong, and what its list has of what they need. */
  lemma ObservedExactly(files: seq<Source>, b: Baseline, i: nat)
    requires DistinctPaths(files) && i < |files|
    ensures var f, o := files[i], Check(files, b).observed;
            var listed := if f.path in b.uncaptured then multiset(b.uncaptured[f.path]) else multiset{};
            var kept := Uncaptured(f.doubles) * listed;
            && (f.path in o.nonconforming <==> WrongPlaces(f) != {})
            && (f.path in o.nonconforming ==> o.nonconforming[f.path] == |WrongPlaces(f)|)
            && (f.path in o.uncaptured <==> kept != multiset{})
            && (f.path in o.uncaptured ==> multiset(o.uncaptured[f.path]) == kept)
    ensures forall p | p in Check(files, b).observed.nonconforming.Keys + Check(files, b).observed.uncaptured.Keys ::
              exists f :: f in files && f.path == p
  {
    var f := files[i];
    ObservedAt(files, b, i);
    ObservedIsPositive(files, b);
    ObservedOnly(files, b);
    CountIs(f);
    UsesUpExactly(f.path, Listed(b.uncaptured, f.path), f.doubles);
  }
}
