/**
 * The ways the parity run compares JSON bodies with their key order: the list of order differences, the
 * tree of key orders, and the canonical pair lists. They agree on what "the same, in the same order" is.
 */
module OrderedJson {
  import opened Options
  import opened Decimals
  import opened J = JsonValues
  import opened Sequences

  /** A parsed body. */
  type Json = J.Json<real>

  /** What a parser returns; any number will do. */
  predicate WellFormed(v: Json) {
    J.WellFormed(v, (n: real) => true)
  }

  /** Scalars compare as the harness's language compares them: a boolean is the number one or zero. */
  function Numeric(v: Json): Option<real> {
    match v
    case Bool(b) => Some(if b then 1.0 else 0.0)
    case Num(n) => Some(n)
    case _ => None
  }

  predicate SameScalar(a: Json, b: Json) {
    if Numeric(a).Some? || Numeric(b).Some? then Numeric(a) == Numeric(b) else a == b
  }

  function Get(ms: seq<(string, Json)>, k: string): (r: Option<Json>) {
    if ms == [] then None else if ms[0].0 == k then Some(ms[0].1) else Get(ms[1..], k)
  }

  function Keys(ms: seq<(string, Json)>): (ks: seq<string>)
    ensures |ks| == |ms| && forall i | 0 <= i < |ms| :: ks[i] == ms[i].0
  {
    seq(|ms|, i requires 0 <= i < |ms| => ms[i].0)
  }

  /** Value equality: objects ignore the order of their keys. */
  predicate Equal(a: Json, b: Json) {
    if a.Obj? && b.Obj? then
      && |a.members| == |b.members|
      && forall i | 0 <= i < |a.members| ::
           var other := Get(b.members, a.members[i].0);
           other.Some? && Equal(a.members[i].1, other.value)
    else if a.Arr? && b.Arr? then
      |a.items| == |b.items| && forall i | 0 <= i < |a.items| :: Equal(a.items[i], b.items[i])
    else !a.Obj? && !b.Obj? && !a.Arr? && !b.Arr? && SameScalar(a, b)
  }

  /** Equality that keeps the order of keys at every depth. */
  predicate SameOrdered(a: Json, b: Json) {
    if a.Obj? && b.Obj? then
      && |a.members| == |b.members|
      && forall i | 0 <= i < |a.members| ::
           a.members[i].0 == b.members[i].0 && SameOrdered(a.members[i].1, b.members[i].1)
    else if a.Arr? && b.Arr? then
      |a.items| == |b.items| && forall i | 0 <= i < |a.items| :: SameOrdered(a.items[i], b.items[i])
    else !a.Obj? && !b.Obj? && !a.Arr? && !b.Arr? && SameScalar(a, b)
  }

  // ---------- the list of differences ----------

  datatype Step = Key(k: string) | Index(i: nat)

  type Path = seq<Step>

  /** What a difference reports of one side: its keys, its length, or that it has another kind. */
  datatype Shape = KeyList(keys: seq<string>) | Length(n: nat) | Otherwise

  datatype Difference = Difference(path: Path, bun: Shape, native: Shape)

  function KeyShape(v: Json): Shape {
    if v.Obj? then KeyList(Keys(v.members)) else Otherwise
  }

  function LengthShape(v: Json): Shape {
    if v.Arr? then Length(|v.items|) else Otherwise
  }

  /** What one pair of values reports about itself. */
  function Here(a: Json, b: Json, path: Path): seq<Difference> {
    if a.Obj? || b.Obj? then
      if KeyShape(a) != KeyShape(b) then [Difference(path, KeyShape(a), KeyShape(b))] else []
    else if a.Arr? || b.Arr? then
      if LengthShape(a) != LengthShape(b) then [Difference(path, LengthShape(a), LengthShape(b))] else []
    else []
  }

  function Differences(a: Json, b: Json, path: Path): seq<Difference>
    decreases a, 1
  {
    Here(a, b, path) + Inside(a, b, path)
  }

  /** Only where both sides have the same kind are their parts compared. */
  function Inside(a: Json, b: Json, path: Path): seq<Difference>
    decreases a, 0
  {
    if a.Obj? && b.Obj? then InMembers(a.members, b.members, path)
    else if a.Arr? && b.Arr? then InItems(a.items, b.items, path, 0)
    else []
  }

  function InMembers(ms: seq<(string, Json)>, ns: seq<(string, Json)>, path: Path): seq<Difference>
    decreases ms, 1
  {
    if ms == [] then [] else InMember(ms[0], ns, path) + InMembers(ms[1..], ns, path)
  }

  /** The key must be on both sides to be followed. */
  function InMember(m: (string, Json), ns: seq<(string, Json)>, path: Path): seq<Difference>
    decreases m, 2
  {
    match Get(ns, m.0)
    case None => []
    case Some(other) => Differences(m.1, other, path + [Key(m.0)])
  }

  /** Items are paired by place as far as both lists go; `n` is the place of the first. */
  function InItems(xs: seq<Json>, ys: seq<Json>, path: Path, n: nat): seq<Difference>
    decreases xs, 1
  {
    if xs == [] || ys == [] then []
    else Differences(xs[0], ys[0], path + [Index(n)]) + InItems(xs[1..], ys[1..], path, n + 1)
  }

  method CollectDifferences(bun: Json, native: Json, path: Path) returns (out: seq<Difference>)
    ensures out == Differences(bun, native, path)
    decreases bun, 1
  {
    out := [];
    if bun.Obj? || native.Obj? {
      var left, right := KeyShape(bun), KeyShape(native);
      if left != right {
        out := out + [Difference(path, left, right)];
      }
      if bun.Obj? && native.Obj? {
        var inside := CollectMembers(bun, native, path);
        out := out + inside;
      }
    } else if bun.Arr? || native.Arr? {
      if LengthShape(bun) != LengthShape(native) {
        out := out + [Difference(path, LengthShape(bun), LengthShape(native))];
      }
      if bun.Arr? && native.Arr? {
        var inside := CollectItems(bun.items, native.items, path);
        out := out + inside;
      }
    }
  }

  method CollectMembers(bun: Json, native: Json, path: Path) returns (out: seq<Difference>)
    requires bun.Obj? && native.Obj?
    ensures out == InMembers(bun.members, native.members, path)
    decreases bun, 0
  {
    var ms, ns := bun.members, native.members;
    out := [];
    for i := 0 to |ms|
      invariant out + InMembers(ms[i..], ns, path) == InMembers(ms, ns, path)
    {
      assert ms[i..][1..] == ms[i + 1..];
      ghost var before := out;
      Regroup(before, InMember(ms[i], ns, path), InMembers(ms[i + 1..], ns, path));
      var other := Get(ns, ms[i].0);
      if other.Some? {
        var inside := CollectDifferences(ms[i].1, other.value, path + [Key(ms[i].0)]);
        assert inside == InMember(ms[i], ns, path);
        out := out + inside;
      } else {
        assert InMember(ms[i], ns, path) == [] && before + [] == before;
      }
    }
  }

  method CollectItems(xs: seq<Json>, ys: seq<Json>, path: Path) returns (out: seq<Difference>)
    ensures out == InItems(xs, ys, path, 0)
    decreases xs, 1
  {
    out := [];
    var i := 0;
    while i < |xs| && i < |ys|
      invariant i <= |xs| && i <= |ys|
      invariant out + InItems(xs[i..], ys[i..], path, i) == InItems(xs, ys, path, 0)
    {
      assert xs[i..][1..] == xs[i + 1..] && ys[i..][1..] == ys[i + 1..];
      ghost var before := out;
      var inside := CollectDifferences(xs[i], ys[i], path + [Index(i)]);
      out := out + inside;
      Regroup(before, inside, InItems(xs[i + 1..], ys[i + 1..], path, i + 1));
      i := i + 1;
    }
  }

  // ---------- what the list reports ----------

  /** The value a path leads to. */
  function At(v: Json, p: Path): Option<Json>
    decreases |p|
  {
    if p == [] then Some(v)
    else
      match p[0]
      case Key(k) =>
        if v.Obj? && Get(v.members, k).Some? then At(Get(v.members, k).value, p[1..]) else None
      case Index(i) =>
        if v.Arr? && i < |v.items| then At(v.items[i], p[1..]) else None
  }

  /** Two values that disagree in kind, in their list of keys or in their length. */
  predicate Disagree(a: Json, b: Json) {
    if a.Obj? || b.Obj? then !(a.Obj? && b.Obj? && Keys(a.members) == Keys(b.members))
    else if a.Arr? || b.Arr? then !(a.Arr? && b.Arr? && |a.items| == |b.items|)
    else false
  }

  ghost predicate CommonDisagreement(a: Json, b: Json, p: Path) {
    At(a, p).Some? && At(b, p).Some? && Disagree(At(a, p).value, At(b, p).value)
  }

  /** How often a path is reported. */
  function Reports(ds: seq<Difference>, p: Path): nat {
    if ds == [] then 0 else (if ds[0].path == p then 1 else 0) + Reports(ds[1..], p)
  }

  lemma {:induction false} ReportsConcat(a: seq<Difference>, b: seq<Difference>, p: Path)
    ensures Reports(a + b, p) == Reports(a, p) + Reports(b, p)
    decreases |a|
  {
    if a == [] {
      assert a + b == b;
    } else {
      assert (a + b)[1..] == a[1..] + b;
      ReportsConcat(a[1..], b, p);
    }
  }

  lemma HereReports(a: Json, b: Json, path: Path, p: Path)
    ensures Reports(Here(a, b, path), path + p) == if p == [] && Disagree(a, b) then 1 else 0
  {
    assert p != [] ==> |path + p| != |path|;
    assert p == [] ==> path + p == path;
    assert a.Obj? && b.Obj? ==> (KeyShape(a) == KeyShape(b) <==> Keys(a.members) == Keys(b.members));
  }

  /** Below `path` a path is reported once when the sides disagree there, and otherwise not at all. */
  lemma {:induction false} ReportsOf(a: Json, b: Json, path: Path, p: Path)
    requires WellFormed(a)
    ensures Reports(Differences(a, b, path), path + p) == if CommonDisagreement(a, b, p) then 1 else 0
    decreases a, 2
  {
    HereReports(a, b, path, p);
    InsideReports(a, b, path, p);
    ReportsConcat(Here(a, b, path), Inside(a, b, path), path + p);
    assert CommonDisagreement(a, b, []) == Disagree(a, b);
  }

  lemma {:induction false} InsideReports(a: Json, b: Json, path: Path, p: Path)
    requires WellFormed(a)
    ensures Reports(Inside(a, b, path), path + p) == if p != [] && CommonDisagreement(a, b, p) then 1 else 0
    decreases a, 1
  {
    if a.Obj? && b.Obj? {
      assert a == Obj(a.members) && b == Obj(b.members);
      MemberReports(a.members, b.members, path, p);
      FirstStepOf(a, b, p);
    } else if a.Arr? && b.Arr? {
      ArrayReports(a, b, path, p);
    } else {
      FirstStepOf(a, b, p);
    }
  }

  lemma {:induction false} ArrayReports(a: Json, b: Json, path: Path, p: Path)
    requires WellFormed(a) && a.Arr? && b.Arr?
    ensures Reports(Inside(a, b, path), path + p) == if p != [] && CommonDisagreement(a, b, p) then 1 else 0
    decreases a, 0
  {
    ItemReports(a.items, b.items, path, 0, p);
    ItemStep(a, b, p);
  }

  /** A common path that goes further takes a key of two objects or an index of two arrays. */
  lemma FirstStepOf(a: Json, b: Json, p: Path)
    ensures p != [] && CommonDisagreement(a, b, p) ==>
              (a.Obj? && b.Obj? && p[0].Key?) || (a.Arr? && b.Arr? && p[0].Index?)
  {
  }

  lemma ItemStep(a: Json, b: Json, p: Path)
    requires a.Arr? && b.Arr?
    ensures p != [] ==>
              (CommonDisagreement(a, b, p)
               <==> p[0].Index? && p[0].i < |a.items| && p[0].i < |b.items|
                    && CommonDisagreement(a.items[p[0].i], b.items[p[0].i], p[1..]))
  {
  }

  lemma {:induction false} MemberReports(ms: seq<(string, Json)>, ns: seq<(string, Json)>, path: Path, p: Path)
    requires DistinctKeys(ms) && forall i | 0 <= i < |ms| :: WellFormed(ms[i].1)
    ensures Reports(InMembers(ms, ns, path), path + p)
            == if p != [] && p[0].Key? && CommonDisagreement(Obj(ms), Obj(ns), p) then 1 else 0
    decreases ms, 1
  {
    if ms != [] {
      var rest := ms[1..];
      ReportsConcat(InMember(ms[0], ns, path), InMembers(rest, ns, path), path + p);
      OneMember(ms[0], ns, path, p);
      MemberReports(rest, ns, path, p);
      if p != [] && p[0].Key? && p[0].k == ms[0].0 {
        GetNone(rest, p[0].k);
      }
    }
  }

  lemma {:induction false} GetNone(ms: seq<(string, Json)>, k: string)
    requires forall i | 0 <= i < |ms| :: ms[i].0 != k
    ensures Get(ms, k) == None
  {
    if ms != [] { GetNone(ms[1..], k); }
  }

  lemma {:induction false} OneMember(m: (string, Json), ns: seq<(string, Json)>, path: Path, p: Path)
    requires WellFormed(m.1)
    ensures Reports(InMember(m, ns, path), path + p)
            == if && p != [] && p[0] == Key(m.0) && Get(ns, m.0).Some?
                  && CommonDisagreement(m.1, Get(ns, m.0).value, p[1..]) then 1 else 0
    decreases m, 2
  {
    if Get(ns, m.0).Some? {
      Below(m.1, Get(ns, m.0).value, path, Key(m.0), p);
    }
  }

  lemma {:induction false} Below(a: Json, b: Json, path: Path, step: Step, p: Path)
    requires WellFormed(a)
    ensures Reports(Differences(a, b, path + [step]), path + p)
            == if p != [] && p[0] == step && CommonDisagreement(a, b, p[1..]) then 1 else 0
    decreases a, 3
  {
    if p != [] && p[0] == step {
      assert path + p == (path + [step]) + p[1..];
      ReportsOf(a, b, path + [step], p[1..]);
    } else {
      AllBelow(a, b, path + [step]);
      if p == [] {
        assert !(path + [step] <= path + p);
      } else {
        assert (path + p)[|path|] == p[0] && (path + [step])[|path|] == step;
      }
      NotReported(Differences(a, b, path + [step]), path + [step], path + p);
    }
  }

  lemma {:induction false} NotReported(ds: seq<Difference>, prefix: Path, p: Path)
    requires (forall d | d in ds :: prefix <= d.path) && !(prefix <= p)
    ensures Reports(ds, p) == 0
  {
    if ds != [] { NotReported(ds[1..], prefix, p); }
  }

  lemma {:induction false} AllBelow(a: Json, b: Json, path: Path)
    ensures forall d | d in Differences(a, b, path) :: path <= d.path
    decreases a, 0
  {
    if a.Obj? && b.Obj? {
      MembersBelow(a.members, b.members, path);
    } else if a.Arr? && b.Arr? {
      ItemsBelow(a.items, b.items, path, 0);
    }
  }

  lemma {:induction false} MembersBelow(ms: seq<(string, Json)>, ns: seq<(string, Json)>, path: Path)
    ensures forall d | d in InMembers(ms, ns, path) :: path <= d.path
    decreases ms, 1
  {
    if ms != [] {
      MemberBelow(ms[0], ns, path);
      MembersBelow(ms[1..], ns, path);
    }
  }

  lemma {:induction false} MemberBelow(m: (string, Json), ns: seq<(string, Json)>, path: Path)
    ensures forall d | d in InMember(m, ns, path) :: path <= d.path
    decreases m, 2
  {
    if Get(ns, m.0).Some? {
      AllBelow(m.1, Get(ns, m.0).value, path + [Key(m.0)]);
      forall d | d in InMember(m, ns, path) ensures path <= d.path {
        assert path + [Key(m.0)] <= d.path;
      }
    }
  }

  lemma {:induction false} ItemsBelow(xs: seq<Json>, ys: seq<Json>, path: Path, n: nat)
    ensures forall d | d in InItems(xs, ys, path, n) :: path <= d.path
    decreases xs, 1
  {
    if xs != [] && ys != [] {
      AllBelow(xs[0], ys[0], path + [Index(n)]);
      ItemsBelow(xs[1..], ys[1..], path, n + 1);
      forall d | d in Differences(xs[0], ys[0], path + [Index(n)]) ensures path <= d.path {
        assert path + [Index(n)] <= d.path;
      }
    }
  }

  lemma {:induction false} ItemReports(xs: seq<Json>, ys: seq<Json>, path: Path, n: nat, p: Path)
    requires forall i | 0 <= i < |xs| :: WellFormed(xs[i])
    ensures Reports(InItems(xs, ys, path, n), path + p)
            == if && p != [] && p[0].Index? && n <= p[0].i && p[0].i - n < |xs| && p[0].i - n < |ys|
                  && CommonDisagreement(xs[p[0].i - n], ys[p[0].i - n], p[1..]) then 1 else 0
    decreases xs, 1
  {
    if xs != [] && ys != [] {
      ReportsConcat(Differences(xs[0], ys[0], path + [Index(n)]), InItems(xs[1..], ys[1..], path, n + 1), path + p);
      Below(xs[0], ys[0], path, Index(n), p);
      ItemReports(xs[1..], ys[1..], path, n + 1, p);
    }
  }

  /** The list names exactly the common paths where the sides disagree, each once. */
  lemma ReportsExactly(a: Json, b: Json, p: Path)
    requires WellFormed(a)
    ensures Reports(Differences(a, b, []), p) == if CommonDisagreement(a, b, p) then 1 else 0
  {
    ReportsOf(a, b, [], p);
    assert [] + p == p;
  }

  lemma {:induction false} GetAt(ms: seq<(string, Json)>, i: nat)
    requires DistinctKeys(ms) && i < |ms|
    ensures Get(ms, ms[i].0) == Some(ms[i].1)
  {
    if i > 0 { GetAt(ms[1..], i - 1); }
  }

  lemma {:induction false} WhichMember(ms: seq<(string, Json)>, ns: seq<(string, Json)>, path: Path, d: Difference)
    returns (i: nat)
    requires d in InMembers(ms, ns, path)
    ensures i < |ms| && d in InMember(ms[i], ns, path)
  {
    if d in InMember(ms[0], ns, path) {
      i := 0;
    } else {
      i := WhichMember(ms[1..], ns, path, d);
      i := i + 1;
    }
  }

  lemma {:induction false} WhichItem(xs: seq<Json>, ys: seq<Json>, path: Path, n: nat, d: Difference) returns (i: nat)
    requires d in InItems(xs, ys, path, n)
    ensures i < |xs| && i < |ys| && d in Differences(xs[i], ys[i], path + [Index(n + i)])
  {
    if d in Differences(xs[0], ys[0], path + [Index(n)]) {
      i := 0;
    } else {
      i := WhichItem(xs[1..], ys[1..], path, n + 1, d);
      i := i + 1;
    }
  }

  lemma StepFirst(path: Path, step: Step, rest: Path)
    ensures path + ([step] + rest) == path + [step] + rest && ([step] + rest)[0] == step && ([step] + rest)[1..] == rest
  {
  }

  lemma AtKey(ms: seq<(string, Json)>, k: string, v: Json, q: Path)
    requires Get(ms, k) == Some(v)
    ensures At(Obj(ms), [Key(k)] + q) == At(v, q)
  {
    assert ([Key(k)] + q)[1..] == q;
  }

  lemma AtIndex(xs: seq<Json>, i: nat, q: Path)
    requires i < |xs|
    ensures At(Arr(xs), [Index(i)] + q) == At(xs[i], q)
  {
    assert ([Index(i)] + q)[1..] == q;
  }

  /** The difference stands at path p below `path` and shows the two values there. */
  ghost predicate Shows(a: Json, b: Json, path: Path, p: Path, d: Difference) {
    d.path == path + p && At(a, p).Some? && At(b, p).Some?
    && Here(At(a, p).value, At(b, p).value, path + p) == [d]
  }

  lemma ShowsUnderKey(ms: seq<(string, Json)>, ns: seq<(string, Json)>, k: string, a: Json, b: Json, path: Path,
                      q: Path, d: Difference)
    requires Get(ms, k) == Some(a) && Get(ns, k) == Some(b) && Shows(a, b, path + [Key(k)], q, d)
    ensures Shows(Obj(ms), Obj(ns), path, [Key(k)] + q, d)
  {
    AtKey(ms, k, a, q);
    AtKey(ns, k, b, q);
    StepFirst(path, Key(k), q);
  }

  lemma ShowsUnderIndex(xs: seq<Json>, ys: seq<Json>, i: nat, path: Path, q: Path, d: Difference)
    requires i < |xs| && i < |ys| && Shows(xs[i], ys[i], path + [Index(i)], q, d)
    ensures Shows(Arr(xs), Arr(ys), path, [Index(i)] + q, d)
  {
    AtIndex(xs, i, q);
    AtIndex(ys, i, q);
    StepFirst(path, Index(i), q);
  }

  lemma ShowsHere(a: Json, b: Json, path: Path, d: Difference)
    requires d in Here(a, b, path)
    ensures Shows(a, b, path, [], d)
  {
    assert path + [] == path;
  }

  /** What a difference shows is what the two values at its path show of themselves. */
  lemma {:induction false} ShowsTheValues(a: Json, b: Json, path: Path, d: Difference) returns (p: Path)
    requires WellFormed(a) && d in Differences(a, b, path)
    ensures d.path == path + p && At(a, p).Some? && At(b, p).Some?
    ensures Here(At(a, p).value, At(b, p).value, path + p) == [d]
  {
    p := WhereShown(a, b, path, d);
  }

  lemma {:induction false} WhereShown(a: Json, b: Json, path: Path, d: Difference) returns (p: Path)
    requires WellFormed(a) && d in Differences(a, b, path)
    ensures Shows(a, b, path, p, d)
    decreases a
  {
    if d in Here(a, b, path) {
      ShowsHere(a, b, path, d);
      p := [];
    } else if a.Obj? && b.Obj? {
      var i := WhichMember(a.members, b.members, path, d);
      var m := a.members[i];
      var q := WhereShown(m.1, Get(b.members, m.0).value, path + [Key(m.0)], d);
      GetAt(a.members, i);
      ShowsUnderKey(a.members, b.members, m.0, m.1, Get(b.members, m.0).value, path, q, d);
      p := [Key(m.0)] + q;
    } else {
      var i := WhichItem(a.items, b.items, path, 0, d);
      var q := WhereShown(a.items[i], b.items[i], path + [Index(i)], d);
      ShowsUnderIndex(a.items, b.items, i, path, q, d);
      p := [Index(i)] + q;
    }
  }

  // ---------- paths as text ----------

  function IndexText(n: nat): string {
    "[" + (Decimal(n) + "]")
  }

  function StepText(step: Step): string {
    match step
    case Key(k) => "." + k
    case Index(i) => IndexText(i)
  }

  function StepsText(p: Path): string {
    if p == [] then "" else StepsText(p[..|p| - 1]) + StepText(p[|p| - 1])
  }

  /** The path as text, as the report shows it. */
  function PathText(p: Path): string {
    "$" + StepsText(p)
  }

  predicate EndsWith(s: string, t: string) {
    |t| <= |s| && s[|s| - |t|..] == t
  }

  /** A key that reads as one step only: it holds no dot and does not end in an index. */
  ghost predicate PlainKey(k: string) {
    '.' !in k && forall n: nat :: !EndsWith(k, IndexText(n))
  }

  ghost predicate PlainStep(step: Step) {
    step.Key? ==> PlainKey(step.k)
  }

  ghost predicate PlainPath(p: Path) {
    forall i | 0 <= i < |p| :: PlainStep(p[i])
  }

  lemma DecimalReads(n: nat)
    ensures ReadDecimal(Decimal(n)) == n
    ensures '.' !in Decimal(n) && '[' !in Decimal(n)
  {
    ReadDecimalOf(n);
    assert forall c | c in Decimal(n) :: Digit(c);
  }

  /** The last mark of a text is found once. */
  lemma LastMark(c: char, a: string, k: string, b: string, l: string)
    requires c !in k && c !in l && a + ([c] + k) == b + ([c] + l)
    ensures a == b && k == l
  {
    var s := a + ([c] + k);
    assert s[|a|] == c && s[|b|] == c;
    assert forall i | |a| < i < |s| :: s[i] == k[i - |a| - 1];
    assert forall i | |b| < i < |s| :: s[i] == l[i - |b| - 1];
    assert |a| == |b|;
    assert s[..|a|] == a && s[..|b|] == b && s[|a| + 1..] == k && s[|b| + 1..] == l;
  }

  /** A dotless end of a text that goes on after a dot ends what follows the dot. */
  lemma EndAfterDot(a: string, k: string, b: string, t: string)
    requires '.' !in t && a + (['.'] + k) == b + t
    ensures EndsWith(k, t)
  {
    var s := a + (['.'] + k);
    assert s[|a|] == '.';
    assert s[|b|..] == t;
    assert s[|a| + 1..] == k;
    assert forall i | |b| <= i < |s| :: s[i] == t[i - |b|];
    assert |a| < |b|;
  }

  lemma IndexEndsKey(a: string, k: string, b: string, n: nat)
    requires a + StepText(Key(k)) == b + IndexText(n)
    ensures EndsWith(k, IndexText(n))
  {
    DecimalReads(n);
    EndAfterDot(a, k, b, IndexText(n));
  }

  lemma LastStep(a: string, x: Step, b: string, y: Step)
    requires PlainStep(x) && PlainStep(y) && a + StepText(x) == b + StepText(y)
    ensures a == b && x == y
  {
    if x.Key? && y.Key? {
      LastMark('.', a, x.k, b, y.k);
    } else if x.Key? {
      IndexEndsKey(a, x.k, b, y.i);
    } else if y.Key? {
      IndexEndsKey(b, y.k, a, x.i);
    } else {
      DecimalReads(x.i);
      DecimalReads(y.i);
      LastMark('[', a, Decimal(x.i) + "]", b, Decimal(y.i) + "]");
      assert Decimal(x.i) == (Decimal(x.i) + "]")[..|Decimal(x.i)|];
      assert Decimal(y.i) == (Decimal(y.i) + "]")[..|Decimal(y.i)|];
    }
  }

  lemma {:induction false} TextBounds(p: Path)
    ensures |p| <= |StepsText(p)|
  {
    if p != [] { TextBounds(p[..|p| - 1]); }
  }

  lemma {:induction false} StepsInjective(p: Path, q: Path)
    requires PlainPath(p) && PlainPath(q) && StepsText(p) == StepsText(q)
    ensures p == q
  {
    if p == [] || q == [] {
      TextBounds(p);
      TextBounds(q);
    } else {
      var m, n := |p| - 1, |q| - 1;
      LastStep(StepsText(p[..m]), p[m], StepsText(q[..n]), q[n]);
      StepsInjective(p[..m], q[..n]);
      LastBack(p);
      LastBack(q);
    }
  }

  lemma LastBack(p: Path)
    requires p != []
    ensures p == p[..|p| - 1] + [p[|p| - 1]]
  {
  }

  /** Paths of plain keys are told apart by their texts. */
  lemma PathTextInjective(p: Path, q: Path)
    requires PlainPath(p) && PlainPath(q) && PathText(p) == PathText(q)
    ensures p == q
  {
    assert PathText(p)[1..] == StepsText(p) && PathText(q)[1..] == StepsText(q);
    StepsInjective(p, q);
  }

  lemma {:induction false} StepsTextConcat(p: Path, q: Path)
    ensures StepsText(p + q) == StepsText(p) + StepsText(q)
    decreases |q|
  {
    if q == [] {
      assert p + q == p;
    } else {
      var m := |q| - 1;
      assert (p + q)[..|p + q| - 1] == p + q[..m];
      StepsTextConcat(p, q[..m]);
      Regroup(StepsText(p), StepsText(q[..m]), StepText(q[m]));
    }
  }

  lemma OneStep(x: Step)
    ensures StepsText([x]) == StepText(x)
  {
    assert [x][..0] == [];
  }

  lemma TwoSteps(x: Step, y: Step)
    ensures StepsText([x, y]) == StepText(x) + StepText(y)
  {
    assert [x, y][..1] == [x];
    OneStep(x);
  }

  lemma SameMiddle(p: Path, x: Path, y: Path, q: Path)
    requires StepsText(x) == StepsText(y)
    ensures PathText(p + x + q) == PathText(p + y + q)
  {
    StepsTextConcat(p + x, q);
    StepsTextConcat(p, x);
    StepsTextConcat(p + y, q);
    StepsTextConcat(p, y);
  }

  /** A key that continues with the text of a step reads as itself and that step, wherever it stands. */
  lemma KeySplits(p: Path, k: string, step: Step, q: Path)
    ensures PathText(p + [Key(k + StepText(step))] + q) == PathText(p + [Key(k), step] + q)
  {
    OneStep(Key(k + StepText(step)));
    TwoSteps(Key(k), step);
    Regroup(".", k, StepText(step));
    SameMiddle(p, [Key(k + StepText(step))], [Key(k), step], q);
  }

  lemma {:induction false} DotIn(k: string) returns (i: nat)
    requires '.' in k
    ensures i < |k| && k[i] == '.'
  {
    i :| 0 <= i < |k| && k[i] == '.';
  }

  lemma NotPlainSplits(k: string) returns (l: string, step: Step)
    requires !PlainKey(k)
    ensures k == l + StepText(step)
  {
    if '.' in k {
      var i := DotIn(k);
      l, step := k[..i], Key(k[i + 1..]);
    } else {
      var n: nat :| EndsWith(k, IndexText(n));
      l, step := k[..|k| - |IndexText(n)|], Index(n);
    }
  }

  lemma StepBack(p: Path, i: nat)
    requires i < |p|
    ensures p == p[..i] + [p[i]] + p[i + 1..]
  {
  }

  /** A path with a key that is not plain has the text of a path of one step more. */
  lemma Longer(p: Path, i: nat) returns (q: Path)
    requires i < |p| && !PlainStep(p[i])
    ensures |q| == |p| + 1 && PathText(q) == PathText(p)
  {
    var l, step := NotPlainSplits(p[i].k);
    KeySplits(p[..i], l, step, p[i + 1..]);
    StepBack(p, i);
    q := p[..i] + [Key(l), step] + p[i + 1..];
  }

  lemma {:induction false} Finest(p: Path) returns (q: Path)
    ensures PlainPath(q) && |p| <= |q| && PathText(q) == PathText(p)
    decreases |PathText(p)| - |p|
  {
    if i :| 0 <= i < |p| && !PlainStep(p[i]) {
      q := Longer(p, i);
      TextBounds(q);
      q := Finest(q);
    } else {
      q := p;
    }
  }

  ghost predicate HasLonger(p: Path) {
    exists q :: |p| < |q| && PathText(q) == PathText(p)
  }

  /** A path's text reads as that of a longer path exactly when one of its keys is not plain. */
  lemma ReadsLongerExactly(p: Path)
    ensures HasLonger(p) <==> !PlainPath(p)
  {
    if i :| 0 <= i < |p| && !PlainStep(p[i]) {
      var q := Longer(p, i);
    } else if q :| |p| < |q| && PathText(q) == PathText(p) {
      var r := Finest(q);
      PathTextInjective(r, p);
    }
  }

  /** Every key of the body, at any depth, is plain. */
  ghost predicate PlainKeys(v: Json) {
    match v
    case Arr(xs) => forall i | 0 <= i < |xs| :: PlainKeys(xs[i])
    case Obj(ms) => forall i | 0 <= i < |ms| :: PlainKey(ms[i].0) && PlainKeys(ms[i].1)
    case _ => true
  }

  lemma {:induction false} GetIsMember(ms: seq<(string, Json)>, k: string) returns (i: nat)
    requires Get(ms, k).Some?
    ensures i < |ms| && ms[i].0 == k && ms[i].1 == Get(ms, k).value
  {
    if ms[0].0 == k {
      i := 0;
    } else {
      i := GetIsMember(ms[1..], k);
      i := i + 1;
    }
  }

  lemma {:induction false} PathIsPlain(v: Json, p: Path)
    requires PlainKeys(v) && At(v, p).Some?
    ensures PlainPath(p)
    decreases |p|
  {
    if p != [] {
      if p[0].Key? {
        var i := GetIsMember(v.members, p[0].k);
        PathIsPlain(v.members[i].1, p[1..]);
      } else {
        PathIsPlain(v.items[p[0].i], p[1..]);
      }
      assert p == [p[0]] + p[1..];
    }
  }

  /** How often a text is reported. */
  function TextReports(ds: seq<Difference>, text: string): nat {
    if ds == [] then 0 else (if PathText(ds[0].path) == text then 1 else 0) + TextReports(ds[1..], text)
  }

  lemma {:induction false} TextsAreReports(ds: seq<Difference>, p: Path)
    requires PlainPath(p) && forall i | 0 <= i < |ds| :: PlainPath(ds[i].path)
    ensures TextReports(ds, PathText(p)) == Reports(ds, p)
  {
    if ds != [] {
      if PathText(ds[0].path) == PathText(p) { PathTextInjective(ds[0].path, p); }
      TextsAreReports(ds[1..], p);
    }
  }

  lemma {:induction false} NoText(ds: seq<Difference>, text: string)
    requires forall i | 0 <= i < |ds| :: PathText(ds[i].path) != text
    ensures TextReports(ds, text) == 0
  {
    if ds != [] { NoText(ds[1..], text); }
  }

  lemma {:induction false} ReportedHere(ds: seq<Difference>, i: nat)
    requires i < |ds|
    ensures Reports(ds, ds[i].path) > 0
  {
    if i > 0 { ReportedHere(ds[1..], i - 1); }
  }

  ghost predicate DisagreementText(a: Json, b: Json, text: string) {
    exists p :: CommonDisagreement(a, b, p) && PathText(p) == text
  }

  /** On bodies with such keys the reported texts are those of the common disagreements, each once. */
  lemma TextsReportedOnce(a: Json, b: Json, text: string)
    requires WellFormed(a) && PlainKeys(a)
    ensures TextReports(Differences(a, b, []), text) == if DisagreementText(a, b, text) then 1 else 0
  {
    var ds := Differences(a, b, []);
    forall i | 0 <= i < |ds| ensures CommonDisagreement(a, b, ds[i].path) && PlainPath(ds[i].path) {
      ReportedHere(ds, i);
      ReportsExactly(a, b, ds[i].path);
      PathIsPlain(a, ds[i].path);
    }
    if DisagreementText(a, b, text) {
      var p :| CommonDisagreement(a, b, p) && PathText(p) == text;
      PathIsPlain(a, p);
      TextsAreReports(ds, p);
      ReportsExactly(a, b, p);
    } else {
      NoText(ds, text);
    }
  }

  // ---------- the three comparisons ----------

  lemma {:induction false} NoneInMembers(ms: seq<(string, Json)>, ns: seq<(string, Json)>, path: Path, i: nat)
    requires InMembers(ms, ns, path) == [] && i < |ms|
    ensures InMember(ms[i], ns, path) == []
  {
    if i > 0 { NoneInMembers(ms[1..], ns, path, i - 1); }
  }

  lemma {:induction false} AllNoneInMembers(ms: seq<(string, Json)>, ns: seq<(string, Json)>, path: Path)
    requires forall i | 0 <= i < |ms| :: InMember(ms[i], ns, path) == []
    ensures InMembers(ms, ns, path) == []
  {
    if ms != [] { AllNoneInMembers(ms[1..], ns, path); }
  }

  lemma {:induction false} NoneInItems(xs: seq<Json>, ys: seq<Json>, path: Path, n: nat, i: nat)
    requires InItems(xs, ys, path, n) == [] && i < |xs| && i < |ys|
    ensures Differences(xs[i], ys[i], path + [Index(n + i)]) == []
  {
    if i > 0 { NoneInItems(xs[1..], ys[1..], path, n + 1, i - 1); }
  }

  lemma {:induction false} AllNoneInItems(xs: seq<Json>, ys: seq<Json>, path: Path, n: nat)
    requires |xs| == |ys|
    requires forall i | 0 <= i < |xs| :: Differences(xs[i], ys[i], path + [Index(n + i)]) == []
    ensures InItems(xs, ys, path, n) == []
  {
    if xs != [] {
      forall i | 0 <= i < |xs[1..]| ensures Differences(xs[1..][i], ys[1..][i], path + [Index(n + 1 + i)]) == [] {
        assert xs[1..][i] == xs[i + 1] && ys[1..][i] == ys[i + 1];
      }
      AllNoneInItems(xs[1..], ys[1..], path, n + 1);
    }
  }

  /** Ordered equality implies value equality and no difference. */
  lemma {:induction false} OrderedIsClean(a: Json, b: Json, path: Path)
    requires WellFormed(a) && WellFormed(b) && SameOrdered(a, b)
    ensures Equal(a, b) && Differences(a, b, path) == []
    decreases a
  {
    if a.Obj? && b.Obj? {
      var ms, ns := a.members, b.members;
      forall i | 0 <= i < |ms|
        ensures Get(ns, ms[i].0).Some? && Equal(ms[i].1, Get(ns, ms[i].0).value) && InMember(ms[i], ns, path) == []
      {
        GetAt(ns, i);
        OrderedIsClean(ms[i].1, ns[i].1, path + [Key(ms[i].0)]);
      }
      assert Keys(ms) == Keys(ns);
      AllNoneInMembers(ms, ns, path);
    } else if a.Arr? && b.Arr? {
      var xs, ys := a.items, b.items;
      forall i | 0 <= i < |xs| ensures Equal(xs[i], ys[i]) && Differences(xs[i], ys[i], path + [Index(0 + i)]) == [] {
        OrderedIsClean(xs[i], ys[i], path + [Index(0 + i)]);
      }
      AllNoneInItems(xs, ys, path, 0);
    }
  }

  lemma NoneBelow(a: Json, b: Json, path: Path)
    requires Differences(a, b, path) == []
    ensures !Disagree(a, b)
    ensures a.Obj? && b.Obj? ==> InMembers(a.members, b.members, path) == []
    ensures a.Arr? && b.Arr? ==> InItems(a.items, b.items, path, 0) == []
  {
    assert Here(a, b, path) == [];
  }

  lemma {:induction false} CleanIsOrdered(a: Json, b: Json, path: Path)
    requires WellFormed(a) && WellFormed(b) && Equal(a, b) && Differences(a, b, path) == []
    ensures SameOrdered(a, b)
    decreases a, 1
  {
    NoneBelow(a, b, path);
    if a.Obj? && b.Obj? {
      CleanMembers(a, b, path);
    } else if a.Arr? && b.Arr? {
      CleanItems(a.items, b.items, path);
    }
  }

  lemma {:induction false} CleanItems(xs: seq<Json>, ys: seq<Json>, path: Path)
    requires |xs| == |ys| && InItems(xs, ys, path, 0) == []
    requires forall i | 0 <= i < |xs| :: WellFormed(xs[i]) && WellFormed(ys[i]) && Equal(xs[i], ys[i])
    ensures forall i | 0 <= i < |xs| :: SameOrdered(xs[i], ys[i])
    decreases xs, 0
  {
    forall i | 0 <= i < |xs| ensures SameOrdered(xs[i], ys[i]) {
      NoneInItems(xs, ys, path, 0, i);
      CleanIsOrdered(xs[i], ys[i], path + [Index(0 + i)]);
    }
  }

  lemma {:induction false} CleanMembers(a: Json, b: Json, path: Path)
    requires a.Obj? && b.Obj? && WellFormed(a) && WellFormed(b) && Equal(a, b) && !Disagree(a, b)
    requires InMembers(a.members, b.members, path) == []
    ensures SameOrdered(a, b)
    decreases a, 0
  {
    var ms, ns := a.members, b.members;
    forall i | 0 <= i < |ms| ensures ms[i].0 == ns[i].0 && SameOrdered(ms[i].1, ns[i].1) {
      assert Keys(ms)[i] == Keys(ns)[i];
      CleanMember(ms, ns, path, i);
    }
  }

  lemma {:induction false} CleanMember(ms: seq<(string, Json)>, ns: seq<(string, Json)>, path: Path, i: nat)
    requires i < |ms| && i < |ns| && ms[i].0 == ns[i].0 && InMembers(ms, ns, path) == []
    requires DistinctKeys(ns) && WellFormed(ms[i].1) && WellFormed(ns[i].1)
    requires Get(ns, ms[i].0).Some? ==> Equal(ms[i].1, Get(ns, ms[i].0).value)
    ensures SameOrdered(ms[i].1, ns[i].1)
    decreases ms[i].1, 2
  {
    GetAt(ns, i);
    NoneInMembers(ms, ns, path, i);
    CleanIsOrdered(ms[i].1, ns[i].1, path + [Key(ms[i].0)]);
  }

  /** Lists, pairs and scalars of the harness's language, which the key orders and canonical forms are made of. */
  datatype Py = Nothing | Scalar(v: Json) | PyList(items: seq<Py>) | Pair(key: string, value: Py)

  predicate PyEqual(x: Py, y: Py) {
    match x
    case Nothing => y.Nothing?
    case Scalar(v) => y.Scalar? && SameScalar(v, y.v)
    case PyList(xs) =>
      y.PyList? && |xs| == |y.items| && forall i | 0 <= i < |xs| :: PyEqual(xs[i], y.items[i])
    case Pair(k, v) => y.Pair? && k == y.key && PyEqual(v, y.value)
  }

  /** `key_order`: an empty object and an empty array have the same order tree. */
  function KeyOrder(v: Json): Py {
    match v
    case Obj(ms) => PyList(seq(|ms|, i requires 0 <= i < |ms| => Pair(ms[i].0, KeyOrder(ms[i].1))))
    case Arr(xs) => PyList(seq(|xs|, i requires 0 <= i < |xs| => KeyOrder(xs[i])))
    case _ => Nothing
  }

  lemma {:induction false} OrderedKeyOrder(a: Json, b: Json)
    requires SameOrdered(a, b)
    ensures PyEqual(KeyOrder(a), KeyOrder(b))
  {
    if a.Obj? && b.Obj? {
      forall i | 0 <= i < |a.members| ensures PyEqual(KeyOrder(a).items[i], KeyOrder(b).items[i]) {
        OrderedKeyOrder(a.members[i].1, b.members[i].1);
      }
    } else if a.Arr? && b.Arr? {
      forall i | 0 <= i < |a.items| ensures PyEqual(KeyOrder(a).items[i], KeyOrder(b).items[i]) {
        OrderedKeyOrder(a.items[i], b.items[i]);
      }
    }
  }

  lemma {:induction false} KeyOrderOrdered(a: Json, b: Json)
    requires WellFormed(a) && WellFormed(b) && Equal(a, b) && PyEqual(KeyOrder(a), KeyOrder(b))
    ensures SameOrdered(a, b)
  {
    if a.Obj? && b.Obj? {
      forall i | 0 <= i < |a.members|
        ensures a.members[i].0 == b.members[i].0 && SameOrdered(a.members[i].1, b.members[i].1)
      {
        assert PyEqual(KeyOrder(a).items[i], KeyOrder(b).items[i]);
        GetAt(b.members, i);
        KeyOrderOrdered(a.members[i].1, b.members[i].1);
      }
    } else if a.Arr? && b.Arr? {
      forall i | 0 <= i < |a.items| ensures SameOrdered(a.items[i], b.items[i]) {
        assert PyEqual(KeyOrder(a).items[i], KeyOrder(b).items[i]);
        KeyOrderOrdered(a.items[i], b.items[i]);
      }
    }
  }

  /** Value equality with no order difference, and value equality with equal key orders, are one relation. */
  lemma OrderChecksAgree(a: Json, b: Json)
    requires WellFormed(a) && WellFormed(b)
    ensures Equal(a, b) && Differences(a, b, []) == [] <==> SameOrdered(a, b)
    ensures Equal(a, b) && PyEqual(KeyOrder(a), KeyOrder(b)) <==> SameOrdered(a, b)
  {
    if SameOrdered(a, b) {
      OrderedIsClean(a, b, []);
      OrderedKeyOrder(a, b);
    }
    if Equal(a, b) && Differences(a, b, []) == [] {
      CleanIsOrdered(a, b, []);
    }
    if Equal(a, b) && PyEqual(KeyOrder(a), KeyOrder(b)) {
      KeyOrderOrdered(a, b);
    }
  }

  const DYNAMIC := Str("<dynamic>")

  /** `canonical`: pair lists for objects, with the values of the masked keys replaced. */
  function Canonical(v: Json, masked: set<string>): Py {
    match v
    case Obj(ms) =>
      PyList(seq(|ms|, i requires 0 <= i < |ms| =>
        Pair(ms[i].0, if ms[i].0 in masked then Scalar(DYNAMIC) else Canonical(ms[i].1, masked))))
    case Arr(xs) => PyList(seq(|xs|, i requires 0 <= i < |xs| => Canonical(xs[i], masked)))
    case _ => Scalar(v)
  }

  /** What the canonical form can see: masked values are alike, and an empty object is an empty array. */
  function Seen(v: Json, masked: set<string>): Json {
    match v
    case Obj(ms) =>
      if ms == [] then Arr([])
      else
        Obj(seq(|ms|, i requires 0 <= i < |ms| =>
          (ms[i].0, if ms[i].0 in masked then DYNAMIC else Seen(ms[i].1, masked))))
    case Arr(xs) => Arr(seq(|xs|, i requires 0 <= i < |xs| => Seen(xs[i], masked)))
    case _ => v
  }

  lemma NeverPair(v: Json, masked: set<string>)
    ensures !Canonical(v, masked).Pair?
  {
    match v
    case Obj(_) =>
    case Arr(_) =>
    case _ =>
  }

  /** Canonical forms are equal exactly when what they can see is the same in the same order. */
  lemma {:induction false} CanonicalDecidesSeen(a: Json, b: Json, masked: set<string>)
    ensures PyEqual(Canonical(a, masked), Canonical(b, masked)) <==> SameOrdered(Seen(a, masked), Seen(b, masked))
  {
    var x, y := Canonical(a, masked), Canonical(b, masked);
    var c, d := Seen(a, masked), Seen(b, masked);
    if a.Obj? && b.Obj? && |a.members| == |b.members| {
      forall i | 0 <= i < |a.members|
        ensures PyEqual(x.items[i], y.items[i])
          <==> c.members[i].0 == d.members[i].0 && SameOrdered(c.members[i].1, d.members[i].1)
      {
        CanonicalDecidesSeen(a.members[i].1, b.members[i].1, masked);
      }
    } else if a.Arr? && b.Arr? && |a.items| == |b.items| {
      forall i | 0 <= i < |a.items|
        ensures PyEqual(x.items[i], y.items[i]) <==> SameOrdered(c.items[i], d.items[i])
      {
        CanonicalDecidesSeen(a.items[i], b.items[i], masked);
      }
    } else if a.Obj? && b.Arr? && a.members != [] && b.items != [] {
      NeverPair(b.items[0], masked);
      assert x.items[0].Pair? && y.items[0] == Canonical(b.items[0], masked);
    } else if a.Arr? && b.Obj? && a.items != [] && b.members != [] {
      NeverPair(a.items[0], masked);
      assert y.items[0].Pair? && x.items[0] == Canonical(a.items[0], masked);
    }
  }

  /** Without masks and without empty containers the canonical form is ordered equality itself. */
  ghost predicate NoEmptyObject(v: Json) {
    match v
    case Obj(ms) => ms != [] && forall i | 0 <= i < |ms| :: NoEmptyObject(ms[i].1)
    case Arr(xs) => forall i | 0 <= i < |xs| :: NoEmptyObject(xs[i])
    case _ => true
  }

  lemma {:induction false} SeenWhole(v: Json)
    requires NoEmptyObject(v)
    ensures Seen(v, {}) == v
  {
    match v
    case Obj(ms) =>
      forall i | 0 <= i < |ms| ensures Seen(ms[i].1, {}) == ms[i].1 { SeenWhole(ms[i].1); }
      assert Seen(v, {}).members == ms;
    case Arr(xs) =>
      forall i | 0 <= i < |xs| ensures Seen(xs[i], {}) == xs[i] { SeenWhole(xs[i]); }
      assert Seen(v, {}).items == xs;
    case _ =>
  }

  lemma CanonicalDecidesOrdered(a: Json, b: Json)
    requires NoEmptyObject(a) && NoEmptyObject(b)
    ensures PyEqual(Canonical(a, {}), Canonical(b, {})) <==> SameOrdered(a, b)
  {
    SeenWhole(a);
    SeenWhole(b);
    CanonicalDecidesSeen(a, b, {});
  }

  /** The blind spot itself, at any two places of the same body. */
  lemma EmptyContainersLookAlike()
    ensures PyEqual(Canonical(Obj([]), {}), Canonical(Arr([]), {})) && !Equal(Obj([]), Arr([]))
  {
    assert Canonical(Obj([]), {}).items == [] && Canonical(Arr([]), {}).items == [];
  }
}
