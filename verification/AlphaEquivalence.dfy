/**
 * First-appearance naming decides alpha-equivalence: two recordings normalise to equal values
 * exactly when one prefix-preserving bijection of identities carries one onto the other.
 */
module AlphaEquivalence {
  import opened IdentityNorm

  /** Which entries of two objects are compared: those in one position, or those with one key. */
  predicate Paired<I, J>(ordered: bool, es: seq<(string, Value<I>)>, fs: seq<(string, Value<J>)>, i: int, j: int) {
    0 <= i < |es| && 0 <= j < |fs| && es[i].0 == fs[j].0 && (ordered ==> i == j)
  }

  ghost predicate HasPartner<I, J>(ordered: bool, es: seq<(string, Value<I>)>, fs: seq<(string, Value<J>)>, i: int) {
    exists j :: Paired(ordered, es, fs, i, j)
  }

  ghost predicate KeysPair<I, J>(ordered: bool, es: seq<(string, Value<I>)>, fs: seq<(string, Value<J>)>) {
    |es| == |fs|
    && (forall i | 0 <= i < |es| :: HasPartner(ordered, es, fs, i))
    && (forall j | 0 <= j < |fs| :: HasPartner(ordered, fs, es, j))
  }

  /** Pairing looks at keys and positions only. */
  lemma SameKeysPair<I, J, K, L>(ordered: bool, es: seq<(string, Value<I>)>, fs: seq<(string, Value<J>)>,
                                 es': seq<(string, Value<K>)>, fs': seq<(string, Value<L>)>)
    requires |es| == |es'| && |fs| == |fs'|
    requires forall i | 0 <= i < |es| :: es[i].0 == es'[i].0
    requires forall i | 0 <= i < |fs| :: fs[i].0 == fs'[i].0
    ensures forall i, j :: Paired(ordered, es, fs, i, j) <==> Paired(ordered, es', fs', i, j)
    ensures KeysPair(ordered, es, fs) ==> KeysPair(ordered, es', fs')
  {
    if KeysPair(ordered, es, fs) {
      forall i | 0 <= i < |es| ensures HasPartner(ordered, es', fs', i) {
        assert HasPartner(ordered, es, fs, i);
        var j :| Paired(ordered, es, fs, i, j);
        assert Paired(ordered, es', fs', i, j);
      }
      forall j | 0 <= j < |fs| ensures HasPartner(ordered, fs', es', j) {
        assert HasPartner(ordered, fs, es, j);
        var i :| Paired(ordered, fs, es, j, i);
        assert Paired(ordered, fs', es', j, i);
      }
    }
  }

  /**
   * Equal structure with related identities. `ordered` compares objects entry by entry; otherwise
   * they are compared as the harness's `==` does, by key and in any order.
   */
  ghost predicate Rel<I, J>(ordered: bool, a: Value<I>, b: Value<J>, r: (I, J) -> bool) {
    match a
    case Dict(es) =>
      b.Dict? && KeysPair(ordered, es, b.entries)
      && forall i, j | Paired(ordered, es, b.entries, i, j) :: Rel(ordered, es[i].1, b.entries[j].1, r)
    case List(xs) => b.List? && |xs| == |b.items| && forall i | 0 <= i < |xs| :: Rel(ordered, xs[i], b.items[i], r)
    case Str(ts) => b.Str? && |ts| == |b.toks| && forall i | 0 <= i < |ts| :: RelTok(ts[i], b.toks[i], r)
    case Atom(m) => b == Atom(m)
  }

  ghost predicate RelTok<I, J>(t: Tok<I>, u: Tok<J>, r: (I, J) -> bool) {
    if t.Ch? then u.Ch? && t.c == u.c else u.Id? && r(t.id, u.id)
  }

  ghost predicate Renaming(f: map<Ident, Ident>, a: Value<Ident>, b: Value<Ident>) {
    f.Keys == (set x | x in Idents(a)) && f.Values == (set y | y in Idents(b))
    && (forall x, y | x in f && y in f && f[x] == f[y] :: x == y)
    && forall x | x in f :: f[x].prefix == x.prefix
  }

  function Apply(f: map<Ident, Ident>): Ident -> Ident {
    (x: Ident) => if x in f then f[x] else x
  }

  /** All a fresh normaliser shows of a recording. */
  ghost function Output(v: Value<Ident>): Value<Label> {
    MapValue(v, LabelOf(NameAll(map[], Idents(v))))
  }

  // ---------- relations under maps ----------

  lemma MapEntries<I, K>(es: seq<(string, Value<I>)>, g: I -> K)
    ensures var fs := MapValue(Dict(es), g).entries;
            |fs| == |es| && forall i | 0 <= i < |es| :: fs[i] == (es[i].0, MapValue(es[i].1, g))
  {
  }

  lemma {:induction false} RelMap<I, J, K, L>(ordered: bool, a: Value<I>, b: Value<J>, g: I -> K, h: J -> L,
                                              r: (I, J) -> bool, s: (K, L) -> bool)
    requires forall x, y :: r(x, y) <==> s(g(x), h(y))
    ensures Rel(ordered, a, b, r) <==> Rel(ordered, MapValue(a, g), MapValue(b, h), s)
  {
    if a.Dict? && b.Dict? {
      var es, fs := a.entries, b.entries;
      MapEntries(es, g);
      MapEntries(fs, h);
      var es', fs' := MapValue(a, g).entries, MapValue(b, h).entries;
      SameKeysPair(ordered, es, fs, es', fs');
      SameKeysPair(ordered, es', fs', es, fs);
      forall i, j | Paired(ordered, es, fs, i, j)
        ensures Rel(ordered, es[i].1, fs[j].1, r) <==> Rel(ordered, es'[i].1, fs'[j].1, s)
      {
        RelMap(ordered, es[i].1, fs[j].1, g, h, r, s);
      }
    } else if a.List? && b.List? && |a.items| == |b.items| {
      var xs', ys' := MapValue(a, g).items, MapValue(b, h).items;
      forall i | 0 <= i < |a.items|
        ensures Rel(ordered, a.items[i], b.items[i], r) <==> Rel(ordered, xs'[i], ys'[i], s)
      {
        RelMap(ordered, a.items[i], b.items[i], g, h, r, s);
      }
    } else if a.Str? && b.Str? && |a.toks| == |b.toks| {
      var ts', us' := MapToks(a.toks, g), MapToks(b.toks, h);
      forall i | 0 <= i < |a.toks| ensures RelTok(a.toks[i], b.toks[i], r) <==> RelTok(ts'[i], us'[i], s) {
      }
    }
  }

  /** Relating the identities that occur is all that matters. */
  lemma {:induction false} RelMono<I, J>(ordered: bool, a: Value<I>, b: Value<J>, r: (I, J) -> bool, s: (I, J) -> bool)
    requires Rel(ordered, a, b, r)
    requires forall x, y | x in Idents(a) && y in Idents(b) && r(x, y) :: s(x, y)
    ensures Rel(ordered, a, b, s)
  {
    match a
    case Dict(es) =>
      var fs := b.entries;
      forall i, j | Paired(ordered, es, fs, i, j) ensures Rel(ordered, es[i].1, fs[j].1, s) {
        EntryIdentsAt(es, i);
        EntryIdentsAt(fs, j);
        RelMono(ordered, es[i].1, fs[j].1, r, s);
      }
    case List(xs) =>
      forall i | 0 <= i < |xs| ensures Rel(ordered, xs[i], b.items[i], s) {
        ItemIdentsAt(xs, i);
        ItemIdentsAt(b.items, i);
        RelMono(ordered, xs[i], b.items[i], r, s);
      }
    case Str(ts) =>
      forall i | 0 <= i < |ts| ensures RelTok(ts[i], b.toks[i], s) {
        if ts[i].Id? {
          TokIdentsHas(ts, i);
          TokIdentsHas(b.toks, i);
        }
      }
    case Atom(_) =>
  }

  lemma {:induction false} RelFlip<I, J>(ordered: bool, a: Value<I>, b: Value<J>, r: (I, J) -> bool, s: (J, I) -> bool)
    requires Rel(ordered, a, b, r) && forall x, y :: r(x, y) <==> s(y, x)
    ensures Rel(ordered, b, a, s)
  {
    match a
    case Dict(es) =>
      var fs := b.entries;
      forall i, j ensures Paired(ordered, es, fs, i, j) <==> Paired(ordered, fs, es, j, i) {
      }
      forall j, i | Paired(ordered, fs, es, j, i) ensures Rel(ordered, fs[j].1, es[i].1, s) {
        assert Paired(ordered, es, fs, i, j);
        RelFlip(ordered, es[i].1, fs[j].1, r, s);
      }
      assert KeysPair(ordered, fs, es);
    case List(xs) =>
      forall i | 0 <= i < |xs| ensures Rel(ordered, b.items[i], xs[i], s) {
        RelFlip(ordered, xs[i], b.items[i], r, s);
      }
    case Str(ts) =>
      forall i | 0 <= i < |ts| ensures RelTok(b.toks[i], ts[i], s) {
        assert RelTok(ts[i], b.toks[i], r);
      }
    case Atom(_) =>
  }

  // where an identity occurs

  lemma {:induction false} EntryIdentsFrom<I>(es: seq<(string, Value<I>)>, x: I) returns (i: nat)
    requires x in EntryIdents(es)
    ensures i < |es| && x in Idents(es[i].1)
    decreases |es|
  {
    if x in Idents(es[0].1) {
      i := 0;
    } else {
      var k := EntryIdentsFrom(es[1..], x);
      i := k + 1;
    }
  }

  lemma {:induction false} ItemIdentsFrom<I>(xs: seq<Value<I>>, x: I) returns (i: nat)
    requires x in ItemIdents(xs)
    ensures i < |xs| && x in Idents(xs[i])
    decreases |xs|
  {
    if x in Idents(xs[0]) {
      i := 0;
    } else {
      var k := ItemIdentsFrom(xs[1..], x);
      i := k + 1;
    }
  }

  lemma {:induction false} TokIdentsFrom<I>(ts: seq<Tok<I>>, x: I) returns (i: nat)
    requires x in TokIdents(ts)
    ensures i < |ts| && ts[i] == Id(x)
    decreases |ts|
  {
    if ts[0] == Id(x) {
      i := 0;
    } else {
      var k := TokIdentsFrom(ts[1..], x);
      i := k + 1;
    }
  }

  /** Every identity on the left is related to one on the right. */
  lemma {:induction false} RelCovers<I, J>(ordered: bool, a: Value<I>, b: Value<J>, r: (I, J) -> bool, x: I)
      returns (y: J)
    requires Rel(ordered, a, b, r) && x in Idents(a)
    ensures y in Idents(b) && r(x, y)
    decreases a
  {
    match a
    case Dict(es) =>
      var i := EntryIdentsFrom(es, x);
      assert HasPartner(ordered, es, b.entries, i);
      var j :| Paired(ordered, es, b.entries, i, j);
      y := RelCovers(ordered, es[i].1, b.entries[j].1, r, x);
      EntryIdentsAt(b.entries, j);
    case List(xs) =>
      var i := ItemIdentsFrom(xs, x);
      y := RelCovers(ordered, xs[i], b.items[i], r, x);
      ItemIdentsAt(b.items, i);
    case Str(ts) =>
      var i := TokIdentsFrom(ts, x);
      assert RelTok(ts[i], b.toks[i], r);
      y := b.toks[i].id;
      TokIdentsHas(b.toks, i);
    case Atom(_) =>
  }

  lemma {:induction false} RelEqual<I>(a: Value<I>, b: Value<I>, r: (I, I) -> bool)
    requires forall x, y :: r(x, y) <==> x == y
    ensures Rel(true, a, b, r) <==> a == b
  {
    if a.Dict? && b.Dict? && |a.entries| == |b.entries| {
      var es, fs := a.entries, b.entries;
      forall i | 0 <= i < |es| ensures Rel(true, es[i].1, fs[i].1, r) <==> es[i].1 == fs[i].1 {
        RelEqual(es[i].1, fs[i].1, r);
      }
      if Rel(true, a, b, r) {
        forall i | 0 <= i < |es| ensures es[i] == fs[i] {
          assert HasPartner(true, es, fs, i) && Paired(true, es, fs, i, i);
        }
        assert es == fs;
      } else if a == b {
        forall i | 0 <= i < |es| ensures HasPartner(true, es, fs, i) {
          assert Paired(true, es, fs, i, i);
        }
      }
    } else if a.List? && b.List? && |a.items| == |b.items| {
      forall i | 0 <= i < |a.items| ensures Rel(true, a.items[i], b.items[i], r) <==> a.items[i] == b.items[i] {
        RelEqual(a.items[i], b.items[i], r);
      }
      assert Rel(true, a, b, r) ==> a.items == b.items;
    } else if a.Str? && b.Str? && |a.toks| == |b.toks| {
      forall i | 0 <= i < |a.toks| ensures RelTok(a.toks[i], b.toks[i], r) <==> a.toks[i] == b.toks[i] {
      }
      assert Rel(true, a, b, r) ==> a.toks == b.toks;
    }
  }

  lemma {:induction false} MapIdentity<I>(v: Value<I>, g: I -> I)
    requires forall x :: g(x) == x
    ensures MapValue(v, g) == v
  {
    match v
    case Dict(es) =>
      forall i | 0 <= i < |es| ensures MapValue(es[i].1, g) == es[i].1 {
        MapIdentity(es[i].1, g);
      }
      assert MapValue(v, g).entries == es;
    case List(xs) =>
      forall i | 0 <= i < |xs| ensures MapValue(xs[i], g) == xs[i] {
        MapIdentity(xs[i], g);
      }
      assert MapValue(v, g).items == xs;
    case Str(ts) => assert MapToks(ts, g) == ts;
    case Atom(_) =>
  }

  // ---------- names ----------

  /** No number is given twice. */
  ghost predicate Injective(ids: Ids) {
    forall x, y | x in ids && y in ids && ids[x] == ids[y] :: x == y
  }

  ghost predicate Compact(ids: Ids) {
    (forall x | x in ids :: ids[x] < |ids|) && Injective(ids)
  }

  lemma {:induction false} NamesCompact(ids: Ids, xs: seq<Ident>)
    requires Compact(ids)
    ensures Compact(NameAll(ids, xs))
    decreases |xs|
  {
    if xs != [] {
      NamesCompact(Name(ids, xs[0]), xs[1..]);
    }
  }

  /** The names after a whole recording: one per identity, no two alike. */
  lemma FinalNames(v: Value<Ident>)
    ensures NameAll(map[], Idents(v)).Keys == (set x | x in Idents(v)) && Compact(NameAll(map[], Idents(v)))
  {
    NameAllKeeps(map[], Idents(v));
    NamesCompact(map[], Idents(v));
  }

  /** Both identities are shown as the same label. */
  predicate Alike(ia: Ids, ib: Ids, x: Ident, y: Ident) {
    LabelOf(ia)(x) == LabelOf(ib)(y)
  }

  function SameLabel(ia: Ids, ib: Ids): (Ident, Ident) -> bool {
    (x: Ident, y: Ident) => Alike(ia, ib, x, y)
  }

  function Graph(f: map<Ident, Ident>): (Ident, Ident) -> bool {
    (x: Ident, y: Ident) => x in f && f[x] == y
  }

  function Equal(): (Label, Label) -> bool {
    (x: Label, y: Label) => x == y
  }

  /** The harness finds the two normalised recordings equal. */
  ghost predicate OutputsAgree(ordered: bool, a: Value<Ident>, b: Value<Ident>) {
    Rel(ordered, Output(a), Output(b), Equal())
  }

  ghost function NamesOf(v: Value<Ident>): Ids {
    NameAll(map[], Idents(v))
  }

  lemma AgreementRelates(ordered: bool, a: Value<Ident>, b: Value<Ident>)
    ensures OutputsAgree(ordered, a, b) <==> Rel(ordered, a, b, SameLabel(NamesOf(a), NamesOf(b)))
  {
    RelMap(ordered, a, b, LabelOf(NamesOf(a)), LabelOf(NamesOf(b)), SameLabel(NamesOf(a), NamesOf(b)), Equal());
  }

  lemma AlikeRight(ia: Ids, ib: Ids, x: Ident, y: Ident, z: Ident)
    requires Injective(ib) && y in ib && z in ib && Alike(ia, ib, x, y) && Alike(ia, ib, x, z)
    ensures y == z
  {
  }

  lemma AlikeLeft(ia: Ids, ib: Ids, x: Ident, y: Ident, z: Ident)
    requires Injective(ia) && x in ia && z in ia && Alike(ia, ib, x, y) && Alike(ia, ib, z, y)
    ensures x == z
  {
  }

  ghost predicate HasAlike(ia: Ids, ib: Ids, x: Ident) {
    exists y :: y in ib && Alike(ia, ib, x, y)
  }

  ghost predicate Covered(ia: Ids, ib: Ids) {
    forall x | x in ia :: HasAlike(ia, ib, x)
  }

  ghost function Partner(ia: Ids, ib: Ids, x: Ident): (y: Ident)
    requires HasAlike(ia, ib, x)
    ensures y in ib && Alike(ia, ib, x, y)
  {
    var y :| y in ib && Alike(ia, ib, x, y);
    y
  }

  /** Pairs every left identity with one that is shown alike. */
  ghost predicate Pairs(f: map<Ident, Ident>, ia: Ids, ib: Ids) {
    f.Keys == ia.Keys && forall x | x in f :: f[x] in ib && Alike(ia, ib, x, f[x])
  }

  lemma PairsAreInjective(f: map<Ident, Ident>, ia: Ids, ib: Ids)
    requires Injective(ia) && Pairs(f, ia, ib)
    ensures forall x, y | x in f && y in f && f[x] == f[y] :: x == y
    ensures forall x | x in f :: f[x].prefix == x.prefix
  {
    forall x, y | x in f && y in f && f[x] == f[y] ensures x == y {
      AlikeLeft(ia, ib, x, f[x], y);
    }
  }

  lemma PairsAreOnto(f: map<Ident, Ident>, ia: Ids, ib: Ids)
    requires Injective(ib) && Covered(ib, ia) && Pairs(f, ia, ib)
    ensures f.Values == ib.Keys
  {
    forall y | y in ib ensures y in f.Values {
      assert HasAlike(ib, ia, y);
      var x := Partner(ib, ia, y);
      AlikeRight(ia, ib, x, f[x], y);
    }
  }

  lemma AgreementCovers(ordered: bool, a: Value<Ident>, b: Value<Ident>, ia: Ids, ib: Ids)
    requires Rel(ordered, a, b, SameLabel(ia, ib))
    requires ia.Keys == (set x | x in Idents(a)) && ib.Keys == (set y | y in Idents(b))
    ensures Covered(ia, ib) && Covered(ib, ia)
  {
    var r, s := SameLabel(ia, ib), SameLabel(ib, ia);
    RelFlip(ordered, a, b, r, s);
    forall x | x in ia ensures HasAlike(ia, ib, x) {
      assert x in Idents(a);
      var y := RelCovers(ordered, a, b, r, x);
      assert y in ib && Alike(ia, ib, x, y);
    }
    forall y | y in ib ensures HasAlike(ib, ia, y) {
      assert y in Idents(b);
      var x := RelCovers(ordered, b, a, s, y);
      assert x in ia && Alike(ib, ia, y, x);
    }
  }

  lemma MakePairs(ia: Ids, ib: Ids) returns (f: map<Ident, Ident>)
    requires Covered(ia, ib)
    ensures Pairs(f, ia, ib)
  {
    f := map x | x in ia :: Partner(ia, ib, x);
  }

  lemma PairsRelate(ordered: bool, a: Value<Ident>, b: Value<Ident>, ia: Ids, ib: Ids, f: map<Ident, Ident>)
    requires Rel(ordered, a, b, SameLabel(ia, ib)) && Injective(ib) && Pairs(f, ia, ib)
    requires forall x | x in Idents(a) :: x in ia
    requires forall y | y in Idents(b) :: y in ib
    ensures Rel(ordered, a, b, Graph(f))
  {
    forall x, y | x in Idents(a) && y in Idents(b) && SameLabel(ia, ib)(x, y) ensures Graph(f)(x, y) {
      AlikeRight(ia, ib, x, f[x], y);
    }
    RelMono(ordered, a, b, SameLabel(ia, ib), Graph(f));
  }

  lemma LabelsGiveRenaming(ordered: bool, a: Value<Ident>, b: Value<Ident>, ia: Ids, ib: Ids)
      returns (f: map<Ident, Ident>)
    requires Rel(ordered, a, b, SameLabel(ia, ib)) && Injective(ia) && Injective(ib)
    requires ia.Keys == (set x | x in Idents(a)) && ib.Keys == (set y | y in Idents(b))
    ensures Renaming(f, a, b) && Rel(ordered, a, b, Graph(f)) && Pairs(f, ia, ib)
  {
    AgreementCovers(ordered, a, b, ia, ib);
    f := MakePairs(ia, ib);
    PairsRelate(ordered, a, b, ia, ib, f);
    assert Renaming(f, a, b) by {
      PairsAreInjective(f, ia, ib);
      PairsAreOnto(f, ia, ib);
    }
  }

  /** Names that agree pick out a bijection. */
  lemma AgreementGivesRenaming(ordered: bool, a: Value<Ident>, b: Value<Ident>) returns (f: map<Ident, Ident>)
    requires OutputsAgree(ordered, a, b)
    ensures Renaming(f, a, b) && Rel(ordered, a, b, Graph(f)) && Pairs(f, NamesOf(a), NamesOf(b))
  {
    FinalNames(a);
    FinalNames(b);
    AgreementRelates(ordered, a, b);
    f := LabelsGiveRenaming(ordered, a, b, NamesOf(a), NamesOf(b));
  }

  /** Even when objects are compared without order, equal outputs mean the recordings are renamings of each other. */
  lemma EqualOutputsAreRenamings(a: Value<Ident>, b: Value<Ident>)
    requires OutputsAgree(false, a, b)
    ensures exists f :: Renaming(f, a, b) && Rel(false, a, b, Graph(f))
  {
    var f := AgreementGivesRenaming(false, a, b);
  }

  // ---------- the converse, for recordings with the same object order ----------

  ghost predicate Aligned<I, J>(xs: seq<I>, ys: seq<J>, r: (I, J) -> bool) {
    |xs| == |ys| && forall i | 0 <= i < |xs| :: r(xs[i], ys[i])
  }

  lemma {:induction false} RelAligned<I, J>(a: Value<I>, b: Value<J>, r: (I, J) -> bool)
    requires Rel(true, a, b, r)
    ensures Aligned(Idents(a), Idents(b), r)
    decreases a, 0
  {
    match a
    case Dict(es) =>
      forall i | 0 <= i < |es| ensures Rel(true, es[i].1, b.entries[i].1, r) {
        assert HasPartner(true, es, b.entries, i) && Paired(true, es, b.entries, i, i);
      }
      EntriesAligned(es, b.entries, r);
    case List(xs) => ItemsAligned(xs, b.items, r);
    case Str(ts) => ToksAligned(ts, b.toks, r);
    case Atom(_) =>
  }

  lemma {:induction false} EntriesAligned<I, J>(es: seq<(string, Value<I>)>, fs: seq<(string, Value<J>)>,
                                                     r: (I, J) -> bool)
    requires |es| == |fs| && forall i | 0 <= i < |es| :: Rel(true, es[i].1, fs[i].1, r)
    ensures Aligned(EntryIdents(es), EntryIdents(fs), r)
    decreases es, 1
  {
    if es != [] {
      EntryAligned(es[0], fs[0], r);
      EntriesAligned(es[1..], fs[1..], r);
    }
  }

  lemma {:induction false} EntryAligned<I, J>(e: (string, Value<I>), f: (string, Value<J>), r: (I, J) -> bool)
    requires Rel(true, e.1, f.1, r)
    ensures Aligned(EntryIdent(e), EntryIdent(f), r)
    decreases e, 2
  {
    RelAligned(e.1, f.1, r);
  }

  lemma {:induction false} ItemsAligned<I, J>(xs: seq<Value<I>>, ys: seq<Value<J>>, r: (I, J) -> bool)
    requires |xs| == |ys| && forall i | 0 <= i < |xs| :: Rel(true, xs[i], ys[i], r)
    ensures Aligned(ItemIdents(xs), ItemIdents(ys), r)
    decreases xs, 1
  {
    if xs != [] {
      RelAligned(xs[0], ys[0], r);
      ItemsAligned(xs[1..], ys[1..], r);
    }
  }

  lemma {:induction false} ToksAligned<I, J>(ts: seq<Tok<I>>, us: seq<Tok<J>>, r: (I, J) -> bool)
    requires |ts| == |us| && forall i | 0 <= i < |ts| :: RelTok(ts[i], us[i], r)
    ensures Aligned(TokIdents(ts), TokIdents(us), r)
    decreases |ts|
  {
    if ts != [] {
      assert RelTok(ts[0], us[0], r);
      ToksAligned(ts[1..], us[1..], r);
    }
  }

  /** The two normalisers are in step: an identity and its image carry one number. */
  ghost predicate InStep(f: map<Ident, Ident>, ia: Ids, ib: Ids) {
    ia.Keys <= f.Keys && |ia| == |ib|
    && (forall x | x in ia :: f[x] in ib && ib[f[x]] == ia[x])
    && (forall x | x in f && f[x] in ib :: x in ia)
  }

  lemma {:induction false} StayInStep(f: map<Ident, Ident>, ia: Ids, ib: Ids, xs: seq<Ident>, ys: seq<Ident>)
    requires InStep(f, ia, ib) && forall x, y | x in f && y in f && f[x] == f[y] :: x == y
    requires |xs| == |ys| && forall i | 0 <= i < |xs| :: xs[i] in f && f[xs[i]] == ys[i]
    ensures InStep(f, NameAll(ia, xs), NameAll(ib, ys))
    decreases |xs|
  {
    if xs != [] {
      StayInStep(f, Name(ia, xs[0]), Name(ib, ys[0]), xs[1..], ys[1..]);
    }
  }

  ghost predicate AlphaEquivalent(a: Value<Ident>, b: Value<Ident>) {
    exists f :: Renaming(f, a, b) && MapValue(a, Apply(f)) == b
  }

  function Image(f: map<Ident, Ident>): (Ident, Ident) -> bool {
    (x: Ident, y: Ident) => Apply(f)(x) == y
  }

  /** Being carried over by a map, as a relation. */
  lemma ImageIsMap(a: Value<Ident>, b: Value<Ident>, f: map<Ident, Ident>)
    ensures Rel(true, a, b, Image(f)) <==> MapValue(a, Apply(f)) == b
  {
    var id := (y: Ident) => y;
    var eq := (x: Ident, y: Ident) => x == y;
    MapIdentity(b, id);
    RelMap(true, a, b, Apply(f), id, Image(f), eq);
    RelEqual(MapValue(a, Apply(f)), b, eq);
  }

  lemma ImageInStep(a: Value<Ident>, b: Value<Ident>, f: map<Ident, Ident>)
    requires Renaming(f, a, b) && Rel(true, a, b, Image(f))
    ensures InStep(f, NamesOf(a), NamesOf(b))
  {
    RelAligned(a, b, Image(f));
    var xs, ys := Idents(a), Idents(b);
    forall i | 0 <= i < |xs| ensures xs[i] in f && f[xs[i]] == ys[i] {
      assert xs[i] in xs && xs[i] in f;
      assert Image(f)(xs[i], ys[i]) && Apply(f)(xs[i]) == f[xs[i]];
    }
    StayInStep(f, map[], map[], xs, ys);
  }

  /** In step, an identity and its image are shown alike. */
  lemma InStepAlike(f: map<Ident, Ident>, ia: Ids, ib: Ids, x: Ident)
    requires InStep(f, ia, ib) && x in ia && f[x].prefix == x.prefix
    ensures Alike(ia, ib, x, Apply(f)(x))
  {
  }

  lemma InStepRelates(a: Value<Ident>, b: Value<Ident>, f: map<Ident, Ident>, ia: Ids, ib: Ids)
    requires Rel(true, a, b, Image(f)) && InStep(f, ia, ib)
    requires forall x | x in Idents(a) :: x in ia && f[x].prefix == x.prefix
    ensures Rel(true, a, b, SameLabel(ia, ib))
  {
    forall x, y | x in Idents(a) && y in Idents(b) && Image(f)(x, y) ensures SameLabel(ia, ib)(x, y) {
      InStepAlike(f, ia, ib, x);
    }
    RelMono(true, a, b, Image(f), SameLabel(ia, ib));
  }

  lemma RenamedOutputsAgree(a: Value<Ident>, b: Value<Ident>, f: map<Ident, Ident>)
    requires Renaming(f, a, b) && Rel(true, a, b, Image(f))
    ensures OutputsAgree(true, a, b)
  {
    FinalNames(a);
    ImageInStep(a, b, f);
    InStepRelates(a, b, f, NamesOf(a), NamesOf(b));
    AgreementRelates(true, a, b);
  }

  /** The comparison decides alpha-equivalence of recordings whose objects list their keys alike. */
  lemma NormDecidesAlphaEquivalence(a: Value<Ident>, b: Value<Ident>)
    ensures Output(a) == Output(b) <==> AlphaEquivalent(a, b)
  {
    RelEqual(Output(a), Output(b), Equal());
    if OutputsAgree(true, a, b) {
      var f := AgreementGivesRenaming(true, a, b);
      forall x, y | x in Idents(a) && Graph(f)(x, y) ensures Image(f)(x, y) {
        assert Apply(f)(x) == f[x];
      }
      RelMono(true, a, b, Graph(f), Image(f));
      ImageIsMap(a, b, f);
    }
    if f :| Renaming(f, a, b) && MapValue(a, Apply(f)) == b {
      ImageIsMap(a, b, f);
      RenamedOutputsAgree(a, b, f);
    }
  }

  // ---------- unordered comparison: the order of first appearance decides ----------

  function FirstAt(xs: seq<Ident>, x: Ident): (k: nat)
    requires x in xs
    ensures k < |xs|
  {
    if xs[0] == x then 0 else 1 + FirstAt(xs[1..], x)
  }

  /** Both appear, the one before the other. */
  predicate AppearsBefore(xs: seq<Ident>, x: Ident, y: Ident) {
    x in xs && y in xs && FirstAt(xs, x) < FirstAt(xs, y)
  }

  /** The renaming carries the order in which identities first appear onto that of their images. */
  ghost predicate KeepsFirsts(f: map<Ident, Ident>, a: Value<Ident>, b: Value<Ident>) {
    forall x, y | x in f && y in f && AppearsBefore(Idents(a), x, y) :: AppearsBefore(Idents(b), f[x], f[y])
  }

  ghost predicate Numbered(ids: Ids, n: nat) {
    exists x :: x in ids && ids[x] == n
  }

  /** Every number below a given one is given. */
  ghost predicate Gapless(ids: Ids) {
    forall x, n: nat | x in ids && n < ids[x] :: Numbered(ids, n)
  }

  /** Every number up to the count is given. */
  ghost predicate Full(ids: Ids) {
    Compact(ids) && forall n: nat | n < |ids| :: Numbered(ids, n)
  }

  lemma {:induction false} NamesFull(ids: Ids, xs: seq<Ident>)
    requires Full(ids)
    ensures Full(NameAll(ids, xs))
    decreases |xs|
  {
    if xs != [] {
      var next := Name(ids, xs[0]);
      forall n: nat | n < |next| ensures Numbered(next, n) {
        if n < |ids| {
          assert Numbered(ids, n);
          var x :| x in ids && ids[x] == n;
          assert next[x] == n;
        } else {
          assert next[xs[0]] == n;
        }
      }
      NamesFull(next, xs[1..]);
    }
  }

  lemma {:induction false} LateNames(ids: Ids, xs: seq<Ident>, y: Ident)
    requires y in xs && y !in ids
    ensures y in NameAll(ids, xs) && NameAll(ids, xs)[y] >= |ids|
    decreases |xs|
  {
    NameAllKeeps(Name(ids, xs[0]), xs[1..]);
    if xs[0] != y {
      LateNames(Name(ids, xs[0]), xs[1..], y);
    }
  }

  /** Numbers grow with first appearances. */
  lemma {:induction false} NumbersFollowFirsts(ids: Ids, xs: seq<Ident>, x: Ident, y: Ident)
    requires x !in ids && y !in ids && AppearsBefore(xs, x, y)
    ensures var named := NameAll(ids, xs); x in named && y in named && named[x] < named[y]
    decreases |xs|
  {
    var next := Name(ids, xs[0]);
    if xs[0] == x {
      NameAllKeeps(next, xs[1..]);
      LateNames(next, xs[1..], y);
    } else {
      NumbersFollowFirsts(next, xs[1..], x, y);
    }
  }

  lemma {:induction false} FirstsDiffer(xs: seq<Ident>, x: Ident, y: Ident)
    requires x in xs && y in xs && x != y
    ensures FirstAt(xs, x) != FirstAt(xs, y)
  {
    if xs[0] != x && xs[0] != y { FirstsDiffer(xs[1..], x, y); }
  }

  lemma NumbersAreFirsts(v: Value<Ident>, x: Ident, y: Ident)
    requires x in Idents(v) && y in Idents(v)
    ensures x in NamesOf(v) && y in NamesOf(v)
    ensures NamesOf(v)[x] < NamesOf(v)[y] <==> AppearsBefore(Idents(v), x, y)
  {
    FinalNames(v);
    if x != y {
      FirstsDiffer(Idents(v), x, y);
      if AppearsBefore(Idents(v), x, y) {
        NumbersFollowFirsts(map[], Idents(v), x, y);
      } else {
        NumbersFollowFirsts(map[], Idents(v), y, x);
      }
    }
  }

  /** Carries each number to a larger one when it carries larger numbers to larger ones. */
  ghost predicate Monotone(f: map<Ident, Ident>, ia: Ids, ib: Ids) {
    f.Keys == ia.Keys && f.Values == ib.Keys
    && forall x, y | x in ia && y in ia && ia[x] < ia[y] :: ib[f[x]] < ib[f[y]]
  }

  lemma {:induction false} NumberNoSmaller(f: map<Ident, Ident>, ia: Ids, ib: Ids, x: Ident)
    requires Gapless(ia) && Monotone(f, ia, ib) && x in ia
    ensures f[x] in ib && ia[x] <= ib[f[x]]
    decreases ia[x]
  {
    if ia[x] > 0 {
      assert Numbered(ia, ia[x] - 1);
      var y :| y in ia && ia[y] == ia[x] - 1;
      NumberNoSmaller(f, ia, ib, y);
    }
  }

  lemma {:induction false} NumberNoLarger(f: map<Ident, Ident>, ia: Ids, ib: Ids, x: Ident)
    requires Injective(ia) && Gapless(ib) && Monotone(f, ia, ib) && x in ia
    ensures f[x] in ib && ib[f[x]] <= ia[x]
    decreases if f[x] in ib then ib[f[x]] else 0
  {
    assert f[x] in f.Values;
    if ib[f[x]] > 0 {
      assert Numbered(ib, ib[f[x]] - 1);
      var z :| z in ib && ib[z] == ib[f[x]] - 1;
      assert z in f.Values;
      var w :| w in f && f[w] == z;
      assert w in ia;
      NumberNoLarger(f, ia, ib, w);
    }
  }

  ghost predicate SameNumbers(f: map<Ident, Ident>, ia: Ids, ib: Ids) {
    f.Keys == ia.Keys && forall x | x in f :: f[x] in ib && ib[f[x]] == ia[x]
  }

  lemma FirstsAreNumbers(f: map<Ident, Ident>, a: Value<Ident>, b: Value<Ident>)
    requires Renaming(f, a, b) && KeepsFirsts(f, a, b)
    ensures SameNumbers(f, NamesOf(a), NamesOf(b))
  {
    var ia, ib := NamesOf(a), NamesOf(b);
    FinalNames(a);
    FinalNames(b);
    NamesFull(map[], Idents(a));
    NamesFull(map[], Idents(b));
    forall x, y | x in ia && y in ia && ia[x] < ia[y] ensures ib[f[x]] < ib[f[y]] {
      assert f[x] in f.Values && f[y] in f.Values;
      NumbersAreFirsts(a, x, y);
      NumbersAreFirsts(b, f[x], f[y]);
    }
    forall x | x in ia ensures f[x] in ib && ib[f[x]] == ia[x] {
      NumberNoSmaller(f, ia, ib, x);
      NumberNoLarger(f, ia, ib, x);
    }
  }

  lemma NumbersAreKept(f: map<Ident, Ident>, a: Value<Ident>, b: Value<Ident>)
    requires Renaming(f, a, b) && Pairs(f, NamesOf(a), NamesOf(b))
    ensures KeepsFirsts(f, a, b)
  {
    FinalNames(a);
    FinalNames(b);
    forall x, y | x in f && y in f && AppearsBefore(Idents(a), x, y)
      ensures AppearsBefore(Idents(b), f[x], f[y])
    {
      NumbersAreFirsts(a, x, y);
      assert f[x] in Idents(b) && f[y] in Idents(b);
      NumbersAreFirsts(b, f[x], f[y]);
    }
  }

  ghost predicate RelatedInOrder(f: map<Ident, Ident>, a: Value<Ident>, b: Value<Ident>) {
    Renaming(f, a, b) && Rel(false, a, b, Graph(f)) && KeepsFirsts(f, a, b)
  }

  /**
   * Compared without key order, outputs agree exactly when a renaming relates the recordings without
   * key order and keeps the order in which identities first appear.
   */
  lemma UnorderedAgreesExactly(a: Value<Ident>, b: Value<Ident>)
    ensures OutputsAgree(false, a, b) <==> exists f :: RelatedInOrder(f, a, b)
  {
    if OutputsAgree(false, a, b) {
      var f := AgreementGivesRenaming(false, a, b);
      NumbersAreKept(f, a, b);
      assert RelatedInOrder(f, a, b);
    }
    if f :| RelatedInOrder(f, a, b) {
      FirstsAreNumbers(f, a, b);
      FinalNames(a);
      var r := SameLabel(NamesOf(a), NamesOf(b));
      forall x, y | x in Idents(a) && y in Idents(b) && Graph(f)(x, y) ensures r(x, y) {
        assert Alike(NamesOf(a), NamesOf(b), x, y);
      }
      RelMono(false, a, b, Graph(f), r);
      AgreementRelates(false, a, b);
    }
  }

  // ---------- comparing parts ----------

  /** How many identities appear before this one. */
  function Rank(xs: seq<Ident>, x: Ident): nat
    requires x in xs
  {
    |Among(xs[..FirstAt(xs, x)])|
  }

  function Among(xs: seq<Ident>): set<Ident> {
    set y | y in xs
  }

  lemma AmongFirst(xs: seq<Ident>, k: nat)
    requires k < |xs|
    ensures Among(xs[..k + 1]) == {xs[0]} + Among(xs[1..][..k])
  {
    assert xs[..k + 1] == [xs[0]] + xs[1..][..k];
  }

  lemma {:induction false} NumberIsRankAfter(ids: Ids, xs: seq<Ident>, x: Ident)
    requires x in xs && x !in ids
    ensures x in NameAll(ids, xs) && NameAll(ids, xs)[x] == |ids.Keys + Among(xs[..FirstAt(xs, x)])|
    decreases |xs|
  {
    if xs[0] == x {
      NamedFirst(ids, xs);
    } else {
      NumberIsRankAfter(Name(ids, xs[0]), xs[1..], x);
      RankLater(ids, xs, x);
    }
  }

  lemma RankLater(ids: Ids, xs: seq<Ident>, x: Ident)
    requires x in xs && xs[0] != x
    ensures ids.Keys + Among(xs[..FirstAt(xs, x)]) == Name(ids, xs[0]).Keys + Among(xs[1..][..FirstAt(xs[1..], x)])
  {
    var k := FirstAt(xs[1..], x);
    AmongFirst(xs, k);
    NextKeys(ids, xs[0], Among(xs[1..][..k]));
  }

  lemma NamedFirst(ids: Ids, xs: seq<Ident>)
    requires xs != [] && xs[0] !in ids
    ensures xs[0] in NameAll(ids, xs) && NameAll(ids, xs)[xs[0]] == |ids.Keys + Among(xs[..0])|
  {
    NameAllKeeps(Name(ids, xs[0]), xs[1..]);
    assert ids.Keys + Among(xs[..0]) == ids.Keys;
  }

  lemma NextKeys(ids: Ids, x: Ident, more: set<Ident>)
    ensures Name(ids, x).Keys + more == ids.Keys + ({x} + more)
  {
  }

  /** A number says how many identities appeared before. */
  lemma NumberIsRank(v: Value<Ident>, x: Ident)
    requires x in Idents(v)
    ensures x in NamesOf(v) && NamesOf(v)[x] == Rank(Idents(v), x)
  {
    var none: Ids := map[];
    NumberIsRankAfter(none, Idents(v), x);
    var before := Among(Idents(v)[..FirstAt(Idents(v), x)]);
    assert none.Keys + before == before;
  }

  /** A value whose identities all appear in the recording, such as one member of one of its values. */
  ghost predicate PartOf(part: Value<Ident>, whole: Value<Ident>) {
    forall x | x in Idents(part) :: x in Idents(whole)
  }

  /** The harness, having normalised both recordings, finds these parts of them equal. */
  ghost predicate PartsAgree(ordered: bool, a: Value<Ident>, b: Value<Ident>, x: Value<Ident>, y: Value<Ident>) {
    Rel(ordered, MapValue(x, LabelOf(NamesOf(a))), MapValue(y, LabelOf(NamesOf(b))), Equal())
  }

  /** The renaming carries x onto y and keeps how many identities of the whole appear before. */
  ghost predicate PartsRelated(ordered: bool, f: map<Ident, Ident>, a: Value<Ident>, b: Value<Ident>,
                               x: Value<Ident>, y: Value<Ident>) {
    Renaming(f, x, y) && Rel(ordered, x, y, Graph(f))
    && forall z | z in f && z in Idents(a) && f[z] in Idents(b) :: Rank(Idents(a), z) == Rank(Idents(b), f[z])
  }

  function Restrict(ids: Ids, v: Value<Ident>): Ids {
    map x | x in ids && x in Idents(v) :: ids[x]
  }

  lemma RestrictToPart(part: Value<Ident>, whole: Value<Ident>)
    requires PartOf(part, whole)
    ensures var ids := Restrict(NamesOf(whole), part);
            ids.Keys == (set x | x in Idents(part)) && Injective(ids)
            && forall x | x in Idents(part) :: ids[x] == Rank(Idents(whole), x)
  {
    FinalNames(whole);
    forall x | x in Idents(part) ensures NamesOf(whole)[x] == Rank(Idents(whole), x) {
      NumberIsRank(whole, x);
    }
  }

  lemma PartLabels(ordered: bool, a: Value<Ident>, b: Value<Ident>, x: Value<Ident>, y: Value<Ident>)
    requires PartOf(x, a) && PartOf(y, b)
    ensures PartsAgree(ordered, a, b, x, y)
            <==> Rel(ordered, x, y, SameLabel(Restrict(NamesOf(a), x), Restrict(NamesOf(b), y)))
  {
    RestrictToPart(x, a);
    RestrictToPart(y, b);
    var ia, ib := Restrict(NamesOf(a), x), Restrict(NamesOf(b), y);
    RenamingSettled(x, ia, NamesOf(a));
    RenamingSettled(y, ib, NamesOf(b));
    RelMap(ordered, x, y, LabelOf(ia), LabelOf(ib), SameLabel(ia, ib), Equal());
  }

  lemma RelatedPartsAgree(ordered: bool, f: map<Ident, Ident>, a: Value<Ident>, b: Value<Ident>,
                          x: Value<Ident>, y: Value<Ident>)
    requires PartOf(x, a) && PartOf(y, b) && PartsRelated(ordered, f, a, b, x, y)
    ensures Rel(ordered, x, y, SameLabel(Restrict(NamesOf(a), x), Restrict(NamesOf(b), y)))
  {
    var ia, ib := Restrict(NamesOf(a), x), Restrict(NamesOf(b), y);
    RestrictToPart(x, a);
    RestrictToPart(y, b);
    forall u, v | u in Idents(x) && v in Idents(y) && Graph(f)(u, v) ensures SameLabel(ia, ib)(u, v) {
      assert ia[u] == ib[v];
      assert Alike(ia, ib, u, v);
    }
    RelMono(ordered, x, y, Graph(f), SameLabel(ia, ib));
  }

  /**
   * Where only parts of the recordings are compared, they agree exactly when a renaming relates the parts and
   * keeps, for each of their identities, how many appeared before it in the whole recording.
   */
  lemma PartsAgreeExactly(ordered: bool, a: Value<Ident>, b: Value<Ident>, x: Value<Ident>, y: Value<Ident>)
    requires PartOf(x, a) && PartOf(y, b)
    ensures PartsAgree(ordered, a, b, x, y) <==> exists f :: PartsRelated(ordered, f, a, b, x, y)
  {
    PartLabels(ordered, a, b, x, y);
    if PartsAgree(ordered, a, b, x, y) {
      var ia, ib := Restrict(NamesOf(a), x), Restrict(NamesOf(b), y);
      RestrictToPart(x, a);
      RestrictToPart(y, b);
      var f := LabelsGiveRenaming(ordered, x, y, ia, ib);
      forall z | z in f ensures Rank(Idents(a), z) == Rank(Idents(b), f[z]) {
        assert f[z] in ib && Alike(ia, ib, z, f[z]);
      }
      assert PartsRelated(ordered, f, a, b, x, y);
    }
    if f :| PartsRelated(ordered, f, a, b, x, y) {
      RelatedPartsAgree(ordered, f, a, b, x, y);
    }
  }

  // ---------- why the converse needs the order ----------

  function Pair(k: string, x: Ident, l: string, y: Ident): Value<Ident> {
    Dict([(k, Str([Id(x)])), (l, Str([Id(y)]))])
  }

  lemma OneTok(x: Ident)
    ensures TokIdents([Id(x)]) == [x]
  {
    assert [Id(x)][1..] == [];
  }

  lemma PairIdents(k: string, x: Ident, l: string, y: Ident)
    ensures Idents(Pair(k, x, l, y)) == [x, y]
  {
    var es := Pair(k, x, l, y).entries;
    OneTok(x);
    OneTok(y);
    assert es[0] == (k, Str([Id(x)])) && es[1] == (l, Str([Id(y)]));
    assert EntryIdent(es[0]) == Idents(es[0].1) == [x];
    assert EntryIdent(es[1]) == Idents(es[1].1) == [y];
    assert es[1..] == [es[1]] && es[1..][1..] == [];
    assert EntryIdents(es[1..]) == EntryIdent(es[1]) + [];
    assert EntryIdents(es) == EntryIdent(es[0]) + EntryIdents(es[1..]);
  }

  lemma PairNames(k: string, x: Ident, l: string, y: Ident)
    requires x != y
    ensures NamesOf(Pair(k, x, l, y)) == map[x := 0, y := 1]
  {
    PairIdents(k, x, l, y);
    assert [x, y][1..] == [y] && [y][1..] == [];
    assert NameAll(map[], [x, y]) == NameAll(Name(map[], x), [y]) == Name(Name(map[], x), y);
    assert Name(map[], x) == map[x := 0];
    assert |map[x := 0]| == 1;
  }

  /** The entries of the two listings pair crosswise. */
  lemma CrossPaired(k: string, x: Ident, l: string, y: Ident)
    requires k != l
    ensures var es, fs := Pair(k, x, l, y).entries, Pair(l, y, k, x).entries;
            KeysPair(false, es, fs) && Paired(false, es, fs, 0, 1)
            && forall i, j :: Paired(false, es, fs, i, j) ==> (i == 0 && j == 1) || (i == 1 && j == 0)
  {
    var es, fs := Pair(k, x, l, y).entries, Pair(l, y, k, x).entries;
    assert Paired(false, es, fs, 0, 1) && Paired(false, es, fs, 1, 0);
    assert Paired(false, fs, es, 0, 1) && Paired(false, fs, es, 1, 0);
    assert HasPartner(false, es, fs, 0) && HasPartner(false, es, fs, 1);
    assert HasPartner(false, fs, es, 0) && HasPartner(false, fs, es, 1);
  }

  /** Two equal recordings that list their keys in different orders are named apart. */
  lemma DictOrderIsSeen(k: string, x: Ident, l: string, y: Ident)
    requires k != l && x != y
    ensures Rel(false, Pair(k, x, l, y), Pair(l, y, k, x), (u: Ident, v: Ident) => u == v)
    ensures !OutputsAgree(false, Pair(k, x, l, y), Pair(l, y, k, x))
  {
    var a, b := Pair(k, x, l, y), Pair(l, y, k, x);
    CrossPaired(k, x, l, y);
    PairNames(k, x, l, y);
    PairNames(l, y, k, x);
    AgreementRelates(false, a, b);
    var r := SameLabel(NamesOf(a), NamesOf(b));
    assert !Alike(NamesOf(a), NamesOf(b), x, x);
    assert !RelTok(a.entries[0].1.toks[0], b.entries[1].1.toks[0], r);
    assert !Rel(false, a.entries[0].1, b.entries[1].1, r);
  }
}
