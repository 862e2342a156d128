/**
 * First-appearance naming of identities, as the turn comparison applies it to both recordings.
 *
 * A string is a run of literal characters and identities (the scratch root, leases and
 * timestamps are already erased). One `Norm` names the identities of everything it is shown,
 * in order of first appearance; equal outputs are then meant to say "equal up to renaming".
 */
module IdentityNorm {

  /** One piece of a string: a literal character or an identity of type I. */
  datatype Tok<I> = Ch(c: char) | Id(id: I)

  datatype Value<I> =
    | Dict(entries: seq<(string, Value<I>)>)
    | List(items: seq<Value<I>>)
    | Str(toks: seq<Tok<I>>)
    | Atom(n: int)

  /** `rt-…`, `run-…` and so on: the text before the first dash, and the rest. */
  datatype Ident = Ident(prefix: string, tail: string)

  /** The replacement text `<prefixN>`. */
  datatype Label = Label(prefix: string, n: nat)

  // ---------- renaming ----------

  function MapToks<I, J>(ts: seq<Tok<I>>, g: I -> J): (r: seq<Tok<J>>)
    ensures |r| == |ts|
    ensures forall i | 0 <= i < |ts| :: r[i] == if ts[i].Ch? then Ch(ts[i].c) else Id(g(ts[i].id))
  {
    seq(|ts|, i requires 0 <= i < |ts| => if ts[i].Ch? then Ch(ts[i].c) else Id(g(ts[i].id)))
  }

  function MapValue<I, J>(v: Value<I>, g: I -> J): Value<J> {
    match v
    case Dict(es) => Dict(seq(|es|, i requires 0 <= i < |es| => (es[i].0, MapValue(es[i].1, g))))
    case List(xs) => List(seq(|xs|, i requires 0 <= i < |xs| => MapValue(xs[i], g)))
    case Str(ts) => Str(MapToks(ts, g))
    case Atom(n) => Atom(n)
  }

  /** The identities of a value in the order the normaliser meets them. */
  function Idents<I>(v: Value<I>): seq<I>
    decreases v, 0
  {
    match v
    case Dict(es) => EntryIdents(es)
    case List(xs) => ItemIdents(xs)
    case Str(ts) => TokIdents(ts)
    case Atom(_) => []
  }

  function EntryIdents<I>(es: seq<(string, Value<I>)>): seq<I>
    decreases es, 1
  {
    if es == [] then [] else EntryIdent(es[0]) + EntryIdents(es[1..])
  }

  function EntryIdent<I>(e: (string, Value<I>)): seq<I>
    decreases e, 2
  {
    Idents(e.1)
  }

  function ItemIdents<I>(xs: seq<Value<I>>): seq<I>
    decreases xs, 1
  {
    if xs == [] then [] else Idents(xs[0]) + ItemIdents(xs[1..])
  }

  function TokIdents<I>(ts: seq<Tok<I>>): seq<I> {
    if ts == [] then [] else (if ts[0].Ch? then [] else [ts[0].id]) + TokIdents(ts[1..])
  }

  // ---------- the normaliser ----------

  type Ids = map<Ident, nat>

  /** `setdefault` with the current number of names. */
  function Name(ids: Ids, x: Ident): Ids {
    if x in ids then ids else ids[x := |ids|]
  }

  function NameAll(ids: Ids, xs: seq<Ident>): Ids
    decreases |xs|
  {
    if xs == [] then ids else NameAll(Name(ids, xs[0]), xs[1..])
  }

  function LabelOf(ids: Ids): Ident -> Label {
    (x: Ident) => Label(x.prefix, if x in ids then ids[x] else 0)
  }

  lemma NameFirst(ids: Ids, x: Ident, xs: seq<Ident>)
    ensures NameAll(ids, [x] + xs) == NameAll(Name(ids, x), xs)
  {
    assert ([x] + xs)[1..] == xs;
  }

  lemma TokIdentsAt(ts: seq<Tok<Ident>>, i: nat)
    requires i < |ts|
    ensures TokIdents(ts[i..]) == (if ts[i].Ch? then [] else [ts[i].id]) + TokIdents(ts[i + 1..])
  {
    assert ts[i..][1..] == ts[i + 1..];
  }

  lemma {:induction false} NameAllConcat(ids: Ids, xs: seq<Ident>, ys: seq<Ident>)
    ensures NameAll(ids, xs + ys) == NameAll(NameAll(ids, xs), ys)
    decreases |xs|
  {
    if xs == [] {
      assert xs + ys == ys;
    } else {
      assert (xs + ys)[1..] == xs[1..] + ys;
      NameAllConcat(Name(ids, xs[0]), xs[1..], ys);
    }
  }

  /** Naming more never renames, and names everything it was shown. */
  lemma {:induction false} NameAllKeeps(ids: Ids, xs: seq<Ident>)
    ensures forall x | x in ids :: x in NameAll(ids, xs) && NameAll(ids, xs)[x] == ids[x]
    ensures NameAll(ids, xs).Keys == ids.Keys + (set x | x in xs)
    decreases |xs|
  {
    if xs != [] {
      NameAllKeeps(Name(ids, xs[0]), xs[1..]);
      assert xs == [xs[0]] + xs[1..];
    }
  }

  ghost predicate AllNamed(ids: Ids, xs: seq<Ident>) {
    forall x | x in xs :: x in ids
  }

  /** A value whose identities all have names is rendered the same by any extension of the names. */
  lemma {:induction false} RenamingSettled(v: Value<Ident>, ids: Ids, later: Ids)
    requires AllNamed(ids, Idents(v)) && forall x | x in ids :: x in later && later[x] == ids[x]
    ensures MapValue(v, LabelOf(ids)) == MapValue(v, LabelOf(later))
    decreases v, 0
  {
    match v
    case Dict(es) =>
      forall i | 0 <= i < |es| ensures MapValue(es[i].1, LabelOf(ids)) == MapValue(es[i].1, LabelOf(later)) {
        EntryIdentsAt(es, i);
        RenamingSettled(es[i].1, ids, later);
      }
      assert MapValue(v, LabelOf(ids)).entries == MapValue(v, LabelOf(later)).entries;
    case List(xs) =>
      forall i | 0 <= i < |xs| ensures MapValue(xs[i], LabelOf(ids)) == MapValue(xs[i], LabelOf(later)) {
        ItemIdentsAt(xs, i);
        RenamingSettled(xs[i], ids, later);
      }
      assert MapValue(v, LabelOf(ids)).items == MapValue(v, LabelOf(later)).items;
    case Str(ts) =>
      forall i | 0 <= i < |ts| && ts[i].Id? ensures ts[i].id in ids {
        TokIdentsHas(ts, i);
      }
      assert MapToks(ts, LabelOf(ids)) == MapToks(ts, LabelOf(later));
    case Atom(_) =>
  }

  lemma {:induction false} TokIdentsHas<I>(ts: seq<Tok<I>>, i: nat)
    requires i < |ts| && ts[i].Id?
    ensures ts[i].id in TokIdents(ts)
    decreases |ts|
  {
    if i > 0 { TokIdentsHas(ts[1..], i - 1); }
  }

  lemma {:induction false} EntryIdentsAt<I>(es: seq<(string, Value<I>)>, i: nat)
    requires i < |es|
    ensures forall x | x in Idents(es[i].1) :: x in EntryIdents(es)
    decreases |es|
  {
    if i > 0 { EntryIdentsAt(es[1..], i - 1); }
  }

  lemma {:induction false} ItemIdentsAt<I>(xs: seq<Value<I>>, i: nat)
    requires i < |xs|
    ensures forall x | x in Idents(xs[i]) :: x in ItemIdents(xs)
    decreases |xs|
  {
    if i > 0 { ItemIdentsAt(xs[1..], i - 1); }
  }

  /** What the substitution makes of one piece, with x named already. */
  predicate Named(ids: Ids, t: Tok<Ident>, u: Tok<Label>) {
    match t
    case Ch(c) => u == Ch(c)
    case Id(x) => x in ids && u == Id(Label(x.prefix, ids[x]))
  }

  /** The pieces rendered so far. */
  ghost predicate AllPieces(ids: Ids, ts: seq<Tok<Ident>>, out: seq<Tok<Label>>)
    requires |out| <= |ts|
  {
    forall k | 0 <= k < |out| :: Named(ids, ts[k], out[k])
  }

  lemma MorePieces(before: Ids, after: Ids, ts: seq<Tok<Ident>>, out: seq<Tok<Label>>, u: Tok<Label>)
    requires |out| < |ts| && AllPieces(before, ts, out) && Named(after, ts[|out|], u)
    requires forall x | x in before :: x in after && after[x] == before[x]
    ensures AllPieces(after, ts, out + [u])
  {
    forall k | 0 <= k < |out| ensures Named(after, ts[k], out[k]) {
      assert Named(before, ts[k], out[k]);
    }
  }

  lemma PieceNamesFirst(ids: Ids, ts: seq<Tok<Ident>>, i: nat)
    requires i < |ts|
    ensures NameAll(ids, TokIdents(ts[i..]))
         == NameAll(if ts[i].Ch? then ids else Name(ids, ts[i].id), TokIdents(ts[i + 1..]))
  {
    TokIdentsAt(ts, i);
    if ts[i].Ch? {
      assert [] + TokIdents(ts[i + 1..]) == TokIdents(ts[i + 1..]);
    } else {
      NameFirst(ids, ts[i].id, TokIdents(ts[i + 1..]));
    }
  }

  class Norm {
    var ids: Ids

    constructor ()
      ensures ids == map[]
    {
      ids := map[];
    }

    /** One piece: a literal stays, an identity gets its name on first sight. */
    method NormalizePiece(t: Tok<Ident>) returns (u: Tok<Label>)
      modifies this
      ensures ids == if t.Ch? then old(ids) else Name(old(ids), t.id)
      ensures Named(ids, t, u)
    {
      match t {
        case Ch(c) => u := Ch(c);
        case Id(x) =>
          if x !in ids {
            ids := ids[x := |ids|];
          }
          u := Id(Label(x.prefix, ids[x]));
      }
    }

    method NormalizeString(ts: seq<Tok<Ident>>) returns (out: seq<Tok<Label>>)
      modifies this
      ensures ids == NameAll(old(ids), TokIdents(ts))
      ensures out == MapToks(ts, LabelOf(ids))
    {
      out := [];
      var i := 0;
      assert ts[0..] == ts;
      while i < |ts|
        invariant 0 <= i <= |ts|
        invariant NameAll(ids, TokIdents(ts[i..])) == NameAll(old(ids), TokIdents(ts))
        invariant |out| == i && AllPieces(ids, ts, out)
      {
        PieceNamesFirst(ids, ts, i);
        ghost var before := ids;
        var u := NormalizePiece(ts[i]);
        MorePieces(before, ids, ts, out, u);
        out := out + [u];
        i := i + 1;
      }
      assert ts[i..] == [];
    }

    method NormalizeEntries(ghost parent: Value<Ident>, es: seq<(string, Value<Ident>)>)
      returns (outs: seq<(string, Value<Label>)>)
      requires forall i | 0 <= i < |es| :: es[i].1 < parent
      modifies this
      ensures ids == NameAll(old(ids), EntryIdents(es))
      ensures |outs| == |es| && forall k | 0 <= k < |es| :: outs[k] == (es[k].0, MapValue(es[k].1, LabelOf(ids)))
      decreases parent, 0
    {
      ghost var was := ids;
      outs := [];
      var i := 0;
      assert es[..0] == [];
      while i < |es|
        invariant 0 <= i <= |es| && |outs| == i
        invariant ids == NameAll(was, EntryIdents(es[..i]))
        invariant EntriesSettled(ids, es[..i], outs)
      {
        ghost var before := ids;
        var w := Normalize(es[i].1);
        EntryStep(was, before, ids, es[..i], es[i], outs, w);
        assert es[..i] + [es[i]] == es[..i + 1];
        outs := outs + [(es[i].0, w)];
        i := i + 1;
      }
      assert es[..i] == es;
    }

    method NormalizeItems(ghost parent: Value<Ident>, xs: seq<Value<Ident>>) returns (outs: seq<Value<Label>>)
      requires forall i | 0 <= i < |xs| :: xs[i] < parent
      modifies this
      ensures ids == NameAll(old(ids), ItemIdents(xs))
      ensures |outs| == |xs| && forall k | 0 <= k < |xs| :: outs[k] == MapValue(xs[k], LabelOf(ids))
      decreases parent, 0
    {
      ghost var was := ids;
      outs := [];
      var i := 0;
      assert xs[..0] == [];
      while i < |xs|
        invariant 0 <= i <= |xs| && |outs| == i
        invariant ids == NameAll(was, ItemIdents(xs[..i]))
        invariant ItemsSettled(ids, xs[..i], outs)
      {
        ghost var before := ids;
        var w := Normalize(xs[i]);
        ItemStep(was, before, ids, xs[..i], xs[i], outs, w);
        assert xs[..i] + [xs[i]] == xs[..i + 1];
        outs := outs + [w];
        i := i + 1;
      }
      assert xs[..i] == xs;
    }

    /** `__call__`: strings are renamed, containers are walked in order, everything else passes through. */
    method Normalize(v: Value<Ident>) returns (out: Value<Label>)
      modifies this
      ensures ids == NameAll(old(ids), Idents(v))
      ensures out == MapValue(v, LabelOf(ids))
      decreases v, 1
    {
      match v {
        case Dict(es) =>
          var outs := NormalizeEntries(v, es);
          out := Dict(outs);
          assert outs == MapValue(v, LabelOf(ids)).entries;
        case List(xs) =>
          var outs := NormalizeItems(v, xs);
          out := List(outs);
          assert outs == MapValue(v, LabelOf(ids)).items;
        case Str(ts) =>
          var us := NormalizeString(ts);
          out := Str(us);
        case Atom(n) =>
          out := Atom(n);
      }
    }
  }

  /** `w` is the rendering of `v`, and every identity of `v` has its name. */
  ghost predicate Settled(ids: Ids, v: Value<Ident>, w: Value<Label>) {
    AllNamed(ids, Idents(v)) && w == MapValue(v, LabelOf(ids))
  }

  ghost predicate EntriesSettled(ids: Ids, es: seq<(string, Value<Ident>)>, outs: seq<(string, Value<Label>)>) {
    |outs| == |es| && forall k | 0 <= k < |es| :: outs[k].0 == es[k].0 && Settled(ids, es[k].1, outs[k].1)
  }

  ghost predicate ItemsSettled(ids: Ids, xs: seq<Value<Ident>>, outs: seq<Value<Label>>) {
    |outs| == |xs| && forall k | 0 <= k < |xs| :: Settled(ids, xs[k], outs[k])
  }

  lemma EntryStep(was: Ids, before: Ids, after: Ids, done: seq<(string, Value<Ident>)>, e: (string, Value<Ident>),
                  outs: seq<(string, Value<Label>)>, w: Value<Label>)
    requires before == NameAll(was, EntryIdents(done)) && after == NameAll(before, Idents(e.1))
    requires EntriesSettled(before, done, outs) && w == MapValue(e.1, LabelOf(after))
    ensures after == NameAll(was, EntryIdents(done + [e])) && EntriesSettled(after, done + [e], outs + [(e.0, w)])
  {
    EntryIdentsSnoc(done, e);
    NameAllConcat(was, EntryIdents(done), Idents(e.1));
    SettledStays(before, Idents(e.1));
    NameAllKeeps(before, Idents(e.1));
    assert Settled(after, e.1, w);
  }

  lemma ItemStep(was: Ids, before: Ids, after: Ids, done: seq<Value<Ident>>, x: Value<Ident>,
                 outs: seq<Value<Label>>, w: Value<Label>)
    requires before == NameAll(was, ItemIdents(done)) && after == NameAll(before, Idents(x))
    requires ItemsSettled(before, done, outs) && w == MapValue(x, LabelOf(after))
    ensures after == NameAll(was, ItemIdents(done + [x])) && ItemsSettled(after, done + [x], outs + [w])
  {
    ItemIdentsSnoc(done, x);
    NameAllConcat(was, ItemIdents(done), Idents(x));
    SettledStays(before, Idents(x));
    NameAllKeeps(before, Idents(x));
    assert Settled(after, x, w);
  }

  lemma SettledStays(ids: Ids, xs: seq<Ident>)
    ensures forall v, w | Settled(ids, v, w) :: Settled(NameAll(ids, xs), v, w)
  {
    NameAllKeeps(ids, xs);
    forall v, w | Settled(ids, v, w) ensures Settled(NameAll(ids, xs), v, w) {
      RenamingSettled(v, ids, NameAll(ids, xs));
    }
  }

  lemma {:induction false} EntryIdentsSnoc<I>(es: seq<(string, Value<I>)>, e: (string, Value<I>))
    ensures EntryIdents(es + [e]) == EntryIdents(es) + Idents(e.1)
    decreases |es|
  {
    if es == [] {
      assert es + [e] == [e];
    } else {
      assert (es + [e])[1..] == es[1..] + [e];
      EntryIdentsSnoc(es[1..], e);
    }
  }

  lemma {:induction false} ItemIdentsSnoc<I>(xs: seq<Value<I>>, x: Value<I>)
    ensures ItemIdents(xs + [x]) == ItemIdents(xs) + Idents(x)
    decreases |xs|
  {
    if xs == [] {
      assert xs + [x] == [x];
    } else {
      assert (xs + [x])[1..] == xs[1..] + [x];
      ItemIdentsSnoc(xs[1..], x);
    }
  }
}
