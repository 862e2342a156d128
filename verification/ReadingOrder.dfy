/** The order in which identities first appear is the order in which the recording is read. */
module ReadingOrder {
  import opened Options
  import opened IdentityNorm
  import opened AlphaEquivalence

  /** Where a piece of a string stands: the index of the entry or item at each level, and of the piece at the end. */
  type Place = seq<nat>

  function PieceAt<I>(v: Value<I>, p: Place): Option<Tok<I>>
    decreases v
  {
    if p == [] then None
    else
      match v
      case Dict(es) => if p[0] < |es| then PieceAt(es[p[0]].1, p[1..]) else None
      case List(xs) => if p[0] < |xs| then PieceAt(xs[p[0]], p[1..]) else None
      case Str(ts) => if |p| == 1 && p[0] < |ts| then Some(ts[p[0]]) else None
      case Atom(_) => None
  }

  predicate IsIdentity<I(==)>(v: Value<I>, p: Place, x: I) {
    PieceAt(v, p) == Some(Id(x))
  }

  /** The first of two places when reading from the start. */
  predicate Earlier(p: Place, q: Place) {
    if p == [] || q == [] then q != []
    else p[0] < q[0] || (p[0] == q[0] && Earlier(p[1..], q[1..]))
  }

  // ---------- the identities in reading order ----------

  ghost predicate InOrder(places: seq<Place>) {
    forall i, j | 0 <= i < j < |places| :: Earlier(places[i], places[j])
  }

  /** These are the identities of the value from its k-th child on, and where they stand, in reading order. */
  ghost predicate ReadsFrom<I(!new)>(v: Value<I>, k: nat, ids: seq<I>, places: seq<Place>) {
    && |places| == |ids| && InOrder(places)
    && (forall i | 0 <= i < |places| :: places[i] != [] && places[i][0] >= k && IsIdentity(v, places[i], ids[i]))
    && forall p: Place, x | p != [] && p[0] >= k && IsIdentity(v, p, x) :: p in places
  }

  function Under(k: nat, places: seq<Place>): seq<Place> {
    seq(|places|, i requires 0 <= i < |places| => [k] + places[i])
  }

  lemma EarlierUnder(k: nat, p: Place, q: Place)
    requires Earlier(p, q)
    ensures Earlier([k] + p, [k] + q)
  {
    assert ([k] + p)[1..] == p && ([k] + q)[1..] == q;
  }

  /** The child's identities first, then those of the later children. */
  lemma ChildFirst<I(!new)>(v: Value<I>, k: nat, child: Value<I>, ids: seq<I>, places: seq<Place>, more: seq<I>,
                            rest: seq<Place>)
    requires forall p: Place | p != [] && p[0] == k :: PieceAt(v, p) == PieceAt(child, p[1..])
    requires ReadsFrom(child, 0, ids, places) && ReadsFrom(v, k + 1, more, rest)
    ensures ReadsFrom(v, k, ids + more, Under(k, places) + rest)
  {
    var all := Under(k, places) + rest;
    forall i | 0 <= i < |all| ensures all[i] != [] && all[i][0] >= k && IsIdentity(v, all[i], (ids + more)[i]) {
      if i < |places| { assert all[i][1..] == places[i]; }
    }
    forall i, j | 0 <= i < j < |all| ensures Earlier(all[i], all[j]) {
      if j < |places| { EarlierUnder(k, places[i], places[j]); }
    }
    forall p: Place, x | p != [] && p[0] >= k && IsIdentity(v, p, x) ensures p in all {
      if p[0] == k {
        assert IsIdentity(child, p[1..], x) && p[1..] != [];
        var i :| 0 <= i < |places| && places[i] == p[1..];
        assert all[i] == p;
      } else {
        assert p in rest;
      }
    }
  }

  lemma {:induction false} EntriesRead<I(!new)>(v: Value<I>, k: nat) returns (places: seq<Place>)
    requires v.Dict? && k <= |v.entries|
    ensures ReadsFrom(v, k, EntryIdents(v.entries[k..]), places)
    decreases v, 0, |v.entries| - k
  {
    places := [];
    if k < |v.entries| {
      var child := v.entries[k].1;
      var inner := ValueRead(child);
      var rest := EntriesRead(v, k + 1);
      assert v.entries[k..][1..] == v.entries[k + 1..];
      ChildFirst(v, k, child, Idents(child), inner, EntryIdents(v.entries[k + 1..]), rest);
      places := Under(k, inner) + rest;
    }
  }

  lemma {:induction false} ItemsRead<I(!new)>(v: Value<I>, k: nat) returns (places: seq<Place>)
    requires v.List? && k <= |v.items|
    ensures ReadsFrom(v, k, ItemIdents(v.items[k..]), places)
    decreases v, 0, |v.items| - k
  {
    places := [];
    if k < |v.items| {
      var child := v.items[k];
      var inner := ValueRead(child);
      var rest := ItemsRead(v, k + 1);
      assert v.items[k..][1..] == v.items[k + 1..];
      ChildFirst(v, k, child, Idents(child), inner, ItemIdents(v.items[k + 1..]), rest);
      places := Under(k, inner) + rest;
    }
  }

  lemma PieceFirst<I(!new)>(v: Value<I>, k: nat, more: seq<I>, rest: seq<Place>)
    requires v.Str? && k < |v.toks| && ReadsFrom(v, k + 1, more, rest)
    ensures v.toks[k].Ch? ==> ReadsFrom(v, k, more, rest)
    ensures v.toks[k].Id? ==> ReadsFrom(v, k, [v.toks[k].id] + more, [[k]] + rest)
  {
    forall p: Place, x | p != [] && p[0] >= k && IsIdentity(v, p, x) && p !in rest ensures p == [k] && v.toks[k].Id? {
      assert |p| == 1 && p[0] == k;
    }
    forall j | 0 <= j < |rest| ensures Earlier([k], rest[j]) {
      assert rest[j][0] >= k + 1;
    }
  }

  lemma {:induction false} PiecesRead<I(!new)>(v: Value<I>, k: nat) returns (places: seq<Place>)
    requires v.Str? && k <= |v.toks|
    ensures ReadsFrom(v, k, TokIdents(v.toks[k..]), places)
    decreases |v.toks| - k
  {
    if k == |v.toks| {
      places := [];
    } else {
      var rest := PiecesRead(v, k + 1);
      var more := TokIdents(v.toks[k + 1..]);
      assert v.toks[k..][1..] == v.toks[k + 1..] && v.toks[k..][0] == v.toks[k];
      PieceFirst(v, k, more, rest);
      assert [] + more == more;
      places := if v.toks[k].Ch? then rest else [[k]] + rest;
    }
  }

  lemma {:induction false} ValueRead<I(!new)>(v: Value<I>) returns (places: seq<Place>)
    ensures ReadsFrom(v, 0, Idents(v), places)
    decreases v, 1
  {
    match v
    case Dict(es) =>
      places := EntriesRead(v, 0);
      assert es[0..] == es;
    case List(xs) =>
      places := ItemsRead(v, 0);
      assert xs[0..] == xs;
    case Str(ts) =>
      places := PiecesRead(v, 0);
      assert ts[0..] == ts;
    case Atom(_) => places := [];
  }

  // ---------- the numbers ----------

  /** The identity stands somewhere before every place of the other one. */
  ghost predicate AppearsFirst(v: Value<Ident>, y: Ident, x: Ident) {
    exists p: Place :: IsIdentity(v, p, y) && forall q: Place | IsIdentity(v, q, x) :: Earlier(p, q)
  }

  lemma {:induction false} NotBoth(p: Place, q: Place)
    requires Earlier(p, q)
    ensures !Earlier(q, p)
  {
    if p != [] && p[0] == q[0] { NotBoth(p[1..], q[1..]); }
  }

  lemma {:induction false} FirstIs(xs: seq<Ident>, x: Ident)
    requires x in xs
    ensures xs[FirstAt(xs, x)] == x && forall j | 0 <= j < FirstAt(xs, x) :: xs[j] != x
  {
    if xs[0] != x { FirstIs(xs[1..], x); }
  }

  lemma PlaceIsListed(v: Value<Ident>, ids: seq<Ident>, places: seq<Place>, p: Place, x: Ident) returns (i: nat)
    requires ReadsFrom(v, 0, ids, places) && IsIdentity(v, p, x)
    ensures i < |places| && |places| == |ids| && places[i] == p && ids[i] == x
  {
    assert p != [] && p[0] >= 0;
    i :| 0 <= i < |places| && places[i] == p;
    assert IsIdentity(v, places[i], ids[i]);
  }

  lemma ListedAppearsFirst(v: Value<Ident>, ids: seq<Ident>, places: seq<Place>, x: Ident, i: nat)
    requires ReadsFrom(v, 0, ids, places) && i < |ids| && x in ids && i < FirstAt(ids, x)
    ensures AppearsFirst(v, ids[i], x)
  {
    FirstIs(ids, x);
    forall q: Place | IsIdentity(v, q, x) ensures Earlier(places[i], q) {
      var j := PlaceIsListed(v, ids, places, q, x);
    }
    assert IsIdentity(v, places[i], ids[i]);
  }

  lemma AppearsFirstIsListed(v: Value<Ident>, ids: seq<Ident>, places: seq<Place>, x: Ident, y: Ident)
    requires ReadsFrom(v, 0, ids, places) && x in ids && AppearsFirst(v, y, x)
    ensures y in ids[..FirstAt(ids, x)]
  {
    var k := FirstAt(ids, x);
    FirstIs(ids, x);
    var p: Place :| IsIdentity(v, p, y) && forall q: Place | IsIdentity(v, q, x) :: Earlier(p, q);
    var i := PlaceIsListed(v, ids, places, p, y);
    assert IsIdentity(v, places[k], x);
    NotBoth(places[i], places[k]);
    assert i < k && ids[..k][i] == y;
  }

  lemma EarlierListed(v: Value<Ident>, ids: seq<Ident>, places: seq<Place>, x: Ident, y: Ident)
    requires ReadsFrom(v, 0, ids, places) && x in ids && y in ids[..FirstAt(ids, x)]
    ensures y in ids && AppearsFirst(v, y, x)
  {
    var i := IndexIn(ids, FirstAt(ids, x), y);
    ListedAppearsFirst(v, ids, places, x, i);
  }

  lemma IndexIn(ids: seq<Ident>, n: nat, y: Ident) returns (i: nat)
    requires n <= |ids| && y in ids[..n]
    ensures i < n && ids[i] == y
  {
    i :| i < n && ids[..n][i] == y;
  }

  /** Among the identities read, the ones before the first x are those that appear first. */
  lemma BeforeTheFirst(v: Value<Ident>, places: seq<Place>, x: Ident)
    requires ReadsFrom(v, 0, Idents(v), places) && x in Idents(v)
    ensures Among(Idents(v)[..FirstAt(Idents(v), x)]) == set y | y in Idents(v) && AppearsFirst(v, y, x)
  {
    var before := Idents(v)[..FirstAt(Idents(v), x)];
    var first := set y | y in Idents(v) && AppearsFirst(v, y, x);
    forall y | y in before ensures y in first { EarlierListed(v, Idents(v), places, x, y); }
    forall y | y in first ensures y in before { AppearsFirstIsListed(v, Idents(v), places, x, y); }
  }

  /**
   * The names of a recording are numbered as it is read: an identity is named exactly when it stands somewhere, and
   * its number is how many others stand somewhere before all its places.
   */
  lemma NumberedAsRead(v: Value<Ident>, x: Ident)
    ensures x in NamesOf(v) <==> exists p: Place :: IsIdentity(v, p, x)
    ensures x in NamesOf(v) ==> NamesOf(v)[x] == |set y | y in Idents(v) && AppearsFirst(v, y, x)|
  {
    var places := ValueRead(v);
    NamedWhereRead(v, places, x);
    if x in NamesOf(v) {
      NumberIsRank(v, x);
      BeforeTheFirst(v, places, x);
    }
  }

  lemma NamedWhereRead(v: Value<Ident>, places: seq<Place>, x: Ident)
    requires ReadsFrom(v, 0, Idents(v), places)
    ensures x in NamesOf(v) <==> x in Idents(v)
    ensures x in Idents(v) <==> exists p: Place :: IsIdentity(v, p, x)
  {
    var xs := Idents(v);
    var none: Ids := map[];
    NameAllKeeps(none, xs);
    if p: Place :| IsIdentity(v, p, x) {
      var i := PlaceIsListed(v, xs, places, p, x);
    }
    if i: nat :| i < |xs| && xs[i] == x {
      assert IsIdentity(v, places[i], x);
    }
  }
}
