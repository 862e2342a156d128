/**
 * The names as text: `<rt0>`, `<run1>` and so on inside ordinary strings. Equal texts decide between
 * recordings exactly when these are cut into characters and identities alike; where the recording's own
 * text contains no such label, the texts show the cuts.
 */
module LabelText {
  import opened Options
  import opened IdentityNorm
  import opened AlphaEquivalence
  import opened Decimals

  /** The identity kinds the harness recognises. */
  const KINDS: seq<string> := ["rt", "run", "inv", "hsid", "op", "req", "trace", "input"]

  predicate Listed(p: string, kinds: seq<string>) {
    kinds != [] && (p == kinds[0] || Listed(p, kinds[1..]))
  }

  predicate KnownPrefix(p: string) {
    Listed(p, KINDS)
  }

  predicate Letter(c: char) { 'a' <= c <= 'z' }

  function LabelString(l: Label): string {
    "<" + l.prefix + Decimal(l.n) + ">"
  }

  function Render(ts: seq<Tok<Label>>): string {
    if ts == [] then "" else Piece(ts[0]) + Render(ts[1..])
  }

  function Piece(t: Tok<Label>): string {
    if t.Ch? then [t.c] else LabelString(t.id)
  }

  /** The letters, or digits, the text starts with, and the rest. */
  function SplitLetters(s: string): (string, string) {
    if s == "" || !Letter(s[0]) then ("", s)
    else
      var (p, r) := SplitLetters(s[1..]);
      ([s[0]] + p, r)
  }

  function SplitDigits(s: string): (string, string) {
    if s == "" || !Digit(s[0]) then ("", s)
    else
      var (d, r) := SplitDigits(s[1..]);
      ([s[0]] + d, r)
  }

  /** The digits and the closing bracket of a label of kind p. */
  function ReadLabelTail(p: string, s: string): Option<(Label, string)> {
    var (d, r) := SplitDigits(s);
    if KnownPrefix(p) && d != "" && r != "" && r[0] == '>' then Some((Label(p, ReadDecimal(d)), r[1..])) else None
  }

  /** A label at the start of the text, and what follows it. */
  function ReadLabel(s: string): Option<(Label, string)> {
    if s == "" || s[0] != '<' then None
    else
      var (p, r) := SplitLetters(s[1..]);
      ReadLabelTail(p, r)
  }

  lemma {:induction false} LettersExtend(a: string, r: string)
    requires r == "" || !Letter(r[0])
    ensures SplitLetters(a + r) == (SplitLetters(a).0, SplitLetters(a).1 + r)
    decreases |a|
  {
    if a == "" {
      assert a + r == r;
    } else {
      assert (a + r)[1..] == a[1..] + r;
      LettersExtend(a[1..], r);
    }
  }

  lemma {:induction false} DigitsExtend(a: string, r: string)
    requires r == "" || !Digit(r[0])
    ensures SplitDigits(a + r) == (SplitDigits(a).0, SplitDigits(a).1 + r)
    decreases |a|
  {
    if a == "" {
      assert a + r == r;
    } else {
      assert (a + r)[1..] == a[1..] + r;
      DigitsExtend(a[1..], r);
    }
  }

  lemma {:induction false} AllLetters(a: string)
    requires forall i | 0 <= i < |a| :: Letter(a[i])
    ensures SplitLetters(a) == (a, "")
    decreases |a|
  {
    if a != "" {
      AllLetters(a[1..]);
      assert [a[0]] + a[1..] == a;
    }
  }

  lemma {:induction false} AllDigits(a: string)
    requires forall i | 0 <= i < |a| :: Digit(a[i])
    ensures SplitDigits(a) == (a, "")
    decreases |a|
  {
    if a != "" {
      AllDigits(a[1..]);
      assert [a[0]] + a[1..] == a;
    }
  }

  lemma {:induction false} ListedIsIn(p: string, kinds: seq<string>)
    requires Listed(p, kinds)
    ensures p in kinds
    decreases |kinds|
  {
    if p != kinds[0] { ListedIsIn(p, kinds[1..]); }
  }

  lemma KnownLetters(p: string)
    requires KnownPrefix(p)
    ensures forall i | 0 <= i < |p| :: Letter(p[i])
  {
    ListedIsIn(p, KINDS);
  }

  lemma ReadLabelTailOf(p: string, d: string, r: string)
    requires KnownPrefix(p) && d != "" && forall i | 0 <= i < |d| :: Digit(d[i])
    ensures ReadLabelTail(p, d + (">" + r)) == Some((Label(p, ReadDecimal(d)), r))
  {
    AllDigits(d);
    DigitsExtend(d, ">" + r);
    assert "" + (">" + r) == ">" + r && (">" + r)[1..] == r;
  }

  lemma LabelTail(p: string, d: string, r: string)
    ensures var s := "<" + p + d + ">" + r;
            s != "" && s[0] == '<' && s[1..] == p + (d + (">" + r))
  {
  }

  lemma KnownLettersSplit(p: string, rest: string)
    requires KnownPrefix(p) && rest != "" && !Letter(rest[0])
    ensures SplitLetters(p + rest) == (p, rest)
  {
    KnownLetters(p);
    AllLetters(p);
    LettersExtend(p, rest);
    assert "" + rest == rest;
  }

  lemma ReadLabelParts(p: string, d: string, r: string)
    requires KnownPrefix(p) && d != "" && forall i | 0 <= i < |d| :: Digit(d[i])
    ensures ReadLabel("<" + p + d + ">" + r) == Some((Label(p, ReadDecimal(d)), r))
  {
    var s, rest := "<" + p + d + ">" + r, d + (">" + r);
    LabelTail(p, d, r);
    assert rest[0] == d[0];
    KnownLettersSplit(p, rest);
    ReadLabelTailOf(p, d, r);
  }

  /** A printed label reads back. */
  lemma ReadLabelOf(l: Label, r: string)
    requires KnownPrefix(l.prefix)
    ensures ReadLabel(LabelString(l) + r) == Some((l, r))
  {
    ReadLabelParts(l.prefix, Decimal(l.n), r);
    ReadDecimalOf(l.n);
  }

  /** Text after which no label can be half read: it is over, or a new label begins. */
  predicate LabelBoundary(r: string) {
    r == "" || r[0] == '<'
  }

  /** A label found at the start of `a` followed by a boundary lies in `a`. */
  lemma LabelStaysInside(a: string, r: string)
    requires a != "" && LabelBoundary(r) && ReadLabel(a).None?
    ensures ReadLabel(a + r).None?
  {
    var s := a + r;
    assert s[0] == a[0] && s[1..] == a[1..] + r;
    LettersExtend(a[1..], r);
    LabelTailStaysInside(SplitLetters(a[1..]).0, SplitLetters(a[1..]).1, r);
  }

  lemma LabelTailStaysInside(p: string, a: string, r: string)
    requires LabelBoundary(r)
    ensures ReadLabelTail(p, a).None? ==> ReadLabelTail(p, a + r).None?
  {
    DigitsExtend(a, r);
    var rest := SplitDigits(a).1;
    assert rest != "" ==> (rest + r)[0] == rest[0];
    assert rest == "" ==> rest + r == r;
  }

  /** The literal characters before the first identity. */
  function Leading<I>(ts: seq<Tok<I>>): string {
    if ts == [] || ts[0].Id? then "" else [ts[0].c] + Leading(ts[1..])
  }

  /** No run of literal characters contains the text of a label. */
  predicate CleanToks<I>(ts: seq<Tok<I>>) {
    forall i | 0 <= i < |ts| :: ReadLabel(Leading(ts[i..])).None?
  }

  /** Reads a rendered string back into characters and labels. */
  function Scan(s: string): seq<Tok<Label>>
    decreases |s|
  {
    if s == "" then []
    else match ReadLabel(s)
      case Some((l, r)) => if |r| < |s| then [Id(l)] + Scan(r) else []
      case None => [Ch(s[0])] + Scan(s[1..])
  }

  lemma {:induction false} RenderSplits(ts: seq<Tok<Label>>) returns (r: string)
    ensures Render(ts) == Leading(ts) + r && LabelBoundary(r)
    decreases |ts|
  {
    if ts != [] && ts[0].Ch? {
      r := RenderSplits(ts[1..]);
    } else {
      r := Render(ts);
    }
  }

  lemma {:induction false} ScanRender(ts: seq<Tok<Label>>)
    requires CleanToks(ts) && forall i | 0 <= i < |ts| :: ts[i].Id? ==> KnownPrefix(ts[i].id.prefix)
    ensures Scan(Render(ts)) == ts
    decreases |ts|
  {
    if ts != [] {
      var tail := ts[1..];
      forall i | 0 <= i < |tail| ensures ReadLabel(Leading(tail[i..])).None? {
        assert tail[i..] == ts[i + 1..];
      }
      ScanRender(tail);
      if ts[0].Ch? {
        var r := RenderSplits(ts);
        assert ts[0..] == ts && ReadLabel(Leading(ts)).None?;
        LabelStaysInside(Leading(ts), r);
        assert Render(ts)[1..] == Render(tail);
      } else {
        ReadLabelOf(ts[0].id, Render(tail));
      }
      assert ts == [ts[0]] + tail;
    }
  }

  // ---------- whole recordings ----------

  predicate CleanValue<I>(v: Value<I>) {
    match v
    case Dict(es) => forall i | 0 <= i < |es| :: CleanValue(es[i].1)
    case List(xs) => forall i | 0 <= i < |xs| :: CleanValue(xs[i])
    case Str(ts) => CleanToks(ts)
    case Atom(_) => true
  }

  predicate KnownIdents(v: Value<Label>) {
    match v
    case Dict(es) => forall i | 0 <= i < |es| :: KnownIdents(es[i].1)
    case List(xs) => forall i | 0 <= i < |xs| :: KnownIdents(xs[i])
    case Str(ts) => forall i | 0 <= i < |ts| :: ts[i].Id? ==> KnownPrefix(ts[i].id.prefix)
    case Atom(_) => true
  }

  /** The normalised value as the harness holds it: its strings are text. */
  datatype Text =
    | TDict(entries: seq<(string, Text)>)
    | TList(items: seq<Text>)
    | TStr(s: string)
    | TAtom(n: int)

  function RenderValue(v: Value<Label>): Text {
    match v
    case Dict(es) => TDict(seq(|es|, i requires 0 <= i < |es| => (es[i].0, RenderValue(es[i].1))))
    case List(xs) => TList(seq(|xs|, i requires 0 <= i < |xs| => RenderValue(xs[i])))
    case Str(ts) => TStr(Render(ts))
    case Atom(n) => TAtom(n)
  }

  function ScanValue(t: Text): Value<Label> {
    match t
    case TDict(es) => Dict(seq(|es|, i requires 0 <= i < |es| => (es[i].0, ScanValue(es[i].1))))
    case TList(xs) => List(seq(|xs|, i requires 0 <= i < |xs| => ScanValue(xs[i])))
    case TStr(s) => Str(Scan(s))
    case TAtom(n) => Atom(n)
  }

  lemma {:induction false} ScanRenderValue(v: Value<Label>)
    requires CleanValue(v) && KnownIdents(v)
    ensures ScanValue(RenderValue(v)) == v
  {
    match v
    case Dict(es) =>
      forall i | 0 <= i < |es| ensures ScanValue(RenderValue(es[i].1)) == es[i].1 {
        ScanRenderValue(es[i].1);
      }
      assert ScanValue(RenderValue(v)).entries == es;
    case List(xs) =>
      forall i | 0 <= i < |xs| ensures ScanValue(RenderValue(xs[i])) == xs[i] {
        ScanRenderValue(xs[i]);
      }
      assert ScanValue(RenderValue(v)).items == xs;
    case Str(ts) => ScanRender(ts);
    case Atom(_) =>
  }

  lemma {:induction false} LeadingMap<I, J>(ts: seq<Tok<I>>, g: I -> J)
    ensures Leading(MapToks(ts, g)) == Leading(ts)
    decreases |ts|
  {
    if ts != [] {
      assert MapToks(ts, g)[1..] == MapToks(ts[1..], g);
      LeadingMap(ts[1..], g);
    }
  }

  lemma {:induction false} CleanMap<I, J>(v: Value<I>, g: I -> J)
    requires CleanValue(v)
    ensures CleanValue(MapValue(v, g))
  {
    match v
    case Dict(es) =>
      forall i | 0 <= i < |es| ensures CleanValue(MapValue(es[i].1, g)) {
        CleanMap(es[i].1, g);
      }
    case List(xs) =>
      forall i | 0 <= i < |xs| ensures CleanValue(MapValue(xs[i], g)) {
        CleanMap(xs[i], g);
      }
    case Str(ts) =>
      var us := MapToks(ts, g);
      forall i | 0 <= i < |us| ensures ReadLabel(Leading(us[i..])).None? {
        assert us[i..] == MapToks(ts[i..], g);
        LeadingMap(ts[i..], g);
      }
    case Atom(_) =>
  }

  lemma {:induction false} KnownMap(v: Value<Ident>, g: Ident -> Label)
    requires forall x | x in Idents(v) :: KnownPrefix(g(x).prefix)
    ensures KnownIdents(MapValue(v, g))
  {
    match v
    case Dict(es) =>
      forall i | 0 <= i < |es| ensures KnownIdents(MapValue(es[i].1, g)) {
        EntryIdentsAt(es, i);
        KnownMap(es[i].1, g);
      }
    case List(xs) =>
      forall i | 0 <= i < |xs| ensures KnownIdents(MapValue(xs[i], g)) {
        ItemIdentsAt(xs, i);
        KnownMap(xs[i], g);
      }
    case Str(ts) =>
      forall i | 0 <= i < |ts| && ts[i].Id? ensures KnownPrefix(g(ts[i].id).prefix) {
        TokIdentsHas(ts, i);
      }
    case Atom(_) =>
  }

  // ---------- when texts decide ----------

  /** Characters and identities stand at the same positions. */
  predicate SameToks<I, J>(ts: seq<Tok<I>>, us: seq<Tok<J>>) {
    |ts| == |us| && forall i | 0 <= i < |ts| :: ts[i].Ch? <==> us[i].Ch?
  }

  /** The same containers and lengths, atoms at the same places, strings cut into the same kinds of pieces. */
  predicate SameKinds<I, J>(a: Value<I>, b: Value<J>) {
    match a
    case Dict(es) =>
      b.Dict? && |es| == |b.entries| && forall i | 0 <= i < |es| :: SameKinds(es[i].1, b.entries[i].1)
    case List(xs) => b.List? && |xs| == |b.items| && forall i | 0 <= i < |xs| :: SameKinds(xs[i], b.items[i])
    case Str(ts) => b.Str? && SameToks(ts, b.toks)
    case Atom(_) => b.Atom?
  }

  lemma {:induction false} MapKeepsKinds<I, J, K, L>(a: Value<I>, b: Value<J>, g: I -> K, h: J -> L)
    ensures SameKinds(MapValue(a, g), MapValue(b, h)) <==> SameKinds(a, b)
  {
    if a.Dict? && b.Dict? && |a.entries| == |b.entries| {
      var es, fs := MapValue(a, g).entries, MapValue(b, h).entries;
      forall i | 0 <= i < |es| ensures SameKinds(es[i].1, fs[i].1) <==> SameKinds(a.entries[i].1, b.entries[i].1) {
        MapKeepsKinds(a.entries[i].1, b.entries[i].1, g, h);
      }
    } else if a.List? && b.List? && |a.items| == |b.items| {
      var xs, ys := MapValue(a, g).items, MapValue(b, h).items;
      forall i | 0 <= i < |xs| ensures SameKinds(xs[i], ys[i]) <==> SameKinds(a.items[i], b.items[i]) {
        MapKeepsKinds(a.items[i], b.items[i], g, h);
      }
    } else if a.Str? && b.Str? && |a.toks| == |b.toks| {
      var ts, us := MapToks(a.toks, g), MapToks(b.toks, h);
      assert forall i | 0 <= i < |ts| ::
          (ts[i].Ch? <==> a.toks[i].Ch?) && (us[i].Ch? <==> b.toks[i].Ch?);
    }
  }

  lemma {:induction false} KindsReflexive<I>(v: Value<I>)
    ensures SameKinds(v, v)
  {
    match v
    case Dict(es) =>
      forall i | 0 <= i < |es| ensures SameKinds(es[i].1, es[i].1) {
        KindsReflexive(es[i].1);
      }
    case List(xs) =>
      forall i | 0 <= i < |xs| ensures SameKinds(xs[i], xs[i]) {
        KindsReflexive(xs[i]);
      }
    case _ =>
  }

  /** A renaming moves no cut. */
  lemma RenamingKeepsKinds(a: Value<Ident>, b: Value<Ident>)
    requires AlphaEquivalent(a, b)
    ensures SameKinds(a, b)
  {
    var f :| Renaming(f, a, b) && MapValue(a, Apply(f)) == b;
    var id := (y: Ident) => y;
    MapIdentity(b, id);
    MapKeepsKinds(a, b, Apply(f), id);
    KindsReflexive(b);
  }

  predicate KnownToks(ts: seq<Tok<Label>>) {
    forall i | 0 <= i < |ts| :: ts[i].Id? ==> KnownPrefix(ts[i].id.prefix)
  }

  /** The first piece of equal texts of the same kinds is the same, and so is what follows it. */
  lemma FirstPiece(t: Tok<Label>, u: Tok<Label>, x: string, y: string)
    requires (t.Ch? <==> u.Ch?) && (t.Id? ==> KnownPrefix(t.id.prefix) && KnownPrefix(u.id.prefix))
    requires Piece(t) + x == Piece(u) + y
    ensures t == u && x == y
  {
    if t.Ch? {
      assert (Piece(t) + x)[0] == t.c && (Piece(u) + y)[0] == u.c;
      assert (Piece(t) + x)[1..] == x && (Piece(u) + y)[1..] == y;
    } else {
      ReadLabelOf(t.id, x);
      ReadLabelOf(u.id, y);
    }
  }

  /** Piece by piece, equal texts of the same kinds are equal. */
  lemma {:induction false} RenderDecides(ts: seq<Tok<Label>>, us: seq<Tok<Label>>)
    requires SameToks(ts, us) && KnownToks(ts) && KnownToks(us) && Render(ts) == Render(us)
    ensures ts == us
    decreases |ts|
  {
    if ts != [] {
      FirstPiece(ts[0], us[0], Render(ts[1..]), Render(us[1..]));
      RenderDecides(ts[1..], us[1..]);
      assert ts == [ts[0]] + ts[1..] && us == [us[0]] + us[1..];
    }
  }

  lemma {:induction false} RenderValueDecides(a: Value<Label>, b: Value<Label>)
    requires SameKinds(a, b) && KnownIdents(a) && KnownIdents(b) && RenderValue(a) == RenderValue(b)
    ensures a == b
  {
    match a
    case Dict(es) =>
      var fs := b.entries;
      forall i | 0 <= i < |es| ensures es[i] == fs[i] {
        assert RenderValue(a).entries[i] == RenderValue(b).entries[i];
        RenderValueDecides(es[i].1, fs[i].1);
      }
    case List(xs) =>
      forall i | 0 <= i < |xs| ensures xs[i] == b.items[i] {
        assert RenderValue(a).items[i] == RenderValue(b).items[i];
        RenderValueDecides(xs[i], b.items[i]);
      }
    case Str(ts) => RenderDecides(ts, b.toks);
    case Atom(_) =>
  }

  /** All identities are of the recognised kinds. */
  ghost predicate Recognised(v: Value<Ident>) {
    forall x | x in Idents(v) :: KnownPrefix(x.prefix)
  }

  /**
   * What the compared texts decide, whatever the literals hold: recordings are renamings of each other exactly
   * when their texts are equal and their strings are cut into characters and identities at the same places. So
   * equal texts mislead exactly when the cuts differ.
   */
  lemma TextsDecideExactly(a: Value<Ident>, b: Value<Ident>)
    requires Recognised(a) && Recognised(b)
    ensures AlphaEquivalent(a, b) <==> RenderValue(Output(a)) == RenderValue(Output(b)) && SameKinds(a, b)
  {
    var g, h := LabelOf(NameAll(map[], Idents(a))), LabelOf(NameAll(map[], Idents(b)));
    NormDecidesAlphaEquivalence(a, b);
    MapKeepsKinds(a, b, g, h);
    if Output(a) == Output(b) {
      KindsReflexive(Output(a));
    } else if RenderValue(Output(a)) == RenderValue(Output(b)) && SameKinds(a, b) {
      KnownMap(a, g);
      KnownMap(b, h);
      RenderValueDecides(Output(a), Output(b));
    }
  }

  // ---------- literals without label text ----------

  /** A recording with recognised identities and no label text of its own. */
  ghost predicate Recorded(v: Value<Ident>) {
    CleanValue(v) && Recognised(v)
  }

  lemma RecordedReadsBack(v: Value<Ident>)
    requires Recorded(v)
    ensures ScanValue(RenderValue(Output(v))) == Output(v)
  {
    var g := LabelOf(NameAll(map[], Idents(v)));
    CleanMap(v, g);
    KnownMap(v, g);
    ScanRenderValue(Output(v));
  }

  /** Two such recordings with equal texts are cut alike: a text that holds no label of its own shows its cuts. */
  lemma CleanTextsShowCuts(a: Value<Ident>, b: Value<Ident>)
    requires Recorded(a) && Recorded(b) && RenderValue(Output(a)) == RenderValue(Output(b))
    ensures SameKinds(a, b)
  {
    RecordedReadsBack(a);
    RecordedReadsBack(b);
    MapKeepsKinds(a, b, LabelOf(NameAll(map[], Idents(a))), LabelOf(NameAll(map[], Idents(b))));
    KindsReflexive(Output(a));
  }

  /** So for them the texts alone decide. */
  lemma TextsDecideAlphaEquivalence(a: Value<Ident>, b: Value<Ident>)
    requires Recorded(a) && Recorded(b)
    ensures RenderValue(Output(a)) == RenderValue(Output(b)) <==> AlphaEquivalent(a, b)
  {
    TextsDecideExactly(a, b);
    if RenderValue(Output(a)) == RenderValue(Output(b)) { CleanTextsShowCuts(a, b); }
  }

  const SPELLED: seq<Tok<Ident>> := [Ch('<'), Ch('r'), Ch('t'), Ch('0'), Ch('>')]

  lemma FirstLabel(x: Ident)
    requires x.prefix == "rt"
    ensures RenderValue(Output(Str([Id(x)]))) == TStr("<rt0>")
  {
    var ts: seq<Tok<Ident>> := [Id(x)];
    assert ts[1..] == [] && TokIdents(ts) == [x];
    assert [x][1..] == [] && NameAll(map[], [x]) == Name(map[], x) == map[x := 0];
    var ls: seq<Tok<Label>> := [Id(Label("rt", 0))];
    assert MapToks(ts, LabelOf(map[x := 0])) == ls;
    assert ls[1..] == [] && Render(ls) == LabelString(Label("rt", 0)) == "<rt0>";
  }

  /** The cuts are needed: a recording that spells a label is confused with one that holds the identity. */
  lemma LabelTextIsAmbiguous(tail: string)
    ensures RenderValue(Output(Str([Id(Ident("rt", tail))]))) == RenderValue(Output(Str(SPELLED)))
    ensures !SameKinds(Str([Id(Ident("rt", tail))]), Str(SPELLED))
    ensures !AlphaEquivalent(Str([Id(Ident("rt", tail))]), Str(SPELLED))
  {
    FirstLabel(Ident("rt", tail));
    PlainOutput(SPELLED);
    assert seq(5, i requires 0 <= i < 5 => SPELLED[i].c) == "<rt0>";
    if AlphaEquivalent(Str([Id(Ident("rt", tail))]), Str(SPELLED)) {
      RenamingKeepsKinds(Str([Id(Ident("rt", tail))]), Str(SPELLED));
    }
  }

  lemma {:induction false} PlainRender(us: seq<Tok<Label>>)
    requires forall i | 0 <= i < |us| :: us[i].Ch?
    ensures |Render(us)| == |us| && forall i | 0 <= i < |us| :: Render(us)[i] == us[i].c
    decreases |us|
  {
    if us != [] {
      PlainRender(us[1..]);
    }
  }

  /** Text without identities is shown as it is. */
  lemma PlainOutput(us: seq<Tok<Ident>>)
    requires forall i | 0 <= i < |us| :: us[i].Ch?
    ensures RenderValue(Output(Str(us))) == TStr(seq(|us|, i requires 0 <= i < |us| => us[i].c))
  {
    var g := LabelOf(NameAll(map[], Idents(Str(us))));
    PlainRender(MapToks(us, g));
    assert Render(MapToks(us, g)) == seq(|us|, i requires 0 <= i < |us| => us[i].c);
  }
}
