/**
 * The key-sorted printer that compares provenance tuples: two values print alike exactly when
 * they are equal up to the order of object keys. Strings are quoted as `JSON.stringify` does,
 * within section 7 of RFC 8259.
 */
module StableJson {
  import opened J = JsonValues
  import opened Sequences

  /** A parsed JSON value; a number is the text it prints as. */
  type Json = J.Json<string>

  type Order = (string, string) -> bool

  ghost predicate TotalOrder(le: Order) {
    (forall a, b :: le(a, b) || le(b, a))
    && (forall a, b :: le(a, b) && le(b, a) ==> a == b)
    && (forall a, b, c :: le(a, b) && le(b, c) ==> le(a, c))
  }

  predicate NumChar(c: char) {
    '0' <= c <= '9' || c == '-' || c == '+' || c == '.' || c == 'e' || c == 'E'
  }

  predicate NumToken(t: string) {
    |t| > 0 && (t[0] == '-' || '0' <= t[0] <= '9') && forall i | 0 <= i < |t| :: NumChar(t[i])
  }

  /** What a JSON parser can return: no repeated key, numbers that are number tokens. */
  predicate WellFormed(v: Json) {
    J.WellFormed(v, NumToken)
  }

  ghost predicate HasKey(ms: seq<(string, Json)>, k: string) {
    exists j :: 0 <= j < |ms| && ms[j].0 == k
  }

  /** Equal up to the order of object keys, at every depth. */
  ghost predicate Same(a: Json, b: Json) {
    match (a, b)
    case (Arr(xs), Arr(ys)) => |xs| == |ys| && forall i | 0 <= i < |xs| :: Same(xs[i], ys[i])
    case (Obj(ms), Obj(ns)) =>
      |ms| == |ns|
      && (forall i | 0 <= i < |ms| :: HasKey(ns, ms[i].0))
      && (forall i, j | 0 <= i < |ms| && 0 <= j < |ns| && ms[i].0 == ns[j].0 :: Same(ms[i].1, ns[j].1))
    case _ => a == b
  }

  // ---------- the printer ----------

  function HexDigit(n: nat): char
    requires n < 16
  {
    "0123456789abcdef"[n]
  }

  /** One character inside a quoted string: the escapes of RFC 8259 section 7 that `JSON.stringify` uses. */
  function EscapeChar(c: char): string {
    if c == '\"' then "\\\""
    else if c == '\\' then "\\\\"
    else if c == '\U{8}' then "\\b"
    else if c == '\t' then "\\t"
    else if c == '\n' then "\\n"
    else if c == '\U{c}' then "\\f"
    else if c == '\r' then "\\r"
    else if c < ' ' then "\\u00" + [HexDigit(c as int / 16), HexDigit(c as int % 16)]
    else [c]
  }

  function Escape(s: string): string {
    if s == [] then [] else EscapeChar(s[0]) + Escape(s[1..])
  }

  function Quote(s: string): string {
    ['\"'] + Escape(s) + ['\"']
  }

  /** A stable insertion by key: the sort of the entries. */
  function Insert(m: (string, Json), ms: seq<(string, Json)>, le: Order): (r: seq<(string, Json)>)
    ensures multiset(r) == multiset([m]) + multiset(ms)
    decreases |ms|
  {
    if ms == [] then [m]
    else if le(m.0, ms[0].0) then
      assert multiset([m] + ms) == multiset([m]) + multiset(ms);
      [m] + ms
    else
      assert ms == [ms[0]] + ms[1..];
      [ms[0]] + Insert(m, ms[1..], le)
  }

  function SortByKey(ms: seq<(string, Json)>, le: Order): (r: seq<(string, Json)>)
    ensures multiset(r) == multiset(ms)
    decreases |ms|
  {
    if ms == [] then []
    else
      assert ms == [ms[0]] + ms[1..];
      Insert(ms[0], SortByKey(ms[1..], le), le)
  }

  lemma SortedMember(ms: seq<(string, Json)>, le: Order, m: (string, Json))
    ensures m in SortByKey(ms, le) <==> m in ms
  {
    assert m in multiset(SortByKey(ms, le)) <==> m in multiset(ms);
  }

  function StableJson(v: Json, le: Order): string
    decreases v, 1, 0
  {
    match v
    case Null => "null"
    case Bool(b) => if b then "true" else "false"
    case Num(t) => t
    case Str(s) => Quote(s)
    case Arr(items) => "[" + StableItems(v, items, le) + "]"
    case Obj(ms) =>
      assert forall m | m in SortByKey(ms, le) :: m.1 < v by {
        forall m | m in SortByKey(ms, le) ensures m.1 < v {
          SortedMember(ms, le, m);
        }
      }
      "{" + StableMembers(v, SortByKey(ms, le), le) + "}"
  }

  function StableItems(parent: Json, items: seq<Json>, le: Order): string
    requires forall i | 0 <= i < |items| :: items[i] < parent
    decreases parent, 0, |items|
  {
    if items == [] then ""
    else if |items| == 1 then StableJson(items[0], le)
    else StableJson(items[0], le) + "," + StableItems(parent, items[1..], le)
  }

  function StableMember(parent: Json, m: (string, Json), le: Order): string
    requires m.1 < parent
    decreases parent, 0, 0
  {
    Quote(m.0) + ":" + StableJson(m.1, le)
  }

  function StableMembers(parent: Json, ms: seq<(string, Json)>, le: Order): string
    requires forall m | m in ms :: m.1 < parent
    decreases parent, 0, |ms|
  {
    if ms == [] then ""
    else if |ms| == 1 then StableMember(parent, ms[0], le)
    else StableMember(parent, ms[0], le) + "," + StableMembers(parent, ms[1..], le)
  }

  // ---------- the same text without the sort ----------

  /** The value with every object's entries in key order. */
  function Canon(v: Json, le: Order): Json
    decreases v, 1
  {
    match v
    case Arr(items) => Arr(seq(|items|, i requires 0 <= i < |items| => Canon(items[i], le)))
    case Obj(ms) =>
      assert forall m | m in SortByKey(ms, le) :: m.1 < v by {
        forall m | m in SortByKey(ms, le) ensures m.1 < v {
          SortedMember(ms, le, m);
        }
      }
      Obj(CanonMembers(v, SortByKey(ms, le), le))
    case _ => v
  }

  function CanonMembers(parent: Json, ms: seq<(string, Json)>, le: Order): (r: seq<(string, Json)>)
    requires forall m | m in ms :: m.1 < parent
    ensures |r| == |ms| && forall i | 0 <= i < |ms| :: r[i] == (ms[i].0, Canon(ms[i].1, le))
    decreases parent, 0, |ms|
  {
    if ms == [] then [] else [(ms[0].0, Canon(ms[0].1, le))] + CanonMembers(parent, ms[1..], le)
  }

  function Print(v: Json): string
    decreases v, 1
  {
    match v
    case Null => "null"
    case Bool(b) => if b then "true" else "false"
    case Num(t) => t
    case Str(s) => Quote(s)
    case Arr(items) => "[" + PrintItems(items) + "]"
    case Obj(ms) => "{" + PrintMembers(ms) + "}"
  }

  function PrintItems(items: seq<Json>): string
    decreases items, 0
  {
    if items == [] then ""
    else if |items| == 1 then Print(items[0])
    else Print(items[0]) + "," + PrintItems(items[1..])
  }

  function PrintMember(m: (string, Json)): string
    decreases m, 2
  {
    Quote(m.0) + ":" + Print(m.1)
  }

  function PrintMembers(ms: seq<(string, Json)>): string
    decreases ms, 0
  {
    if ms == [] then ""
    else if |ms| == 1 then PrintMember(ms[0])
    else PrintMember(ms[0]) + "," + PrintMembers(ms[1..])
  }

  lemma {:induction false} StableIsPrintCanon(v: Json, le: Order)
    ensures StableJson(v, le) == Print(Canon(v, le))
    decreases v, 1, 0
  {
    match v
    case Arr(items) =>
      var cs := seq(|items|, i requires 0 <= i < |items| => Canon(items[i], le));
      StableItemsPrint(v, items, cs, le);
    case Obj(ms) =>
      forall m | m in SortByKey(ms, le) ensures m.1 < v {
        SortedMember(ms, le, m);
      }
      StableMembersPrint(v, SortByKey(ms, le), le);
    case _ =>
  }

  lemma {:induction false} StableItemsPrint(parent: Json, items: seq<Json>, cs: seq<Json>, le: Order)
    requires forall i | 0 <= i < |items| :: items[i] < parent
    requires |cs| == |items| && forall i | 0 <= i < |items| :: cs[i] == Canon(items[i], le)
    ensures StableItems(parent, items, le) == PrintItems(cs)
    decreases parent, 0, |items|
  {
    if items != [] {
      StableIsPrintCanon(items[0], le);
      StableItemsPrint(parent, items[1..], cs[1..], le);
    }
  }

  lemma {:induction false} StableMembersPrint(parent: Json, ms: seq<(string, Json)>, le: Order)
    requires forall m | m in ms :: m.1 < parent
    ensures StableMembers(parent, ms, le) == PrintMembers(CanonMembers(parent, ms, le))
    decreases parent, 0, |ms|
  {
    if ms != [] {
      assert ms[0] in ms;
      StableIsPrintCanon(ms[0].1, le);
      StableMembersPrint(parent, ms[1..], le);
      assert CanonMembers(parent, ms, le)[1..] == CanonMembers(parent, ms[1..], le);
    }
  }

  // ---------- a reader for the printed text ----------

  datatype Read<+T> = Ok(value: T, rest: string) | Bad

  function HexValue(c: char): nat {
    if '0' <= c <= '9' then c as int - '0' as int
    else if 'a' <= c <= 'f' then c as int - 'a' as int + 10
    else 0
  }

  function Unescape1(c: char): char {
    match c
    case 'b' => '\U{8}'
    case 't' => '\t'
    case 'n' => '\n'
    case 'f' => '\U{c}'
    case 'r' => '\r'
    case _ => c
  }

  /** The rest of a quoted string, after its opening quote. */
  function ReadString(x: string): (r: Read<string>)
    ensures r.Ok? ==> |r.rest| < |x|
    decreases |x|
  {
    if x == "" then Bad
    else if x[0] == '\"' then Ok("", x[1..])
    else if x[0] != '\\' then
      match ReadString(x[1..]) case Ok(s, rest) => Ok([x[0]] + s, rest) case Bad => Bad
    else if |x| < 2 then Bad
    else if x[1] != 'u' then
      match ReadString(x[2..]) case Ok(s, rest) => Ok([Unescape1(x[1])] + s, rest) case Bad => Bad
    else if |x| < 6 then Bad
    else
      match ReadString(x[6..])
      case Ok(s, rest) => Ok([(HexValue(x[4]) * 16 + HexValue(x[5])) as char] + s, rest)
      case Bad => Bad
  }

  function NumPrefix(x: string): (n: nat)
    ensures n <= |x|
  {
    if x == "" || !NumChar(x[0]) then 0 else 1 + NumPrefix(x[1..])
  }

  function ReadValue(x: string): (r: Read<Json>)
    ensures r.Ok? ==> |r.rest| < |x|
    decreases |x|, 1
  {
    if x == "" then Bad
    else if x[0] == 'n' then if |x| >= 4 then Ok(Null, x[4..]) else Bad
    else if x[0] == 't' then if |x| >= 4 then Ok(Bool(true), x[4..]) else Bad
    else if x[0] == 'f' then if |x| >= 5 then Ok(Bool(false), x[5..]) else Bad
    else if x[0] == '\"' then
      match ReadString(x[1..]) case Ok(s, rest) => Ok(Str(s), rest) case Bad => Bad
    else if x[0] == '[' then
      if |x| > 1 && x[1] == ']' then Ok(Arr([]), x[2..])
      else match ReadItems(x[1..]) case Ok(xs, rest) => Ok(Arr(xs), rest) case Bad => Bad
    else if x[0] == '{' then
      if |x| > 1 && x[1] == '}' then Ok(Obj([]), x[2..])
      else match ReadMembers(x[1..]) case Ok(ms, rest) => Ok(Obj(ms), rest) case Bad => Bad
    else
      var n := NumPrefix(x);
      if n > 0 then Ok(Num(x[..n]), x[n..]) else Bad
  }

  function ReadItems(x: string): (r: Read<seq<Json>>)
    ensures r.Ok? ==> |r.rest| < |x|
    decreases |x|, 2
  {
    match ReadValue(x)
    case Bad => Bad
    case Ok(v, rest) =>
      if rest == "" then Bad
      else if rest[0] == ']' then Ok([v], rest[1..])
      else match ReadItems(rest[1..]) case Ok(vs, rest') => Ok([v] + vs, rest') case Bad => Bad
  }

  function ReadMembers(x: string): (r: Read<seq<(string, Json)>>)
    ensures r.Ok? ==> |r.rest| < |x|
    decreases |x|, 2
  {
    if x == "" then Bad
    else
      match ReadString(x[1..])
      case Bad => Bad
      case Ok(key, after) =>
        if after == "" then Bad
        else match ReadValue(after[1..])
          case Bad => Bad
          case Ok(v, rest) =>
            if rest == "" then Bad
            else if rest[0] == '}' then Ok([(key, v)], rest[1..])
            else match ReadMembers(rest[1..])
              case Ok(ms, rest') => Ok([(key, v)] + ms, rest')
              case Bad => Bad
  }

  lemma HexDigitValue(n: nat)
    requires n < 16
    ensures HexValue(HexDigit(n)) == n
  {
  }

  /** Reading a six-character escape yields its character. */
  lemma ReadControl(n: nat, x: string)
    requires n < 32
    ensures ReadString("\\u00" + [HexDigit(n / 16), HexDigit(n % 16)] + x) ==
            match ReadString(x) case Ok(s, rest) => Ok([n as char] + s, rest) case Bad => Bad
  {
    var text := "\\u00" + [HexDigit(n / 16), HexDigit(n % 16)] + x;
    HexDigitValue(n / 16);
    HexDigitValue(n % 16);
    assert text[6..] == x && text[0] == '\\' && text[1] == 'u';
    assert text[4] == HexDigit(n / 16) && text[5] == HexDigit(n % 16);
    assert n / 16 * 16 + n % 16 == n;
  }

  lemma ReadShort(c: char, x: string)
    requires c != 'u'
    ensures ReadString(['\\', c] + x) ==
            match ReadString(x) case Ok(s, rest) => Ok([Unescape1(c)] + s, rest) case Bad => Bad
  {
    var text := ['\\', c] + x;
    assert text[2..] == x && text[0] == '\\' && text[1] == c;
  }

  lemma ReadPlain(c: char, x: string)
    requires c != '\\' && c != '\"'
    ensures ReadString([c] + x) == match ReadString(x) case Ok(s, rest) => Ok([c] + s, rest) case Bad => Bad
  {
    var text := [c] + x;
    assert text[1..] == x && text[0] == c;
  }

  predicate Escaped1(c: char) {
    c == '\"' || c == '\\' || c == '\U{8}' || c == '\t' || c == '\n' || c == '\U{c}' || c == '\r'
  }

  lemma ReadEscapeChar(c: char, x: string)
    ensures ReadString(EscapeChar(c) + x) ==
            match ReadString(x) case Ok(s, rest) => Ok([c] + s, rest) case Bad => Bad
  {
    if Escaped1(c) {
      assert |EscapeChar(c)| == 2 && EscapeChar(c) == ['\\', EscapeChar(c)[1]];
      assert EscapeChar(c)[1] != 'u' && Unescape1(EscapeChar(c)[1]) == c;
      ReadShort(EscapeChar(c)[1], x);
    } else if c < ' ' {
      assert (c as int) < 32 && (c as int) as char == c;
      ReadControl(c as int, x);
    } else {
      ReadPlain(c, x);
    }
  }

  lemma ReadEnd(r: string)
    ensures ReadString(['\"'] + r) == Ok("", r)
  {
    assert (['\"'] + r)[1..] == r;
  }

  lemma {:induction false} ReadEscaped(s: string, r: string)
    ensures ReadString(Escape(s) + (['\"'] + r)) == Ok(s, r)
    decreases |s|
  {
    var x := ['\"'] + r;
    if s == "" {
      assert Escape(s) + x == x;
      ReadEnd(r);
    } else {
      Regroup(EscapeChar(s[0]), Escape(s[1..]), x);
      ReadEscapeChar(s[0], Escape(s[1..]) + x);
      ReadEscaped(s[1..], r);
      assert [s[0]] + s[1..] == s;
    }
  }

  lemma BetweenQuotes(e: string, r: string)
    ensures var text := "\"" + e + "\"" + r; text[0] == '\"' && text[1..] == e + (['\"'] + r)
  {
  }

  lemma ReadQuoted(s: string, r: string)
    ensures (Quote(s) + r)[0] == '\"' && ReadString((Quote(s) + r)[1..]) == Ok(s, r)
  {
    ReadEscaped(s, r);
    BetweenQuotes(Escape(s), r);
  }

  /** What can follow a value in the printed text. */
  predicate Delimited(r: string) {
    r == "" || r[0] == ',' || r[0] == ']' || r[0] == '}'
  }

  lemma {:induction false} NumPrefixIs(t: string, r: string)
    requires Delimited(r) && forall i | 0 <= i < |t| :: NumChar(t[i])
    ensures NumPrefix(t + r) == |t|
    decreases |t|
  {
    if t == "" {
      assert t + r == r;
    } else {
      assert (t + r)[1..] == t[1..] + r;
      NumPrefixIs(t[1..], r);
    }
  }

  lemma PrintStart(v: Json)
    requires WellFormed(v)
    ensures Print(v) != "" && Print(v)[0] != ']' && Print(v)[0] != '}'
  {
  }

  lemma ReadLiteral(v: Json, r: string)
    requires v.Null? || v.Bool?
    ensures ReadValue(Print(v) + r) == Ok(v, r)
  {
    var x := Print(v) + r;
    assert x[|Print(v)|..] == r;
  }

  lemma ReadNum(t: string, r: string)
    requires NumToken(t) && Delimited(r)
    ensures ReadValue(t + r) == Ok(Num(t), r)
  {
    var x := t + r;
    NumPrefixIs(t, r);
    assert x[..|t|] == t && x[|t|..] == r && x[0] == t[0];
  }

  lemma Wrapped(open: string, a: string, close: string, r: string)
    requires |open| == |close| == 1
    ensures var x := open + a + close + r;
            |x| > 1 && x[0] == open[0] && x[1..] == a + (close + r)
            && (a == "" ==> x[1] == close[0] && x[2..] == r) && (a != "" ==> x[1] == a[0])
  {
    var x := open + a + close + r;
    assert x[1..] == a + (close + r);
    if a == "" {
      assert x[2..] == r;
    }
  }

  lemma FourParts(a: string, b: string, c: string, d: string)
    ensures a + b + c + d == a + (b + (c + d))
  {
  }

  lemma ReadArray(items: seq<Json>, x: string, r: string)
    requires |x| > 1 && x[0] == '['
    requires items == [] ==> x[1] == ']' && x[2..] == r
    requires items != [] ==> x[1] != ']' && ReadItems(x[1..]) == Ok(items, r)
    ensures ReadValue(x) == Ok(Arr(items), r)
  {
  }

  lemma ReadObject(ms: seq<(string, Json)>, x: string, r: string)
    requires |x| > 1 && x[0] == '{'
    requires ms == [] ==> x[1] == '}' && x[2..] == r
    requires ms != [] ==> x[1] != '}' && ReadMembers(x[1..]) == Ok(ms, r)
    ensures ReadValue(x) == Ok(Obj(ms), r)
  {
  }

  /** The reader undoes the printer, whatever text follows the value. */
  lemma {:induction false} ReadPrint(v: Json, r: string)
    requires WellFormed(v) && Delimited(r)
    ensures ReadValue(Print(v) + r) == Ok(v, r)
    decreases v, 1
  {
    match v
    case Null => ReadLiteral(v, r);
    case Bool(_) => ReadLiteral(v, r);
    case Num(t) => ReadNum(t, r);
    case Str(s) => ReadQuoted(s, r);
    case Arr(items) => ReadArrayPrint(items, r);
    case Obj(ms) => ReadObjectPrint(ms, r);
  }

  lemma {:induction false} ReadArrayPrint(items: seq<Json>, r: string)
    requires forall i | 0 <= i < |items| :: WellFormed(items[i])
    ensures ReadValue(Print(Arr(items)) + r) == Ok(Arr(items), r)
    decreases items, 1
  {
    Wrapped("[", PrintItems(items), "]", r);
    if items != [] {
      PrintStart(items[0]);
      ReadItemsPrint(items, r);
    }
    ReadArray(items, Print(Arr(items)) + r, r);
  }

  lemma {:induction false} ReadObjectPrint(ms: seq<(string, Json)>, r: string)
    requires forall i | 0 <= i < |ms| :: WellFormed(ms[i].1)
    ensures ReadValue(Print(Obj(ms)) + r) == Ok(Obj(ms), r)
    decreases ms, 1
  {
    Wrapped("{", PrintMembers(ms), "}", r);
    if ms != [] {
      ReadMembersPrint(ms, r);
    }
    ReadObject(ms, Print(Obj(ms)) + r, r);
  }

  lemma ItemsTail(items: seq<Json>, r: string)
    requires items != []
    ensures PrintItems(items) + ("]" + r)
            == Print(items[0]) + if |items| == 1 then "]" + r else "," + (PrintItems(items[1..]) + ("]" + r))
  {
    if |items| > 1 { FourParts(Print(items[0]), ",", PrintItems(items[1..]), "]" + r); }
  }

  lemma {:induction false} ReadOnlyItem(v: Json, r: string)
    requires WellFormed(v)
    ensures ReadItems(Print(v) + ("]" + r)) == Ok([v], r)
    decreases v, 3
  {
    ReadPrint(v, "]" + r);
    ReadLastItem(v, Print(v) + ("]" + r), r);
  }

  lemma {:induction false} ReadFirstItem(v: Json, tail: seq<Json>, rest: string, r: string)
    requires WellFormed(v) && ReadItems(rest) == Ok(tail, r)
    ensures ReadItems(Print(v) + ("," + rest)) == Ok([v] + tail, r)
    decreases v, 3
  {
    ReadPrint(v, "," + rest);
    ReadOneItem(v, tail, Print(v) + ("," + rest), rest, r);
  }

  lemma {:induction false} ReadItemsPrint(items: seq<Json>, r: string)
    requires items != [] && forall i | 0 <= i < |items| :: WellFormed(items[i])
    ensures ReadItems(PrintItems(items) + ("]" + r)) == Ok(items, r)
    decreases items, 0
  {
    ItemsTail(items, r);
    FirstAndRest(items);
    if |items| == 1 {
      ReadOnlyItem(items[0], r);
    } else {
      ReadItemsPrint(items[1..], r);
      ReadFirstItem(items[0], items[1..], PrintItems(items[1..]) + ("]" + r), r);
    }
  }

  lemma ReadLastItem(v: Json, x: string, r: string)
    requires ReadValue(x) == Ok(v, "]" + r)
    ensures ReadItems(x) == Ok([v], r)
  {
    assert ("]" + r)[1..] == r;
  }

  lemma ReadOneItem(v: Json, tail: seq<Json>, x: string, rest: string, r: string)
    requires ReadValue(x) == Ok(v, "," + rest) && ReadItems(rest) == Ok(tail, r)
    ensures ReadItems(x) == Ok([v] + tail, r)
  {
    assert ("," + rest)[1..] == rest;
  }

  lemma {:induction false} ReadMemberPrint(m: (string, Json), more: string)
    requires WellFormed(m.1) && Delimited(more)
    ensures var text := PrintMember(m) + more;
            text != "" && ReadString(text[1..]) == Ok(m.0, ":" + (Print(m.1) + more))
            && ReadValue(Print(m.1) + more) == Ok(m.1, more)
    decreases m, 2
  {
    FourParts(Quote(m.0), ":", Print(m.1), more);
    ReadQuoted(m.0, ":" + (Print(m.1) + more));
    ReadPrint(m.1, more);
  }

  lemma MembersTail(ms: seq<(string, Json)>, r: string)
    requires ms != []
    ensures PrintMembers(ms) + ("}" + r)
            == PrintMember(ms[0])
               + if |ms| == 1 then "}" + r else "," + (PrintMembers(ms[1..]) + ("}" + r))
  {
    if |ms| > 1 { FourParts(PrintMember(ms[0]), ",", PrintMembers(ms[1..]), "}" + r); }
  }

  lemma {:induction false} ReadOnlyPrint(m: (string, Json), r: string)
    requires WellFormed(m.1)
    ensures ReadMembers(PrintMember(m) + ("}" + r)) == Ok([m], r)
    decreases m, 3
  {
    ReadMemberPrint(m, "}" + r);
    ReadLastMember(m, PrintMember(m) + ("}" + r), Print(m.1) + ("}" + r), r);
  }

  lemma {:induction false} ReadFirstPrint(m: (string, Json), tail: seq<(string, Json)>, rest: string, r: string)
    requires WellFormed(m.1) && ReadMembers(rest) == Ok(tail, r)
    ensures ReadMembers(PrintMember(m) + ("," + rest)) == Ok([m] + tail, r)
    decreases m, 3
  {
    ReadMemberPrint(m, "," + rest);
    ReadOneMember(m, tail, PrintMember(m) + ("," + rest), Print(m.1) + ("," + rest), rest, r);
  }

  lemma {:induction false} ReadMembersPrint(ms: seq<(string, Json)>, r: string)
    requires ms != [] && forall i | 0 <= i < |ms| :: WellFormed(ms[i].1)
    ensures ReadMembers(PrintMembers(ms) + ("}" + r)) == Ok(ms, r)
    decreases ms, 0
  {
    MembersTail(ms, r);
    FirstAndRest(ms);
    if |ms| == 1 {
      ReadOnlyPrint(ms[0], r);
    } else {
      ReadMembersPrint(ms[1..], r);
      ReadFirstPrint(ms[0], ms[1..], PrintMembers(ms[1..]) + ("}" + r), r);
    }
  }

  lemma ReadLastMember(m: (string, Json), x: string, value: string, r: string)
    requires x != "" && ReadString(x[1..]) == Ok(m.0, ":" + value) && ReadValue(value) == Ok(m.1, "}" + r)
    ensures ReadMembers(x) == Ok([m], r)
  {
    assert (":" + value)[1..] == value && ("}" + r)[1..] == r;
  }

  lemma ReadOneMember(m: (string, Json), tail: seq<(string, Json)>, x: string, value: string, rest: string, r: string)
    requires x != "" && ReadString(x[1..]) == Ok(m.0, ":" + value) && ReadValue(value) == Ok(m.1, "," + rest)
    requires ReadMembers(rest) == Ok(tail, r)
    ensures ReadMembers(x) == Ok([m] + tail, r)
  {
    assert (":" + value)[1..] == value && ("," + rest)[1..] == rest;
  }

  // ---------- key order is all the sort forgets ----------

  predicate Ordered(ms: seq<(string, Json)>, le: Order) {
    forall i, j | 0 <= i < j < |ms| :: le(ms[i].0, ms[j].0)
  }

  lemma InsertMember(m: (string, Json), ms: seq<(string, Json)>, le: Order, x: (string, Json))
    ensures x in Insert(m, ms, le) <==> x == m || x in ms
  {
    assert x in multiset(Insert(m, ms, le)) <==> x in multiset([m]) + multiset(ms);
  }

  /** An entry list stays ordered under a new first entry that is below all the others. */
  lemma ConsOrders(m: (string, Json), ms: seq<(string, Json)>, le: Order)
    requires Ordered(ms, le) && DistinctKeys(ms) && forall x | x in ms :: le(m.0, x.0) && x.0 != m.0
    ensures Ordered([m] + ms, le) && DistinctKeys([m] + ms)
  {
  }

  lemma {:induction false} InsertOrders(m: (string, Json), ms: seq<(string, Json)>, le: Order)
    requires TotalOrder(le) && Ordered(ms, le) && DistinctKeys(ms) && forall x | x in ms :: x.0 != m.0
    ensures Ordered(Insert(m, ms, le), le) && DistinctKeys(Insert(m, ms, le))
    decreases |ms|
  {
    if ms == [] {
    } else if le(m.0, ms[0].0) {
      forall x | x in ms ensures le(m.0, x.0) {
        assert x == ms[0] || le(ms[0].0, x.0);
      }
      ConsOrders(m, ms, le);
    } else {
      InsertOrders(m, ms[1..], le);
      forall x | x in Insert(m, ms[1..], le) ensures le(ms[0].0, x.0) && x.0 != ms[0].0 {
        InsertMember(m, ms[1..], le, x);
      }
      ConsOrders(ms[0], Insert(m, ms[1..], le), le);
    }
  }

  lemma {:induction false} SortOrders(ms: seq<(string, Json)>, le: Order)
    requires TotalOrder(le) && DistinctKeys(ms)
    ensures Ordered(SortByKey(ms, le), le) && DistinctKeys(SortByKey(ms, le))
    decreases |ms|
  {
    if ms != [] {
      SortOrders(ms[1..], le);
      forall x | x in SortByKey(ms[1..], le) ensures x.0 != ms[0].0 {
        SortedMember(ms[1..], le, x);
      }
      InsertOrders(ms[0], SortByKey(ms[1..], le), le);
    }
  }

  function KeySet(ms: seq<(string, Json)>): set<string> {
    set m | m in ms :: m.0
  }

  predicate SameKeys(ms: seq<(string, Json)>, ns: seq<(string, Json)>) {
    KeySet(ms) == KeySet(ns)
  }

  /** Two strictly ordered entry lists with the same keys have them in the same positions. */
  lemma {:induction false} OrderedKeysUnique(ms: seq<(string, Json)>, ns: seq<(string, Json)>, le: Order)
    requires TotalOrder(le) && Ordered(ms, le) && DistinctKeys(ms) && Ordered(ns, le) && DistinctKeys(ns)
    requires SameKeys(ms, ns)
    ensures |ms| == |ns| && forall i | 0 <= i < |ms| :: ms[i].0 == ns[i].0
    decreases |ms|
  {
    var ks, ls := KeySet(ms), KeySet(ns);
    assert ns != [] ==> ns[0].0 in ls;
    if ms != [] {
      assert ms[0].0 in ks;
      var j :| 0 <= j < |ns| && ns[j].0 == ms[0].0;
      assert ns[0].0 in ls;
      var i :| 0 <= i < |ms| && ms[i].0 == ns[0].0;
      assert ms[0].0 == ns[0].0;
      TailKeys(ms);
      TailKeys(ns);
      OrderedKeysUnique(ms[1..], ns[1..], le);
    }
  }

  lemma TailKeys(ms: seq<(string, Json)>)
    requires ms != [] && DistinctKeys(ms)
    ensures KeySet(ms[1..]) == KeySet(ms) - {ms[0].0}
  {
    forall m | m in ms && m.0 != ms[0].0 ensures m in ms[1..] {
      var i :| 0 <= i < |ms| && ms[i] == m;
      assert m == ms[1..][i - 1];
    }
  }

  /** Where an entry of the sorted list comes from. */
  lemma SortedIndex(ms: seq<(string, Json)>, le: Order, p: nat) returns (i: nat)
    requires p < |SortByKey(ms, le)|
    ensures i < |ms| && ms[i] == SortByKey(ms, le)[p]
  {
    var m := SortByKey(ms, le)[p];
    SortedMember(ms, le, m);
    i :| 0 <= i < |ms| && ms[i] == m;
  }

  /** Where an entry goes in the sorted list. */
  lemma SortedPlace(ms: seq<(string, Json)>, le: Order, i: nat) returns (p: nat)
    requires i < |ms|
    ensures p < |SortByKey(ms, le)| && SortByKey(ms, le)[p] == ms[i]
  {
    SortedMember(ms, le, ms[i]);
    p :| 0 <= p < |SortByKey(ms, le)| && SortByKey(ms, le)[p] == ms[i];
  }

  lemma SortedLength(ms: seq<(string, Json)>, le: Order)
    ensures |SortByKey(ms, le)| == |ms|
  {
    assert |multiset(SortByKey(ms, le))| == |multiset(ms)|;
  }

  lemma CanonObj(ms: seq<(string, Json)>, le: Order)
    ensures Canon(Obj(ms), le).Obj?
    ensures var cs, sorted := Canon(Obj(ms), le).members, SortByKey(ms, le);
            |cs| == |sorted| && forall p | 0 <= p < |sorted| :: cs[p] == (sorted[p].0, Canon(sorted[p].1, le))
  {
    forall m | m in SortByKey(ms, le) ensures m.1 < Obj(ms) {
      SortedMember(ms, le, m);
    }
  }

  lemma {:induction false} CanonWellFormed(v: Json, le: Order)
    requires WellFormed(v) && TotalOrder(le)
    ensures WellFormed(Canon(v, le))
    decreases v, 1
  {
    match v
    case Arr(items) =>
      forall i | 0 <= i < |items| ensures WellFormed(Canon(items[i], le)) {
        CanonWellFormed(items[i], le);
      }
    case Obj(ms) =>
      CanonEntriesWellFormed(ms, le);
      CanonObjWellFormed(ms, le);
    case _ =>
  }

  lemma {:induction false} CanonEntriesWellFormed(ms: seq<(string, Json)>, le: Order)
    requires TotalOrder(le) && forall i | 0 <= i < |ms| :: WellFormed(ms[i].1)
    ensures forall p | 0 <= p < |SortByKey(ms, le)| :: WellFormed(Canon(SortByKey(ms, le)[p].1, le))
    decreases Obj(ms), 0
  {
    forall p | 0 <= p < |SortByKey(ms, le)| ensures WellFormed(Canon(SortByKey(ms, le)[p].1, le)) {
      var i := SortedIndex(ms, le, p);
      CanonWellFormed(ms[i].1, le);
    }
  }

  lemma CanonObjWellFormed(ms: seq<(string, Json)>, le: Order)
    requires DistinctKeys(ms) && TotalOrder(le)
    requires forall p | 0 <= p < |SortByKey(ms, le)| :: WellFormed(Canon(SortByKey(ms, le)[p].1, le))
    ensures WellFormed(Canon(Obj(ms), le))
  {
    CanonObj(ms, le);
    SortOrders(ms, le);
  }

  lemma CanonEqualKeys(ms: seq<(string, Json)>, ns: seq<(string, Json)>, le: Order)
    requires Canon(Obj(ms), le) == Canon(Obj(ns), le)
    ensures |ms| == |ns| && forall i | 0 <= i < |ms| :: HasKey(ns, ms[i].0)
  {
    CanonObj(ms, le);
    CanonObj(ns, le);
    SortedLength(ms, le);
    SortedLength(ns, le);
    forall i | 0 <= i < |ms| ensures HasKey(ns, ms[i].0) {
      var p := SortedPlace(ms, le, i);
      var j := SortedIndex(ns, le, p);
      assert Canon(Obj(ms), le).members[p].0 == Canon(Obj(ns), le).members[p].0;
      assert ns[j].0 == ms[i].0;
    }
  }

  /** Entries with one key sit at one place of equal canonical forms. */
  lemma CanonEqualAt(ms: seq<(string, Json)>, ns: seq<(string, Json)>, le: Order, i: nat, j: nat)
    requires DistinctKeys(ns) && TotalOrder(le) && Canon(Obj(ms), le) == Canon(Obj(ns), le)
    requires i < |ms| && j < |ns| && ms[i].0 == ns[j].0
    ensures Canon(ms[i].1, le) == Canon(ns[j].1, le)
  {
    CanonObj(ms, le);
    CanonObj(ns, le);
    SortOrders(ns, le);
    var p := SortedPlace(ms, le, i);
    var q := SortedPlace(ns, le, j);
    assert Canon(Obj(ms), le).members[p] == Canon(Obj(ns), le).members[p];
    assert SortByKey(ns, le)[p].0 == SortByKey(ns, le)[q].0;
  }

  /** Equal canonical forms come from values equal up to key order. */
  lemma {:induction false} CanonEqualSame(a: Json, b: Json, le: Order)
    requires WellFormed(a) && WellFormed(b) && TotalOrder(le) && Canon(a, le) == Canon(b, le)
    ensures Same(a, b)
    decreases a, 1
  {
    match a
    case Arr(xs) =>
      forall i | 0 <= i < |xs| ensures Same(xs[i], b.items[i]) {
        assert Canon(a, le).items[i] == Canon(b, le).items[i];
        CanonEqualSame(xs[i], b.items[i], le);
      }
    case Obj(ms) => CanonEqualObjects(ms, b.members, le);
    case _ =>
  }

  lemma {:induction false} CanonEqualObjects(ms: seq<(string, Json)>, ns: seq<(string, Json)>, le: Order)
    requires WellFormed(Obj(ms)) && WellFormed(Obj(ns)) && TotalOrder(le) && Canon(Obj(ms), le) == Canon(Obj(ns), le)
    ensures Same(Obj(ms), Obj(ns))
    decreases ms, 0
  {
    forall i, j | 0 <= i < |ms| && 0 <= j < |ns| && ms[i].0 == ns[j].0 ensures Same(ms[i].1, ns[j].1) {
      CanonEqualAt(ms, ns, le, i, j);
      CanonEqualSame(ms[i].1, ns[j].1, le);
    }
    CanonEqualKeys(ms, ns, le);
    SameObjects(ms, ns);
  }

  lemma SameObjects(ms: seq<(string, Json)>, ns: seq<(string, Json)>)
    requires |ms| == |ns| && forall i | 0 <= i < |ms| :: HasKey(ns, ms[i].0)
    requires forall i, j | 0 <= i < |ms| && 0 <= j < |ns| && ms[i].0 == ns[j].0 :: Same(ms[i].1, ns[j].1)
    ensures Same(Obj(ms), Obj(ns))
  {
  }

  lemma SortedKeysWithin(ms: seq<(string, Json)>, ns: seq<(string, Json)>, le: Order)
    requires Same(Obj(ms), Obj(ns))
    ensures KeySet(SortByKey(ms, le)) <= KeySet(SortByKey(ns, le))
  {
    forall m | m in SortByKey(ms, le) ensures m.0 in KeySet(SortByKey(ns, le)) {
      SortedMember(ms, le, m);
      var i :| 0 <= i < |ms| && ms[i] == m;
      var j :| 0 <= j < |ns| && ns[j].0 == ms[i].0;
      SortedMember(ns, le, ns[j]);
    }
  }

  lemma SameObjectKeys(ms: seq<(string, Json)>, ns: seq<(string, Json)>, le: Order)
    requires WellFormed(Obj(ms)) && WellFormed(Obj(ns)) && TotalOrder(le) && Same(Obj(ms), Obj(ns))
    ensures |SortByKey(ms, le)| == |SortByKey(ns, le)|
    ensures forall p | 0 <= p < |SortByKey(ms, le)| :: SortByKey(ms, le)[p].0 == SortByKey(ns, le)[p].0
  {
    var S, T := SortByKey(ms, le), SortByKey(ns, le);
    SortOrders(ms, le);
    SortOrders(ns, le);
    SortedLength(ms, le);
    SortedLength(ns, le);
    DistinctCount(S);
    DistinctCount(T);
    SortedKeysWithin(ms, ns, le);
    SubsetSameSize(KeySet(S), KeySet(T));
    OrderedKeysUnique(S, T, le);
  }

  lemma {:induction false} DistinctCount(ms: seq<(string, Json)>)
    requires DistinctKeys(ms)
    ensures |KeySet(ms)| == |ms|
    decreases |ms|
  {
    if ms != [] {
      TailKeys(ms);
      DistinctCount(ms[1..]);
      assert ms[0].0 in KeySet(ms);
    }
  }

  lemma {:induction false} SubsetSameSize(a: set<string>, b: set<string>)
    requires a <= b && |a| == |b|
    ensures a == b
    decreases a
  {
    if a != {} {
      var x :| x in a;
      SubsetSameSize(a - {x}, b - {x});
    }
  }

  /** Values equal up to key order have one canonical form. */
  lemma {:induction false} SameCanonEqual(a: Json, b: Json, le: Order)
    requires WellFormed(a) && WellFormed(b) && TotalOrder(le) && Same(a, b)
    ensures Canon(a, le) == Canon(b, le)
  {
    match a
    case Arr(xs) =>
      forall i | 0 <= i < |xs| ensures Canon(xs[i], le) == Canon(b.items[i], le) {
        SameCanonEqual(xs[i], b.items[i], le);
      }
      assert Canon(a, le).items == Canon(b, le).items;
    case Obj(ms) =>
      var ns := b.members;
      CanonObj(ms, le);
      CanonObj(ns, le);
      SameObjectKeys(ms, ns, le);
      forall p | 0 <= p < |SortByKey(ms, le)|
        ensures Canon(SortByKey(ms, le)[p].1, le) == Canon(SortByKey(ns, le)[p].1, le)
      {
        var i := SortedIndex(ms, le, p);
        var j := SortedIndex(ns, le, p);
        SameCanonEqual(ms[i].1, ns[j].1, le);
      }
      assert Canon(a, le).members == Canon(b, le).members;
    case _ =>
  }

  /** Reading back what the provenance check prints gives the value with its keys in order. */
  lemma StableJsonDecodes(v: Json, le: Order)
    requires WellFormed(v) && TotalOrder(le)
    ensures ReadValue(StableJson(v, le)) == Ok(Canon(v, le), "")
  {
    CanonWellFormed(v, le);
    StableIsPrintCanon(v, le);
    ReadPrint(Canon(v, le), "");
    assert StableJson(v, le) + "" == StableJson(v, le);
  }

  /** The check the publisher makes, on all values: printed texts agree exactly when the values do up to key order. */
  lemma StableJsonDecidesSame(a: Json, b: Json, le: Order)
    requires WellFormed(a) && WellFormed(b) && TotalOrder(le)
    ensures StableJson(a, le) == StableJson(b, le) <==> Same(a, b)
  {
    if Same(a, b) {
      SameCanonEqual(a, b, le);
      StableIsPrintCanon(a, le);
      StableIsPrintCanon(b, le);
    } else if StableJson(a, le) == StableJson(b, le) {
      StableJsonDecodes(a, le);
      StableJsonDecodes(b, le);
      CanonEqualSame(a, b, le);
    }
  }
}
