/**
 * The `--listen-socket` edits of a launchd plist, done on its text: the pair of lines that holds the
 * flag and its value is put at the end of the ProgramArguments array, and taken out again.
 */
module PlistEdit {
  import opened Options
  import opened Lines

  const KEY := "<key>ProgramArguments</key>"
  const OPEN := "<array>"
  const CLOSE := "</array>"
  const STRING := "<string>"
  const ENDSTRING := "</string>"
  const FLAG := "<string>--listen-socket</string>"

  // ---------- finding ----------

  predicate At(t: string, p: string, k: nat) {
    k + |p| <= |t| && forall i | 0 <= i < |p| :: p[i] == t[k + i]
  }

  /** `indexOf`: the first place at or after `from`. */
  function IndexOf(t: string, p: string, from: nat): (r: Option<nat>)
    ensures r.Some? ==> from <= r.value <= |t|
    decreases |t| - from
  {
    if from + |p| > |t| then None else if At(t, p, from) then Some(from) else IndexOf(t, p, from + 1)
  }

  ghost predicate First(t: string, p: string, from: nat, k: nat) {
    from <= k && At(t, p, k) && forall j | from <= j < k :: !At(t, p, j)
  }

  lemma {:induction false} IndexOfFirst(t: string, p: string, from: nat, k: nat)
    ensures IndexOf(t, p, from) == Some(k) <==> First(t, p, from, k)
    decreases |t| - from
  {
    if from + |p| <= |t| && !At(t, p, from) {
      IndexOfFirst(t, p, from + 1, k);
    }
  }

  datatype Span = Span(start: nat, end: nat)

  /** The first stretch after `key` that starts at `open` and ends before the next `close`. */
  function Located(t: string, key: string, open: string, close: string): (r: Option<Span>)
    ensures r.Some? ==> r.value.start <= r.value.end <= |t|
  {
    match IndexOf(t, key, 0)
    case None => None
    case Some(k) =>
      match IndexOf(t, open, k)
      case None => None
      case Some(start) =>
        match IndexOf(t, close, start)
        case None => None
        case Some(end) => Some(Span(start, end))
  }

  /** Where the array opens and where it closes; nothing when the plist has no such array. */
  function ProgramArguments(t: string): (r: Option<Span>)
    ensures r.Some? ==> r.value.start <= r.value.end <= |t|
  {
    Located(t, KEY, OPEN, CLOSE)
  }

  predicate InText(t: string, a: Span) {
    a.start <= a.end <= |t|
  }

  /** The text with another array body. */
  function Put(t: string, a: Span, body: string): string
    requires InText(t, a)
  {
    t[..a.start] + body + t[a.end..]
  }

  ghost predicate Without(s: string, p: string) {
    forall j: nat :: !At(s, p, j)
  }

  // ---------- lines of the array ----------

  /** White space as `trim` knows it. */
  predicate Space(c: char) {
    || c in "\t\n\r \U{0B}\U{0C}\U{A0}\U{1680}\U{2028}\U{2029}\U{202F}\U{205F}\U{3000}\U{FEFF}"
    || '\U{2000}' <= c <= '\U{200A}'
  }

  function TrimStart(s: string): (r: string)
    ensures |r| <= |s|
  {
    if s != "" && Space(s[0]) then TrimStart(s[1..]) else s
  }

  function TrimEnd(s: string): string {
    if s != "" && Space(s[|s| - 1]) then TrimEnd(s[..|s| - 1]) else s
  }

  function Trim(s: string): string {
    TrimEnd(TrimStart(s))
  }

  predicate IsFlag(line: string) {
    Trim(line) == FLAG
  }

  predicate IsString(line: string) {
    STRING <= TrimStart(line)
  }

  /** The first flag line, or the number of lines. */
  function FlagLine(lines: seq<string>): (i: nat)
    ensures i <= |lines|
  {
    if lines == [] || IsFlag(lines[0]) then 0 else 1 + FlagLine(lines[1..])
  }

  /** The last line that holds a string. */
  function LastString(lines: seq<string>): (r: Option<string>)
    ensures r.Some? ==> r.value in lines && IsString(r.value)
  {
    if lines == [] then None
    else if IsString(lines[|lines| - 1]) then Some(lines[|lines| - 1])
    else LastString(lines[..|lines| - 1])
  }

  function Indent(line: string): string {
    line[..|line| - |TrimStart(line)|]
  }

  /** `splice(i, 2)`. */
  function DropTwo(lines: seq<string>, i: nat): seq<string>
    requires i <= |lines|
  {
    lines[..i] + lines[if i + 2 <= |lines| then i + 2 else |lines|..]
  }

  /** The lines without the first flag line and the line after it. */
  function DropPair(lines: seq<string>): seq<string> {
    DropTwo(lines, FlagLine(lines))
  }

  // ---------- the two edits ----------

  /** `withoutListenArgs`: nothing when there is no array. */
  function WithoutListenArgs(t: string): Option<string> {
    match ProgramArguments(t)
    case None => None
    case Some(a) =>
      var lines := Split(t[a.start..a.end]);
      if FlagLine(lines) == |lines| then Some(t)
      else if DropPair(lines) == [] then Some(Put(t, a, ""))
      else Some(Put(t, a, Join(DropPair(lines))))
  }

  function Replaced(s: string, c: char, with: string): string {
    if s == "" then "" else (if s[0] == c then with else [s[0]]) + Replaced(s[1..], c, with)
  }

  function EscapeXml(value: string): string {
    Replaced(Replaced(Replaced(value, '&', "&amp;"), '<', "&lt;"), '>', "&gt;")
  }

  /** One past the last line end before `end`, zero when there is none. */
  function LineStart(t: string, end: nat): (r: nat)
    requires end <= |t|
    ensures r <= end
  {
    if end == 0 then 0 else if t[end - 1] == '\n' then end else LineStart(t, end - 1)
  }

  function ValueLine(indent: string, socket: string): string {
    indent + STRING + EscapeXml(socket) + ENDSTRING
  }

  function Insertion(indent: string, socket: string): string {
    indent + FLAG + ['\n'] + ValueLine(indent, socket) + ['\n']
  }

  /** The pair put after the last line end of the array; nothing when no string line sets the indent. */
  function InsertPair(base: string, socket: string): Option<string> {
    match ProgramArguments(base)
    case None => None
    case Some(a) =>
      match LastString(Split(base[a.start..a.end]))
      case None => None
      case Some(last) =>
        var at := LineStart(base, a.end);
        Some(base[..at] + Insertion(Indent(last), socket) + base[at..])
  }

  /** `withListenArgs`. */
  function WithListenArgs(t: string, socket: string): Option<string> {
    match WithoutListenArgs(t)
    case None => None
    case Some(base) => InsertPair(base, socket)
  }

  method RemoveListenArgs(text: string) returns (r: Option<string>)
    ensures r == WithoutListenArgs(text)
  {
    var span := ProgramArguments(text);
    if span.None? { return None; }
    var start, end := span.value.start, span.value.end;
    var lines := Split(text[start..end]);
    var index := FindFlag(lines);
    if index == |lines| { return Some(text); }
    lines := DropTwo(lines, index);
    var body := if lines == [] then "" else Join(lines);
    r := Some(text[..start] + body + text[end..]);
  }

  method FindFlag(lines: seq<string>) returns (index: nat)
    ensures index == FlagLine(lines)
  {
    index := 0;
    while index < |lines| && !IsFlag(lines[index])
      invariant index <= |lines| && FlagLine(lines) == index + FlagLine(lines[index..])
    {
      assert lines[index..][1..] == lines[index + 1..];
      index := index + 1;
    }
  }

  // ---------- the array is found again ----------

  /** A text with `p` at some place cannot have `q` at `d` places further on. */
  ghost predicate Clash(p: string, q: string, d: nat) {
    exists i: nat :: i < |q| && d + i < |p| && q[i] != p[d + i]
  }

  lemma Apart(t: string, p: string, k: nat, q: string, j: nat)
    requires At(t, p, k) && k <= j && Clash(p, q, j - k)
    ensures !At(t, q, j)
  {
    var i: nat :| i < |q| && j - k + i < |p| && q[i] != p[j - k + i];
    assert t[k..k + |p|][j - k + i] == t[j + i];
    if j + |q| <= |t| {
      assert t[j..j + |q|][i] == t[j + i];
    }
  }

  /** No mark starts inside another one, nor a closing mark inside itself. */
  ghost predicate Marks(key: string, open: string, close: string) {
    && close != ""
    && (forall d: nat | d < |key| :: Clash(key, open, d))
    && (forall d: nat | d < |open| :: Clash(open, close, d))
    && (forall d: nat | 0 < d < |close| :: Clash(close, close, d))
  }

  lemma KeyClash(d: nat)
    requires d < |KEY|
    ensures Clash(KEY, OPEN, d)
  {
    if d == 0 || d == 21 {
      assert OPEN[1] != KEY[d + 1];
    } else {
      assert OPEN[0] != KEY[d + 0];
    }
  }

  lemma OpenClash(d: nat)
    requires d < |OPEN|
    ensures Clash(OPEN, CLOSE, d)
  {
    if d == 0 {
      assert CLOSE[1] != OPEN[d + 1];
    } else {
      assert CLOSE[0] != OPEN[d + 0];
    }
  }

  lemma CloseClash(d: nat)
    requires 0 < d < |CLOSE|
    ensures Clash(CLOSE, CLOSE, d)
  {
    assert CLOSE[0] != CLOSE[d + 0];
  }

  lemma MarksHold()
    ensures Marks(KEY, OPEN, CLOSE)
  {
    forall d: nat | d < |KEY| ensures Clash(KEY, OPEN, d) { KeyClash(d); }
    forall d: nat | d < |OPEN| ensures Clash(OPEN, CLOSE, d) { OpenClash(d); }
    forall d: nat | 0 < d < |CLOSE| ensures Clash(CLOSE, CLOSE, d) { CloseClash(d); }
  }

  /** Two texts with the same first n characters. */
  ghost predicate StartAlike(t: string, u: string, n: nat) {
    n <= |t| && n <= |u| && forall i | 0 <= i < n :: t[i] == u[i]
  }

  lemma SameStart(t: string, u: string, n: nat, p: string, j: nat)
    requires StartAlike(t, u, n) && j + |p| <= n
    ensures At(t, p, j) <==> At(u, p, j)
  {
  }

  /** A first place stays the first in every text that starts the same up to its end. */
  lemma FirstAgain(t: string, u: string, n: nat, p: string, from: nat, k: nat)
    requires StartAlike(t, u, n) && First(t, p, from, k) && k + |p| <= n
    ensures First(u, p, from, k)
  {
    SameStart(t, u, n, p, k);
    forall j: nat | from <= j < k ensures !At(u, p, j) {
      SameStart(t, u, n, p, j);
    }
  }

  lemma NoEarlyClose(pre: string, body: string, close: string, post: string, j: nat)
    requires |pre| <= j < |pre| + |body| && Without(body, close)
    requires forall d: nat | 0 < d < |close| :: Clash(close, close, d)
    ensures !At(pre + body + close + post, close, j)
  {
    var u := pre + body + close + post;
    var k := j - |pre|;
    if k + |close| <= |body| {
      assert u[j..j + |close|] == body[k..k + |close|];
      assert !At(body, close, k);
    } else if At(u, close, j) {
      assert At(u, close, |pre| + |body|);
      Apart(u, close, j, close, |pre| + |body|);
    }
  }

  /** After a body without the closing mark, the mark that follows is the first. */
  lemma ClosesAfter(pre: string, body: string, close: string, post: string)
    requires Without(body, close) && forall d: nat | 0 < d < |close| :: Clash(close, close, d)
    ensures First(pre + body + close + post, close, |pre|, |pre| + |body|)
  {
    forall j: nat | |pre| <= j < |pre| + |body| ensures !At(pre + body + close + post, close, j) {
      NoEarlyClose(pre, body, close, post, j);
    }
    assert At(pre + body + close + post, close, |pre| + |body|);
  }

  lemma OpenKept(t: string, a: Span, open: string, body: string)
    requires InText(t, a) && At(t, open, a.start) && open <= body
    ensures a.start + |open| <= |Put(t, a, body)|
    ensures t[..a.start + |open|] == Put(t, a, body)[..a.start + |open|]
  {
    assert t[..a.start + |open|] == t[..a.start] + t[a.start..a.start + |open|];
    assert Put(t, a, body)[..a.start + |open|] == t[..a.start] + body[..|open|];
  }

  lemma CloseKept(t: string, a: Span, close: string, body: string)
    requires InText(t, a) && At(t, close, a.end)
    ensures Put(t, a, body) == t[..a.start] + body + close + t[a.end + |close|..]
  {
    assert t[a.end..] == t[a.end..a.end + |close|] + t[a.end + |close|..];
  }

  lemma OpensAfter(t: string, key: string, open: string, k: nat, start: nat)
    requires At(t, key, k) && At(t, open, start) && k <= start && forall d: nat | d < |key| :: Clash(key, open, d)
    ensures k + |key| <= start
  {
    if start < k + |key| {
      assert Clash(key, open, start - k);
      Apart(t, key, k, open, start);
    }
  }

  lemma ClosesAgain(t: string, close: string, a: Span, body: string)
    requires InText(t, a) && At(t, close, a.end)
    requires Without(body, close) && forall d: nat | 0 < d < |close| :: Clash(close, close, d)
    ensures First(Put(t, a, body), close, a.start, a.start + |body|)
  {
    CloseKept(t, a, close, body);
    ClosesAfter(t[..a.start], body, close, t[a.end + |close|..]);
  }

  /** The key, the opening mark after it and the closing mark after that, each in its first place. */
  ghost predicate Placed(t: string, key: string, open: string, close: string, k: nat, a: Span) {
    First(t, key, 0, k) && First(t, open, k, a.start) && First(t, close, a.start, a.end)
  }

  lemma LocatedIsPlaced(t: string, key: string, open: string, close: string, a: Span) returns (k: nat)
    requires Marks(key, open, close) && Located(t, key, open, close) == Some(a)
    ensures Placed(t, key, open, close, k, a) && k + |key| <= a.start
  {
    k := IndexOf(t, key, 0).value;
    IndexOfFirst(t, key, 0, k);
    IndexOfFirst(t, open, k, a.start);
    IndexOfFirst(t, close, a.start, a.end);
    OpensAfter(t, key, open, k, a.start);
  }

  lemma PlacedIsLocated(u: string, key: string, open: string, close: string, k: nat, a: Span)
    requires Placed(u, key, open, close, k, a)
    ensures Located(u, key, open, close) == Some(a)
  {
    IndexOfFirst(u, key, 0, k);
    IndexOfFirst(u, open, k, a.start);
    IndexOfFirst(u, close, a.start, a.end);
  }

  lemma OpensInPut(t: string, key: string, open: string, k: nat, a: Span, body: string)
    requires InText(t, a) && open <= body && k + |key| <= a.start
    requires First(t, key, 0, k) && First(t, open, k, a.start)
    ensures First(Put(t, a, body), key, 0, k) && First(Put(t, a, body), open, k, a.start)
  {
    var u, n := Put(t, a, body), a.start + |open|;
    OpenKept(t, a, open, body);
    KeptAlike(t, u, n);
    FirstAgain(t, u, n, key, 0, k);
    FirstAgain(t, u, n, open, k, a.start);
  }

  lemma LocatedAgain(t: string, key: string, open: string, close: string, a: Span, body: string)
    requires Marks(key, open, close) && Located(t, key, open, close) == Some(a)
    requires open <= body && Without(body, close)
    ensures Located(Put(t, a, body), key, open, close) == Some(Span(a.start, a.start + |body|))
  {
    var k := LocatedIsPlaced(t, key, open, close, a);
    ClosesAgain(t, close, a, body);
    OpensInPut(t, key, open, k, a, body);
    PlacedIsLocated(Put(t, a, body), key, open, close, k, Span(a.start, a.start + |body|));
  }

  lemma KeptAlike(t: string, u: string, n: nat)
    requires n <= |t| && n <= |u| && t[..n] == u[..n]
    ensures StartAlike(t, u, n)
  {
    forall i | 0 <= i < n ensures t[i] == u[i] {
      assert t[..n][i] == u[..n][i];
    }
  }

  lemma BodyWithout(t: string, close: string, a: Span)
    requires InText(t, a) && First(t, close, a.start, a.end) && close != ""
    ensures Without(t[a.start..a.end], close)
  {
    var body := t[a.start..a.end];
    forall j: nat ensures !At(body, close, j) {
      if j + |close| <= |body| {
        assert !At(t, close, a.start + j);
        var i :| 0 <= i < |close| && close[i] != t[a.start + j + i];
        assert body[j + i] == t[a.start + j + i];
      }
    }
  }

  lemma LocatedBody(t: string, key: string, open: string, close: string, a: Span)
    requires Marks(key, open, close) && Located(t, key, open, close) == Some(a)
    ensures open <= t[a.start..a.end] && Without(t[a.start..a.end], close)
  {
    var _ := LocatedIsPlaced(t, key, open, close, a);
    if a.end < a.start + |open| { Apart(t, open, a.start, close, a.end); }
    BodyOpens(t, open, a);
    BodyWithout(t, close, a);
  }

  lemma BodyOpens(t: string, open: string, a: Span)
    requires At(t, open, a.start) && a.start + |open| <= a.end <= |t|
    ensures open <= t[a.start..a.end]
  {
    forall i | 0 <= i < |open| ensures open[i] == t[a.start..a.end][i] {
      assert t[a.start..a.end][i] == t[a.start + i];
    }
  }

  /** The array of a text whose body was exchanged opens at the same place and closes after the new body. */
  lemma PutIsFound(t: string, a: Span, body: string)
    requires ProgramArguments(t) == Some(a) && OPEN <= body && Without(body, CLOSE)
    ensures ProgramArguments(Put(t, a, body)) == Some(Span(a.start, a.start + |body|))
  {
    MarksHold();
    LocatedAgain(t, KEY, OPEN, CLOSE, a, body);
  }

  lemma BodyOf(t: string, a: Span)
    requires ProgramArguments(t) == Some(a)
    ensures OPEN <= t[a.start..a.end] && Without(t[a.start..a.end], CLOSE)
  {
    MarksHold();
    LocatedBody(t, KEY, OPEN, CLOSE, a);
  }

  // ---------- lines and marks ----------

  lemma WithoutGlue(x: string, y: string, p: string)
    requires OneLine(p) && p != ""
    ensures Without(x + (['\n'] + y), p) <==> Without(x, p) && Without(y, p)
  {
    var s := x + (['\n'] + y);
    if Without(s, p) {
      forall j: nat ensures !At(x, p, j) && !At(y, p, j) {
        assert !At(s, p, j) && !At(s, p, |x| + 1 + j);
      }
    }
    if Without(x, p) && Without(y, p) {
      forall j: nat ensures !At(s, p, j) {
        if j + |p| <= |x| {
          assert !At(x, p, j);
        } else if |x| < j {
          assert !At(y, p, j - |x| - 1);
        } else if j + |p| <= |s| {
          assert p[|x| - j] != s[j + (|x| - j)];
        }
      }
    }
  }

  ghost predicate AllWithout(lines: seq<string>, p: string) {
    forall i | 0 <= i < |lines| :: Without(lines[i], p)
  }

  lemma {:induction false} WithoutJoin(lines: seq<string>, p: string)
    requires lines != [] && OneLine(p) && p != ""
    ensures Without(Join(lines), p) <==> AllWithout(lines, p)
    decreases |lines|
  {
    if |lines| == 1 {
      assert Join(lines) == lines[0];
    } else {
      var rest := lines[1..];
      JoinFirst(lines);
      WithoutGlue(lines[0], Join(rest), p);
      WithoutJoin(rest, p);
      if AllWithout(rest, p) && Without(lines[0], p) {
        forall i | 0 <= i < |lines| ensures Without(lines[i], p) {
          assert i > 0 ==> lines[i] == rest[i - 1];
        }
      }
      if AllWithout(lines, p) {
        forall i | 0 <= i < |rest| ensures Without(rest[i], p) {
          assert rest[i] == lines[i + 1];
        }
      }
    }
  }

  lemma {:induction false} TrimEndIsPrefix(s: string)
    ensures TrimEnd(s) <= s
  {
    if s != "" && Space(s[|s| - 1]) { TrimEndIsPrefix(s[..|s| - 1]); }
  }

  lemma {:induction false} TrimStartPast(indent: string, s: string)
    requires (forall k | 0 <= k < |indent| :: Space(indent[k])) && s != "" && !Space(s[0])
    ensures TrimStart(indent + s) == s
  {
    if indent == "" {
      assert indent + s == s;
    } else {
      assert (indent + s)[1..] == indent[1..] + s;
      TrimStartPast(indent[1..], s);
    }
  }

  lemma {:induction false} TrimmedIsSpace(line: string, k: nat)
    requires k < |line| - |TrimStart(line)|
    ensures Space(line[k])
    decreases |line|
  {
    if k > 0 { TrimmedIsSpace(line[1..], k - 1); }
  }

  lemma IndentIsSpace(line: string)
    ensures forall k | 0 <= k < |Indent(line)| :: Space(Indent(line)[k])
  {
    forall k | 0 <= k < |Indent(line)| ensures Space(Indent(line)[k]) {
      TrimmedIsSpace(line, k);
    }
  }

  /** The line that opens the array is neither a flag nor a string line. */
  lemma OpenLine(line: string)
    requires OPEN <= line
    ensures !IsFlag(line) && !IsString(line)
  {
    assert line[0] == '<' && line[1] == 'a';
    assert TrimStart(line) == line;
    TrimEndIsPrefix(line);
    assert FLAG[1] == 's' && STRING[1] == 's';
  }

  lemma FlagIsFlag(indent: string)
    requires forall k | 0 <= k < |indent| :: Space(indent[k])
    ensures IsFlag(indent + FLAG)
  {
    assert FLAG[0] == '<' && FLAG[|FLAG| - 1] == '>';
    TrimStartPast(indent, FLAG);
  }

  /** The first flag depends on the lines up to it only. */
  lemma {:induction false} FlagLineIs(lines: seq<string>, n: nat, added: seq<string>)
    requires n <= FlagLine(lines) && n < |added| && added[..n] == lines[..n] && IsFlag(added[n])
    ensures FlagLine(added) == n
    decreases n
  {
    if n > 0 {
      assert added[0] == added[..n][0] == lines[0];
      assert added[1..][..n - 1] == added[..n][1..];
      assert lines[1..][..n - 1] == lines[..n][1..];
      FlagLineIs(lines[1..], n - 1, added[1..]);
    }
  }

  // ---------- escaping ----------

  lemma {:induction false} ReplacedHasNone(s: string, c: char, with: string, d: char)
    requires d !in with && (d == c || d !in s)
    ensures d !in Replaced(s, c, with)
  {
    if s != "" {
      ReplacedHasNone(s[1..], c, with, d);
    }
  }

  lemma {:induction false} ReplacedLines(s: string, c: char, with: string)
    requires c != '\n' && OneLine(with)
    ensures OneLine(Replaced(s, c, with)) <==> OneLine(s)
  {
    if s != "" {
      var rest := Replaced(s[1..], c, with);
      var head := if s[0] == c then with else [s[0]];
      ReplacedLines(s[1..], c, with);
      OneLineConcat(head, rest);
      OneLineConcat([s[0]], s[1..]);
      assert [s[0]] + s[1..] == s;
      assert OneLine([s[0]]) <==> s[0] != '\n';
    }
  }

  lemma OneLineConcat(a: string, b: string)
    ensures OneLine(a + b) <==> OneLine(a) && OneLine(b)
  {
    if OneLine(a + b) {
      forall i | 0 <= i < |a| ensures a[i] != '\n' { assert (a + b)[i] == a[i]; }
      forall i | 0 <= i < |b| ensures b[i] != '\n' { assert (a + b)[|a| + i] == b[i]; }
    }
  }

  /** An escaped value opens no tag, and spans lines exactly when the value does. */
  lemma EscapedValue(value: string)
    ensures '<' !in EscapeXml(value)
    ensures OneLine(EscapeXml(value)) <==> OneLine(value)
  {
    var a := Replaced(value, '&', "&amp;");
    var b := Replaced(a, '<', "&lt;");
    ReplacedLines(value, '&', "&amp;");
    ReplacedLines(a, '<', "&lt;");
    ReplacedLines(b, '>', "&gt;");
    ReplacedHasNone(a, '<', "&lt;", '<');
    ReplacedHasNone(b, '>', "&gt;", '<');
  }

  /** What an XML reader makes of escaped text. */
  function Unescape(s: string): string
    decreases |s|
  {
    if s == "" then ""
    else if "&amp;" <= s then ['&'] + Unescape(s[5..])
    else if "&lt;" <= s then ['<'] + Unescape(s[4..])
    else if "&gt;" <= s then ['>'] + Unescape(s[4..])
    else [s[0]] + Unescape(s[1..])
  }

  function Escaped(c: char): string {
    if c == '&' then "&amp;" else if c == '<' then "&lt;" else if c == '>' then "&gt;" else [c]
  }

  lemma {:induction false} ReplacedConcat(a: string, b: string, c: char, with: string)
    ensures Replaced(a + b, c, with) == Replaced(a, c, with) + Replaced(b, c, with)
  {
    if a == "" {
      assert a + b == b;
    } else {
      assert (a + b)[1..] == a[1..] + b;
      ReplacedConcat(a[1..], b, c, with);
    }
  }

  lemma {:induction false} ReplacedSame(s: string, c: char, with: string)
    requires c !in s
    ensures Replaced(s, c, with) == s
  {
    if s != "" { ReplacedSame(s[1..], c, with); }
  }

  lemma ReplacedOne(c: char, d: char, with: string)
    ensures Replaced([c], d, with) == if c == d then with else [c]
  {
    assert [c][1..] == "";
  }

  lemma EscapeSteps(s: string, amp: string, lt: string, gt: string)
    requires Replaced(s, '&', "&amp;") == amp && Replaced(amp, '<', "&lt;") == lt && Replaced(lt, '>', "&gt;") == gt
    ensures EscapeXml(s) == gt
  {
  }

  lemma EscapeAmpersand()
    ensures EscapeXml("&") == "&amp;"
  {
    ReplacedOne('&', '&', "&amp;");
    AmpersandKept('<', "&lt;");
    AmpersandKept('>', "&gt;");
    EscapeSteps("&", "&amp;", "&amp;", "&amp;");
  }

  lemma AmpersandKept(c: char, with: string)
    requires c == '<' || c == '>'
    ensures Replaced("&amp;", c, with) == "&amp;"
  {
    ReplacedSame("&amp;", c, with);
  }

  lemma EscapeLess()
    ensures EscapeXml("<") == "&lt;"
  {
    ReplacedOne('<', '&', "&amp;");
    ReplacedOne('<', '<', "&lt;");
    ReplacedSame("&lt;", '>', "&gt;");
    EscapeSteps("<", "<", "&lt;", "&lt;");
  }

  lemma EscapeOther(c: char)
    requires c != '&' && c != '<'
    ensures EscapeXml([c]) == if c == '>' then "&gt;" else [c]
  {
    ReplacedOne(c, '&', "&amp;");
    ReplacedOne(c, '<', "&lt;");
    ReplacedOne(c, '>', "&gt;");
    EscapeSteps([c], [c], [c], if c == '>' then "&gt;" else [c]);
  }

  /** The three replacements escape each character by itself. */
  lemma EscapeOne(c: char)
    ensures EscapeXml([c]) == Escaped(c)
  {
    if c == '&' {
      EscapeAmpersand();
    } else if c == '<' {
      EscapeLess();
    } else {
      EscapeOther(c);
    }
  }

  lemma EscapeFirst(c: char, rest: string)
    ensures EscapeXml([c] + rest) == Escaped(c) + EscapeXml(rest)
  {
    var a, b := Replaced([c], '&', "&amp;"), Replaced(rest, '&', "&amp;");
    ReplacedConcat([c], rest, '&', "&amp;");
    ReplacedConcat(a, b, '<', "&lt;");
    ReplacedConcat(Replaced(a, '<', "&lt;"), Replaced(b, '<', "&lt;"), '>', "&gt;");
    EscapeOne(c);
  }

  lemma UnescapeFirst(c: char, r: string)
    ensures Unescape(Escaped(c) + r) == [c] + Unescape(r)
  {
    var s := Escaped(c) + r;
    if c == '&' {
      assert s[5..] == r;
    } else if c == '<' {
      assert s[2] == 't' && s[1] == 'l' && s[4..] == r;
    } else if c == '>' {
      assert s[1] == 'g' && s[4..] == r;
    } else {
      assert s[0] == c && s[1..] == r;
    }
  }

  /** The value written is the value read. */
  lemma {:induction false} EscapedReadsBack(value: string)
    ensures Unescape(EscapeXml(value)) == value
  {
    if value != "" {
      assert value == [value[0]] + value[1..];
      EscapeFirst(value[0], value[1..]);
      UnescapeFirst(value[0], EscapeXml(value[1..]));
      EscapedReadsBack(value[1..]);
    }
  }

  lemma TaggedHasNoClose(indent: string, v: string)
    requires '<' !in indent && '<' !in v
    ensures Without(indent + STRING + v + ENDSTRING, CLOSE)
  {
    var s := indent + STRING + v + ENDSTRING;
    forall j: nat ensures !At(s, CLOSE, j) {
      if j + |CLOSE| <= |s| {
        TaggedAt(indent, v, j);
        assert CLOSE[0] == '<' && CLOSE[1] == '/' && CLOSE[2] == 'a';
        assert s[j + 0] != CLOSE[0] || s[j + 1] != CLOSE[1] || s[j + 2] != CLOSE[2];
      }
    }
  }

  lemma TaggedAt(indent: string, v: string, j: nat)
    requires '<' !in indent && '<' !in v && j + 8 <= |indent + STRING + v + ENDSTRING|
    ensures var s := indent + STRING + v + ENDSTRING;
            s[j] != '<' || s[j + 1] != '/' || s[j + 2] != 'a'
  {
    var s := indent + STRING + v + ENDSTRING;
    var e := |indent| + |STRING| + |v|;
    assert STRING[0] == '<' && STRING[1] == 's' && ENDSTRING[0] == '<' && ENDSTRING[1] == '/' && ENDSTRING[2] == 's';
    if j < |indent| {
      assert s[j] == indent[j];
    } else if j < |indent| + |STRING| {
      assert s[j] == STRING[j - |indent|];
      assert j == |indent| ==> s[j + 1] == STRING[1];
    } else if j < e {
      assert s[j] == v[j - |indent| - |STRING|];
    } else {
      assert s[j] == ENDSTRING[j - e];
      assert j == e ==> s[j + 2] == ENDSTRING[2];
    }
  }

  // ---------- what the edits do to the lines of the array ----------

  function ArrayLines(t: string, a: Span): (r: seq<string>)
    requires InText(t, a)
    ensures r != []
  {
    Split(t[a.start..a.end])
  }

  lemma LinesOf(t: string, a: Span)
    requires ProgramArguments(t) == Some(a)
    ensures AllOneLine(ArrayLines(t, a)) && AllWithout(ArrayLines(t, a), CLOSE)
    ensures OPEN <= ArrayLines(t, a)[0] && t[a.start..a.end] == Join(ArrayLines(t, a))
    ensures !IsFlag(ArrayLines(t, a)[0]) && !IsString(ArrayLines(t, a)[0])
  {
    var body := t[a.start..a.end];
    BodyOf(t, a);
    SplitJoins(body);
    WithoutJoin(ArrayLines(t, a), CLOSE);
    OpenInFirst(body);
    OpenLine(ArrayLines(t, a)[0]);
  }

  lemma OpenInFirst(body: string)
    requires OPEN <= body
    ensures OPEN <= Split(body)[0]
  {
    SplitJoins(body);
    var first := Split(body)[0];
    assert OneLine(OPEN);
    assert |first| < |body| ==> body[|first|] == '\n';
    assert |OPEN| <= |first|;
    assert body[..|OPEN|] == first[..|OPEN|];
  }

  /** A text whose array lines are exchanged: the new lines are read back, the rest stays. */
  lemma PutLines(t: string, a: Span, lines: seq<string>) returns (b: Span)
    requires ProgramArguments(t) == Some(a) && lines != []
    requires AllOneLine(lines) && AllWithout(lines, CLOSE) && OPEN <= lines[0]
    ensures b == Span(a.start, a.start + |Join(lines)|)
    ensures ProgramArguments(Put(t, a, Join(lines))) == Some(b) && ArrayLines(Put(t, a, Join(lines)), b) == lines
    ensures Put(t, a, Join(lines))[..b.start] == t[..a.start] && Put(t, a, Join(lines))[b.end..] == t[a.end..]
  {
    var body := Join(lines);
    b := Span(a.start, a.start + |body|);
    WithoutJoin(lines, CLOSE);
    PutIsFound(t, a, body);
    PutParts(t, a, body);
    assert ArrayLines(Put(t, a, body), b) == Split(body);
    SplitJoin(lines);
  }

  lemma PutParts(t: string, a: Span, body: string)
    requires InText(t, a)
    ensures var u, end := Put(t, a, body), a.start + |body|;
            end <= |u| && u[..a.start] == t[..a.start] && u[a.start..end] == body && u[end..] == t[a.end..]
  {
  }

  ghost predicate HasNoFlag(t: string) {
    match ProgramArguments(t)
    case None => false
    case Some(a) => FlagLine(ArrayLines(t, a)) == |ArrayLines(t, a)|
  }

  /** Removing leaves the lines without the pair, and touches nothing outside the array. */
  lemma RemovedLines(t: string, u: string, a: Span) returns (b: Span)
    requires ProgramArguments(t) == Some(a) && WithoutListenArgs(t) == Some(u)
    ensures ProgramArguments(u) == Some(b) && ArrayLines(u, b) == DropPair(ArrayLines(t, a))
    ensures b.start == a.start && u[..b.start] == t[..a.start] && u[b.end..] == t[a.end..]
  {
    var lines := ArrayLines(t, a);
    LinesOf(t, a);
    if FlagLine(lines) == |lines| {
      assert DropPair(lines) == lines;
      b := a;
    } else {
      var kept := DropPair(lines);
      assert kept[0] == lines[0];
      assert forall i | 0 <= i < |kept| :: kept[i] in lines;
      b := PutLines(t, a, kept);
    }
  }

  lemma LineStartIs(t: string, end: nat, r: nat)
    requires r <= end <= |t| && (r == 0 || t[r - 1] == '\n') && forall i | r <= i < end :: t[i] != '\n'
    ensures LineStart(t, end) == r
    decreases end
  {
    if r < end { LineStartIs(t, end - 1, r); }
  }

  /** The lines of the array after `insert`: the pair stands before the line that closes it. */
  function InsertedLines(lines: seq<string>, indent: string, socket: string): seq<string>
    requires lines != []
  {
    lines[..|lines| - 1] + [indent + FLAG] + Split(ValueLine(indent, socket)) + [lines[|lines| - 1]]
  }

  lemma InsertedText(front: seq<string>, indent: string, socket: string, tail: string)
    requires front != []
    ensures Join(InsertedLines(front + [tail], indent, socket))
            == Join(front) + ['\n'] + Insertion(indent, socket) + tail
  {
    var value := ValueLine(indent, socket);
    var pair := [indent + FLAG] + Split(value);
    SplitJoins(value);
    assert (front + [tail])[..|front|] == front;
    assert InsertedLines(front + [tail], indent, socket) == front + (pair + [tail]);
    JoinAppend(front, pair + [tail]);
    JoinAppend(pair, [tail]);
    JoinAppend([indent + FLAG], Split(value));
    assert Join([tail]) == tail && Join([indent + FLAG]) == indent + FLAG;
    LineGroups(Join(front), indent + FLAG, value, tail);
  }

  lemma LineGroups(a: string, b: string, c: string, d: string)
    ensures a + ['\n'] + ((b + ['\n'] + c) + ['\n'] + d) == a + ['\n'] + (b + ['\n'] + c + ['\n']) + d
  {
  }

  lemma IndentFacts(line: string)
    requires OneLine(line)
    ensures OneLine(Indent(line)) && '<' !in Indent(line) && IsFlag(Indent(line) + FLAG)
  {
    IndentIsSpace(line);
    FlagIsFlag(Indent(line));
  }

  /** The lines the insertion adds keep the array readable, whatever the socket. */
  lemma PairLines(indent: string, socket: string)
    requires OneLine(indent) && '<' !in indent
    ensures AllOneLine([indent + FLAG]) && AllWithout([indent + FLAG], CLOSE)
    ensures AllOneLine(Split(ValueLine(indent, socket))) && AllWithout(Split(ValueLine(indent, socket)), CLOSE)
    ensures |Split(ValueLine(indent, socket))| == 1 <==> OneLine(socket)
  {
    var value := ValueLine(indent, socket);
    EscapedValue(socket);
    TaggedHasNoClose(indent, EscapeXml(socket));
    SplitJoins(value);
    WithoutJoin(Split(value), CLOSE);
    FlagParts(indent);
    ValueLineLines(indent, EscapeXml(socket));
    if |Split(value)| == 1 {
      assert value == Split(value)[0];
    } else if OneLine(value) {
      SplitLine(value, "");
    }
  }

  lemma ValueLineLines(indent: string, v: string)
    requires OneLine(indent)
    ensures OneLine(indent + STRING + v + ENDSTRING) <==> OneLine(v)
  {
    OneLineConcat(indent + STRING + v, ENDSTRING);
    OneLineConcat(indent + STRING, v);
    OneLineConcat(indent, STRING);
  }

  lemma FlagParts(indent: string)
    requires OneLine(indent) && '<' !in indent
    ensures OneLine(indent + FLAG) && Without(indent + FLAG, CLOSE)
  {
    FlagIsTagged();
    FourGroups(indent, STRING, FLAG_NAME, ENDSTRING);
    TaggedHasNoClose(indent, FLAG_NAME);
    ValueLineLines(indent, FLAG_NAME);
  }

  const FLAG_NAME := "--listen-socket"

  lemma FlagIsTagged()
    ensures FLAG == STRING + FLAG_NAME + ENDSTRING && '<' !in FLAG_NAME && OneLine(FLAG_NAME)
  {
  }

  lemma FourGroups(a: string, b: string, c: string, d: string)
    ensures a + (b + c + d) == a + b + c + d
  {
  }

  lemma InsertedIsReadable(lines: seq<string>, indent: string, socket: string)
    requires |lines| > 1 && AllOneLine(lines) && AllWithout(lines, CLOSE) && OneLine(indent) && '<' !in indent
    ensures AllOneLine(InsertedLines(lines, indent, socket)) && AllWithout(InsertedLines(lines, indent, socket), CLOSE)
    ensures InsertedLines(lines, indent, socket)[0] == lines[0]
  {
    PairLines(indent, socket);
    var value := Split(ValueLine(indent, socket));
    forall i | 0 <= i < |InsertedLines(lines, indent, socket)|
      ensures InsertedLines(lines, indent, socket)[i] in lines
              || InsertedLines(lines, indent, socket)[i] in [indent + FLAG]
              || InsertedLines(lines, indent, socket)[i] in value
    {
    }
  }

  lemma InsertIsPut(u: string, a: Span, socket: string) returns (indent: string)
    requires ProgramArguments(u) == Some(a) && InsertPair(u, socket).Some?
    ensures |ArrayLines(u, a)| > 1 && OneLine(indent) && '<' !in indent && IsFlag(indent + FLAG)
    ensures InsertPair(u, socket) == Some(Put(u, a, Join(InsertedLines(ArrayLines(u, a), indent, socket))))
  {
    LinesOf(u, a);
    var last := LastString(ArrayLines(u, a)).value;
    indent := Indent(last);
    IndentFacts(last);
    InsertAtEnd(u, a, indent, socket);
  }

  lemma InsertAtEnd(u: string, a: Span, indent: string, socket: string)
    requires InText(u, a) && |ArrayLines(u, a)| > 1 && AllOneLine(ArrayLines(u, a))
    requires u[a.start..a.end] == Join(ArrayLines(u, a))
    ensures var at := LineStart(u, a.end);
            u[..at] + Insertion(indent, socket) + u[at..]
            == Put(u, a, Join(InsertedLines(ArrayLines(u, a), indent, socket)))
  {
    var lines := ArrayLines(u, a);
    var front, tail := lines[..|lines| - 1], lines[|lines| - 1];
    assert lines == front + [tail];
    InsertedText(front, indent, socket, tail);
    InsertedWhere(u, a, front, tail);
    AddedIsPut(u, a, Join(front), Insertion(indent, socket), tail);
  }

  /** What `insert` does to the lines of an array, and that it touches nothing else. */
  lemma InsertedAt(u: string, a: Span, socket: string) returns (b: Span, indent: string)
    requires ProgramArguments(u) == Some(a) && InsertPair(u, socket).Some?
    ensures InsertedInto(u, a, socket, InsertPair(u, socket).value, b, indent)
  {
    indent := InsertIsPut(u, a, socket);
    LinesOf(u, a);
    InsertedIsReadable(ArrayLines(u, a), indent, socket);
    b := PutLines(u, a, InsertedLines(ArrayLines(u, a), indent, socket));
  }

  ghost predicate InsertedInto(u: string, a: Span, socket: string, r: string, b: Span, indent: string)
    requires InText(u, a)
  {
    && |ArrayLines(u, a)| > 1 && OneLine(indent) && '<' !in indent && IsFlag(indent + FLAG)
    && ProgramArguments(r) == Some(b) && ArrayLines(r, b) == InsertedLines(ArrayLines(u, a), indent, socket)
    && b.start == a.start && r[..b.start] == u[..a.start] && r[b.end..] == u[a.end..]
  }

  lemma InsertedWhere(u: string, a: Span, front: seq<string>, tail: string)
    requires InText(u, a) && front != [] && OneLine(tail) && u[a.start..a.end] == Join(front + [tail])
    ensures u[a.start..a.end] == Join(front) + ['\n'] + tail
    ensures LineStart(u, a.end) == a.start + |Join(front)| + 1
  {
    JoinAppend(front, [tail]);
    assert Join([tail]) == tail;
    var body := u[a.start..a.end];
    var r := a.start + |Join(front)| + 1;
    assert body == Join(front) + ['\n'] + tail;
    assert u[r - 1] == body[|Join(front)|];
    forall i | r <= i < a.end ensures u[i] != '\n' {
      assert u[i] == body[i - a.start] == tail[i - r];
    }
    LineStartIs(u, a.end, r);
  }

  lemma AddedIsPut(u: string, a: Span, front: string, insert: string, tail: string)
    requires InText(u, a) && u[a.start..a.end] == front + ['\n'] + tail
    ensures var at := a.start + |front| + 1;
            u[..at] + insert + u[at..] == Put(u, a, front + ['\n'] + insert + tail)
  {
    var at := a.start + |front| + 1;
    assert u == u[..a.start] + (front + ['\n'] + tail) + u[a.end..];
    assert u[..at] == u[..a.start] + front + ['\n'];
    assert u[at..] == tail + u[a.end..];
  }

  lemma Parts(t: string, a: Span)
    requires InText(t, a)
    ensures t == t[..a.start] + t[a.start..a.end] + t[a.end..]
  {
  }

  /** Two texts with the same array lines and the same rest are the same. */
  lemma SameBody(u: string, a: Span, v: string, c: Span)
    requires ProgramArguments(u) == Some(a) && ProgramArguments(v) == Some(c)
    requires ArrayLines(u, a) == ArrayLines(v, c)
    requires a.start == c.start && u[..a.start] == v[..c.start] && u[a.end..] == v[c.end..]
    ensures u == v
  {
    LinesOf(u, a);
    LinesOf(v, c);
    Parts(u, a);
    Parts(v, c);
  }

  /** The inserted flag line is the first one. */
  lemma FlagInserted(lines: seq<string>, flag: string, added: seq<string>)
    requires lines != [] && FlagLine(lines) == |lines| && IsFlag(flag)
    requires |added| > |lines| - 1 && added[..|lines| - 1] == lines[..|lines| - 1] && added[|lines| - 1] == flag
    ensures FlagLine(added) == |lines| - 1
  {
    FlagLineIs(lines, |lines| - 1, added);
  }

  /** Dropping there takes the flag line and the first line of the value. */
  lemma DropInserted(lines: seq<string>, flag: string, value: seq<string>)
    requires lines != [] && FlagLine(lines) == |lines| && IsFlag(flag) && value != []
    ensures var n := |lines| - 1;
            DropPair(lines[..n] + [flag] + value + [lines[n]]) == lines[..n] + value[1..] + [lines[n]]
  {
    var front, tail := lines[..|lines| - 1], [lines[|lines| - 1]];
    AddedStart(front, flag, value, tail);
    FlagInserted(lines, flag, front + [flag] + value + tail);
    DropAfter(front, flag, value, tail);
  }

  lemma AddedStart(front: seq<string>, flag: string, value: seq<string>, tail: seq<string>)
    requires value != []
    ensures var added := front + [flag] + value + tail;
            |added| >= |front| + 2 && added[..|front|] == front && added[|front|] == flag
  {
  }

  lemma DropAfter(front: seq<string>, flag: string, value: seq<string>, tail: seq<string>)
    requires value != [] && FlagLine(front + [flag] + value + tail) == |front|
    ensures DropPair(front + [flag] + value + tail) == front + value[1..] + tail
  {
    var added := front + [flag] + value + tail;
    AddedStart(front, flag, value, tail);
    assert added[|front| + 2..] == value[1..] + tail;
  }

  lemma KeptIsWhole(lines: seq<string>, value: seq<string>)
    requires lines != [] && value != []
    ensures lines[..|lines| - 1] + value[1..] + [lines[|lines| - 1]] == lines <==> |value| == 1
  {
    var n := |lines| - 1;
    assert lines == lines[..n] + [lines[n]];
    if lines[..n] + value[1..] + [lines[n]] == lines {
      assert |lines[..n] + value[1..] + [lines[n]]| == |lines|;
    }
  }

  /**
   * Adding and removing undo each other: when the array holds no further flag, removing what was added
   * gives back the text without the pair, exactly when the socket is on one line.
   */
  lemma RemoveUndoesAdd(t: string, socket: string)
    requires WithListenArgs(t, socket).Some? && HasNoFlag(WithoutListenArgs(t).value)
    ensures WithoutListenArgs(WithListenArgs(t, socket).value) == WithoutListenArgs(t) <==> OneLine(socket)
  {
    var u, r := WithoutListenArgs(t).value, WithListenArgs(t, socket).value;
    var a := ProgramArguments(u).value;
    var b, indent := InsertedAt(u, a, socket);
    PairLines(indent, socket);
    DropInserted(ArrayLines(u, a), indent + FLAG, Split(ValueLine(indent, socket)));
    KeptIsWhole(ArrayLines(u, a), Split(ValueLine(indent, socket)));
    LinesOf(r, b);
    var v := WithoutListenArgs(r).value;
    var c := RemovedLines(r, v, b);
    if OneLine(socket) {
      SameBody(u, a, v, c);
    }
  }

  /** A plist without a pair comes back unchanged. */
  lemma AddIsUndone(t: string, socket: string)
    requires HasNoFlag(t) && WithListenArgs(t, socket).Some? && OneLine(socket)
    ensures WithoutListenArgs(WithListenArgs(t, socket).value) == Some(t)
  {
    RemoveUndoesAdd(t, socket);
  }

  /** The last value wins: adding twice is adding the second. */
  lemma LastAddWins(t: string, first: string, second: string)
    requires WithListenArgs(t, first).Some? && HasNoFlag(WithoutListenArgs(t).value) && OneLine(first)
    ensures WithListenArgs(WithListenArgs(t, first).value, second) == WithListenArgs(t, second)
  {
    RemoveUndoesAdd(t, first);
  }

  /** Neither edit changes a character outside the array, whatever the socket and however many flags. */
  lemma OutsideIsKept(t: string, socket: string, a: Span) returns (b: Span)
    requires ProgramArguments(t) == Some(a) && WithListenArgs(t, socket).Some?
    ensures var r := WithListenArgs(t, socket).value;
            ProgramArguments(r) == Some(b) && b.start == a.start
            && r[..b.start] == t[..a.start] && r[b.end..] == t[a.end..]
  {
    var u := WithoutListenArgs(t).value;
    var c := RemovedLines(t, u, a);
    var indent;
    b, indent := InsertedAt(u, c, socket);
  }

  /** An array on one line cannot be extended: the edit is refused. */
  lemma OneLineArrayIsRefused(t: string, socket: string, a: Span)
    requires ProgramArguments(t) == Some(a) && OneLine(t[a.start..a.end])
    ensures WithListenArgs(t, socket) == None
  {
    LinesOf(t, a);
    SplitLine(t[a.start..a.end], "");
    var lines := ArrayLines(t, a);
    assert lines == [t[a.start..a.end]];
    assert FlagLine(lines) == 1;
    assert LastString(lines) == None;
  }
}
