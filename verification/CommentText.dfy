/** What the comments of a text are, told from the pieces the text is made of. */
module CommentText {
  import opened Lines
  import opened Sequences
  import opened CommentScanner

  /** A character of a string literal: as it is, or behind a backslash. */
  datatype StrChar = Raw(c: char) | Protected(c: char)

  /** A piece of source text. Only the last piece of a text may be cut off by its end. */
  datatype Item =
    | Plain(c: char)
    | Literal(quote: char, body: seq<StrChar>)
    | LineNote(text: string)
    | BlockNote(text: string)
    | CutLiteral(quote: char, body: seq<StrChar>, backslash: bool)
    | CutBlock(text: string)

  function BodyText(body: seq<StrChar>): string {
    if body == [] then ""
    else (match body[0] case Raw(c) => [c] case Protected(c) => ['\\', c]) + BodyText(body[1..])
  }

  function ItemText(item: Item): string {
    match item
    case Plain(c) => [c]
    case Literal(q, body) => [q] + BodyText(body) + [q]
    case LineNote(text) => "//" + text
    case BlockNote(text) => "/*" + text + "*/"
    case CutLiteral(q, body, backslash) => [q] + BodyText(body) + if backslash then "\\" else ""
    case CutBlock(text) => "/*" + text
  }

  function Written(items: seq<Item>): string {
    if items == [] then "" else ItemText(items[0]) + Written(items[1..])
  }

  predicate IsQuote(c: char) {
    c in "'\"`"
  }

  predicate BodyFits(quote: char, body: seq<StrChar>) {
    forall i | 0 <= i < |body| && body[i].Raw? :: body[i].c != quote && body[i].c != '\\'
  }

  predicate ClosesAt(s: string, i: nat) {
    i + 1 < |s| && s[i] == '*' && s[i + 1] == '/'
  }

  /** The text and what follows it do not close a block comment before the text ends. */
  predicate StaysInside(text: string, after: string) {
    forall i | 0 <= i < |text| :: !ClosesAt(text + after, i)
  }

  /** The item can stand before this text, and the text is read as this item. */
  predicate Fits(item: Item, rest: string) {
    match item
    case Plain(c) => !IsQuote(c) && (c == '/' ==> rest == "" || (rest[0] != '/' && rest[0] != '*'))
    case Literal(q, body) => IsQuote(q) && BodyFits(q, body)
    case LineNote(text) => OneLine(text) && LineEnd(rest)
    case BlockNote(text) => StaysInside(text, "*/")
    case CutLiteral(q, body, _) => IsQuote(q) && BodyFits(q, body) && rest == ""
    case CutBlock(text) => StaysInside(text, "") && rest == ""
  }

  predicate AllFit(items: seq<Item>) {
    items == [] || (Fits(items[0], Written(items[1..])) && AllFit(items[1..]))
  }

  function Newlines(s: string): nat {
    if s == "" then 0 else (if s[0] == '\n' then 1 else 0) + Newlines(s[1..])
  }

  /** One comment for each line of it that is not empty. */
  function LinePieces(lines: seq<string>, line: nat): seq<Comment> {
    if lines == [] then []
    else (if lines[0] != "" then [Comment(line, lines[0])] else []) + LinePieces(lines[1..], line + 1)
  }

  function NotesOf(item: Item, line: nat): seq<Comment> {
    match item
    case LineNote(_) => [Comment(line, ItemText(item))]
    case BlockNote(_) => LinePieces(Split(ItemText(item)), line)
    case CutBlock(_) => LinePieces(Split(ItemText(item)), line)
    case _ => []
  }

  /** The comments of the items, with the lines they stand on. */
  function Notes(items: seq<Item>, line: nat): seq<Comment>
    decreases |items|
  {
    if items == [] then [] else NotesOf(items[0], line) + Notes(items[1..], line + Newlines(ItemText(items[0])))
  }

  // ---------- reading one item ----------

  lemma {:induction false} NewlinesConcat(a: string, b: string)
    ensures Newlines(a + b) == Newlines(a) + Newlines(b)
  {
    if a == "" {
      assert a + b == b;
    } else {
      assert (a + b)[1..] == a[1..] + b;
      NewlinesConcat(a[1..], b);
    }
  }

  lemma OneChar(m: Mode, buf: string, line: nat, c: char, rest: string)
    requires !m.BlockStar?
    ensures Automaton(m, buf, line, [c] + rest)
            == if c == '\n' then Flush(m, buf, line) + Automaton(AfterNewline(m), "", line + 1, rest)
               else Automaton(Step(m, buf, c).0, Step(m, buf, c).1, line, rest)
  {
    assert ([c] + rest)[0] == c && ([c] + rest)[1..] == rest;
  }

  lemma PlainRead(c: char, rest: string, line: nat)
    requires Fits(Plain(c), rest)
    ensures Automaton(Code, "", line, [c] + rest) == Automaton(Code, "", line + Newlines([c]), rest)
  {
    OneChar(Code, "", line, c, rest);
    assert Newlines([c]) == if c == '\n' then 1 else 0;
    if c == '/' { SlashForgotten(line, rest); }
  }

  lemma StrCharRead(q: char, s: StrChar, rest: string, line: nat)
    requires s.Raw? ==> s.c != q && s.c != '\\'
    ensures var text := match s case Raw(c) => [c] case Protected(c) => ['\\', c];
            Automaton(InString(q), "", line, text + rest) == Automaton(InString(q), "", line + Newlines(text), rest)
  {
    match s
    case Raw(c) =>
      OneChar(InString(q), "", line, c, rest);
      assert Newlines([c]) == if c == '\n' then 1 else 0;
    case Protected(c) =>
      assert ['\\', c] + rest == ['\\'] + ([c] + rest);
      OneChar(InString(q), "", line, '\\', [c] + rest);
      OneChar(Escaped(q), "", line, c, rest);
      assert ['\\', c][1..] == [c] && Newlines([c]) == if c == '\n' then 1 else 0;
  }

  lemma {:induction false} BodyRead(q: char, body: seq<StrChar>, rest: string, line: nat)
    requires BodyFits(q, body)
    ensures Automaton(InString(q), "", line, BodyText(body) + rest)
            == Automaton(InString(q), "", line + Newlines(BodyText(body)), rest)
    decreases |body|
  {
    if body == [] {
      assert BodyText(body) + rest == rest;
    } else {
      var text := match body[0] case Raw(c) => [c] case Protected(c) => ['\\', c];
      assert BodyText(body) + rest == text + (BodyText(body[1..]) + rest);
      StrCharRead(q, body[0], BodyText(body[1..]) + rest, line);
      BodyRead(q, body[1..], rest, line + Newlines(text));
      NewlinesConcat(text, BodyText(body[1..]));
    }
  }

  lemma LiteralRead(q: char, body: seq<StrChar>, rest: string, line: nat)
    requires IsQuote(q) && BodyFits(q, body)
    ensures var text := [q] + BodyText(body) + [q];
            Automaton(Code, "", line, text + rest) == Automaton(Code, "", line + Newlines(text), rest)
  {
    var inner := BodyText(body);
    assert [q] + inner + [q] + rest == [q] + (inner + ([q] + rest));
    OneChar(Code, "", line, q, inner + ([q] + rest));
    BodyRead(q, body, [q] + rest, line);
    OneChar(InString(q), "", line + Newlines(inner), q, rest);
    QuoteLines(q, inner);
  }

  lemma QuoteLines(q: char, inner: string)
    requires IsQuote(q)
    ensures Newlines([q] + inner + [q]) == Newlines(inner)
  {
    NewlinesConcat([q] + inner, [q]);
    NewlinesConcat([q], inner);
    assert Newlines([q]) == 0;
  }

  lemma CutLiteralRead(q: char, body: seq<StrChar>, backslash: bool, line: nat)
    requires IsQuote(q) && BodyFits(q, body)
    ensures Automaton(Code, "", line, ItemText(CutLiteral(q, body, backslash))) == []
  {
    var inner, end := BodyText(body), if backslash then "\\" else "";
    assert ItemText(CutLiteral(q, body, backslash)) == [q] + (inner + end);
    OneChar(Code, "", line, q, inner + end);
    BodyRead(q, body, end, line);
    CutEnd(q, line + Newlines(inner));
  }

  lemma CutEnd(q: char, line: nat)
    ensures Automaton(InString(q), "", line, "\\") == [] && Automaton(InString(q), "", line, "") == []
  {
    assert "\\" == ['\\'] + "";
    OneChar(InString(q), "", line, '\\', "");
  }

  lemma LineNoteRead(text: string, rest: string, line: nat)
    requires OneLine(text) && LineEnd(rest)
    ensures Automaton(Code, "", line, "//" + text + rest)
            == [Comment(line, "//" + text)] + Automaton(Code, "", line, rest)
  {
    var all := "//" + text;
    assert OneLine(all) && all[0..] == all && all[0] == '/' && all[1] == '/';
    OpenLineComment(all, 0, rest, line);
  }

  lemma {:induction false} OneLineNewlines(s: string)
    requires OneLine(s)
    ensures Newlines(s) == 0
  {
    if s != "" { OneLineNewlines(s[1..]); }
  }

  /** A piece of a block comment in front of a line end, and of its last line. */
  lemma PiecesFirst(buf: string, rest: string, line: nat)
    requires OneLine(buf)
    ensures LinePieces(Split(buf + ['\n'] + rest), line)
            == Flush(Block, buf, line) + LinePieces(Split(rest), line + 1)
    ensures LinePieces(Split(buf), line) == Flush(Block, buf, line)
  {
    SplitLine(buf, rest);
    assert ([buf] + Split(rest))[1..] == Split(rest);
    assert [buf][1..] == [];
  }

  lemma BlockCharRead(buf: string, c: char, rest: string, line: nat)
    requires c != '\n' && !(c == '*' && rest != "" && rest[0] == '/')
    ensures Automaton(Block, buf, line, [c] + rest) == Automaton(Block, buf + [c], line, rest)
  {
    OneChar(Block, buf, line, c, rest);
    if c == '*' { StarForgotten(buf + [c], line, rest); }
  }

  lemma InsideTail(text: string, after: string)
    requires text != "" && StaysInside(text, after)
    ensures StaysInside(text[1..], after)
    ensures !(text[0] == '*' && text[1..] + after != "" && (text[1..] + after)[0] == '/')
  {
    var all, rest := text + after, text[1..] + after;
    assert all == [text[0]] + rest && !ClosesAt(all, 0);
    forall i | 0 <= i < |text[1..]| ensures !ClosesAt(rest, i) {
      assert !ClosesAt(all, i + 1);
    }
  }

  /** A line end in a block comment: the piece before it, then what the rest of the comment gives. */
  lemma BlockNewline(buf: string, rest: string, inside: string, line: nat, after: seq<Comment>)
    requires OneLine(buf) && Automaton(Block, "", line + 1, rest) == LinePieces(Split(inside), line + 1) + after
    ensures Automaton(Block, buf, line, ['\n'] + rest) == LinePieces(Split(buf + ['\n'] + inside), line) + after
  {
    OneChar(Block, buf, line, '\n', rest);
    PiecesFirst(buf, inside, line);
    Regroup(Flush(Block, buf, line), LinePieces(Split(inside), line + 1), after);
  }

  lemma BlockEnds(buf: string, rest: string, line: nat)
    requires OneLine(buf)
    ensures Automaton(Block, buf, line, "*/" + rest)
            == LinePieces(Split(buf + "*/"), line) + Automaton(Code, "", line, rest)
  {
    var s := "*/" + rest;
    assert s[0] == '*' && s[1..][0] == '/' && s[1..][1..] == rest;
    assert buf + ['*'] + ['/'] == buf + "*/";
    PiecesFirst(buf + "*/", "", line);
  }

  /** The rest of a block comment that closes. */
  lemma {:induction false} BlockRead(buf: string, text: string, rest: string, line: nat)
    requires OneLine(buf) && StaysInside(text, "*/")
    ensures Automaton(Block, buf, line, text + ("*/" + rest))
            == LinePieces(Split(buf + (text + "*/")), line) + Automaton(Code, "", line + Newlines(text), rest)
    decreases |text|
  {
    var close := "*/";
    if text == "" {
      assert text + (close + rest) == close + rest && text + close == close;
      BlockEnds(buf, rest, line);
    } else {
      var c, more := text[0], text[1..];
      InsideTail(text, close);
      FirstOut(text, close + rest);
      FirstOut(text, close);
      if c == '\n' {
        BlockRead("", more, rest, line + 1);
        assert "" + (more + close) == more + close;
        BlockNewline(buf, more + (close + rest), more + close, line, Automaton(Code, "", line + Newlines(text), rest));
        assert buf + ['\n'] + (more + close) == buf + (['\n'] + (more + close));
      } else {
        NextOfTwo(more, close, rest);
        BlockCharRead(buf, c, more + (close + rest), line);
        BlockRead(buf + [c], more, rest, line);
        assert buf + [c] + (more + close) == buf + ([c] + (more + close));
      }
    }
  }

  lemma FirstOut(text: string, after: string)
    requires text != ""
    ensures text + after == [text[0]] + (text[1..] + after)
  {
  }

  lemma NextOfTwo(more: string, close: string, rest: string)
    requires close != ""
    ensures more + (close + rest) != "" && (more + (close + rest))[0] == (more + close)[0]
  {
  }

  lemma NoMore(more: string, c: char, text: string)
    requires text != "" && c == text[0] && more == text[1..]
    ensures text == [c] + more && more + "" == more && "" + more == more
  {
  }

  lemma CutNewline(buf: string, rest: string, line: nat)
    requires OneLine(buf) && Automaton(Block, "", line + 1, rest) == LinePieces(Split(rest), line + 1)
    ensures Automaton(Block, buf, line, ['\n'] + rest) == LinePieces(Split(buf + ['\n'] + rest), line)
  {
    Regroup(LinePieces(Split(rest), line + 1), [], []);
    BlockNewline(buf, rest, rest, line, []);
    Regroup(LinePieces(Split(buf + ['\n'] + rest), line), [], []);
  }

  /** The rest of a block comment that the end of the text cuts off. */
  lemma {:induction false} CutBlockRead(buf: string, text: string, line: nat)
    requires OneLine(buf) && StaysInside(text, "")
    ensures Automaton(Block, buf, line, text) == LinePieces(Split(buf + text), line)
    decreases |text|
  {
    if text == "" {
      assert buf + text == buf;
      PiecesFirst(buf, "", line);
    } else {
      var c, more := text[0], text[1..];
      InsideTail(text, "");
      NoMore(more, c, text);
      if c == '\n' {
        CutBlockRead("", more, line + 1);
        CutNewline(buf, more, line);
        Regroup(buf, ['\n'], more);
      } else {
        BlockCharRead(buf, c, more, line);
        CutBlockRead(buf + [c], more, line);
        Regroup(buf, [c], more);
      }
    }
  }

  lemma OpensBlock(s: string, line: nat)
    ensures Automaton(Code, "", line, "/*" + s) == Automaton(Block, "/*", line, s)
  {
    assert "/*" + s == ['/'] + (['*'] + s);
    OneChar(Code, "", line, '/', ['*'] + s);
    OneChar(Slash, "", line, '*', s);
  }

  lemma BlockNoteRead(t: string, rest: string, line: nat)
    requires StaysInside(t, "*/")
    ensures var text := "/*" + t + "*/";
            Automaton(Code, "", line, text + rest)
            == LinePieces(Split(text), line) + Automaton(Code, "", line + Newlines(text), rest)
  {
    var open, close := "/*", "*/";
    assert open + t + close + rest == open + (t + (close + rest)) && open + t + close == open + (t + close);
    OpensBlock(t + (close + rest), line);
    BlockRead(open, t, rest, line);
    NewlinesConcat(open + t, close);
    NewlinesConcat(open, t);
    OneLineNewlines(open);
    OneLineNewlines(close);
  }

  lemma CutBlockNoteRead(t: string, line: nat)
    requires StaysInside(t, "")
    ensures Automaton(Code, "", line, "/*" + t) == LinePieces(Split("/*" + t), line)
  {
    OpensBlock(t, line);
    CutBlockRead("/*", t, line);
  }

  lemma ItemRead(item: Item, rest: string, line: nat)
    requires Fits(item, rest)
    ensures Automaton(Code, "", line, ItemText(item) + rest)
            == NotesOf(item, line) + Automaton(Code, "", line + Newlines(ItemText(item)), rest)
  {
    if item.Plain? {
      PlainRead(item.c, rest, line);
    } else if item.Literal? {
      LiteralRead(item.quote, item.body, rest, line);
    } else if item.LineNote? {
      LineNoteRead(item.text, rest, line);
      OneLineNewlines(ItemText(item));
    } else if item.BlockNote? {
      BlockNoteRead(item.text, rest, line);
    } else {
      CutItemRead(item, line);
      assert ItemText(item) + rest == ItemText(item);
    }
  }

  lemma CutItemRead(item: Item, line: nat)
    requires (item.CutLiteral? || item.CutBlock?) && Fits(item, "")
    ensures Automaton(Code, "", line, ItemText(item)) == NotesOf(item, line)
  {
    if item.CutLiteral? {
      CutLiteralRead(item.quote, item.body, item.backslash, line);
    } else {
      CutBlockNoteRead(item.text, line);
    }
  }

  lemma ItemThen(item: Item, rest: string, line: nat, notes: seq<Comment>)
    requires Fits(item, rest) && Automaton(Code, "", line + Newlines(ItemText(item)), rest) == notes
    ensures Automaton(Code, "", line, ItemText(item) + rest) == NotesOf(item, line) + notes
  {
    ItemRead(item, rest, line);
  }

  /** The comments of a text are the line and block comments among its items, line by line. */
  lemma {:induction false} ItemsRead(items: seq<Item>, line: nat)
    requires AllFit(items)
    ensures Automaton(Code, "", line, Written(items)) == Notes(items, line)
    decreases |items|
  {
    if items != [] {
      var later := line + Newlines(ItemText(items[0]));
      ItemsRead(items[1..], later);
      ItemThen(items[0], Written(items[1..]), line, Notes(items[1..], later));
    }
  }

  // ---------- every text is made of items ----------

  lemma LongerBody(s: string, n: nat, c: StrChar, more: seq<StrChar>, end: string)
    requires n <= |s| && s[n..] == BodyText(more) + end
    requires s[..n] == (match c case Raw(x) => [x] case Protected(x) => ['\\', x])
    ensures s == BodyText([c] + more) + end
  {
    assert s == s[..n] + s[n..] && ([c] + more)[1..] == more;
  }

  lemma {:induction false} ReadBody(q: char, s: string)
      returns (body: seq<StrChar>, closed: bool, backslash: bool, rest: string)
    ensures BodyFits(q, body) && |rest| <= |s|
    ensures s == BodyText(body) + if closed then [q] + rest else if backslash then "\\" else ""
    decreases |s|
  {
    if s == "" || s == "\\" {
      body, closed, backslash, rest := [], false, s != "", "";
    } else if s[0] == q && q != '\\' {
      body, closed, backslash, rest := [], true, false, s[1..];
    } else {
      var c := if s[0] == '\\' then Protected(s[1]) else Raw(s[0]);
      var n := if s[0] == '\\' then 2 else 1;
      var more;
      more, closed, backslash, rest := ReadBody(q, s[n..]);
      body := [c] + more;
      LongerBody(s, n, c, more, if closed then [q] + rest else if backslash then "\\" else "");
    }
  }

  lemma {:induction false} ReadBlock(s: string) returns (text: string, closed: bool, rest: string)
    ensures |rest| <= |s| && s == text + if closed then "*/" + rest else ""
    ensures StaysInside(text, if closed then "*/" else "")
    decreases |s|
  {
    if s == "" {
      text, closed, rest := "", false, "";
    } else if |s| > 1 && s[0] == '*' && s[1] == '/' {
      text, closed, rest := "", true, s[2..];
      assert s == "*/" + s[2..];
    } else {
      var more;
      more, closed, rest := ReadBlock(s[1..]);
      text := [s[0]] + more;
      InsideMore(s[0], more, if closed then "*/" else "", s, if closed then rest else "");
    }
  }

  lemma InsideMore(c: char, more: string, after: string, s: string, rest: string)
    requires s != "" && s[0] == c && s[1..] == more + after + rest && StaysInside(more, after)
    requires !(|s| > 1 && s[0] == '*' && s[1] == '/')
    ensures s == [c] + more + after + rest && StaysInside([c] + more, after)
  {
    var text, tail := [c] + more, more + after;
    var all := text + after;
    assert all == [c] + tail && s == all + rest;
    forall i | 0 <= i < |text| ensures !ClosesAt(all, i) {
      if i > 0 { assert !ClosesAt(tail, i - 1); }
    }
  }

  lemma {:induction false} ReadLine(s: string) returns (text: string, rest: string)
    ensures s == text + rest && OneLine(text) && LineEnd(rest) && |rest| <= |s|
  {
    if LineEnd(s) {
      text, rest := "", s;
    } else {
      var more;
      more, rest := ReadLine(s[1..]);
      text := [s[0]] + more;
    }
  }

  lemma LiteralFirst(q: char, s: string) returns (item: Item, rest: string)
    requires IsQuote(q)
    ensures [q] + s == ItemText(item) + rest && Fits(item, rest) && |rest| <= |s|
  {
    var body, closed, backslash;
    body, closed, backslash, rest := ReadBody(q, s);
    if closed {
      item := Literal(q, body);
      assert [q] + (BodyText(body) + ([q] + rest)) == [q] + BodyText(body) + [q] + rest;
    } else {
      item, rest := CutLiteral(q, body, backslash), "";
    }
  }

  lemma FirstItem(s: string) returns (item: Item, rest: string)
    requires s != ""
    ensures s == ItemText(item) + rest && Fits(item, rest) && |rest| < |s|
  {
    assert s == [s[0]] + s[1..];
    if IsQuote(s[0]) {
      item, rest := LiteralFirst(s[0], s[1..]);
    } else if |s| > 1 && s[0] == '/' && s[1] == '/' {
      assert s == "//" + s[2..];
      var text;
      text, rest := ReadLine(s[2..]);
      item := LineNote(text);
      assert "//" + (text + rest) == "//" + text + rest;
    } else if |s| > 1 && s[0] == '/' && s[1] == '*' {
      assert s == "/*" + s[2..];
      var text, closed;
      text, closed, rest := ReadBlock(s[2..]);
      if closed {
        item := BlockNote(text);
        assert "/*" + (text + ("*/" + rest)) == "/*" + text + "*/" + rest;
      } else {
        item, rest := CutBlock(text), "";
      }
    } else {
      item, rest := Plain(s[0]), s[1..];
    }
  }

  lemma {:induction false} ItemsOf(s: string) returns (items: seq<Item>)
    ensures AllFit(items) && Written(items) == s
    decreases |s|
  {
    if s == "" {
      items := [];
    } else {
      var item, rest := FirstItem(s);
      var more := ItemsOf(rest);
      items := [item] + more;
      assert items[1..] == more;
    }
  }

  /**
   * Every text is made of plain characters, string literals, line comments and block comments, and its comments
   * are exactly the last two: none inside a literal, each on its own line, a block comment line by line.
   */
  lemma CommentsExactly(content: string) returns (items: seq<Item>)
    ensures AllFit(items) && Written(items) == content
    ensures Automaton(Code, "", 1, content) == Notes(items, 1)
  {
    items := ItemsOf(content);
    ItemsRead(items, 1);
  }
}
