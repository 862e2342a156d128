/**
 * The comment scanner of the suppression check. It goes line by line and jumps over whole comments;
 * the automaton below reads the file one character at a time. They report the same comments.
 */
module CommentScanner {
  import opened Options
  import opened Lines
  import opened Sequences

  /** One reported piece of comment: at most one per comment and line. */
  datatype Comment = Comment(line: nat, text: string)

  /** Where a reader of the text is. The states with a buffer are inside a comment. */
  datatype Mode =
    | Code
    | Slash                // a slash that may open a comment
    | InString(quote: char)
    | Escaped(quote: char) // after a backslash in a string
    | LineComment
    | Block
    | BlockStar            // after a star in a block comment

  predicate Quote(c: char) {
    c == '\'' || c == '\"' || c == '`'
  }

  predicate InComment(m: Mode) {
    m.LineComment? || m.Block? || m.BlockStar?
  }

  /** A comment piece ends with its line; an empty piece is not reported. */
  function Flush(m: Mode, buf: string, line: nat): seq<Comment> {
    if InComment(m) && buf != "" then [Comment(line, buf)] else []
  }

  /** Strings and block comments run on over a line end, everything else stops there. */
  function AfterNewline(m: Mode): Mode {
    match m
    case InString(q) => InString(q)
    case Escaped(q) => InString(q)
    case Block => Block
    case BlockStar => Block
    case _ => Code
  }

  /** One character that is not a line end: the next mode, and the buffer it leaves. */
  function Step(m: Mode, buf: string, c: char): (Mode, string) {
    match m
    case Code => (if Quote(c) then InString(c) else if c == '/' then Slash else Code, "")
    case Slash =>
      if c == '/' then (LineComment, "//")
      else if c == '*' then (Block, "/*")
      else (if Quote(c) then InString(c) else Code, "")
    case InString(q) => (if c == '\\' then Escaped(q) else if c == q then Code else m, "")
    case Escaped(q) => (InString(q), "")
    case LineComment => (m, buf + [c])
    case Block => (if c == '*' then BlockStar else Block, buf + [c])
    case BlockStar => (if c == '*' then BlockStar else if c == '/' then Code else Block, buf + [c])
  }

  /** The comments of a text, one character at a time. */
  function Automaton(m: Mode, buf: string, line: nat, s: string): seq<Comment>
    decreases |s|
  {
    if s == "" then Flush(m, buf, line)
    else if s[0] == '\n' then Flush(m, buf, line) + Automaton(AfterNewline(m), "", line + 1, s[1..])
    else
      var (m', buf') := Step(m, buf, s[0]);
      if m.BlockStar? && m'.Code? then [Comment(line, buf')] + Automaton(Code, "", line, s[1..])
      else Automaton(m', buf', line, s[1..])
  }

  /** `line.indexOf` of the closing mark. */
  function IndexOfClose(line: string, from: nat): (r: Option<nat>)
    requires from <= |line|
    ensures r.Some? ==> from <= r.value && r.value + 2 <= |line|
    decreases |line| - from
  {
    if from + 2 > |line| then None
    else if line[from] == '*' && line[from + 1] == '/' then Some(from)
    else IndexOfClose(line, from + 1)
  }

  // ---------- the automaton over a stretch of line ----------

  predicate LineEnd(rest: string) {
    rest == "" || rest[0] == '\n'
  }

  /** A star that the next character does not complete is an ordinary comment character. */
  lemma StarForgotten(buf: string, line: nat, s: string)
    requires s == "" || s[0] != '/'
    ensures Automaton(BlockStar, buf, line, s) == Automaton(Block, buf, line, s)
  {
  }

  lemma SlashForgotten(line: nat, s: string)
    requires s == "" || (s[0] != '/' && s[0] != '*')
    ensures Automaton(Slash, "", line, s) == Automaton(Code, "", line, s)
  {
  }

  lemma EscapeForgotten(q: char, line: nat, rest: string)
    requires LineEnd(rest)
    ensures Automaton(Escaped(q), "", line, rest) == Automaton(InString(q), "", line, rest)
  {
  }

  /** One ordinary character of a block comment. */
  lemma BlockChar(line: string, c: nat, rest: string, buf: string, n: nat)
    requires c < |line| && OneLine(line) && LineEnd(rest)
    requires !(c + 1 < |line| && line[c] == '*' && line[c + 1] == '/')
    ensures Automaton(Block, buf, n, line[c..] + rest) == Automaton(Block, buf + [line[c]], n, line[c + 1..] + rest)
  {
    var s := line[c..] + rest;
    assert s[0] == line[c] && s[1..] == line[c + 1..] + rest;
    if line[c] == '*' {
      StarForgotten(buf + [line[c]], n, s[1..]);
    }
  }

  /** Jumping to the closing mark reads the same comment. */
  lemma {:induction false} BlockJump(line: string, c: nat, rest: string, buf: string, n: nat)
    requires c <= |line| && OneLine(line) && LineEnd(rest) && IndexOfClose(line, c).Some?
    ensures var e := IndexOfClose(line, c).value;
            Automaton(Block, buf, n, line[c..] + rest)
            == [Comment(n, buf + line[c..e + 2])] + Automaton(Code, "", n, line[e + 2..] + rest)
    decreases |line| - c
  {
    if line[c] == '*' && line[c + 1] == '/' {
      var s := line[c..] + rest;
      assert s[0] == '*' && s[1..][0] == '/' && s[1..][1..] == line[c + 2..] + rest;
      assert buf + ['*'] + ['/'] == buf + line[c..c + 2];
    } else {
      var e := IndexOfClose(line, c).value;
      BlockChar(line, c, rest, buf, n);
      BlockJump(line, c + 1, rest, buf + [line[c]], n);
      assert buf + [line[c]] + line[c + 1..e + 2] == buf + line[c..e + 2];
    }
  }

  /** A block comment that is not closed on the line takes the rest of it. */
  lemma {:induction false} BlockRunsOn(line: string, c: nat, rest: string, buf: string, n: nat)
    requires c <= |line| && OneLine(line) && LineEnd(rest) && IndexOfClose(line, c).None?
    ensures Automaton(Block, buf, n, line[c..] + rest) == Automaton(Block, buf + line[c..], n, rest)
    decreases |line| - c
  {
    if c == |line| {
      assert line[c..] + rest == rest && buf + line[c..] == buf;
    } else {
      BlockChar(line, c, rest, buf, n);
      BlockRunsOn(line, c + 1, rest, buf + [line[c]], n);
      assert buf + [line[c]] + line[c + 1..] == buf + line[c..];
    }
  }

  lemma {:induction false} LineCommentRunsOn(line: string, c: nat, rest: string, buf: string, n: nat)
    requires c <= |line| && OneLine(line) && LineEnd(rest)
    ensures Automaton(LineComment, buf, n, line[c..] + rest) == Automaton(LineComment, buf + line[c..], n, rest)
    decreases |line| - c
  {
    if c == |line| {
      assert line[c..] + rest == rest && buf + line[c..] == buf;
    } else {
      var s := line[c..] + rest;
      assert s[0] == line[c] && s[1..] == line[c + 1..] + rest;
      LineCommentRunsOn(line, c + 1, rest, buf + [line[c]], n);
      assert buf + [line[c]] + line[c + 1..] == buf + line[c..];
    }
  }

  /** A line comment takes the rest of its line. */
  lemma OpenLineComment(line: string, c: nat, rest: string, n: nat)
    requires OneLine(line) && LineEnd(rest) && c + 1 < |line| && line[c] == '/' && line[c + 1] == '/'
    ensures Automaton(Code, "", n, line[c..] + rest) == [Comment(n, line[c..])] + Automaton(Code, "", n, rest)
  {
    TwoChars(line, c, rest, n);
    LineCommentRunsOn(line, c + 2, rest, "//", n);
    assert "//" + line[c + 2..] == line[c..];
    EndsWithPiece(LineComment, line[c..], n, rest);
  }

  /** A block comment that is not closed on its line takes the rest of it and stays open. */
  lemma OpenBlock(line: string, c: nat, rest: string, n: nat)
    requires OneLine(line) && LineEnd(rest) && c + 1 < |line| && line[c] == '/' && line[c + 1] == '*'
    requires IndexOfClose(line, c + 2).None?
    ensures Automaton(Code, "", n, line[c..] + rest) == [Comment(n, line[c..])] + Automaton(Block, "", n, rest)
  {
    TwoChars(line, c, rest, n);
    BlockRunsOn(line, c + 2, rest, "/*", n);
    assert "/*" + line[c + 2..] == line[c..];
    EndsWithPiece(Block, line[c..], n, rest);
  }

  lemma ClosedBlock(line: string, c: nat, rest: string, n: nat)
    requires OneLine(line) && LineEnd(rest) && c + 1 < |line| && line[c] == '/' && line[c + 1] == '*'
    requires IndexOfClose(line, c + 2).Some?
    ensures var e := IndexOfClose(line, c + 2).value;
            Automaton(Code, "", n, line[c..] + rest)
            == [Comment(n, line[c..e + 2])] + Automaton(Code, "", n, line[e + 2..] + rest)
  {
    var e := IndexOfClose(line, c + 2).value;
    TwoChars(line, c, rest, n);
    BlockJump(line, c + 2, rest, "/*", n);
    assert "/*" + line[c + 2..e + 2] == line[c..e + 2];
  }

  /** Reading the two characters that open a comment. */
  lemma TwoChars(line: string, c: nat, rest: string, n: nat)
    requires OneLine(line) && c + 1 < |line| && line[c] == '/' && (line[c + 1] == '/' || line[c + 1] == '*')
    ensures Automaton(Code, "", n, line[c..] + rest)
            == Automaton(if line[c + 1] == '/' then LineComment else Block, ['/', line[c + 1]], n, line[c + 2..] + rest)
  {
    var s := line[c..] + rest;
    var t := line[c + 1..] + rest;
    assert s[0] == '/' && s[1..] == t && t[0] == line[c + 1] && t[1..] == line[c + 2..] + rest;
    assert Automaton(Code, "", n, s) == Automaton(Slash, "", n, t);
  }

  /** An open block comment that the line does not close. */
  lemma StaysOpen(line: string, c: nat, rest: string, n: nat)
    requires OneLine(line) && LineEnd(rest) && c < |line| && IndexOfClose(line, c).None?
    ensures Automaton(Block, "", n, line[c..] + rest) == [Comment(n, line[c..])] + Automaton(Block, "", n, rest)
  {
    BlockRunsOn(line, c, rest, "", n);
    assert "" + line[c..] == line[c..];
    EndsWithPiece(Block, line[c..], n, rest);
  }

  lemma Closes(line: string, c: nat, rest: string, n: nat)
    requires OneLine(line) && LineEnd(rest) && c < |line| && IndexOfClose(line, c).Some?
    ensures var e := IndexOfClose(line, c).value;
            Automaton(Block, "", n, line[c..] + rest)
            == [Comment(n, line[c..e + 2])] + Automaton(Code, "", n, line[e + 2..] + rest)
  {
    BlockJump(line, c, rest, "", n);
    assert "" + line[c..IndexOfClose(line, c).value + 2] == line[c..IndexOfClose(line, c).value + 2];
  }

  /** A character of a string, with the one a backslash protects. */
  lemma StringChars(line: string, c: nat, rest: string, n: nat, q: char)
    requires OneLine(line) && LineEnd(rest) && c < |line|
    ensures line[c] != '\\' ==>
              Automaton(InString(q), "", n, line[c..] + rest)
              == Automaton(if line[c] == q then Code else InString(q), "", n, line[c + 1..] + rest)
    ensures line[c] == '\\' && c + 1 < |line| ==>
              Automaton(InString(q), "", n, line[c..] + rest) == Automaton(InString(q), "", n, line[c + 2..] + rest)
    ensures line[c] == '\\' && c + 1 == |line| ==>
              Automaton(InString(q), "", n, line[c..] + rest) == Automaton(InString(q), "", n, rest)
  {
    var s := line[c..] + rest;
    var t := line[c + 1..] + rest;
    assert s[0] == line[c] && s[1..] == t;
    if line[c] == '\\' {
      if c + 1 < |line| {
        assert t[0] == line[c + 1] && t[1..] == line[c + 2..] + rest;
      } else {
        assert t == rest;
        EscapeForgotten(q, n, rest);
      }
    }
  }

  /** A character of code that opens no comment. */
  lemma CodeChar(line: string, c: nat, rest: string, n: nat)
    requires OneLine(line) && LineEnd(rest) && c < |line|
    requires !(line[c] == '/' && c + 1 < |line| && (line[c + 1] == '/' || line[c + 1] == '*'))
    ensures Automaton(Code, "", n, line[c..] + rest)
            == Automaton(if Quote(line[c]) then InString(line[c]) else Code, "", n, line[c + 1..] + rest)
  {
    var s := line[c..] + rest;
    var t := line[c + 1..] + rest;
    assert s[0] == line[c] && s[1..] == t;
    if line[c] == '/' {
      assert t != "" ==> t[0] == (if c + 1 < |line| then line[c + 1] else rest[0]);
      SlashForgotten(n, t);
    }
  }

  /** What the scanner's two variables say about the reader. */
  function ModeOf(inBlock: bool, quote: Option<char>): Mode {
    if inBlock then Block else if quote.Some? then InString(quote.value) else Code
  }

  /** What a turn from one state and column to another must have reported. */
  ghost predicate Reports(line: string, n: nat, rest: string, column: nat, from: Mode, piece: seq<Comment>, next: nat,
                          to: Mode)
  {
    column < next <= |line|
    && Automaton(from, "", n, line[column..] + rest) == piece + Automaton(to, "", n, line[next..] + rest)
  }

  /** Inside a block comment: on to its closing mark, or to the end of the line. */
  method StepInBlock(line: string, n: nat, column: nat, ghost rest: string)
    returns (piece: seq<Comment>, next: nat, inBlock: bool)
    requires OneLine(line) && LineEnd(rest) && column < |line|
    ensures Reports(line, n, rest, column, Block, piece, next, ModeOf(inBlock, None))
  {
    assert line[|line|..] + rest == rest;
    var end := IndexOfClose(line, column);
    if end.None? {
      StaysOpen(line, column, rest, n);
      piece, next, inBlock := [Comment(n, line[column..])], |line|, true;
    } else {
      Closes(line, column, rest, n);
      piece, next, inBlock := [Comment(n, line[column..end.value + 2])], end.value + 2, false;
    }
  }

  /** Outside strings and comments: a comment, the start of one, or one character of code. */
  method StepInCode(line: string, n: nat, column: nat, ghost rest: string)
    returns (piece: seq<Comment>, next: nat, inBlock: bool, quote: Option<char>)
    requires OneLine(line) && LineEnd(rest) && column < |line|
    ensures inBlock ==> quote.None?
    ensures Reports(line, n, rest, column, Code, piece, next, ModeOf(inBlock, quote))
  {
    piece, inBlock, quote := [], false, None;
    assert line[|line|..] + rest == rest;
    if line[column] == '/' && column + 1 < |line| && line[column + 1] == '/' {
      OpenLineComment(line, column, rest, n);
      piece, next := [Comment(n, line[column..])], |line|;
    } else if line[column] == '/' && column + 1 < |line| && line[column + 1] == '*' {
      var end := IndexOfClose(line, column + 2);
      if end.None? {
        OpenBlock(line, column, rest, n);
        piece, next, inBlock := [Comment(n, line[column..])], |line|, true;
      } else {
        ClosedBlock(line, column, rest, n);
        piece, next := [Comment(n, line[column..end.value + 2])], end.value + 2;
      }
    } else {
      CodeChar(line, column, rest, n);
      next, quote := column + 1, if Quote(line[column]) then Some(line[column]) else None;
    }
  }

  /** One turn of the scanner's loop: the piece it reports, if any, and how far it jumps. */
  method ScanStep(line: string, n: nat, column: nat, wasInBlock: bool, wasQuote: Option<char>, ghost rest: string)
    returns (piece: seq<Comment>, next: nat, inBlock: bool, quote: Option<char>)
    requires OneLine(line) && LineEnd(rest) && column < |line| && (wasInBlock ==> wasQuote.None?)
    ensures inBlock ==> quote.None?
    ensures Reports(line, n, rest, column, ModeOf(wasInBlock, wasQuote), piece, next, ModeOf(inBlock, quote))
  {
    if wasInBlock {
      piece, next, inBlock := StepInBlock(line, n, column, rest);
      quote := None;
    } else if wasQuote.Some? {
      assert line[|line|..] + rest == rest;
      StringChars(line, column, rest, n, wasQuote.value);
      piece, inBlock, quote := [], false, wasQuote;
      if line[column] == '\\' {
        // the protected character may lie past the line end
        next := if column + 2 > |line| then |line| else column + 2;
      } else {
        next, quote := column + 1, if line[column] == wasQuote.value then None else wasQuote;
      }
    } else {
      piece, next, inBlock, quote := StepInCode(line, n, column, rest);
    }
  }

  /** One line of the file. */
  method ScanLine(line: string, n: nat, wasInBlock: bool, wasQuote: Option<char>, ghost rest: string)
    returns (found: seq<Comment>, inBlock: bool, quote: Option<char>)
    requires OneLine(line) && LineEnd(rest) && (wasInBlock ==> wasQuote.None?)
    ensures inBlock ==> quote.None?
    ensures Automaton(ModeOf(wasInBlock, wasQuote), "", n, line + rest)
            == found + Automaton(ModeOf(inBlock, quote), "", n, rest)
  {
    found, inBlock, quote := [], wasInBlock, wasQuote;
    ghost var whole := Automaton(ModeOf(wasInBlock, wasQuote), "", n, line + rest);
    var column := 0;
    assert line[0..] + rest == line + rest && [] + whole == whole;
    while column < |line|
      invariant 0 <= column <= |line| && (inBlock ==> quote.None?)
      invariant whole == found + Automaton(ModeOf(inBlock, quote), "", n, line[column..] + rest)
      decreases |line| - column
    {
      var piece;
      piece, column, inBlock, quote := ScanStep(line, n, column, inBlock, quote, rest);
      Regroup(found, piece, Automaton(ModeOf(inBlock, quote), "", n, line[column..] + rest));
      found := found + piece;
    }
    assert line[column..] + rest == rest;
  }

  /** `collectCommentLines`: the line-by-line scanner finds what the character automaton finds. */
  method CollectCommentLines(content: string) returns (comments: seq<Comment>)
    ensures comments == Automaton(Code, "", 1, content)
  {
    comments := [];
    var lines := Split(content);
    SplitJoins(content);
    var inBlock, quote := false, None;
    var i := 0;
    assert content == TextAt(lines, 0);
    while i < |lines|
      invariant 0 <= i <= |lines| && (inBlock ==> quote.None?)
      invariant i < |lines| ==>
                  Automaton(Code, "", 1, content)
                  == comments + Automaton(ModeOf(inBlock, quote), "", i + 1, TextAt(lines, i))
      invariant i == |lines| ==> comments == Automaton(Code, "", 1, content)
    {
      ghost var rest := TextFrom(lines, i + 1);
      ghost var before := comments;
      var found;
      found, inBlock, quote := ScanLine(lines[i], i + 1, inBlock, quote, rest);
      comments := comments + found;
      Regroup(before, found, Automaton(ModeOf(inBlock, quote), "", i + 1, rest));
      if i + 1 < |lines| {
        assert rest[1..] == TextAt(lines, i + 1);
        NextLine(inBlock, quote, i + 1, rest);
      } else {
        assert comments + [] == comments;
      }
      i := i + 1;
    }
  }

  /** The text from the start of the k-th line. */
  function TextAt(lines: seq<string>, k: nat): string
    requires k < |lines|
  {
    lines[k] + TextFrom(lines, k + 1)
  }

  lemma NextLine(inBlock: bool, quote: Option<char>, n: nat, rest: string)
    requires rest != "" && rest[0] == '\n'
    ensures Automaton(ModeOf(inBlock, quote), "", n, rest) == Automaton(ModeOf(inBlock, quote), "", n + 1, rest[1..])
  {
    assert [] + Automaton(ModeOf(inBlock, quote), "", n + 1, rest[1..])
           == Automaton(ModeOf(inBlock, quote), "", n + 1, rest[1..]);
  }

  /** At the line end a pending piece is reported and the mode carries over as the scanner's variables say. */
  lemma EndsWithPiece(m: Mode, piece: string, n: nat, rest: string)
    requires (m.Block? || m.LineComment?) && piece != "" && LineEnd(rest)
    ensures Automaton(m, piece, n, rest)
            == [Comment(n, piece)] + Automaton(if m.Block? then Block else Code, "", n, rest)
  {
  }
}
