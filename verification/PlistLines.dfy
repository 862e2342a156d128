/** Which lines the plist edits take out and put in, told from the text of the array. */
module PlistLines {
  import opened Options
  import opened Lines
  import opened PlistEdit

  predicate AllSpace(s: string) {
    forall i | 0 <= i < |s| :: Space(s[i])
  }

  /** White space, then this text. */
  ghost predicate StartsWith(line: string, text: string, indent: string) {
    AllSpace(indent) && indent + text <= line
  }

  /** This text with nothing but white space around it. */
  ghost predicate Padded(line: string, text: string) {
    exists indent: string, rest: string :: AllSpace(indent) && AllSpace(rest) && line == indent + text + rest
  }

  ghost predicate HoldsFlag(line: string) {
    Padded(line, FLAG)
  }

  ghost predicate HoldsString(line: string) {
    exists indent: string :: StartsWith(line, STRING, indent)
  }

  lemma {:induction false} TrimStartParts(s: string)
    ensures TrimStart(s) == s[|s| - |TrimStart(s)|..] && AllSpace(s[..|s| - |TrimStart(s)|])
    decreases |s|
  {
    if s != "" && Space(s[0]) {
      TrimStartParts(s[1..]);
      OneOff(s, |s| - |TrimStart(s)|);
    }
  }

  lemma OneOff(s: string, n: nat)
    requires 0 < n <= |s|
    ensures s[n..] == s[1..][n - 1..] && s[..n] == [s[0]] + s[1..][..n - 1]
  {
  }

  lemma {:induction false} TrimEndParts(s: string)
    ensures TrimEnd(s) <= s && AllSpace(s[|TrimEnd(s)|..])
    ensures TrimEnd(s) != "" ==> !Space(TrimEnd(s)[|TrimEnd(s)| - 1])
    decreases |s|
  {
    if s != "" && Space(s[|s| - 1]) {
      TrimEndParts(s[..|s| - 1]);
      LastOff(s, TrimEnd(s));
    }
  }

  lemma LastOff(s: string, start: string)
    requires s != "" && start <= s[..|s| - 1]
    ensures start <= s && s[|start|..] == s[..|s| - 1][|start|..] + [s[|s| - 1]]
  {
  }

  lemma {:induction false} TrimEndPast(s: string, rest: string)
    requires AllSpace(rest) && (s == "" || !Space(s[|s| - 1]))
    ensures TrimEnd(s + rest) == s
    decreases |rest|
  {
    if rest == "" {
      assert s + rest == s;
    } else {
      var front := rest[..|rest| - 1];
      assert (s + rest)[..|s + rest| - 1] == s + front;
      TrimEndPast(s, front);
    }
  }

  /** What `trim` leaves of a line is the text, when the text has no white space at its ends. */
  lemma TrimmedExactly(line: string, text: string)
    requires text != "" && !Space(text[0]) && !Space(text[|text| - 1])
    ensures Trim(line) == text <==> Padded(line, text)
  {
    if Trim(line) == text {
      TrimmedIsPadded(line, text);
    }
    if indent, rest: string :| AllSpace(indent) && AllSpace(rest) && line == indent + text + rest {
      assert line == indent + (text + rest) && (text + rest)[0] == text[0];
      TrimStartPast(indent, text + rest);
      TrimEndPast(text, rest);
    }
  }

  lemma TrimmedIsPadded(line: string, text: string)
    requires Trim(line) == text
    ensures Padded(line, text)
  {
    var s := TrimStart(line);
    TrimStartParts(line);
    TrimEndParts(s);
    ThreeParts(line, |line| - |s|, text, s);
  }

  lemma ThreeParts(line: string, n: nat, text: string, s: string)
    requires n <= |line| && s == line[n..] && text <= s && AllSpace(line[..n]) && AllSpace(s[|text|..])
    ensures Padded(line, text)
  {
    assert line == line[..n] + text + s[|text|..];
  }

  lemma StartExactly(line: string, text: string)
    requires text != "" && !Space(text[0])
    ensures text <= TrimStart(line) <==> exists indent: string :: StartsWith(line, text, indent)
    ensures text <= TrimStart(line) ==> StartsWith(line, text, Indent(line))
  {
    if text <= TrimStart(line) { StartsAtIndent(line, text); }
    if indent: string :| StartsWith(line, text, indent) {
      var rest := line[|indent|..];
      assert line == indent + rest && text <= rest && rest[0] == text[0];
      TrimStartPast(indent, rest);
    }
  }

  lemma StartsAtIndent(line: string, text: string)
    requires text <= TrimStart(line)
    ensures StartsWith(line, text, Indent(line))
  {
    var s := TrimStart(line);
    TrimStartParts(line);
    assert s == text + s[|text|..] && line == Indent(line) + s;
    assert line == Indent(line) + text + s[|text|..];
  }

  lemma FlagMeans(line: string)
    ensures IsFlag(line) <==> HoldsFlag(line)
  {
    assert FLAG[0] == '<' && FLAG[|FLAG| - 1] == '>';
    TrimmedExactly(line, FLAG);
  }

  lemma StringMeans(line: string)
    ensures IsString(line) <==> HoldsString(line)
    ensures IsString(line) ==> StartsWith(line, STRING, Indent(line))
  {
    assert STRING[0] == '<';
    StartExactly(line, STRING);
  }

  lemma {:induction false} FlagLineIsFirst(lines: seq<string>)
    ensures forall j | 0 <= j < FlagLine(lines) :: !HoldsFlag(lines[j])
    ensures FlagLine(lines) < |lines| ==> HoldsFlag(lines[FlagLine(lines)])
  {
    if lines != [] {
      FlagMeans(lines[0]);
      if !IsFlag(lines[0]) { FlagLineIsFirst(lines[1..]); }
    }
  }

  lemma {:induction false} LastStringIsLast(lines: seq<string>) returns (k: nat)
    ensures LastString(lines).None? ==> forall j | 0 <= j < |lines| :: !HoldsString(lines[j])
    ensures LastString(lines).Some? ==>
              k < |lines| && LastString(lines).value == lines[k] && HoldsString(lines[k])
              && forall j | k < j < |lines| :: !HoldsString(lines[j])
  {
    k := 0;
    if lines != [] {
      var n := |lines| - 1;
      StringMeans(lines[n]);
      if IsString(lines[n]) {
        k := n;
      } else {
        k := LastStringIsLast(lines[..n]);
      }
    }
  }

  /** The line at i and the one after it are gone, if there is one after it. */
  ghost predicate IsCut(lines: seq<string>, kept: seq<string>, i: nat) {
    && |kept| == |lines| - (if i + 1 < |lines| then 2 else 1)
    && forall k | 0 <= k < |kept| :: kept[k] == lines[if k < i then k else k + 2]
  }

  /** The pair of this array is out of the text, and nothing else. */
  ghost predicate PairIsOut(t: string, a: Span, u: string, b: Span, i: nat)
    requires InText(t, a)
  {
    var lines := ArrayLines(t, a);
    if forall j | 0 <= j < |lines| :: !HoldsFlag(lines[j]) then u == t
    else
      && i < |lines| && HoldsFlag(lines[i]) && (forall j | 0 <= j < i :: !HoldsFlag(lines[j]))
      && ProgramArguments(u) == Some(b) && IsCut(lines, ArrayLines(u, b), i)
      && b.start == a.start && u[..b.start] == t[..a.start] && u[b.end..] == t[a.end..]
  }

  lemma DropIsCut(lines: seq<string>, i: nat)
    requires i < |lines|
    ensures IsCut(lines, DropTwo(lines, i), i)
  {
  }

  /**
   * Removing takes out the first line that holds the flag and the line after it and touches nothing else; without
   * such a line the text stays as it is, and without an array there is nothing to edit.
   */
  lemma RemovedExactly(t: string) returns (i: nat, b: Span)
    ensures WithoutListenArgs(t).None? <==> ProgramArguments(t).None?
    ensures ProgramArguments(t).Some? ==>
              PairIsOut(t, ProgramArguments(t).value, WithoutListenArgs(t).value, b, i)
  {
    i, b := 0, Span(0, 0);
    if ProgramArguments(t).Some? {
      var a := ProgramArguments(t).value;
      i := FlagLine(ArrayLines(t, a));
      FlagLineIsFirst(ArrayLines(t, a));
      b := RemovedLines(t, WithoutListenArgs(t).value, a);
      if i < |ArrayLines(t, a)| { DropIsCut(ArrayLines(t, a), i); }
    }
  }

  /**
   * The pair needs a line that holds a string: it goes before the closing line, with the indent of the last such
   * line, and nothing else changes.
   */
  ghost predicate PairIsIn(u: string, a: Span, socket: string, r: Option<string>, k: nat, indent: string, b: Span)
    requires InText(u, a)
  {
    var lines := ArrayLines(u, a);
    if forall j | 0 <= j < |lines| :: !HoldsString(lines[j]) then r.None?
    else
      && k < |lines| && StartsWith(lines[k], STRING, indent) && (forall j | k < j < |lines| :: !HoldsString(lines[j]))
      && r.Some? && InsertedInto(u, a, socket, r.value, b, indent)
  }

  lemma InsertedPair(u: string, a: Span, socket: string) returns (k: nat, indent: string, b: Span)
    requires ProgramArguments(u) == Some(a)
    ensures PairIsIn(u, a, socket, InsertPair(u, socket), k, indent, b)
  {
    var lines := ArrayLines(u, a);
    k := LastStringIsLast(lines);
    indent, b := "", a;
    if LastString(lines).Some? {
      StringMeans(lines[k]);
      indent := Indent(lines[k]);
      b := InsertedWith(u, a, socket);
    }
  }

  /** Adding takes the pair out of the text and then puts the new one in. */
  lemma InsertedExactly(t: string, socket: string) returns (k: nat, indent: string, b: Span)
    requires ProgramArguments(t).Some?
    ensures var u := WithoutListenArgs(t).value;
            ProgramArguments(u).Some?
            && PairIsIn(u, ProgramArguments(u).value, socket, WithListenArgs(t, socket), k, indent, b)
  {
    var u := WithoutListenArgs(t).value;
    var a := RemovedLines(t, u, ProgramArguments(t).value);
    k, indent, b := InsertedPair(u, a, socket);
  }

  lemma InsertedWith(u: string, a: Span, socket: string) returns (b: Span)
    requires ProgramArguments(u) == Some(a) && LastString(ArrayLines(u, a)).Some?
    ensures InsertPair(u, socket).Some?
    ensures InsertedInto(u, a, socket, InsertPair(u, socket).value, b, Indent(LastString(ArrayLines(u, a)).value))
  {
    var lines := ArrayLines(u, a);
    var indent := Indent(LastString(lines).value);
    LinesOf(u, a);
    IndentFacts(LastString(lines).value);
    InsertAtEnd(u, a, indent, socket);
    InsertedIsReadable(lines, indent, socket);
    b := PutLines(u, a, InsertedLines(lines, indent, socket));
  }
}
