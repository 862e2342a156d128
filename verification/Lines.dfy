/** Texts as lines: splitting at line ends and joining again. */
module Lines {
  function Split(s: string): (lines: seq<string>)
    ensures lines != []
    decreases |s|
  {
    if s == "" then [""]
    else
      var rest := Split(s[1..]);
      if s[0] == '\n' then [""] + rest else [[s[0]] + rest[0]] + rest[1..]
  }

  /** The text of the lines from the k-th on, each after its line end. */
  function TextFrom(lines: seq<string>, k: nat): string
    requires k <= |lines|
    decreases |lines| - k
  {
    if k == |lines| then "" else ['\n'] + lines[k] + TextFrom(lines, k + 1)
  }

  predicate OneLine(s: string) {
    forall i | 0 <= i < |s| :: s[i] != '\n'
  }

  lemma {:induction false} TextFromTail(lines: seq<string>, more: seq<string>, k: nat)
    requires k <= |lines| && more != [] && lines == more[1..]
    ensures TextFrom(more, k + 1) == TextFrom(lines, k)
    decreases |lines| - k
  {
    if k < |lines| {
      TextFromTail(lines, more, k + 1);
    }
  }

  lemma {:induction false} SplitJoins(s: string)
    ensures s == Split(s)[0] + TextFrom(Split(s), 1)
    ensures forall i | 0 <= i < |Split(s)| :: OneLine(Split(s)[i])
    decreases |s|
  {
    if s != "" {
      var rest, all := Split(s[1..]), Split(s);
      SplitJoins(s[1..]);
      assert s == [s[0]] + s[1..];
      if s[0] == '\n' {
        assert all[1..] == rest;
        TextFromTail(rest, all, 0);
        assert TextFrom(rest, 0) == ['\n'] + rest[0] + TextFrom(rest, 1);
      } else {
        SameTail(rest, all, 1);
      }
    }
  }

  lemma {:induction false} SameTail(a: seq<string>, b: seq<string>, k: nat)
    requires |a| == |b| && 1 <= k <= |a| && a[1..] == b[1..]
    ensures TextFrom(a, k) == TextFrom(b, k)
    decreases |a| - k
  {
    if k < |a| {
      assert a[k] == a[1..][k - 1] && b[k] == b[1..][k - 1];
      SameTail(a, b, k + 1);
    }
  }

  /** The lines with a line end between each two. */
  function Join(lines: seq<string>): string
    requires lines != []
  {
    lines[0] + TextFrom(lines, 1)
  }

  predicate AllOneLine(lines: seq<string>) {
    forall i | 0 <= i < |lines| :: OneLine(lines[i])
  }

  lemma JoinFirst(lines: seq<string>)
    requires |lines| > 1
    ensures Join(lines) == lines[0] + (['\n'] + Join(lines[1..]))
  {
    TextFromTail(lines[1..], lines, 1);
  }

  lemma {:induction false} JoinAppend(a: seq<string>, b: seq<string>)
    requires a != [] && b != []
    ensures Join(a + b) == Join(a) + ['\n'] + Join(b)
    decreases |a|
  {
    JoinFirst(a + b);
    if |a| == 1 {
      assert (a + b)[1..] == b;
    } else {
      assert (a + b)[1..] == a[1..] + b;
      JoinAppend(a[1..], b);
      JoinFirst(a);
    }
  }

  lemma {:induction false} SplitLine(line: string, rest: string)
    requires OneLine(line)
    ensures Split(line) == [line]
    ensures Split(line + ['\n'] + rest) == [line] + Split(rest)
  {
    var s := line + ['\n'] + rest;
    if line == "" {
      assert s[1..] == rest;
    } else {
      SplitLine(line[1..], rest);
      assert s[1..] == line[1..] + ['\n'] + rest;
      assert [line[0]] + line[1..] == line;
    }
  }

  /** Splitting undoes joining. */
  lemma {:induction false} SplitJoin(lines: seq<string>)
    requires lines != [] && AllOneLine(lines)
    ensures Split(Join(lines)) == lines
    decreases |lines|
  {
    if |lines| == 1 {
      assert Join(lines) == lines[0];
      SplitLine(lines[0], "");
    } else {
      JoinFirst(lines);
      SplitJoin(lines[1..]);
      SplitLine(lines[0], Join(lines[1..]));
      assert lines[0] + (['\n'] + Join(lines[1..])) == lines[0] + ['\n'] + Join(lines[1..]);
    }
  }
}
