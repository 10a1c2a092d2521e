/** Line handling as the rewriting tool does it: `bufio.Scanner` with the
    default `bufio.ScanLines` split function reading from a string, and
    `strings.Join(lines, "\n")`. Both '\n' and '\r' are ASCII, so cutting
    the text at code points gives the same lines as cutting its UTF-8
    bytes. */
module Lines {
  import opened Strings

  /** The position of the first '\n' in `s`, or |s| when there is none. */
  function IndexOfNewline(s: string): (i: nat)
    ensures i <= |s|
  {
    if s == [] || s[0] == '\n' then 0 else 1 + IndexOfNewline(s[1..])
  }

  /** IndexOfNewline finds the first '\n'. */
  lemma {:induction false} IndexOfNewlineFirst(s: string)
    ensures var i := IndexOfNewline(s);
      (i < |s| ==> s[i] == '\n') && forall j :: 0 <= j < i ==> s[j] != '\n'
  {
    if s != [] && s[0] != '\n' {
      IndexOfNewlineFirst(s[1..]);
      var i := IndexOfNewline(s);
      forall j | 0 < j < i ensures s[j] != '\n' {
        assert s[j] == s[1..][j - 1];
      }
    }
  }

  /** A position with a '\n' and none before it, or |s| when there is
      none, is the one IndexOfNewline finds. */
  lemma {:induction false} IndexOfNewlineIs(s: string, i: nat)
    requires i <= |s|
    requires i < |s| ==> s[i] == '\n'
    requires forall j :: 0 <= j < i ==> s[j] != '\n'
    ensures IndexOfNewline(s) == i
  {
    if s != [] && s[0] != '\n' {
      assert i > 0;
      forall j | 0 <= j < i - 1 ensures s[1..][j] != '\n' {
        assert s[1..][j] == s[j + 1];
      }
      IndexOfNewlineIs(s[1..], i - 1);
    }
  }

  /** bufio's dropCR: one '\r' at the very end of a line is removed, and
      nothing else is (DropCRExact says when). */
  function DropCR(s: string): (r: string)
    ensures r == s || (s == r + ['\r'])
  {
    if |s| > 0 && s[|s| - 1] == '\r' then s[..|s| - 1] else s
  }

  /** DropCR removes the final '\r' exactly when there is one. */
  lemma DropCRExact(s: string)
    ensures s != [] && s[|s| - 1] == '\r' ==> s == DropCR(s) + ['\r']
    ensures s == [] || s[|s| - 1] != '\r' ==> DropCR(s) == s
  {
    if s != [] && s[|s| - 1] == '\r' {
      assert s == s[..|s| - 1] + ['\r'];
    }
  }

  lemma DropCRKeepsText(s: string)
    ensures NonSpace(DropCR(s)) == NonSpace(s)
  {
    if DropCR(s) != s {
      NonSpaceAppend(DropCR(s), ['\r']);
    }
  }

  /** The tokens a Scanner with bufio.ScanLines yields for `s`: `s` is cut
      at every '\n', each piece loses one trailing '\r', and no token is
      produced for the empty rest after a final '\n' (so an empty text has
      no lines at all). */
  function ScanLines(s: string): (lines: seq<string>)
    decreases |s|
  {
    if s == [] then []
    else
      var i := IndexOfNewline(s);
      if i < |s| then [DropCR(s[..i])] + ScanLines(s[i + 1..]) else [DropCR(s)]
  }

  /** One step of the scanner: the first line of a non-empty text ends
      at its first '\n', or at its end when it has none. */
  lemma ScanLinesAt(s: string, i: nat)
    requires s != [] && i <= |s|
    requires i < |s| ==> s[i] == '\n'
    requires forall j :: 0 <= j < i ==> s[j] != '\n'
    ensures i < |s| ==> ScanLines(s) == [DropCR(s[..i])] + ScanLines(s[i + 1..])
    ensures i == |s| ==> ScanLines(s) == [DropCR(s)]
  {
    IndexOfNewlineIs(s, i);
    ScanLinesUnfold(s);
  }

  /** ScanLines of a non-empty text, one step unfolded. */
  lemma ScanLinesUnfold(s: string)
    requires s != []
    ensures IndexOfNewline(s) < |s| ==>
      ScanLines(s) == [DropCR(s[..IndexOfNewline(s)])] + ScanLines(s[IndexOfNewline(s) + 1..])
    ensures IndexOfNewline(s) == |s| ==> ScanLines(s) == [DropCR(s)]
  {
  }

  /** ScanLinesAt at the first '\n' of a non-empty text, which it returns
      (IndexOfNewlineFirst adds that no '\n' comes before it). */
  lemma FirstLine(s: string) returns (i: nat)
    requires s != []
    ensures i == IndexOfNewline(s)
    ensures i <= |s| && (i < |s| ==> s[i] == '\n')
    ensures i < |s| ==> ScanLines(s) == [DropCR(s[..i])] + ScanLines(s[i + 1..])
    ensures i == |s| ==> ScanLines(s) == [DropCR(s)]
  {
    i := IndexOfNewline(s);
    IndexOfNewlineFirst(s);
    ScanLinesAt(s, i);
  }

  /** The step of ScanLinesAt for the text from position `pos` on, with
      `i` the position of the next '\n' (or the end of the text). */
  lemma ScanLinesFrom(s: string, pos: nat, i: nat)
    requires pos < |s| && pos <= i <= |s|
    requires i < |s| ==> s[i] == '\n'
    requires forall j :: pos <= j < i ==> s[j] != '\n'
    ensures i < |s| ==> ScanLines(s[pos..]) == [DropCR(s[pos..i])] + ScanLines(s[i + 1..])
    ensures i == |s| ==> ScanLines(s[pos..]) == [DropCR(s[pos..])]
  {
    var rest := s[pos..];
    assert forall j :: 0 <= j < i - pos ==> rest[j] != '\n' by {
      forall j | 0 <= j < i - pos ensures rest[j] != '\n' {
        assert rest[j] == s[pos + j];
      }
    }
    if i < |s| {
      assert rest[i - pos] == s[i];
      assert rest[..i - pos] == s[pos..i];
      assert rest[i - pos + 1..] == s[i + 1..];
      ScanLinesAt(rest, i - pos);
      assert ScanLines(rest) == [DropCR(rest[..i - pos])] + ScanLines(rest[i - pos + 1..]);
    } else {
      ScanLinesAt(rest, |rest|);
    }
  }

  /** strings.Join(lines, "\n"). */
  function JoinLines(lines: seq<string>): string
  {
    if lines == [] then []
    else if |lines| == 1 then lines[0]
    else lines[0] + "\n" + JoinLines(lines[1..])
  }

  /** The number of '\n' characters in `s`. */
  function NewlineCount(s: string): nat
  {
    if s == [] then 0 else (if s[0] == '\n' then 1 else 0) + NewlineCount(s[1..])
  }

  lemma {:induction false} NewlineCountAppend(a: string, b: string)
    ensures NewlineCount(a + b) == NewlineCount(a) + NewlineCount(b)
  {
    if a != [] {
      assert (a + b)[1..] == a[1..] + b;
      NewlineCountAppend(a[1..], b);
    } else {
      assert a + b == b;
    }
  }

  /** A text without '\n' has none to count. */
  lemma {:induction false} NewlineCountNone(s: string)
    requires forall j :: 0 <= j < |s| ==> s[j] != '\n'
    ensures NewlineCount(s) == 0
  {
    if s != [] {
      NewlineCountNone(s[1..]);
    }
  }

  /** Counting from the first '\n' on. */
  lemma {:induction false} NewlineCountAt(s: string, i: nat)
    requires i < |s| && s[i] == '\n'
    requires forall j :: 0 <= j < i ==> s[j] != '\n'
    ensures NewlineCount(s) == 1 + NewlineCount(s[i + 1..])
  {
    if i > 0 {
      NewlineCountAt(s[1..], i - 1);
      assert s[1..][i..] == s[i + 1..];
    }
  }

  /** The text has a last line that no '\n' ends. */
  predicate Unterminated(s: string)
  {
    s != [] && s[|s| - 1] != '\n'
  }

  /** The scanner yields one line per '\n', plus one for a last line that
      is not ended by '\n'. */
  lemma {:induction false} ScanLinesCount(s: string)
    ensures |ScanLines(s)| == NewlineCount(s) + (if Unterminated(s) then 1 else 0)
    decreases |s|
  {
    if s != [] {
      var i := FirstLine(s);
      IndexOfNewlineFirst(s);
      if i < |s| {
        var rest := s[i + 1..];
        assert |ScanLines(s)| == 1 + |ScanLines(rest)|;
        NewlineCountAt(s, i);
        ScanLinesCount(rest);
        assert rest != [] ==> rest[|rest| - 1] == s[|s| - 1];
      } else {
        NewlineCountNone(s);
      }
    }
  }

  /** No token the scanner yields contains a line break. */
  lemma {:induction false} ScanLinesHaveNoNewline(s: string)
    ensures forall k :: 0 <= k < |ScanLines(s)| ==> '\n' !in ScanLines(s)[k]
    decreases |s|
  {
    if s != [] {
      var i := FirstLine(s);
      IndexOfNewlineFirst(s);
      FirstLineHasNoNewline(s, i);
      if i < |s| {
        var first, rest := DropCR(s[..i]), ScanLines(s[i + 1..]);
        ScanLinesHaveNoNewline(s[i + 1..]);
        assert ScanLines(s) == [first] + rest;
        forall k | 0 < k < |ScanLines(s)| ensures '\n' !in ScanLines(s)[k] {
          assert ScanLines(s)[k] == rest[k - 1];
        }
      } else {
        assert s[..i] == s;
      }
    }
  }

  /** The line before the first '\n' holds no '\n', with or without its
      final '\r'. */
  lemma FirstLineHasNoNewline(s: string, i: nat)
    requires i <= |s|
    requires forall j :: 0 <= j < i ==> s[j] != '\n'
    ensures '\n' !in DropCR(s[..i])
  {
    var first := s[..i];
    assert '\n' !in first by {
      forall j | 0 <= j < |first| ensures first[j] != '\n' { assert first[j] == s[j]; }
    }
    if DropCR(first) != first {
      assert first == DropCR(first) + ['\r'];
    }
  }

  /** Scanning loses only line breaks and '\r' characters: the non-space
      content of the lines is that of the text. */
  lemma {:induction false} ScanLinesKeepText(s: string)
    ensures NonSpaceOfLines(ScanLines(s)) == NonSpace(s)
    decreases |s|
  {
    if s != [] {
      var i := FirstLine(s);
      if i < |s| {
        ScanLinesKeepText(s[i + 1..]);
        DropCRKeepsText(s[..i]);
        NonSpaceAtNewline(s, i);
        NonSpaceOfLinesCons(DropCR(s[..i]), ScanLines(s[i + 1..]));
      } else {
        DropCRKeepsText(s);
        NonSpaceOfLinesCons(DropCR(s), []);
        assert [DropCR(s)] + [] == [DropCR(s)];
      }
    }
  }

  lemma NonSpaceAtNewline(s: string, i: nat)
    requires i < |s| && s[i] == '\n'
    ensures NonSpace(s) == NonSpace(s[..i]) + NonSpace(s[i + 1..])
  {
    assert s == s[..i] + "\n" + s[i + 1..];
    NonSpaceAroundNewline(s[..i], s[i + 1..]);
  }

  lemma NonSpaceAroundNewline(a: string, b: string)
    ensures NonSpace(a + "\n" + b) == NonSpace(a) + NonSpace(b)
  {
    NonSpaceAppend(a, "\n" + b);
    NonSpaceAppend("\n", b);
    ConcatAssoc(a, "\n", b);
    assert NonSpace("\n") == [];
  }

  lemma NonSpaceOfLinesCons(l: string, lines: seq<string>)
    ensures NonSpaceOfLines([l] + lines) == NonSpace(l) + NonSpaceOfLines(lines)
  {
    assert ([l] + lines)[1..] == lines;
  }

  /** Joining keeps the non-space content of the lines, in order. */
  lemma {:induction false} JoinLinesKeepText(lines: seq<string>)
    ensures NonSpace(JoinLines(lines)) == NonSpaceOfLines(lines)
  {
    if |lines| == 1 {
      assert lines[1..] == [];
    } else if |lines| > 1 {
      JoinLinesKeepText(lines[1..]);
      NonSpaceAroundNewline(lines[0], JoinLines(lines[1..]));
    }
  }

  /** Lines that are non-empty, hold no '\n' and do not end in '\r' come
      back unchanged when their join is scanned again. */
  lemma {:induction false} ScanJoinLines(lines: seq<string>)
    requires forall l :: l in lines ==> l != [] && '\n' !in l && l[|l| - 1] != '\r'
    ensures ScanLines(JoinLines(lines)) == lines
  {
    if lines != [] {
      var l := lines[0];
      assert l in lines;
      assert DropCR(l) == l;
      if |lines| == 1 {
        assert JoinLines(lines) == l;
        ScanLinesAt(l, |l|);
      } else {
        var rest := JoinLines(lines[1..]);
        var s := l + "\n" + rest;
        assert s == JoinLines(lines);
        assert s[..|l|] == l;
        forall j | 0 <= j < |l| ensures s[j] != '\n' { assert s[j] == l[j]; }
        assert s[|l| + 1..] == rest;
        ScanLinesAt(s, |l|);
        ScanJoinLines(lines[1..]);
      }
    }
  }

  /** The line break a text ends with, if any: the one the scanner
      swallows without producing an empty last line. */
  function FinalBreak(s: string): (b: string)
    ensures |b| <= 1 && (b == [] || (s != [] && s[|s| - 1] == '\n'))
  {
    if s != [] && s[|s| - 1] == '\n' then "\n" else ""
  }

  /** Joining a line to a non-empty run of lines puts "\n" between them. */
  lemma JoinLinesCons(l: string, lines: seq<string>)
    requires lines != []
    ensures JoinLines([l] + lines) == l + "\n" + JoinLines(lines)
  {
    assert ([l] + lines)[0] == l;
    assert ([l] + lines)[1..] == lines;
  }

  /** The join step of JoinScanLines: a first line, a '\n' and a rest
      whose lines join back to it. */
  lemma JoinLinesAfterBreak(first: string, rest: string, lines: seq<string>)
    requires rest == [] ==> lines == []
    requires rest != [] ==> lines != [] && JoinLines(lines) + FinalBreak(rest) == rest
    ensures JoinLines([first] + lines) + FinalBreak(first + "\n" + rest) == first + "\n" + rest
  {
    var s := first + "\n" + rest;
    if rest == [] {
      assert [first] + lines == [first];
      assert s[|s| - 1] == '\n';
    } else {
      assert s[|s| - 1] == rest[|rest| - 1];
      assert FinalBreak(s) == FinalBreak(rest);
      JoinLinesCons(first, lines);
    }
  }

  /** Without '\r', scanning loses nothing but line breaks: joining the
      lines with "\n" and putting back a final line break gives the text
      again. */
  lemma {:induction false} JoinScanLines(s: string)
    requires '\r' !in s
    ensures JoinLines(ScanLines(s)) + FinalBreak(s) == s
    decreases |s|
  {
    if s != [] {
      var i := FirstLine(s);
      IndexOfNewlineFirst(s);
      if i < |s| {
        var first, rest := s[..i], s[i + 1..];
        NoCRAround(s, i);
        assert s == first + "\n" + rest;
        if rest != [] {
          JoinScanLines(rest);
        }
        JoinLinesAfterBreak(first, rest, ScanLines(rest));
      } else {
        assert s[|s| - 1] in s;
        assert JoinLines([s]) == s;
      }
    }
  }

  /** Around a position of a text without '\r', neither side has one. */
  lemma NoCRAround(s: string, i: nat)
    requires '\r' !in s && i < |s|
    ensures '\r' !in s[i + 1..] && DropCR(s[..i]) == s[..i]
  {
    if i > 0 {
      assert s[..i][i - 1] in s;
    }
  }

  /** The join of trimmed lines without line breaks is empty exactly when
      there are no lines, starts and ends with a non-space character, and
      has a non-space character on both sides of every '\n': no empty
      line, no blank line, no leading or trailing line break. */
  lemma {:induction false} JoinTrimmedLines(lines: seq<string>)
    requires forall l :: l in lines ==> IsTrimmed(l) && '\n' !in l
    ensures var r := JoinLines(lines);
      && (r == [] <==> lines == [])
      && (r != [] ==> IsTrimmed(r))
      && forall i :: 0 <= i < |r| && r[i] == '\n' ==>
           0 < i < |r| - 1 && !IsSpace(r[i - 1]) && !IsSpace(r[i + 1])
  {
    if |lines| == 1 {
      var l := lines[0];
      assert l in lines;
      assert JoinLines(lines) == l;
      forall i | 0 <= i < |l| ensures l[i] != '\n' {
        assert l[i] in l;
      }
    } else if |lines| > 1 {
      var l := lines[0];
      var rest := JoinLines(lines[1..]);
      var r := l + "\n" + rest;
      assert lines[0] in lines;
      assert lines[1] in lines[1..];
      JoinTrimmedLines(lines[1..]);
      assert r == JoinLines(lines);
      assert r[0] == l[0] && r[|r| - 1] == rest[|rest| - 1];
      forall i | 0 <= i < |r| && r[i] == '\n'
        ensures 0 < i < |r| - 1 && !IsSpace(r[i - 1]) && !IsSpace(r[i + 1])
      {
        if i == |l| {
          assert r[i - 1] == l[|l| - 1];
          assert r[i + 1] == rest[0];
        } else {
          assert r[i] == rest[i - |l| - 1];
          if i - |l| - 1 > 0 {
            assert r[i - 1] == rest[i - |l| - 2];
          }
        }
      }
    }
  }

  /** The search bufio.ScanLines makes for the end of the next line: the
      position of the first '\n' at or after `from`, or |s| if none. */
  method FindNewline(s: string, from: nat) returns (i: nat)
    requires from <= |s|
    ensures from <= i <= |s|
    ensures i < |s| ==> s[i] == '\n'
    ensures forall j :: from <= j < i ==> s[j] != '\n'
  {
    i := from;
    while i < |s| && s[i] != '\n'
      invariant from <= i <= |s|
      invariant forall j :: from <= j < i ==> s[j] != '\n'
    {
      i := i + 1;
    }
  }

  /** A `bufio.Scanner` reading a string with `bufio.ScanLines`: `pos`
      is the position of the first code point not yet consumed and
      `token` the line the last successful Scan produced. */
  class LineScanner {
    const input: string
    var pos: nat
    var token: string

    ghost predicate Valid()
      reads this
    {
      pos <= |input|
    }

    /** The lines the scanner has still to yield. */
    ghost function Remaining(): seq<string>
      reads this
      requires Valid()
    {
      ScanLines(input[pos..])
    }

    /** bufio.NewScanner(strings.NewReader(s)). */
    constructor (s: string)
      ensures Valid() && input == s && pos == 0 && token == []
      ensures Remaining() == ScanLines(s)
    {
      input := s;
      pos := 0;
      token := [];
      new;
      assert input[0..] == input;
    }

    /** Scanner.Scan: advances to the next line and reports whether there
        was one; at the end of the input the token becomes empty. */
    method Scan() returns (more: bool)
      requires Valid()
      modifies this
      ensures Valid()
      ensures more <==> old(Remaining()) != []
      ensures more ==> pos > old(pos) && token == old(Remaining())[0]
      ensures more ==> Remaining() == old(Remaining())[1..]
      ensures !more ==> pos == old(pos) && token == []
    {
      ghost var before := Remaining();
      if pos == |input| {
        assert input[pos..] == [];
        token := [];
        return false;
      }
      var i := FindNewline(input, pos);
      ScanLinesFrom(input, pos, i);
      if i < |input| {
        token := DropCR(input[pos..i]);
        pos := i + 1;
      } else {
        token := DropCR(input[pos..]);
        pos := |input|;
        assert input[pos..] == [];
      }
      assert before == [token] + Remaining();
      more := true;
    }

    /** Scanner.Text: the line produced by the last Scan. */
    function Text(): string
      reads this
    {
      token
    }
  }
}
