/** The blank-line cleaner of main.go: the split text is read line by line
    with a bufio.Scanner, each line is trimmed with strings.TrimSpace, the
    lines left empty are dropped, and the others are joined with "\n". */
module Cleaner {
  import opened Strings
  import opened Lines

  /** The lines the cleaning loop keeps: every line trimmed, the empty ones
      dropped, the others in their original order. */
  function KeepNonBlank(lines: seq<string>): (kept: seq<string>)
    ensures |kept| <= |lines|
  {
    if lines == [] then []
    else
      var t := TrimSpace(lines[0]);
      (if t == [] then [] else [t]) + KeepNonBlank(lines[1..])
  }

  /** Every kept line is trimmed and not empty. */
  lemma {:induction false} KeepNonBlankTrimmed(lines: seq<string>)
    ensures forall k :: 0 <= k < |KeepNonBlank(lines)| ==> IsTrimmed(KeepNonBlank(lines)[k])
  {
    if lines != [] {
      var t, rest := TrimSpace(lines[0]), KeepNonBlank(lines[1..]);
      KeepNonBlankTrimmed(lines[1..]);
      var kept := KeepNonBlank(lines);
      forall k | 0 <= k < |kept| ensures IsTrimmed(kept[k]) {
        if t != [] && k > 0 {
          assert kept[k] == rest[k - 1];
        } else if t == [] {
          assert kept[k] == rest[k];
        }
      }
    }
  }

  /** The text main.go writes out for an already split text. */
  function Cleaned(text: string): string
  {
    JoinLines(KeepNonBlank(ScanLines(text)))
  }

  /** The loop of main.go: scan the lines, append each non-blank trimmed
      line to `cleanedLines`, then join them with "\n". */
  method RemoveEmptyLines(processed: string) returns (cleaned: string)
    ensures cleaned == Cleaned(processed)
  {
    var cleanedLines: seq<string> := [];
    var scanner := new LineScanner(processed);
    while true
      invariant scanner.Valid() && scanner.input == processed
      invariant cleanedLines + KeepNonBlank(scanner.Remaining()) == KeepNonBlank(ScanLines(processed))
      decreases |processed| - scanner.pos
    {
      ghost var remaining := scanner.Remaining();
      var more := scanner.Scan();
      if !more {
        assert cleanedLines + [] == cleanedLines;
        break;
      }
      var token := scanner.Text();
      var line := TrimSpace(token);
      KeepNonBlankStep(cleanedLines, token, scanner.Remaining(), remaining);
      if line != [] {
        cleanedLines := cleanedLines + [line];
      }
    }
    cleaned := JoinLines(cleanedLines);
  }

  /** The loop invariant across one iteration: appending the current line,
      trimmed, when it is not blank, leaves the lines still to be kept. */
  lemma KeepNonBlankStep(before: seq<string>, token: string, rest: seq<string>, remaining: seq<string>)
    requires remaining != [] && token == remaining[0] && rest == remaining[1..]
    ensures TrimSpace(token) == [] ==> before + KeepNonBlank(rest) == before + KeepNonBlank(remaining)
    ensures TrimSpace(token) != [] ==>
      before + [TrimSpace(token)] + KeepNonBlank(rest) == before + KeepNonBlank(remaining)
  {
    assert remaining == [token] + rest;
    KeepNonBlankCons(token, rest);
    var K := KeepNonBlank(rest);
    var t := TrimSpace(token);
    if t == [] {
      assert KeepNonBlank(remaining) == K;
    } else {
      assert KeepNonBlank(remaining) == [t] + K;
      assert before + [t] + K == before + ([t] + K);
    }
  }

  /** One step of the filter: the first line, trimmed, is kept when it is
      not empty, before the kept lines of the rest. */
  lemma KeepNonBlankCons(l: string, lines: seq<string>)
    ensures KeepNonBlank([l] + lines)
         == (if TrimSpace(l) == [] then [] else [TrimSpace(l)]) + KeepNonBlank(lines)
  {
    assert ([l] + lines)[0] == l;
    assert ([l] + lines)[1..] == lines;
  }

  /** Keeping the non-blank lines of two runs of lines, one after the
      other, keeps those of the first run before those of the second. */
  lemma {:induction false} KeepNonBlankAppend(a: seq<string>, b: seq<string>)
    ensures KeepNonBlank(a + b) == KeepNonBlank(a) + KeepNonBlank(b)
  {
    if a == [] {
      assert a + b == b;
    } else {
      var t, x, y := TrimSpace(a[0]), KeepNonBlank(a[1..]), KeepNonBlank(b);
      HeadTail(a);
      ConcatAssoc([a[0]], a[1..], b);
      KeepNonBlankCons(a[0], a[1..] + b);
      KeepNonBlankCons(a[0], a[1..]);
      KeepNonBlankAppend(a[1..], b);
      ConcatAssoc(if t == [] then [] else [t], x, y);
    }
  }

  /** Lines that are already trimmed and non-empty are all kept, unchanged. */
  lemma {:induction false} KeepNonBlankOfTrimmed(lines: seq<string>)
    requires forall k :: 0 <= k < |lines| ==> IsTrimmed(lines[k])
    ensures KeepNonBlank(lines) == lines
  {
    if lines != [] {
      TrimSpaceTrimmed(lines[0]);
      KeepNonBlankOfTrimmed(lines[1..]);
    }
  }

  /** Trimming cannot bring in a line break. */
  lemma {:induction false} KeepNonBlankHasNoNewline(lines: seq<string>)
    requires forall k :: 0 <= k < |lines| ==> '\n' !in lines[k]
    ensures forall k :: 0 <= k < |KeepNonBlank(lines)| ==> '\n' !in KeepNonBlank(lines)[k]
  {
    if lines != [] {
      var l := lines[0];
      var t := TrimSpace(l);
      var j := TrimSpaceSlice(l);
      assert '\n' !in t by {
        forall i | 0 <= i < |t| ensures t[i] != '\n' { assert t[i] == l[j + i]; }
      }
      KeepNonBlankHasNoNewline(lines[1..]);
      var rest := KeepNonBlank(lines[1..]);
      assert KeepNonBlank(lines) == (if t == [] then [] else [t]) + rest;
    }
  }

  /** Dropping blank lines and trimming loses no non-space character. */
  lemma {:induction false} KeepNonBlankKeepsText(lines: seq<string>)
    ensures NonSpaceOfLines(KeepNonBlank(lines)) == NonSpaceOfLines(lines)
  {
    if lines != [] {
      var l, rest := lines[0], lines[1..];
      var t := TrimSpace(l);
      assert lines == [l] + rest;
      KeepNonBlankCons(l, rest);
      KeepNonBlankKeepsText(rest);
      NonSpaceOfLinesCons(l, rest);
      TrimSpaceContent(l);
      if t == [] {
        NonSpaceEmpty(l);
        assert KeepNonBlank(lines) == KeepNonBlank(rest);
      } else {
        NonSpaceOfLinesCons(t, KeepNonBlank(rest));
      }
    }
  }

  /** The positions of the non-blank lines, in increasing order. */
  function NonBlankPositions(lines: seq<string>): (pos: seq<nat>)
    ensures forall k :: 0 <= k < |pos| ==> pos[k] < |lines|
  {
    if lines == [] then []
    else
      var init := NonBlankPositions(lines[..|lines| - 1]);
      if TrimSpace(lines[|lines| - 1]) == [] then init else init + [|lines| - 1]
  }

  /** The positions are in strictly increasing order. */
  predicate Increasing(pos: seq<nat>)
  {
    forall k, m :: 0 <= k < m < |pos| ==> pos[k] < pos[m]
  }

  /** The k-th of `kept` is the trimmed line at the k-th of `pos`. */
  predicate SelectedAt(lines: seq<string>, pos: seq<nat>, kept: seq<string>)
  {
    |pos| == |kept| && forall k :: 0 <= k < |pos| ==> pos[k] < |lines| && kept[k] == TrimSpace(lines[pos[k]])
  }

  /** `pos` holds the position of every non-blank line and of no blank
      one. */
  predicate ExactlyNonBlank(lines: seq<string>, pos: seq<nat>)
  {
    forall i :: 0 <= i < |lines| ==> (i in pos <==> TrimSpace(lines[i]) != [])
  }

  /** The non-blank positions increase. */
  lemma {:induction false} NonBlankPositionsIncrease(lines: seq<string>)
    ensures Increasing(NonBlankPositions(lines))
  {
    if lines != [] {
      var n := |lines|;
      var p0, pos := NonBlankPositions(lines[..n - 1]), NonBlankPositions(lines);
      NonBlankPositionsIncrease(lines[..n - 1]);
      if TrimSpace(lines[n - 1]) == [] {
        assert pos == p0;
      } else {
        assert pos == p0 + [n - 1];
        forall k, m | 0 <= k < m < |pos| ensures pos[k] < pos[m] {
          assert pos[k] == p0[k] && p0[k] < n - 1;
          if m < |p0| {
            assert pos[m] == p0[m];
          }
        }
      }
    }
  }

  /** The k-th kept line is the trimmed line at the k-th non-blank
      position. */
  lemma {:induction false} KeptAtPositions(lines: seq<string>)
    ensures SelectedAt(lines, NonBlankPositions(lines), KeepNonBlank(lines))
  {
    if lines != [] {
      var n := |lines|;
      var init, last := lines[..n - 1], lines[n - 1];
      var p0, k0 := NonBlankPositions(init), KeepNonBlank(init);
      var pos, kept := NonBlankPositions(lines), KeepNonBlank(lines);
      KeptAtPositions(init);
      InitLast(lines);
      SelectedAtWiden(init, last, p0, k0);
      KeepNonBlankAppend(init, [last]);
      KeepNonBlankCons(last, []);
      if TrimSpace(last) == [] {
        assert pos == p0 && kept == k0;
      } else {
        assert pos == p0 + [n - 1] && kept == k0 + [TrimSpace(last)];
        SelectedAtSnoc(lines, p0, k0);
      }
    }
  }

  /** A selection from some lines is still one when a line is added. */
  lemma SelectedAtWiden(init: seq<string>, last: string, pos: seq<nat>, kept: seq<string>)
    requires SelectedAt(init, pos, kept)
    ensures SelectedAt(init + [last], pos, kept)
  {
    var lines := init + [last];
    forall k | 0 <= k < |pos| ensures lines[pos[k]] == init[pos[k]] {
    }
  }

  /** Selecting the last line as well extends a selection by its trimmed
      form. */
  lemma SelectedAtSnoc(lines: seq<string>, pos: seq<nat>, kept: seq<string>)
    requires lines != [] && SelectedAt(lines, pos, kept)
    ensures SelectedAt(lines, pos + [|lines| - 1], kept + [TrimSpace(lines[|lines| - 1])])
  {
  }

  /** A line's position is among the non-blank positions exactly when the
      line is not blank. */
  lemma {:induction false} NonBlankPositionsExact(lines: seq<string>)
    ensures ExactlyNonBlank(lines, NonBlankPositions(lines))
  {
    if lines != [] {
      var n := |lines|;
      var init := lines[..n - 1];
      var p0, pos := NonBlankPositions(init), NonBlankPositions(lines);
      NonBlankPositionsExact(init);
      forall i | 0 <= i < n ensures i in pos <==> TrimSpace(lines[i]) != [] {
        if i < n - 1 {
          assert lines[i] == init[i];
          assert i in pos <==> i in p0;
        } else {
          assert n - 1 !in p0;
        }
      }
    }
  }

  /** The kept lines are exactly the trimmed non-blank lines, in their
      original order: the k-th kept line is the trimmed line at the k-th
      non-blank position, the positions increase, and a line is dropped
      exactly when it is blank. */
  lemma KeepNonBlankSelects(lines: seq<string>)
    ensures SelectedAt(lines, NonBlankPositions(lines), KeepNonBlank(lines))
    ensures Increasing(NonBlankPositions(lines))
    ensures ExactlyNonBlank(lines, NonBlankPositions(lines))
  {
    KeptAtPositions(lines);
    NonBlankPositionsIncrease(lines);
    NonBlankPositionsExact(lines);
  }

  /** The lines of the cleaned text are exactly the kept lines. */
  lemma CleanedLines(text: string)
    ensures ScanLines(Cleaned(text)) == KeepNonBlank(ScanLines(text))
  {
    var kept := KeepNonBlank(ScanLines(text));
    KeepNonBlankTrimmed(ScanLines(text));
    ScanLinesHaveNoNewline(text);
    KeepNonBlankHasNoNewline(ScanLines(text));
    forall l | l in kept ensures l != [] && '\n' !in l && l[|l| - 1] != '\r' {
      var k :| 0 <= k < |kept| && kept[k] == l;
    }
    ScanJoinLines(kept);
  }

  /** The shape of the cleaned text: empty, or starting and ending with a
      non-space character, and with non-space characters on both sides of
      every line break. So it never ends with "\n", never contains "\n\n",
      and none of its lines is empty or has white space at either end. */
  lemma CleanedShape(text: string)
    ensures var c := Cleaned(text);
      && (c == [] || IsTrimmed(c))
      && (forall i :: 0 <= i < |c| && c[i] == '\n' ==>
            0 < i < |c| - 1 && !IsSpace(c[i - 1]) && !IsSpace(c[i + 1]))
      && (c == [] || c[|c| - 1] != '\n')
      && (forall i :: 0 <= i < |c| - 1 ==> !(c[i] == '\n' && c[i + 1] == '\n'))
  {
    var kept := KeepNonBlank(ScanLines(text));
    KeepNonBlankTrimmed(ScanLines(text));
    ScanLinesHaveNoNewline(text);
    KeepNonBlankHasNoNewline(ScanLines(text));
    forall l | l in kept ensures IsTrimmed(l) && '\n' !in l {
      var k :| 0 <= k < |kept| && kept[k] == l;
    }
    JoinTrimmedLines(kept);
  }

  /** Cleaning loses no non-space character: it removes only white space. */
  lemma CleanedKeepsText(text: string)
    ensures NonSpace(Cleaned(text)) == NonSpace(text)
  {
    var lines := ScanLines(text);
    JoinLinesKeepText(KeepNonBlank(lines));
    KeepNonBlankKeepsText(lines);
    ScanLinesKeepText(text);
  }

  /** The cleaned text is empty exactly when the input is empty or blank. */
  lemma CleanedEmpty(text: string)
    ensures Cleaned(text) == [] <==> AllSpace(text)
  {
    var c := Cleaned(text);
    CleanedKeepsText(text);
    CleanedShape(text);
    NonSpaceEmpty(text);
    NonSpaceEmpty(c);
  }

  /** Cleaning a cleaned text changes nothing. */
  lemma CleanedIdempotent(text: string)
    ensures Cleaned(Cleaned(text)) == Cleaned(text)
  {
    var kept := KeepNonBlank(ScanLines(text));
    CleanedLines(text);
    KeepNonBlankTrimmed(ScanLines(text));
    KeepNonBlankOfTrimmed(kept);
  }
}
