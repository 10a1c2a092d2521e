/** main.go as a whole, without the file dialog and the file I/O: the
    chosen path gives the output path, and the file's text goes through
    the splitter and then the cleaner. */
module Sentencer {
  import opened Strings
  import opened Lines
  import opened Splitter
  import opened Cleaner
  import opened Paths

  /** The text main.go writes for a file's content. */
  function Rewrite(content: string): string
  {
    Cleaned(Split(content))
  }

  /** A matched punctuation character can only be the last character of
      the line. */
  predicate PunctOnlyAtEnd(l: string)
  {
    forall j :: 0 <= j < |l| - 1 ==> !IsPunct(l[j])
  }

  /** Every matched punctuation character is followed by a line break or
      is the last character of the text. */
  predicate PunctEndsLine(r: string)
  {
    forall i :: 0 <= i < |r| && IsPunct(r[i]) ==> i == |r| - 1 || r[i + 1] == '\n'
  }

  /** Steps 2, 4, 5 and 6 of main.go on a chosen path and the content read
      from it: the path to write and the text to write there. */
  method ProcessFile(inputPath: string, content: string) returns (outputPath: string, output: string)
    ensures outputPath == OutputPath(inputPath)
    ensures Dir(outputPath) == Dir(inputPath)
    ensures Base(outputPath) == Stem(inputPath) + "_sc" + Ext(inputPath)
    ensures output == Rewrite(content)
    ensures NonSpace(output) == NonSpace(content)
    ensures PunctEndsLine(output)
  {
    outputPath := OutputPath(inputPath);
    OutputPathPlace(inputPath);
    var processed := Split(content);
    output := RemoveEmptyLines(processed);
    RewriteKeepsText(content);
    RewriteBreaksAfterPunct(content);
  }

  /** Rewriting only adds line breaks and removes white space: the
      sequence of non-space characters is unchanged. */
  lemma RewriteKeepsText(content: string)
    ensures NonSpace(Rewrite(content)) == NonSpace(content)
  {
    SplitKeepsText(content);
    CleanedKeepsText(Split(content));
  }

  /** The output is empty exactly when the file is empty or blank. */
  lemma RewriteEmpty(content: string)
    ensures Rewrite(content) == [] <==> AllSpace(content)
  {
    var split := Split(content);
    CleanedEmpty(split);
    SplitKeepsText(content);
    NonSpaceEmpty(split);
    NonSpaceEmpty(content);
  }

  /** Every line of the split text has its punctuation, if any, at its
      end. */
  lemma {:induction false} ScanLinesPunctAtEnd(t: string)
    requires BreaksAfterPunct(t)
    ensures forall k :: 0 <= k < |ScanLines(t)| ==> PunctOnlyAtEnd(ScanLines(t)[k])
    decreases |t|
  {
    if t != [] {
      var i := FirstLine(t);
      IndexOfNewlineFirst(t);
      FirstLinePunctAtEnd(t, i);
      if i < |t| {
        var rest := t[i + 1..];
        BreaksAfterPunctSuffix(t, i + 1);
        ScanLinesPunctAtEnd(rest);
        var lines := ScanLines(t);
        forall k | 0 < k < |lines| ensures PunctOnlyAtEnd(lines[k]) {
          assert lines[k] == ScanLines(rest)[k - 1];
        }
      } else {
        assert t[..i] == t;
      }
    }
  }

  /** In a split text, a line that ends at a '\n' (or at the end of the
      text) has its punctuation at its end. */
  lemma FirstLinePunctAtEnd(t: string, i: nat)
    requires BreaksAfterPunct(t) && i <= |t|
    requires forall j :: 0 <= j < i ==> t[j] != '\n'
    ensures PunctOnlyAtEnd(DropCR(t[..i]))
  {
    var first := t[..i];
    var d := DropCR(first);
    forall j | 0 <= j < |d| - 1 ensures !IsPunct(d[j]) {
      assert d[j] == t[j] && d[j + 1] == t[j + 1];
    }
  }

  /** Every suffix of a split text is split text too. */
  lemma BreaksAfterPunctSuffix(t: string, m: nat)
    requires BreaksAfterPunct(t) && m <= |t|
    ensures BreaksAfterPunct(t[m..])
  {
    var rest := t[m..];
    forall j | 0 <= j < |rest| && IsPunct(rest[j]) ensures j + 1 < |rest| && rest[j + 1] == '\n' {
      assert rest[j] == t[m + j];
    }
  }

  /** Trimming and dropping blank lines keeps punctuation at line ends. */
  lemma {:induction false} KeepNonBlankPunctAtEnd(lines: seq<string>)
    requires forall k :: 0 <= k < |lines| ==> PunctOnlyAtEnd(lines[k])
    ensures forall k :: 0 <= k < |KeepNonBlank(lines)| ==> PunctOnlyAtEnd(KeepNonBlank(lines)[k])
  {
    if lines != [] {
      var l, rest := lines[0], lines[1..];
      var t := TrimSpace(l);
      var k := TrimSpaceSlice(l);
      assert PunctOnlyAtEnd(t) by {
        forall j | 0 <= j < |t| - 1 ensures !IsPunct(t[j]) { assert t[j] == l[k + j]; }
      }
      KeepNonBlankPunctAtEnd(rest);
      assert lines == [l] + rest;
      KeepNonBlankCons(l, rest);
    }
  }

  /** In the join of lines without '\n' whose punctuation is at their
      ends, every punctuation character is followed by '\n' or ends the
      text. */
  lemma {:induction false} JoinPunctAtEnd(lines: seq<string>)
    requires forall k :: 0 <= k < |lines| ==> PunctOnlyAtEnd(lines[k]) && '\n' !in lines[k]
    ensures PunctEndsLine(JoinLines(lines))
  {
    if |lines| > 1 {
      var l := lines[0];
      var rest := JoinLines(lines[1..]);
      var r := l + "\n" + rest;
      JoinPunctAtEnd(lines[1..]);
      assert r == JoinLines(lines);
      forall i | 0 <= i < |r| ensures IsPunct(r[i]) ==> i == |r| - 1 || r[i + 1] == '\n' {
        if i < |l| - 1 {
          assert r[i] == l[i];
        } else if i == |l| - 1 {
          assert r[i + 1] == '\n';
        } else if i == |l| {
          assert r[i] == '\n';
        } else {
          var j := i - |l| - 1;
          assert r[i] == rest[j];
          if i < |r| - 1 { assert r[i + 1] == rest[j + 1]; }
        }
      }
    }
  }

  /** The purpose of the tool: in the output every sentence-ending
      punctuation character ends a line. */
  lemma RewriteBreaksAfterPunct(content: string)
    ensures PunctEndsLine(Rewrite(content))
  {
    var split := Split(content);
    SplitBreaksAfterPunct(content);
    ScanLinesPunctAtEnd(split);
    ScanLinesHaveNoNewline(split);
    var kept := KeepNonBlank(ScanLines(split));
    KeepNonBlankPunctAtEnd(ScanLines(split));
    KeepNonBlankHasNoNewline(ScanLines(split));
    JoinPunctAtEnd(kept);
    assert Rewrite(content) == JoinLines(kept);
  }

  /** Splitting adds one '\n' per matched character. */
  lemma {:induction false} SplitNewlines(s: string)
    ensures NewlineCount(Split(s)) == NewlineCount(s) + PunctCount(s)
  {
    if s != [] {
      SplitNewlines(s[1..]);
      NewlineCountAppend(Piece(s[0]), Split(s[1..]));
      assert NewlineCount(Piece(s[0])) == (if IsPunct(s[0]) then 1 else 0) + (if s[0] == '\n' then 1 else 0);
    }
  }

  /** The split text has an unterminated last line exactly when the
      original has one that does not end with a matched character. */
  lemma {:induction false} SplitLast(s: string)
    ensures Unterminated(Split(s)) <==> Unterminated(s) && !IsPunct(s[|s| - 1])
    ensures s != [] && IsPunct(s[|s| - 1]) ==> Unterminated(s) && PunctCount(s) >= 1
  {
    if s != [] {
      var r, h, t := Split(s), Piece(s[0]), Split(s[1..]);
      assert r == h + t;
      if |s| == 1 {
        assert r == h;
      } else {
        var rest := s[1..];
        SplitLast(rest);
        assert rest[|rest| - 1] == s[|s| - 1];
        assert r[|r| - 1] == t[|t| - 1];
      }
    }
  }

  /** The splitter never lowers the number of lines the scanner sees:
      every matched character that does not end the text starts a new
      line. */
  lemma SplitLineCount(s: string)
    ensures |ScanLines(Split(s))| ==
      |ScanLines(s)| + PunctCount(s) - (if s != [] && IsPunct(s[|s| - 1]) then 1 else 0)
    ensures |ScanLines(Split(s))| >= |ScanLines(s)|
  {
    var r := Split(s);
    var e := s != [] && IsPunct(s[|s| - 1]);
    ScanLinesCount(s);
    ScanLinesCount(r);
    SplitNewlines(s);
    SplitLast(s);
    assert Unterminated(r) == (Unterminated(s) && !e);
  }

  /** A sentence: starts with a non-space character, contains no line
      break, and ends with its only matched punctuation character. */
  predicate IsSentence(s: string)
  {
    s != [] && !IsSpace(s[0]) && IsPunct(s[|s| - 1]) && PunctOnlyAtEnd(s) && '\n' !in s
  }

  /** The sentences written one after another. */
  function Concat(ss: seq<string>): string
  {
    if ss == [] then [] else ss[0] + Concat(ss[1..])
  }

  /** The sentences each followed by a line break. */
  function Terminated(ss: seq<string>): string
  {
    if ss == [] then [] else ss[0] + "\n" + Terminated(ss[1..])
  }

  /** Splitting a sentence adds one line break, after its end. */
  lemma SplitSentence(s: string)
    requires IsSentence(s)
    ensures Split(s) == s + "\n"
  {
    var n := |s| - 1;
    var body := s[..n];
    assert s == body + [s[n]];
    SplitAppend(body, [s[n]]);
    assert Split(body) == body by {
      forall i | 0 <= i < |body| ensures !IsPunct(body[i]) {
        assert body[i] == s[i];
      }
      SplitWithoutPunct(body);
    }
    assert Split([s[n]]) == [s[n], '\n'];
  }

  lemma {:induction false} SplitSentences(ss: seq<string>)
    requires forall k :: 0 <= k < |ss| ==> IsSentence(ss[k])
    ensures Split(Concat(ss)) == Terminated(ss)
  {
    if ss != [] {
      var rest := Concat(ss[1..]);
      assert Concat(ss) == ss[0] + rest;
      SplitAppend(ss[0], rest);
      SplitSentence(ss[0]);
      SplitSentences(ss[1..]);
      assert Terminated(ss) == ss[0] + "\n" + Terminated(ss[1..]);
    }
  }

  lemma {:induction false} ScanTerminated(ss: seq<string>)
    requires forall k :: 0 <= k < |ss| ==> IsSentence(ss[k])
    ensures ScanLines(Terminated(ss)) == ss
  {
    if ss != [] {
      var s, rest := ss[0], Terminated(ss[1..]);
      var t := s + "\n" + rest;
      assert t == Terminated(ss);
      assert t[..|s|] == s && t[|s| + 1..] == rest;
      assert DropCR(s) == s by {
        assert s[|s| - 1] != '\r';
      }
      ScanLinesAt(t, |s|);
      ScanTerminated(ss[1..]);
    }
  }

  /** A text made of sentences comes out with one sentence per line. */
  lemma RewriteSentences(ss: seq<string>)
    requires forall k :: 0 <= k < |ss| ==> IsSentence(ss[k])
    ensures Rewrite(Concat(ss)) == JoinLines(ss)
  {
    SplitSentences(ss);
    ScanTerminated(ss);
    forall k | 0 <= k < |ss| ensures IsTrimmed(ss[k]) {
      PunctIsNotSpace(ss[k][|ss[k]| - 1]);
    }
    KeepNonBlankOfTrimmed(ss);
    assert Rewrite(Concat(ss)) == JoinLines(KeepNonBlank(ScanLines(Terminated(ss))));
  }

  /** A two-sentence file comes out with one sentence per line. */
  lemma RewriteExample()
    ensures Rewrite("第一句。第二句！") == "第一句。\n第二句！"
  {
    assert IsSentence("第一句。") && IsSentence("第二句！");
    assert Concat(["第一句。", "第二句！"]) == "第一句。第二句！";
    assert JoinLines(["第一句。", "第二句！"]) == "第一句。\n第二句！";
    RewriteSentences(["第一句。", "第二句！"]);
  }
}
