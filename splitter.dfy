/** The punctuation splitter of main.go: the regular expression
    `([，。？：！；、……——])` replaced everywhere by "$1\n". The pattern is a
    character class, so it matches one code point at a time: every
    occurrence of one of its nine characters, including each character of
    a run such as "……" or "——", gets a line break of its own right after
    it. */
module Splitter {
  import opened Strings

  /** The characters of the class: fullwidth comma, ideographic full stop,
      fullwidth question mark, colon, exclamation mark and semicolon,
      ideographic comma, horizontal ellipsis (U+2026) and em dash
      (U+2014). */
  const Punctuation: set<char> := {'，', '。', '？', '：', '！', '；', '、', '…', '—'}

  predicate IsPunct(c: char)
  {
    c in Punctuation
  }

  /** How many characters of `s` the class matches. */
  function PunctCount(s: string): nat
  {
    if s == [] then 0 else (if IsPunct(s[0]) then 1 else 0) + PunctCount(s[1..])
  }

  /** What the replacement makes of one character. */
  function Piece(c: char): string
  {
    if IsPunct(c) then [c, '\n'] else [c]
  }

  /** ReplaceAllString(text, "$1\n"): the text with a '\n' inserted after
      every matched character. It grows by exactly one character per
      match. */
  function Split(s: string): (r: string)
    ensures |r| == |s| + PunctCount(s)
  {
    if s == [] then [] else Piece(s[0]) + Split(s[1..])
  }

  /** Every matched character of `t` is directly followed by a '\n'. */
  predicate BreaksAfterPunct(t: string)
  {
    forall i :: 0 <= i < |t| && IsPunct(t[i]) ==> i + 1 < |t| && t[i + 1] == '\n'
  }

  /** The inverse of the splitter: drop each '\n' that comes directly after
      a character of the class. */
  function Unsplit(r: string): string
    decreases |r|
  {
    if r == [] then []
    else if |r| >= 2 && IsPunct(r[0]) && r[1] == '\n' then [r[0]] + Unsplit(r[2..])
    else [r[0]] + Unsplit(r[1..])
  }

  /** The splitter only inserts: taking the inserted line breaks out again
      gives back the original text. */
  lemma {:induction false} UnsplitSplit(s: string)
    ensures Unsplit(Split(s)) == s
  {
    if s != [] {
      var r, rest := Split(s), Split(s[1..]);
      UnsplitSplit(s[1..]);
      if IsPunct(s[0]) {
        assert r == [s[0], '\n'] + rest;
        assert r[2..] == rest;
      } else {
        assert r == [s[0]] + rest;
        assert r[1..] == rest;
      }
      assert s == [s[0]] + s[1..];
    }
  }

  /** The replacement works character by character: splitting a
      concatenation splits each part. */
  lemma {:induction false} SplitAppend(a: string, b: string)
    ensures Split(a + b) == Split(a) + Split(b)
  {
    if a == [] {
      assert a + b == b;
    } else {
      assert (a + b)[0] == a[0];
      assert (a + b)[1..] == a[1..] + b;
      SplitAppend(a[1..], b);
    }
  }

  /** A text none of whose characters is in the class is left unchanged. */
  lemma {:induction false} SplitWithoutPunct(s: string)
    requires forall i :: 0 <= i < |s| ==> !IsPunct(s[i])
    ensures Split(s) == s
  {
    if s != [] {
      SplitWithoutPunct(s[1..]);
      assert s == [s[0]] + s[1..];
    }
  }

  /** Each matched character, however many follow each other, is followed
      by a line break in the output. */
  lemma {:induction false} SplitBreaksAfterPunct(s: string)
    ensures BreaksAfterPunct(Split(s))
  {
    if s != [] {
      var p, rest := Piece(s[0]), Split(s[1..]);
      var r := p + rest;
      SplitBreaksAfterPunct(s[1..]);
      forall i | 0 <= i < |r| && IsPunct(r[i]) ensures i + 1 < |r| && r[i + 1] == '\n' {
        if i >= |p| {
          assert r[i] == rest[i - |p|];
          assert r[i + 1] == rest[i - |p| + 1];
        }
      }
    }
  }

  /** None of the matched characters is white space. */
  lemma PunctIsNotSpace(c: char)
    requires IsPunct(c)
    ensures !IsSpace(c)
  {
  }

  /** The piece of a character has that character as its only non-space
      content (and none when the character is itself white space). */
  lemma NonSpacePiece(c: char)
    ensures NonSpace(Piece(c)) == NonSpace([c])
  {
    if IsPunct(c) {
      assert Piece(c) == [c] + "\n";
      NonSpaceAppend([c], "\n");
      assert NonSpace("\n") == [];
    }
  }

  /** The splitter adds only white space: the non-space content is that of
      the input. */
  lemma {:induction false} SplitKeepsText(s: string)
    ensures NonSpace(Split(s)) == NonSpace(s)
  {
    if s != [] {
      SplitKeepsText(s[1..]);
      NonSpaceAppend(Piece(s[0]), Split(s[1..]));
      NonSpacePiece(s[0]);
      NonSpaceAppend([s[0]], s[1..]);
      assert s == [s[0]] + s[1..];
    }
  }
}
