/** The parts of Go's `unicode` and `strings` packages that the rewriting
    tool relies on: white space, trimming, and the non-space content of a
    text. Text is a sequence of Unicode code points. */
module Strings {

  /** unicode.IsSpace: the Latin-1 space characters ('\t', '\n', '\v',
      '\f', '\r', ' ', U+0085, U+00A0) and, above Latin-1, the characters
      with the Unicode White_Space property. */
  predicate IsSpace(c: char)
  {
    c in SpaceChars || '\U{2000}' <= c <= '\U{200A}'
  }

  /** The white-space characters outside the range U+2000..U+200A. */
  const SpaceChars: set<char> :=
    {'\t', '\n', '\U{000B}', '\U{000C}', '\r', ' ', '\U{0085}', '\U{00A0}',
     '\U{1680}', '\U{2028}', '\U{2029}', '\U{202F}', '\U{205F}', '\U{3000}'}

  /** Every character of `s` is white space (true of the empty text). */
  predicate AllSpace(s: string)
  {
    forall i :: 0 <= i < |s| ==> IsSpace(s[i])
  }

  /** A line as the cleaner emits it: not empty, and neither starting nor
      ending with white space. */
  predicate IsTrimmed(s: string)
  {
    s != [] && !IsSpace(s[0]) && !IsSpace(s[|s| - 1])
  }

  /** The non-space characters of `s`, in their original order. */
  function NonSpace(s: string): (r: string)
    ensures |r| <= |s|
  {
    if s == [] then [] else (if IsSpace(s[0]) then [] else [s[0]]) + NonSpace(s[1..])
  }

  /** The non-space characters of a list of lines, line after line. */
  function NonSpaceOfLines(lines: seq<string>): string
  {
    if lines == [] then [] else NonSpace(lines[0]) + NonSpaceOfLines(lines[1..])
  }

  lemma {:induction false} NonSpaceAppend(a: string, b: string)
    ensures NonSpace(a + b) == NonSpace(a) + NonSpace(b)
  {
    if a != [] {
      var head := if IsSpace(a[0]) then [] else [a[0]];
      HeadTail(a);
      ConcatAssoc([a[0]], a[1..], b);
      ConsParts(a[0], a[1..] + b);
      assert NonSpace(a + b) == head + NonSpace(a[1..] + b);
      NonSpaceAppend(a[1..], b);
      ConcatAssoc(head, NonSpace(a[1..]), NonSpace(b));
    } else {
      assert a + b == b;
    }
  }

  /** A text has no non-space content exactly when it is all white space. */
  lemma {:induction false} NonSpaceEmpty(s: string)
    ensures NonSpace(s) == [] <==> AllSpace(s)
  {
    if s != [] {
      NonSpaceEmpty(s[1..]);
      assert AllSpace(s) <==> IsSpace(s[0]) && AllSpace(s[1..]) by {
        if AllSpace(s[1..]) && IsSpace(s[0]) {
          forall i | 0 <= i < |s| ensures IsSpace(s[i]) {
            if i > 0 { assert s[i] == s[1..][i - 1]; }
          }
        }
        if AllSpace(s) {
          forall i | 0 <= i < |s| - 1 ensures IsSpace(s[1..][i]) {
            assert s[1..][i] == s[i + 1];
          }
        }
      }
    }
  }

  /** strings.TrimLeftFunc(s, unicode.IsSpace). */
  function TrimLeft(s: string): (r: string)
    ensures |r| <= |s|
  {
    if s != [] && IsSpace(s[0]) then TrimLeft(s[1..]) else s
  }

  /** strings.TrimRightFunc(s, unicode.IsSpace). */
  function TrimRight(s: string): (r: string)
    ensures |r| <= |s|
  {
    if s != [] && IsSpace(s[|s| - 1]) then TrimRight(s[..|s| - 1]) else s
  }

  /** TrimLeft removes exactly the white space before the first non-space
      character: what is left is the suffix starting there. */
  lemma {:induction false} TrimLeftSuffix(s: string)
    ensures var r := TrimLeft(s);
      && r == s[|s| - |r|..]
      && (r == [] || !IsSpace(r[0]))
      && forall i :: 0 <= i < |s| - |r| ==> IsSpace(s[i])
  {
    if s != [] && IsSpace(s[0]) {
      TrimLeftSuffix(s[1..]);
      var r := TrimLeft(s);
      forall i | 0 < i < |s| - |r| ensures IsSpace(s[i]) {
        assert s[i] == s[1..][i - 1];
      }
      assert s[1..][|s| - 1 - |r|..] == s[|s| - |r|..];
    }
  }

  /** TrimRight removes exactly the white space after the last non-space
      character: what is left is the prefix ending there. */
  lemma {:induction false} TrimRightPrefix(s: string)
    ensures var r := TrimRight(s);
      && r == s[..|r|]
      && (r == [] || !IsSpace(r[|r| - 1]))
      && forall i :: |r| <= i < |s| ==> IsSpace(s[i])
  {
    if s != [] && IsSpace(s[|s| - 1]) {
      var init := s[..|s| - 1];
      TrimRightPrefix(init);
      var r := TrimRight(s);
      forall i | |r| <= i < |s| - 1 ensures IsSpace(s[i]) {
        assert s[i] == init[i];
      }
      assert init[..|r|] == s[..|r|];
    }
  }

  /** strings.TrimSpace: `s` without its leading and trailing white space;
      what is left is empty or starts and ends with a non-space character. */
  function TrimSpace(s: string): (r: string)
    ensures r != [] ==> IsTrimmed(r)
  {
    TrimLeftSuffix(s);
    TrimRightPrefix(TrimLeft(s));
    TrimRight(TrimLeft(s))
  }

  /** A stretch of white space, cut out of a text, is all white space. */
  lemma AllSpaceSlice(s: string, lo: nat, hi: nat)
    requires lo <= hi <= |s|
    requires forall i :: lo <= i < hi ==> IsSpace(s[i])
    ensures AllSpace(s[lo..hi])
  {
    forall i | 0 <= i < hi - lo ensures IsSpace(s[lo..hi][i]) {
      assert s[lo..hi][i] == s[lo + i];
    }
  }

  /** TrimLeft keeps a suffix `s[k..]` and cuts only white space. */
  lemma TrimLeftCut(s: string) returns (k: nat)
    ensures k <= |s| && TrimLeft(s) == s[k..] && AllSpace(s[..k])
  {
    TrimLeftSuffix(s);
    k := |s| - |TrimLeft(s)|;
    AllSpaceSlice(s, 0, k);
    assert s[0..k] == s[..k];
  }

  /** TrimRight keeps a prefix and cuts only white space. */
  lemma TrimRightCut(s: string)
    ensures TrimRight(s) == s[..|TrimRight(s)|] && AllSpace(s[|TrimRight(s)|..])
  {
    TrimRightPrefix(s);
    AllSpaceSlice(s, |TrimRight(s)|, |s|);
    assert s[|TrimRight(s)|..|s|] == s[|TrimRight(s)|..];
  }

  /** What trimming keeps is the slice `s[k..k + |TrimSpace(s)|]`, and the
      parts before and after it are white space. */
  lemma TrimSpaceSlice(s: string) returns (k: nat)
    ensures k + |TrimSpace(s)| <= |s|
    ensures TrimSpace(s) == s[k..k + |TrimSpace(s)|]
    ensures AllSpace(s[..k]) && AllSpace(s[k + |TrimSpace(s)|..])
  {
    var left := TrimLeft(s);
    var r := TrimRight(left);
    assert r == TrimSpace(s);
    k := TrimLeftCut(s);
    TrimRightCut(left);
    assert left[..|r|] == s[k..k + |r|];
    assert left[|r|..] == s[k + |r|..];
  }

  /** Trimming is blank exactly on blank text, and keeps all of the
      non-space content. */
  lemma {:induction false} TrimSpaceContent(s: string)
    ensures TrimSpace(s) == [] <==> AllSpace(s)
    ensures NonSpace(TrimSpace(s)) == NonSpace(s)
  {
    var r := TrimSpace(s);
    var k := TrimSpaceSlice(s);
    var front, back := s[..k], s[k + |r|..];
    assert s == front + r + back;
    NonSpaceEmpty(front);
    NonSpaceEmpty(back);
    NonSpaceAppend(front, r);
    NonSpaceAppend(front + r, back);
    NonSpaceEmpty(s);
    NonSpaceEmpty(r);
  }

  /** A line the cleaner has already trimmed is left alone by trimming. */
  lemma TrimSpaceTrimmed(s: string)
    requires IsTrimmed(s)
    ensures TrimSpace(s) == s
  {
  }

  /** Concatenation is associative. */
  lemma ConcatAssoc<T>(x: seq<T>, y: seq<T>, z: seq<T>)
    ensures x + (y + z) == (x + y) + z
  {
  }

  /** A non-empty sequence is its head followed by its tail. */
  lemma HeadTail<T>(a: seq<T>)
    requires a != []
    ensures a == [a[0]] + a[1..]
  {
  }

  /** A non-empty sequence is its front followed by its last element. */
  lemma InitLast<T>(a: seq<T>)
    requires a != []
    ensures a == a[..|a| - 1] + [a[|a| - 1]]
  {
  }

  /** The head and the tail of a sequence built from them. */
  lemma ConsParts<T>(x: T, y: seq<T>)
    ensures ([x] + y)[0] == x && ([x] + y)[1..] == y
  {
  }
}
