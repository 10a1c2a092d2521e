/** The output path of main.go: the input's directory joined with
    `stem + "_sc" + ext`, built from filepath.Dir, filepath.Base and
    filepath.Ext. Paths are '/'-separated strings; filepath.Clean, which
    Dir and Join apply to their results, is taken as the identity, so the
    functions below agree with Go's on paths that are already clean. */
module Paths {

  /** The position just after the last '/' of `p` (0 when there is none):
      where the last element of the path starts. */
  function BaseStart(p: string): (k: nat)
    ensures k <= |p|
  {
    if p == [] then 0
    else if p[|p| - 1] == '/' then |p|
    else BaseStart(p[..|p| - 1])
  }

  /** BaseStart follows the last '/', and no '/' comes after it. */
  lemma {:induction false} BaseStartAfterSlash(p: string)
    ensures var k := BaseStart(p);
      (k > 0 ==> p[k - 1] == '/') && forall j :: k <= j < |p| ==> p[j] != '/'
  {
    if p != [] && p[|p| - 1] != '/' {
      var init := p[..|p| - 1];
      BaseStartAfterSlash(init);
      var k := BaseStart(p);
      forall j | k <= j < |p| - 1 ensures p[j] != '/' {
        assert p[j] == init[j];
      }
      if k > 0 {
        assert p[k - 1] == init[k - 1];
      }
    }
  }

  /** filepath.Dir: everything before the last '/', "/" when that is the
      root, and "." when the path has no '/'. */
  function Dir(p: string): (d: string)
    ensures d != []
  {
    var k := BaseStart(p);
    if k == 0 then "." else if k == 1 then "/" else p[..k - 1]
  }

  /** filepath.Base: the last element of the path, "." for the empty
      path. */
  function Base(p: string): string
  {
    if p == [] then "." else p[BaseStart(p)..]
  }

  /** filepath.Ext: the suffix of the path from the last '.' of its last
      element on, or "" when that element has no '.'. The scan runs from
      the end of the path and stops at the first '/'. */
  function Ext(p: string): string
  {
    if p == [] || p[|p| - 1] == '/' then []
    else if p[|p| - 1] == '.' then "."
    else
      var e := Ext(p[..|p| - 1]);
      if e == [] then [] else e + [p[|p| - 1]]
  }

  /** strings.TrimSuffix: `s` without `suffix` when it ends with it. */
  function TrimSuffix(s: string, suffix: string): string
  {
    if |suffix| <= |s| && s[|s| - |suffix|..] == suffix then s[..|s| - |suffix|] else s
  }

  /** filepath.Join(dir, name) for a name that is a single element:
      "." contributes nothing and "/" is not doubled. */
  function Join(dir: string, name: string): string
  {
    if dir == "." then name else if dir == "/" then "/" + name else dir + "/" + name
  }

  /** The base name without its extension. */
  function Stem(p: string): string
  {
    TrimSuffix(Base(p), Ext(p))
  }

  /** main.go's output path: the input's directory joined with its stem,
      "_sc" and its extension. */
  function OutputPath(p: string): string
  {
    Join(Dir(p), Stem(p) + "_sc" + Ext(p))
  }

  /** The extension is a suffix of the last element of the path: empty, or
      a '.' followed by characters that are neither '.' nor '/'. It is
      empty exactly when the last element has no '.'. */
  lemma ExtShape(p: string)
    ensures var e := Ext(p);
      && |e| <= |p| - BaseStart(p) && e == p[|p| - |e|..]
      && (e != [] ==> e[0] == '.')
      && (forall j :: 0 < j < |e| ==> e[j] != '.' && e[j] != '/')
      && (e == [] ==> forall j :: BaseStart(p) <= j < |p| ==> p[j] != '.')
  {
    ExtIsSuffix(p);
    ExtChars(p);
    ExtEmptyNoDot(p);
  }

  /** A non-empty extension is a '.' followed by neither '.' nor '/'. */
  lemma {:induction false} ExtChars(p: string)
    ensures Ext(p) != [] ==> Ext(p)[0] == '.'
    ensures forall j :: 0 < j < |Ext(p)| ==> Ext(p)[j] != '.' && Ext(p)[j] != '/'
  {
    if p != [] && p[|p| - 1] != '/' && p[|p| - 1] != '.' {
      var init, c := p[..|p| - 1], p[|p| - 1];
      ExtChars(init);
      var e0 := Ext(init);
      if e0 != [] {
        var e := e0 + [c];
        assert Ext(p) == e;
        forall j | 0 < j < |e| ensures e[j] != '.' && e[j] != '/' {
          if j < |e0| { assert e[j] == e0[j]; }
        }
      }
    }
  }

  /** The extension is empty only when the last element has no '.'. */
  lemma {:induction false} ExtEmptyNoDot(p: string)
    ensures Ext(p) == [] ==> forall j :: BaseStart(p) <= j < |p| ==> p[j] != '.'
  {
    if p != [] && p[|p| - 1] != '/' && p[|p| - 1] != '.' {
      var init := p[..|p| - 1];
      ExtEmptyNoDot(init);
      assert BaseStart(p) == BaseStart(init);
      if Ext(init) == [] {
        forall j | BaseStart(p) <= j < |p| ensures p[j] != '.' {
          if j < |p| - 1 { assert p[j] == init[j]; }
        }
      }
    }
  }

  /** The extension is a suffix of the last element of the path. */
  lemma {:induction false} ExtIsSuffix(p: string)
    ensures |Ext(p)| <= |p| - BaseStart(p) && Ext(p) == p[|p| - |Ext(p)|..]
  {
    if p != [] && p[|p| - 1] != '/' && p[|p| - 1] != '.' {
      var init := p[..|p| - 1];
      ExtIsSuffix(init);
      var e0 := Ext(init);
      assert BaseStart(p) == BaseStart(init);
      if e0 != [] {
        assert init[|init| - |e0|..] + [p[|p| - 1]] == p[|p| - |e0| - 1..];
      }
    }
  }

  /** Trimming a suffix the text does end with, then putting it back,
      gives the text again. */
  lemma TrimSuffixThenSuffix(b: string, e: string)
    requires |e| <= |b| && b[|b| - |e|..] == e
    ensures TrimSuffix(b, e) + e == b
  {
    assert b[..|b| - |e|] + b[|b| - |e|..] == b;
  }

  /** The base name is the stem followed by the extension. */
  lemma BaseIsStemThenExt(p: string)
    ensures Base(p) == Stem(p) + Ext(p)
  {
    var b, e := Base(p), Ext(p);
    if p != [] {
      ExtIsSuffix(p);
      assert b == p[BaseStart(p)..];
      assert b[|b| - |e|..] == e;
      TrimSuffixThenSuffix(b, e);
    } else {
      TrimSuffixThenSuffix(b, e);
    }
  }

  /** A '.' followed by neither '.' nor '/' is the extension of any path
      that ends with it. */
  lemma {:induction false} ExtOfSuffix(x: string, e: string)
    requires e != [] && e[0] == '.'
    requires forall j :: 0 < j < |e| ==> e[j] != '.' && e[j] != '/'
    ensures Ext(x + e) == e
  {
    var p := x + e;
    if |e| > 1 {
      var init := e[..|e| - 1];
      ExtOfSuffix(x, init);
      assert p[..|p| - 1] == x + init;
      assert init + [e[|e| - 1]] == e;
    }
  }

  /** A last element without '.' has no extension. */
  lemma {:induction false} ExtOfPlainElement(x: string, y: string)
    requires x == [] || x[|x| - 1] == '/'
    requires forall j :: 0 <= j < |y| ==> y[j] != '.' && y[j] != '/'
    ensures Ext(x + y) == []
  {
    if y != [] {
      var init := y[..|y| - 1];
      ExtOfPlainElement(x, init);
      assert (x + y)[..|x + y| - 1] == x + init;
    } else {
      assert x + y == x;
    }
  }

  /** After a '/' (or at the start), an element without '/' is where the
      last element starts. */
  lemma {:induction false} BaseStartOfElement(x: string, y: string)
    requires x == [] || x[|x| - 1] == '/'
    requires forall j :: 0 <= j < |y| ==> y[j] != '/'
    ensures BaseStart(x + y) == |x|
  {
    if y != [] {
      var init := y[..|y| - 1];
      BaseStartOfElement(x, init);
      assert (x + y)[..|x + y| - 1] == x + init;
    } else {
      assert x + y == x;
    }
  }

  /** `y` is a single path element: it holds no '/'. */
  predicate IsElement(y: string)
  {
    forall j :: 0 <= j < |y| ==> y[j] != '/'
  }

  /** Joining a directory with an element gives a path whose directory
      and last element are those two. */
  lemma {:induction false} JoinShape(dir: string, name: string)
    requires dir != [] && name != [] && IsElement(name)
    ensures Dir(Join(dir, name)) == dir
    ensures Base(Join(dir, name)) == name
  {
    var prefix := JoinPrefix(dir);
    var out := Join(dir, name);
    assert out == prefix + name;
    BaseStartOfElement(prefix, name);
    assert out[|prefix|..] == name;
    if dir != "." && dir != "/" {
      assert out[..|prefix| - 1] == dir;
    }
  }

  /** The base name is a single element. */
  lemma BaseIsElement(p: string)
    ensures IsElement(Base(p))
  {
    if p != [] {
      var b, k := Base(p), BaseStart(p);
      assert b == p[k..];
      BaseStartAfterSlash(p);
      forall j | 0 <= j < |b| ensures b[j] != '/' { assert b[j] == p[k + j]; }
    }
  }

  /** Without an extension, the stem (the whole base name) has no '.'. */
  lemma StemWithoutDot(p: string)
    requires p != [] && Ext(p) == []
    ensures forall j :: 0 <= j < |Stem(p)| ==> Stem(p)[j] != '.'
  {
    var b, k := Base(p), BaseStart(p);
    assert Stem(p) == b by {
      BaseIsStemThenExt(p);
      assert Stem(p) + [] == Stem(p);
    }
    assert forall j :: k <= j < |p| ==> p[j] != '.' by {
      ExtEmptyNoDot(p);
    }
    assert b == p[k..];
    forall j | 0 <= j < |b| ensures b[j] != '.' { assert b[j] == p[k + j]; }
  }

  /** The new base name is a single element, and when the input has no
      extension it has no '.' either. */
  lemma NewNameShape(p: string)
    ensures IsElement(Stem(p) + "_sc" + Ext(p))
    ensures p != [] && Ext(p) == [] ==>
      forall j :: 0 <= j < |Stem(p) + "_sc"| ==> (Stem(p) + "_sc")[j] != '.'
  {
    var b, stem, e := Base(p), Stem(p), Ext(p);
    var name := stem + "_sc" + e;
    BaseIsStemThenExt(p);
    BaseIsElement(p);
    forall j | 0 <= j < |name| ensures name[j] != '/' {
      if j < |stem| { assert name[j] == b[j]; }
      else if j < |stem| + 3 { assert name[j] == "_sc"[j - |stem|]; }
      else { assert name[j] == b[j - 3]; }
    }
    if p != [] && e == [] {
      StemWithoutDot(p);
      forall j | 0 <= j < |stem + "_sc"| ensures (stem + "_sc")[j] != '.' {
        if j < |stem| { assert (stem + "_sc")[j] == stem[j]; }
        else { assert (stem + "_sc")[j] == "_sc"[j - |stem|]; }
      }
    }
  }

  /** The output file lies in the input's directory and its base name is
      the input's stem, "_sc" and the input's extension. */
  lemma {:induction false} OutputPathPlace(p: string)
    ensures Dir(OutputPath(p)) == Dir(p)
    ensures Base(OutputPath(p)) == Stem(p) + "_sc" + Ext(p)
  {
    NewNameShape(p);
    JoinShape(Dir(p), Stem(p) + "_sc" + Ext(p));
  }

  /** What Join puts before a single-element name: nothing, "/", or the
      directory and a '/'. */
  function JoinPrefix(dir: string): (prefix: string)
    ensures Join(dir, []) == prefix
    ensures prefix == [] || prefix[|prefix| - 1] == '/'
  {
    if dir == "." then [] else if dir == "/" then "/" else dir + "/"
  }

  /** For a non-empty input path the output keeps the extension. (The
      empty path, whose base name is ".", gives "._sc", whose extension is
      "._sc".) */
  lemma OutputPathExt(p: string)
    requires p != []
    ensures Ext(OutputPath(p)) == Ext(p)
  {
    var stem, e := Stem(p), Ext(p);
    var prefix := JoinPrefix(Dir(p));
    assert OutputPath(p) == prefix + (stem + "_sc" + e);
    if e != [] {
      ExtChars(p);
      assert prefix + (stem + "_sc" + e) == (prefix + stem + "_sc") + e;
      ExtOfSuffix(prefix + stem + "_sc", e);
    } else {
      NewNameShape(p);
      var name := stem + "_sc";
      assert name + e == name;
      assert forall j :: 0 <= j < |name| ==> name[j] != '.' && name[j] != '/';
      ExtOfPlainElement(prefix, name);
    }
  }

  /** For a non-empty input path the output's stem is the input's stem
      followed by "_sc": "a.txt" becomes "a_sc.txt", "notes" becomes
      "notes_sc". */
  lemma {:induction false} OutputPathStem(p: string)
    requires p != []
    ensures Stem(OutputPath(p)) == Stem(p) + "_sc"
  {
    var out, e := OutputPath(p), Ext(p);
    OutputPathExt(p);
    OutputPathPlace(p);
    BaseIsStemThenExt(out);
    var b := Base(out);
    assert b == Stem(out) + e && b == (Stem(p) + "_sc") + e;
    assert Stem(out) == b[..|b| - |e|];
  }

  /** A file in the current directory keeps its extension after the new
      suffix. */
  lemma OutputPathExampleTxt(p: string)
    requires p == "a.txt"
    ensures OutputPath(p) == "a_sc.txt"
  {
    assert p == [] + p;
    BaseStartOfElement([], p);
    assert Ext(p) == ".txt" by {
      assert p == "a" + ".txt";
      ExtOfSuffix("a", ".txt");
    }
    assert Stem(p) == "a" by {
      assert p[1..] == ".txt" && p[..1] == "a";
    }
    assert Dir(p) == ".";
    assert "a" + "_sc" + ".txt" == "a_sc.txt";
  }

  /** A file without an extension just gets the suffix. */
  lemma OutputPathExampleNoExt(p: string)
    requires p == "notes"
    ensures OutputPath(p) == "notes_sc"
  {
    assert p == [] + p;
    BaseStartOfElement([], p);
    ExtOfPlainElement([], p);
    assert Dir(p) == "." && Base(p) == p;
    assert Stem(p) == p by {
      assert p[|p|..] == [] && p[..|p|] == p;
    }
    assert p + "_sc" + [] == "notes_sc";
  }

  /** In an absolute path only the last '.' starts the extension. */
  lemma OutputPathExampleDotted(p: string)
    requires p == "/home/me/ch.v2.txt"
    ensures OutputPath(p) == "/home/me/ch.v2_sc.txt"
  {
    DottedParts(p);
    assert "/home/me" + "/" + ("ch.v2" + "_sc" + ".txt") == "/home/me/ch.v2_sc.txt";
  }

  /** The directory, extension and stem of the path of OutputPathExampleDotted. */
  lemma DottedParts(p: string)
    requires p == "/home/me/ch.v2.txt"
    ensures Dir(p) == "/home/me" && Ext(p) == ".txt" && Stem(p) == "ch.v2"
  {
    var x, y := "/home/me/", "ch.v2.txt";
    assert p == x + y;
    BaseStartOfElement(x, y);
    assert Dir(p) == "/home/me" by {
      assert p[..8] == "/home/me";
    }
    assert Base(p) == y by {
      assert p[9..] == y;
    }
    assert Ext(p) == ".txt" by {
      assert p == "/home/me/ch.v2" + ".txt";
      ExtOfSuffix("/home/me/ch.v2", ".txt");
    }
    assert y[5..] == ".txt" && y[..5] == "ch.v2";
  }

  /** A dot-file is all extension: its stem is empty. */
  lemma OutputPathExampleDotFile(p: string)
    requires p == "dir/.bashrc"
    ensures OutputPath(p) == "dir/_sc.bashrc"
  {
    var x, y := "dir/", ".bashrc";
    assert p == x + y;
    BaseStartOfElement(x, y);
    assert Dir(p) == "dir" by {
      assert p[..3] == "dir";
    }
    assert Base(p) == y by {
      assert p[4..] == y;
    }
    assert Ext(p) == y by {
      ExtOfSuffix(x, y);
    }
    assert Stem(p) == [] by {
      assert y[0..] == y && y[..0] == [];
    }
    assert "dir" + "/" + ([] + "_sc" + y) == "dir/_sc.bashrc";
  }
}
