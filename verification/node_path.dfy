/**
 * The two POSIX `path` helpers of Node.js the core relies on: `path.extname`,
 * which decides the image format and the markdown filter, and `path.join`,
 * which assembles content paths.
 */
module NodePath {
  import opened Text

  /** Index of the last `c` in `p[..hi]`, or -1 when there is none. */
  function LastIndexBefore(p: string, c: char, hi: nat): (i: int)
    requires hi <= |p|
    ensures -1 <= i < hi
    ensures i >= 0 ==> p[i] == c
    ensures forall j :: i < j < hi ==> p[j] != c
  {
    if hi == 0 then -1 else if p[hi - 1] == c then hi - 1 else LastIndexBefore(p, c, hi - 1)
  }

  /** Length of `p` without its trailing separators: where the last component ends. */
  function ComponentEnd(p: string, hi: nat): (e: nat)
    requires hi <= |p|
    ensures e <= hi
    ensures e > 0 ==> p[e - 1] != '/'
    ensures forall j :: e <= j < hi ==> p[j] == '/'
  {
    if hi == 0 then 0 else if p[hi - 1] == '/' then ComponentEnd(p, hi - 1) else hi
  }

  /** No character of `s` is `c`. */
  predicate Lacks(s: string, c: char) {
    forall i :: 0 <= i < |s| ==> s[i] != c
  }

  /** The last path component, trailing separators ignored (`path.basename`). */
  function Basename(p: string): (b: string)
    ensures Lacks(b, '/')
  {
    var end := ComponentEnd(p, |p|);
    var start := LastIndexBefore(p, '/', end) + 1;
    p[start..end]
  }

  /** The extension of a single path component. */
  function ComponentExt(b: string): (ext: string)
    ensures ext == "" || (ext[0] == '.' && Lacks(ext[1..], '.'))
    ensures IsSuffix(ext, b)
  {
    var dot := LastIndexBefore(b, '.', |b|);
    if dot <= 0 || b == ".." then ""
    else
      assert forall i :: 0 <= i < |b[dot..][1..]| ==> b[dot..][1..][i] == b[dot + 1 + i];
      b[dot..]
  }

  /**
   * `path.extname(p)`: from the last '.' of the last component to its end. A
   * component with no dot, whose only dot is its first character (".jpg"), or
   * that is exactly ".." has no extension.
   */
  function Extname(p: string): (ext: string)
    ensures ext == "" || (ext[0] == '.' && Lacks(ext[1..], '.'))
    ensures Lacks(ext, '/')
    ensures IsSuffix(ext, Basename(p))
  {
    var b := Basename(p);
    var ext := ComponentExt(b);
    assert forall i :: 0 <= i < |ext| ==> ext[i] == b[|b| - |ext| + i];
    ext
  }

  /** `path.join(dir, name)` for a normalised directory and a single component. */
  function Join(dir: string, name: string): (p: string)
    ensures IsSuffix(name, p)
  {
    dir + "/" + name
  }

  lemma {:induction false} AsciiUpperSlice(p: string, i: nat, j: nat)
    requires i <= j <= |p|
    ensures AsciiUpper(p)[i..j] == AsciiUpper(p[i..j])
  {
    var a, b := AsciiUpper(p)[i..j], AsciiUpper(p[i..j]);
    forall k | 0 <= k < |a|
      ensures a[k] == b[k]
    {
      assert a[k] == AsciiUpper(p)[i + k];
      assert p[i..j][k] == p[i + k];
    }
  }

  lemma {:induction false} AsciiUpperLastIndex(p: string, c: char, hi: nat)
    requires (c == '.' || c == '/') && hi <= |p|
    ensures LastIndexBefore(AsciiUpper(p), c, hi) == LastIndexBefore(p, c, hi)
  {
    if hi > 0 {
      AsciiUpperLastIndex(p, c, hi - 1);
    }
  }

  lemma {:induction false} AsciiUpperComponentEnd(p: string, hi: nat)
    requires hi <= |p|
    ensures ComponentEnd(AsciiUpper(p), hi) == ComponentEnd(p, hi)
  {
    if hi > 0 {
      AsciiUpperComponentEnd(p, hi - 1);
    }
  }

  lemma BasenameOfAsciiUpper(p: string)
    ensures Basename(AsciiUpper(p)) == AsciiUpper(Basename(p))
  {
    AsciiUpperComponentEnd(p, |p|);
    var end := ComponentEnd(p, |p|);
    AsciiUpperLastIndex(p, '/', end);
    AsciiUpperSlice(p, LastIndexBefore(p, '/', end) + 1, end);
  }

  lemma ComponentExtOfAsciiUpper(b: string)
    ensures ComponentExt(AsciiUpper(b)) == AsciiUpper(ComponentExt(b))
  {
    var u := AsciiUpper(b);
    AsciiUpperLastIndex(b, '.', |b|);
    assert u == ".." <==> b == "..";
    var dot := LastIndexBefore(b, '.', |b|);
    if dot > 0 {
      AsciiUpperSlice(b, dot, |b|);
    }
  }

  /** Upper-casing ASCII letters commutes with taking the extension. */
  lemma ExtnameOfAsciiUpper(p: string)
    ensures Extname(AsciiUpper(p)) == AsciiUpper(Extname(p))
  {
    BasenameOfAsciiUpper(p);
    ComponentExtOfAsciiUpper(Basename(p));
  }

  lemma {:induction false} LastIndexAfterPrefix(a: string, b: string, c: char, k: nat)
    requires k <= |b|
    ensures LastIndexBefore(a + b, c, |a| + k) ==
      (if LastIndexBefore(b, c, k) >= 0 then |a| + LastIndexBefore(b, c, k)
       else LastIndexBefore(a, c, |a|))
  {
    if k > 0 {
      assert (a + b)[|a| + k - 1] == b[k - 1];
      LastIndexAfterPrefix(a, b, c, k - 1);
    } else {
      LastIndexPrefix(a, b, c, |a|);
    }
  }

  lemma {:induction false} LastIndexPrefix(a: string, b: string, c: char, hi: nat)
    requires hi <= |a|
    ensures LastIndexBefore(a + b, c, hi) == LastIndexBefore(a, c, hi)
  {
    if hi > 0 {
      assert (a + b)[hi - 1] == a[hi - 1];
      LastIndexPrefix(a, b, c, hi - 1);
    }
  }

  /** A single non-empty component is its own base name. */
  lemma BasenameOfComponent(name: string)
    requires name != [] && Lacks(name, '/')
    ensures Basename(name) == name
  {
    assert ComponentEnd(name, |name|) == |name|;
    LastIndexNone(name, '/', |name|);
  }

  lemma {:induction false} LastIndexNone(s: string, c: char, hi: nat)
    requires hi <= |s| && Lacks(s, c)
    ensures LastIndexBefore(s, c, hi) == -1
  {
    if hi > 0 {
      LastIndexNone(s, c, hi - 1);
    }
  }

  /** Joining a component onto a directory leaves it the base name. */
  lemma BasenameOfJoin(dir: string, name: string)
    requires name != [] && Lacks(name, '/')
    ensures Basename(Join(dir, name)) == name
  {
    var p := Join(dir, name);
    var a := dir + "/";
    assert p == a + name;
    assert p[|p| - 1] == name[|name| - 1];
    assert ComponentEnd(p, |p|) == |p|;
    LastIndexNone(name, '/', |name|);
    LastIndexAfterPrefix(a, name, '/', |name|);
    assert LastIndexBefore(a, '/', |a|) == |dir|;
    assert p[|a|..] == name;
  }

  /** A file name keeps its extension when joined onto a directory. */
  lemma ExtnameOfJoin(dir: string, name: string)
    requires name != [] && Lacks(name, '/')
    ensures Extname(Join(dir, name)) == Extname(name)
  {
    BasenameOfJoin(dir, name);
    BasenameOfComponent(name);
  }

  /** Without a trailing separator, the base name is a suffix of the path. */
  lemma BasenameIsSuffix(p: string)
    requires p != [] && p[|p| - 1] != '/'
    ensures IsSuffix(Basename(p), p)
  {
    assert ComponentEnd(p, |p|) == |p|;
  }

  /** A file name made of a dot-free stem and a one-dot extension has that extension. */
  lemma ExtnameOfStem(stem: string, ext: string)
    requires stem != [] && Lacks(stem, '.')
    requires ext != [] && ext[0] == '.' && Lacks(ext[1..], '.')
    requires Lacks(stem + ext, '/')
    ensures Extname(stem + ext) == ext
  {
    var name := stem + ext;
    BasenameOfComponent(name);
    var i := LastIndexBefore(ext, '.', |ext|);
    LastIndexAfterPrefix(stem, ext, '.', |ext|);
    assert name != ".." by {
      assert name[0] == stem[0];
    }
    assert name[|stem|..] == ext;
  }

  /** A name whose only dot is its first character (a dot file) has no extension. */
  lemma DotFileHasNoExtension(name: string)
    requires name != [] && name[0] == '.' && Lacks(name[1..], '.')
    requires Lacks(name, '/')
    ensures Extname(name) == ""
  {
    BasenameOfComponent(name);
    var rest := name[1..];
    assert name == ['.'] + rest;
    LastIndexNone(rest, '.', |rest|);
    LastIndexAfterPrefix(['.'], rest, '.', |rest|);
  }
}
