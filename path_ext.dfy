/** Node's POSIX `path.extname`, which the photo upload uses to keep the
    extension of the client's file name in the S3 object key: the text from
    the last dot of the last path segment, ignoring trailing slashes, except
    that a segment whose only dot leads it (".profile") or the segment ".."
    has no extension. */
module PathExt {
  import opened Common

  const Slash := '/'
  const Dot := '.'

  /** The path without its trailing slashes. */
  function TrimTrailingSlashes(p: string): (t: string)
    ensures |t| <= |p| && t == p[..|t|]
    ensures t == [] || t[|t| - 1] != Slash
    ensures forall i :: |t| <= i < |p| ==> p[i] == Slash
    decreases |p|
  {
    if p != [] && p[|p| - 1] == Slash then TrimTrailingSlashes(p[..|p| - 1]) else p
  }

  /** The text after the last slash. */
  function LastSegment(t: string): (b: string)
    ensures |b| <= |t| && b == t[|t| - |b|..]
    ensures Slash !in b
    ensures |b| == |t| || t[|t| - |b| - 1] == Slash
    decreases |t|
  {
    if t == [] || t[|t| - 1] == Slash then []
    else
      var b := LastSegment(t[..|t| - 1]);
      assert t[..|t| - 1][|t| - 1 - |b|..] == t[|t| - 1 - |b|..|t| - 1];
      b + [t[|t| - 1]]
  }

  /** The last segment of a path, as `path.basename` gives it. */
  function BaseName(p: string): string {
    LastSegment(TrimTrailingSlashes(p))
  }

  /** The position of the last dot. */
  function LastDot(s: string): (r: Option<nat>)
    ensures r.Some? ==> r.value < |s| && s[r.value] == Dot && forall k :: r.value < k < |s| ==> s[k] != Dot
    ensures r.None? <==> Dot !in s
    decreases |s|
  {
    if s == [] then None
    else if s[|s| - 1] == Dot then Some(|s| - 1)
    else
      var r := LastDot(s[..|s| - 1]);
      assert Dot !in s[..|s| - 1] ==> Dot !in s by {
        if Dot in s {
          var k :| 0 <= k < |s| && s[k] == Dot;
          assert k < |s| - 1 && s[..|s| - 1][k] == Dot;
        }
      }
      r
  }

  /** `path.extname(p)`: empty, or a dot followed by no other dot and no
      slash, taken from the end of the last segment. */
  function ExtName(p: string): (e: string)
    ensures e == [] || e[0] == Dot
    ensures forall k :: 0 <= k < |e| ==> e[k] != Slash
    ensures forall k :: 0 < k < |e| ==> e[k] != Dot
    ensures |e| <= |BaseName(p)| && e == BaseName(p)[|BaseName(p)| - |e|..]
  {
    var b := BaseName(p);
    match LastDot(b)
    case None => []
    case Some(i) => if i == 0 || b == [Dot, Dot] then [] else b[i..]
  }

  /** A segment without slashes is its own last segment. */
  lemma {:induction false} LastSegmentWhole(name: string)
    requires Slash !in name
    ensures LastSegment(name) == name
    decreases |name|
  {
    if name != [] {
      var init := name[..|name| - 1];
      assert Slash !in init by {
        forall k | 0 <= k < |init|
          ensures init[k] != Slash
        {
          assert init[k] == name[k];
        }
      }
      LastSegmentWhole(init);
      assert init + [name[|name| - 1]] == name;
    }
  }

  /** The last segment of `t/name` is `name`. */
  lemma {:induction false} LastSegmentAfterSlash(t: string, name: string)
    requires Slash !in name
    ensures LastSegment(t + [Slash] + name) == name
    decreases |name|
  {
    var p := t + [Slash] + name;
    if name != [] {
      var init := name[..|name| - 1];
      assert Slash !in init by {
        forall k | 0 <= k < |init|
          ensures init[k] != Slash
        {
          assert init[k] == name[k];
        }
      }
      assert p[..|p| - 1] == t + [Slash] + init;
      assert p[|p| - 1] == name[|name| - 1];
      LastSegmentAfterSlash(t, init);
      assert init + [name[|name| - 1]] == name;
    }
  }

  /** A non-empty name without slashes is its own base name. */
  lemma BaseNameWhole(name: string)
    requires name != [] && Slash !in name
    ensures BaseName(name) == name
  {
    assert name[|name| - 1] in name;
    LastSegmentWhole(name);
  }

  /** The extension of `stem.ext` is `.ext`, for any non-empty stem and any
      extension without dots or slashes (".." alone excepted). */
  lemma ExtNameOfDotted(stem: string, ext: string)
    requires stem != [] && Slash !in stem && Slash !in ext && Dot !in ext
    requires stem != [Dot] || ext != []
    ensures ExtName(stem + [Dot] + ext) == [Dot] + ext
  {
    var p := stem + [Dot] + ext;
    BaseNameWhole(p);
    forall k | |stem| < k < |p|
      ensures p[k] != Dot
    {
      assert p[k] == ext[k - |stem| - 1];
    }
    assert p[|stem|] == Dot;
    assert LastDot(p) == Some(|stem|);
    assert p != [Dot, Dot];
    assert p[|stem|..] == [Dot] + ext;
  }

  /** A name whose only dot is its first character, such as ".profile",
      has no extension. */
  lemma DotFileHasNoExt(rest: string)
    requires Slash !in rest && Dot !in rest
    ensures ExtName([Dot] + rest) == []
  {
    var p := [Dot] + rest;
    BaseNameWhole(p);
    forall k | 0 < k < |p|
      ensures p[k] != Dot
    {
      assert p[k] == rest[k - 1];
    }
    assert LastDot(p) == Some(0);
  }

  /** Only the last segment counts: dots in directory names are ignored. */
  lemma ExtNameIgnoresDirectory(dir: string, name: string)
    requires name != [] && Slash !in name
    ensures ExtName(dir + [Slash] + name) == ExtName(name)
  {
    var p := dir + [Slash] + name;
    assert p[|p| - 1] == name[|name| - 1];
    assert name[|name| - 1] in name;
    assert TrimTrailingSlashes(p) == p;
    LastSegmentAfterSlash(dir, name);
    BaseNameWhole(name);
  }
}
