/** Absolute paths, abstracted from Node's `path` module: a path is the
    sequence of its components below the root, so the root is `[]`. */
module Paths {
  import opened Strings

  type Path = seq<string>

  /** The filesystem root, rendered "/". */
  const Root: Path := []

  /** `path.dirname`: the containing directory; the root is its own dirname. */
  function Dirname(p: Path): (d: Path)
    ensures d == p <==> p == Root
    ensures p != Root ==> |d| == |p| - 1 && p == d + [p[|p| - 1]]
  {
    if p == Root then Root else p[..|p| - 1]
  }

  /** `path.resolve(dir, name)` for a directory entry name. */
  function Resolve(dir: Path, name: string): (p: Path)
    ensures |p| == |dir| + 1 && Dirname(p) == dir && p[|dir|] == name
  {
    dir + [name]
  }

  /** The string form of a path: "/" for the root, "/a/b" otherwise. */
  function Render(p: Path): (s: string)
    ensures |s| > 0 && s[0] == '/'
  {
    if p == Root then "/" else Segments(p)
  }

  /** Each component preceded by a separator. */
  function Segments(p: Path): (s: string)
    ensures p != [] ==> |s| > 0 && s[0] == '/'
  {
    if p == [] then [] else Segments(p[..|p| - 1]) + "/" + p[|p| - 1]
  }

  /** The rendering of a concatenation is the renderings of its parts, one
      after the other. */
  lemma {:induction false} SegmentsAppend(a: Path, b: Path)
    ensures Segments(a + b) == Segments(a) + Segments(b)
  {
    if b == [] {
      assert a + b == a;
    } else {
      var init := b[..|b| - 1];
      assert (a + b)[..|a + b| - 1] == a + init;
      SegmentsAppend(a, init);
    }
  }

  /** The path is rendered with every component spelled out, so a pattern
      found in any one component (a directory's name as much as the file's)
      is found in the rendered path. */
  lemma {:induction false} ComponentsInRender(p: Path, pat: string)
    ensures forall k :: 0 <= k < |p| && Contains(p[k], pat) ==> Contains(Render(p), pat)
  {
    forall k | 0 <= k < |p| && Contains(p[k], pat)
      ensures Contains(Render(p), pat)
    {
      ComponentInRender(p, k, pat);
    }
  }

  lemma {:induction false} ComponentInRender(p: Path, k: nat, pat: string)
    requires k < |p| && Contains(p[k], pat)
    ensures Contains(Render(p), pat)
  {
    var name := p[k];
    var pre := Segments(p[..k]) + "/";
    var post := Segments(p[k + 1..]);
    assert Render(p) == pre + name + post by {
      assert p == p[..k] + ([name] + p[k + 1..]);
      SegmentsAppend(p[..k], [name] + p[k + 1..]);
      SegmentsAppend([name], p[k + 1..]);
      assert [name][..0] == [];
    }
    var i :| 0 <= i <= |name| && StartsWith(name[i..], pat);
    assert StartsWith((pre + name + post)[|pre| + i..], pat) by {
      assert (pre + name + post)[|pre| + i..] == name[i..] + post;
    }
  }
}
