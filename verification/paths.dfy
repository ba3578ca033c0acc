/** Filesystem paths as the directory walk sees them.

A path is a sequence of components. A component is what `os.walk` reports as a
directory or file name: non-empty and free of '/'. Joining a relative path onto a
root is concatenation, and taking a path relative to a root removes that root as
a prefix. `Render` gives the POSIX string form, which is what `os.path.join`
builds from the same components, except for the filesystem root `[]`, which
renders as "" rather than "/".
 */
module Paths {

  datatype Option<T> = None | Some(value: T)

  /** A single path component: non-empty and without a separator. */
  predicate ValidName(c: string)
  {
    |c| > 0 && '/' !in c
  }

  type Name = c: string | ValidName(c) witness "a"

  type Path = seq<Name>

  /** `os.path.relpath(p, root)` for a `p` at or below `root`. A `p` outside `root`
      would need '..' components, which this model does not have: it gives None. */
  function RelPath(p: Path, root: Path): (r: Option<Path>)
    ensures r.Some? <==> root <= p
    ensures r.Some? ==> root + r.value == p
  {
    if root <= p then Some(p[|root|..]) else None
  }

  /** The directory part of a path: everything but its last component. */
  function DirName(p: Path): (d: Path)
    requires |p| > 0
    ensures d + [p[|p| - 1]] == p
  {
    p[..|p| - 1]
  }

  /** The absolute POSIX string of a path: "/" before every component. The root
      itself renders as "" (POSIX writes "/"); every other path is exact. */
  function Render(p: Path): string
  {
    if |p| == 0 then "" else "/" + p[0] + Render(p[1..])
  }

  /** Relative-path round trip: the part of `root + rel` below `root` is `rel`. */
  lemma RelPathOfJoin(root: Path, rel: Path)
    ensures RelPath(root + rel, root) == Some(rel)
  {
    assert (root + rel)[|root|..] == rel;
  }

  /** Rendering distributes over joining a relative path onto a root. */
  lemma {:induction false} RenderAppend(a: Path, b: Path)
    ensures Render(a + b) == Render(a) + Render(b)
    decreases |a|
  {
    if |a| == 0 {
      assert a + b == b;
    } else {
      assert (a + b)[0] == a[0];
      assert (a + b)[1..] == a[1..] + b;
      RenderAppend(a[1..], b);
    }
  }

  /** A rendered path is empty or starts with a separator. */
  lemma RenderShape(p: Path)
    ensures Render(p) == "" <==> |p| == 0
    ensures |Render(p)| > 0 ==> Render(p)[0] == '/'
  {
  }

  /** In "/" + c + r, where r is empty or a rendered path, the first separator after
      the leading one ends the component c. */
  lemma SeparatorAfterHead(c: Name, r: string)
    requires r == "" || r[0] == '/'
    ensures forall k :: 1 <= k < 1 + |c| ==> ("/" + c + r)[k] == c[k - 1] != '/'
    ensures r == "" ==> |"/" + c + r| == 1 + |c|
    ensures r != "" ==> ("/" + c + r)[1 + |c|] == '/'
  {
    forall k | 1 <= k < 1 + |c|
      ensures ("/" + c + r)[k] == c[k - 1] != '/'
    {
      assert c[k - 1] in c;
    }
  }

  /** Distinct component paths render to distinct strings, because no component
      holds a separator. */
  lemma {:induction false} RenderInjective(p: Path, q: Path)
    requires Render(p) == Render(q)
    ensures p == q
    decreases |p|
  {
    RenderShape(p);
    RenderShape(q);
    if |p| == 0 || |q| == 0 {
      return;
    }
    var c, d := p[0], q[0];
    var s := Render(p);
    var rp, rq := Render(p[1..]), Render(q[1..]);
    RenderShape(p[1..]);
    RenderShape(q[1..]);
    assert s == "/" + c + rp == "/" + d + rq;
    SeparatorAfterHead(c, rp);
    SeparatorAfterHead(d, rq);
    assert c == s[1..1 + |c|] == d;
    assert rp == s[1 + |c|..] == rq;
    RenderInjective(p[1..], q[1..]);
    assert p == [c] + p[1..];
    assert q == [d] + q[1..];
  }
}
