/** Paths as sequences of segment names, relative to the root of the scratch
    directory a port works in. The root itself is the empty path. `/` on
    `pathlib.Path` is sequence concatenation and `relative_to` strips a
    prefix. Paths are lexical: a `..` segment is kept as it is, exactly as
    `PurePath` keeps it, and nothing here resolves it. */
module Paths {
  import opened Results

  type Path = seq<string>

  /** A name a directory entry can have: `pathlib` never yields an empty or
      `.` part, and no entry is called `..`. */
  predicate ProperName(s: string) {
    s != "" && s != "." && s != ".."
  }

  /** Every segment of `p` is a proper name, so `p` climbs nowhere. */
  predicate ProperPath(p: Path) {
    forall i :: 0 <= i < |p| ==> ProperName(p[i])
  }

  /** A path is proper exactly when both of its parts are. */
  lemma ProperConcat(a: Path, b: Path)
    ensures ProperPath(a + b) <==> ProperPath(a) && ProperPath(b)
  {
    if ProperPath(a + b) {
      forall i | 0 <= i < |a| ensures ProperName(a[i]) {
        assert a[i] == (a + b)[i];
      }
      forall i | 0 <= i < |b| ensures ProperName(b[i]) {
        assert b[i] == (a + b)[|a| + i];
      }
    }
    if ProperPath(a) && ProperPath(b) {
      forall i | 0 <= i < |a + b| ensures ProperName((a + b)[i]) {
        if i >= |a| {
          assert (a + b)[i] == b[i - |a|];
        }
      }
    }
  }

  /** Every ancestor and every remainder of a proper path is proper. */
  lemma ProperParts(p: Path, k: nat)
    requires ProperPath(p) && k <= |p|
    ensures ProperPath(p[..k]) && ProperPath(p[k..])
  {
    assert p == p[..k] + p[k..];
    ProperConcat(p[..k], p[k..]);
  }

  /** The parent of a proper path is proper. */
  lemma ParentProper(p: Path)
    requires p != []
    ensures ProperPath(p) ==> ProperPath(Parent(p))
  {
    if ProperPath(p) {
      ProperParts(p, |p| - 1);
    }
  }

  /** `p` is `q` or an ancestor of `q`. */
  predicate IsPrefix(p: Path, q: Path) {
    |p| <= |q| && q[..|p|] == p
  }

  /** `p` lies strictly below `base`. */
  predicate Under(p: Path, base: Path) {
    |base| < |p| && p[..|base|] == base
  }

  function Parent(p: Path): (r: Path)
    ensures p != [] ==> |r| + 1 == |p| && IsPrefix(r, p)
  {
    if p == [] then [] else p[..|p| - 1]
  }

  /** `p.name` for a non-root path. */
  function Name(p: Path): string
    requires p != []
  {
    p[|p| - 1]
  }

  /** `PurePath.relative_to`: the remainder of `p` below `whence`, or `None`
      (Python's `ValueError`) when `whence` is not an ancestor of `p`. */
  function RelativeTo(p: Path, whence: Path): (r: Option<Path>)
    ensures r.Some? <==> IsPrefix(whence, p)
    ensures r.Some? ==> whence + r.value == p
  {
    if IsPrefix(whence, p) then Some(p[|whence|..]) else None
  }

  /** `into / p.relative_to(whence)`: the place a file relocated from below
      `whence` to below `into` ends up. */
  function Rebase(p: Path, whence: Path, into: Path): Path
    requires IsPrefix(whence, p)
  {
    into + p[|whence|..]
  }

  /** The relocated path, taken relative to `into`, is the original path taken
      relative to `whence`: relocation keeps relative paths. */
  lemma RebaseKeepsRelativePath(p: Path, whence: Path, into: Path)
    requires IsPrefix(whence, p)
    ensures RelativeTo(Rebase(p, whence, into), into) == RelativeTo(p, whence)
  {
    var rel := p[|whence|..];
    assert (into + rel)[..|into|] == into;
    assert (into + rel)[|into|..] == rel;
  }

  /** Relocation maps distinct paths to distinct paths. */
  lemma RebaseInjective(p: Path, q: Path, whence: Path, into: Path)
    requires IsPrefix(whence, p) && IsPrefix(whence, q)
    requires Rebase(p, whence, into) == Rebase(q, whence, into)
    ensures p == q
  {
    assert p[|whence|..] == Rebase(p, whence, into)[|into|..];
    assert q[|whence|..] == Rebase(q, whence, into)[|into|..];
    assert p == whence + p[|whence|..];
    assert q == whence + q[|whence|..];
  }

  lemma PrefixTransitive(p: Path, q: Path, r: Path)
    requires IsPrefix(p, q) && IsPrefix(q, r)
    ensures IsPrefix(p, r)
  {
    assert r[..|p|] == r[..|q|][..|p|];
  }

  /** Two ancestors of one path are ancestors one of the other. */
  lemma PrefixesComparable(p: Path, q: Path, r: Path)
    requires IsPrefix(p, r) && IsPrefix(q, r)
    ensures IsPrefix(p, q) || IsPrefix(q, p)
  {
    if |p| <= |q| {
      assert q[..|p|] == r[..|q|][..|p|];
    } else {
      assert p[..|q|] == r[..|p|][..|q|];
    }
  }
}
