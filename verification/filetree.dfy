/** The scratch directory a port rewrites, as an immutable map from path to
    entry, and the single operating-system calls the fs layer is built from:
    `mkdir(parents=True, exist_ok=True)`, `unlink`, `shutil.rmtree`,
    `rename`, `shutil.copy2` and opening a file for writing. Each returns the
    new tree or the error Python would raise. The root (the empty path) is an
    implicit directory and never a key. */
module FileTree {
  import opened Results
  import opened Paths
  import opened Packages

  /** A manifest written by a port is kept as its record rather than as JSON
      text. */
  datatype Node = Dir | File(content: string) | Manifest(doc: Document)

  type Tree = map<Path, Node>

  /** The exceptions the modelled code can raise. */
  datatype Error =
    | NotFound(path: Path)                    // FileNotFoundError
    | FileExists(path: Path)                  // FileExistsError
    | NotADirectory(path: Path)               // NotADirectoryError
    | IsADirectory(path: Path)                // IsADirectoryError
    | DirectoryNotEmpty(path: Path)           // OSError(ENOTEMPTY)
    | InvalidRename(path: Path)               // OSError(EINVAL): a directory into itself
    | SameFile(path: Path)                    // shutil.SameFileError
    | NotRelative(path: Path, whence: Path)   // ValueError from relative_to
    | EmptyRelative(path: Path)               // IndexError from relpath.parts[0]
    | ParentEscape(path: Path, whence: Path)  // the RuntimeError of move_files/copy_files
    | NotText(path: Path)                     // a manifest record read as text
    | MissingMember(member: string)           // KeyError from ZipFile.open
    | EmptyName(url: string)                  // ValueError from with_suffix

  predicate Exists(t: Tree, p: Path) {
    p == [] || p in t
  }

  predicate IsDir(t: Tree, p: Path) {
    p == [] || (p in t && t[p].Dir?)
  }

  /** What every real directory tree satisfies: the root is not an entry,
      every entry sits in a directory, and no entry is named `..`, `.` or
      nothing. */
  ghost predicate WellFormed(t: Tree) {
    && [] !in t
    && (forall p :: p in t ==> IsDir(t, Parent(p)))
    && (forall p :: p in t ==> ProperPath(p))
  }

  /** Every existing entry on the way from the root down to `p`, `p`
      included, is a directory. */
  ghost predicate DirsAlong(t: Tree, p: Path) {
    forall q :: q in t && IsPrefix(q, p) ==> t[q].Dir?
  }

  /** In a well-formed tree every proper ancestor of an entry is a directory. */
  lemma {:induction false} AncestorsAreDirs(t: Tree, p: Path, q: Path)
    requires WellFormed(t) && p in t
    requires IsPrefix(q, p) && q != p
    ensures IsDir(t, q)
    decreases |p|
  {
    var parent := Parent(p);
    if q != parent {
      assert IsPrefix(q, parent) by {
        assert |q| < |p|;
        assert parent[..|q|] == p[..|q|];
      }
      if parent != [] {
        AncestorsAreDirs(t, parent, q);
      }
    }
  }

  /** `Path.mkdir(parents=True, exist_ok=True)`. */
  function MakeDirs(t: Tree, p: Path): (r: Result<Tree, Error>)
    ensures r.Ok? ==> forall q :: q in t ==> q in r.value && r.value[q] == t[q]
    ensures r.Ok? ==> forall q :: q in r.value && q !in t ==> r.value[q] == Dir && q != [] && IsPrefix(q, p)
    ensures r.Ok? ==> IsDir(r.value, p)
    ensures WellFormed(t) ==> (r.Ok? <==> DirsAlong(t, p))
    ensures WellFormed(t) && ProperPath(p) && r.Ok? ==> WellFormed(r.value)
    decreases |p|
  {
    if p == [] then Ok(t)
    else
      PrefixesOfParent(p);
      ParentProper(p);
      if p in t then
        if t[p].Dir? then
          DirsAlongExisting(t, p); Ok(t)
        else Err(FileExists(p))
      else if Parent(p) in t && !t[Parent(p)].Dir? then Err(NotADirectory(p))
      else
        match MakeDirs(t, Parent(p))
        case Err(e) => Err(e)
        case Ok(t1) => Ok(t1[p := Dir])
  }

  lemma PrefixesOfParent(p: Path)
    requires p != []
    ensures forall q :: IsPrefix(q, Parent(p)) ==> IsPrefix(q, p)
    ensures forall q :: IsPrefix(q, p) && q != p ==> IsPrefix(q, Parent(p))
  {
    forall q | IsPrefix(q, Parent(p)) ensures IsPrefix(q, p) {
      PrefixTransitive(q, Parent(p), p);
    }
    forall q | IsPrefix(q, p) && q != p ensures IsPrefix(q, Parent(p)) {
      assert Parent(p)[..|q|] == p[..|q|];
    }
  }

  lemma DirsAlongExisting(t: Tree, p: Path)
    requires p in t && t[p].Dir?
    ensures WellFormed(t) ==> DirsAlong(t, p)
  {
    if WellFormed(t) {
      forall q | q in t && IsPrefix(q, p) ensures t[q].Dir? {
        if q != p { AncestorsAreDirs(t, p, q); }
      }
    }
  }

  /** `Path.unlink()`. */
  function Unlink(t: Tree, p: Path): (r: Result<Tree, Error>)
    ensures r.Ok? <==> p != [] && p in t && !t[p].Dir?
    ensures r.Ok? ==> r.value == t - {p}
    ensures WellFormed(t) && r.Ok? ==> WellFormed(r.value)
  {
    if IsDir(t, p) then Err(IsADirectory(p))
    else if p !in t then Err(NotFound(p))
    else Ok(t - {p})
  }

  /** `shutil.rmtree`: the directory and everything below it disappear. */
  function RemoveTree(t: Tree, p: Path): (r: Result<Tree, Error>)
    ensures r.Ok? <==> IsDir(t, p)
    ensures r.Ok? ==> forall q :: q in r.value <==> q in t && !IsPrefix(p, q)
    ensures r.Ok? ==> forall q :: q in r.value ==> r.value[q] == t[q]
    ensures WellFormed(t) && r.Ok? ==> WellFormed(r.value)
  {
    if !Exists(t, p) then Err(NotFound(p))
    else if !IsDir(t, p) then Err(NotADirectory(p))
    else
      var r := map q | q in t && !IsPrefix(p, q) :: t[q];
      assert forall q :: q in r && q != [] ==> !IsPrefix(p, Parent(q)) by {
        forall q | q in r && q != [] ensures !IsPrefix(p, Parent(q)) {
          AncestorOfParent(p, q);
        }
      }
      Ok(r)
  }

  /** Opening `p` for writing and writing `n` into it (`open(p, "w")`,
      `write_text`, `write_bytes`): the file is created or truncated. */
  function Put(t: Tree, p: Path, n: Node): (r: Result<Tree, Error>)
    requires !n.Dir?
    ensures r.Ok? <==> !IsDir(t, p) && IsDir(t, Parent(p))
    ensures r.Ok? ==> r.value == t[p := n]
    ensures WellFormed(t) && ProperPath(p) && r.Ok? ==> WellFormed(r.value)
  {
    if IsDir(t, p) then Err(IsADirectory(p))
    else if !IsDir(t, Parent(p)) then
      if Exists(t, Parent(p)) then Err(NotADirectory(p)) else Err(NotFound(p))
    else Ok(t[p := n])
  }

  /** Writing a new top-level file with a proper name keeps a tree well
      formed. */
  lemma PutTop(t: Tree, name: string, n: Node)
    requires WellFormed(t) && ProperName(name) && !n.Dir? && !IsDir(t, [name])
    ensures Put(t, [name], n) == Ok(t[[name] := n]) && WellFormed(t[[name] := n])
  {
    assert Parent([name]) == [] && ProperPath([name]);
  }

  /** `dst` holds no entry below it. */
  predicate Childless(t: Tree, dst: Path) {
    forall q :: q in t ==> !Under(q, dst)
  }

  /** `os.rename(src, dst)`. A file replaces a file at `dst`; a directory
      replaces an empty directory and carries its whole subtree along. */
  function Rename(t: Tree, src: Path, dst: Path): (r: Result<Tree, Error>)
    ensures r.Ok? ==> Exists(t, src) && IsDir(t, Parent(dst))
    ensures r.Ok? && src != dst && !IsDir(t, src) ==>
      !IsDir(t, dst) && r.value == (t - {src})[dst := t[src]]
    ensures r.Ok? && src != dst && IsDir(t, src) ==>
      && !IsPrefix(src, dst) && (IsDir(t, dst) || dst !in t) && Childless(t, dst)
      && r.value == CarrySubtree(t, src, dst)
    ensures Exists(t, src) && IsDir(t, Parent(dst)) && !IsDir(t, src) && (src == dst || !IsDir(t, dst))
      ==> r.Ok?
    ensures && Exists(t, src) && IsDir(t, Parent(dst)) && IsDir(t, src) && src != dst
            && !IsPrefix(src, dst) && (dst in t ==> t[dst].Dir?) && Childless(t, dst)
      ==> r.Ok?
    ensures WellFormed(t) && ProperPath(dst) && r.Ok? ==> WellFormed(r.value)
  {
    if !Exists(t, src) then Err(NotFound(src))
    else if !IsDir(t, Parent(dst)) then
      if Exists(t, Parent(dst)) then Err(NotADirectory(dst)) else Err(NotFound(dst))
    else if src == dst then Ok(t)
    else if !IsDir(t, src) then
      if IsDir(t, dst) then Err(IsADirectory(dst))
      else MoveFileKeepsWellFormed(t, src, dst); Ok((t - {src})[dst := t[src]])
    else if IsPrefix(src, dst) then Err(InvalidRename(dst))
    else if dst in t && !t[dst].Dir? then Err(NotADirectory(dst))
    else if !Childless(t, dst) then Err(DirectoryNotEmpty(dst))
    else CarryKeepsWellFormed(t, src, dst); Ok(CarrySubtree(t, src, dst))
  }

  lemma MoveFileKeepsWellFormed(t: Tree, src: Path, dst: Path)
    requires src in t && !t[src].Dir? && IsDir(t, Parent(dst)) && !IsDir(t, dst) && src != dst
    ensures WellFormed(t) && ProperPath(dst) ==> WellFormed((t - {src})[dst := t[src]])
  {
    if WellFormed(t) && ProperPath(dst) {
      var r := (t - {src})[dst := t[src]];
      forall q | q in r ensures IsDir(r, Parent(q)) && ProperPath(q) {
        var pq := Parent(q);
        if q != dst {
          assert q in t;
        }
        assert IsDir(t, pq) && pq != src;
      }
    }
  }

  lemma CarryKeepsWellFormed(t: Tree, src: Path, dst: Path)
    requires IsDir(t, src) && !IsPrefix(src, dst) && IsDir(t, Parent(dst))
    requires (dst in t ==> t[dst].Dir?) && Childless(t, dst)
    ensures WellFormed(t) && ProperPath(dst) ==> WellFormed(CarrySubtree(t, src, dst))
  {
    if WellFormed(t) && ProperPath(dst) {
      var r := CarrySubtree(t, src, dst);
      assert dst != [] by {
        assert src in t && !Under(src, dst);
      }
      forall q | q in r ensures IsDir(r, Parent(q)) {
        if IsPrefix(dst, q) {
          CarriedParent(t, src, dst, q);
        } else {
          KeptParent(t, src, dst, q);
        }
      }
      forall q | q in r ensures ProperPath(q) {
        CarriedProper(t, src, dst, q);
      }
    }
  }

  lemma CarriedProper(t: Tree, src: Path, dst: Path, q: Path)
    requires WellFormed(t) && ProperPath(dst) && Childless(t, dst)
    requires q in CarrySubtree(t, src, dst)
    ensures ProperPath(q)
  {
    if IsPrefix(dst, q) {
      var rel := q[|dst|..];
      ProperParts(src + rel, |src|);
      assert (src + rel)[|src|..] == rel;
      assert q == dst + rel;
      ProperConcat(dst, rel);
    }
  }

  lemma KeptParent(t: Tree, src: Path, dst: Path, q: Path)
    requires WellFormed(t) && Childless(t, dst)
    requires q in t && !IsPrefix(src, q) && !IsPrefix(dst, q)
    ensures IsDir(CarrySubtree(t, src, dst), Parent(q))
  {
    var pq := Parent(q);
    AncestorOfParent(src, q);
    AncestorOfParent(dst, q);
  }

  lemma CarriedParent(t: Tree, src: Path, dst: Path, q: Path)
    requires WellFormed(t) && Childless(t, dst) && dst != []
    requires !IsPrefix(src, dst) && IsDir(t, Parent(dst))
    requires q in CarrySubtree(t, src, dst) && IsPrefix(dst, q)
    ensures IsDir(CarrySubtree(t, src, dst), Parent(q))
  {
    if q == dst {
      CarriedRootParent(t, src, dst);
    } else {
      var rel := q[|dst|..];
      assert q == dst + rel;
      CarriedInnerParent(t, src, dst, rel);
    }
  }

  lemma CarriedRootParent(t: Tree, src: Path, dst: Path)
    requires WellFormed(t) && Childless(t, dst) && dst != []
    requires !IsPrefix(src, dst) && IsDir(t, Parent(dst))
    ensures IsDir(CarrySubtree(t, src, dst), Parent(dst))
  {
    var r := CarrySubtree(t, src, dst);
    var pd := Parent(dst);
    AncestorOfParent(src, dst);
    if pd != [] {
      assert !IsPrefix(dst, pd);
      assert pd in t && !IsPrefix(src, pd);
      assert pd in r && r[pd] == t[pd];
    }
  }

  lemma CarriedInnerParent(t: Tree, src: Path, dst: Path, rel: Path)
    requires WellFormed(t) && Childless(t, dst)
    requires src != [] && rel != [] && src + rel in t
    ensures IsDir(CarrySubtree(t, src, dst), Parent(dst + rel))
  {
    var r := CarrySubtree(t, src, dst);
    var prel := rel[..|rel| - 1];
    InnerParents(src, dst, rel);
    assert IsDir(t, src + prel);
    var pq := dst + prel;
    assert src + pq[|dst|..] in t;
    assert pq in r && r[pq] == t[src + prel];
  }

  lemma InnerParents(src: Path, dst: Path, rel: Path)
    requires src != [] && rel != []
    ensures Parent(src + rel) == src + rel[..|rel| - 1] && src + rel[..|rel| - 1] != []
    ensures Parent(dst + rel) == dst + rel[..|rel| - 1]
    ensures IsPrefix(dst, dst + rel[..|rel| - 1]) && (dst + rel[..|rel| - 1])[|dst|..] == rel[..|rel| - 1]
  {
    var prel := rel[..|rel| - 1];
    assert (src + rel)[..|src + rel| - 1] == src + prel;
    assert (dst + rel)[..|dst + rel| - 1] == dst + prel;
    assert (dst + prel)[..|dst|] == dst;
  }

  /** The tree after the directory `src` is renamed to the fresh or empty
      `dst`. */
  function CarrySubtree(t: Tree, src: Path, dst: Path): (r: Tree)
    requires Childless(t, dst)
    ensures forall q :: q in r <==>
      || (q in t && !IsPrefix(src, q) && !IsPrefix(dst, q))
      || (IsPrefix(dst, q) && src + q[|dst|..] in t)
    ensures forall q :: q in r && !IsPrefix(dst, q) ==> r[q] == t[q]
    ensures forall q :: q in r && IsPrefix(dst, q) ==> r[q] == t[src + q[|dst|..]]
  {
    RebaseInjectiveBelow(src, dst);
    var kept := map q | q in t && !IsPrefix(src, q) && !IsPrefix(dst, q) :: t[q];
    var carried := map q | q in t && IsPrefix(src, q) :: Rebase(q, src, dst) := t[q];
    forall q | IsPrefix(dst, q) && src + q[|dst|..] in t
      ensures q in carried && carried[q] == t[src + q[|dst|..]]
    {
      var q0 := src + q[|dst|..];
      assert q0[..|src|] == src && q0[|src|..] == q[|dst|..];
      assert Rebase(q0, src, dst) == q;
    }
    forall q | q in carried
      ensures IsPrefix(dst, q) && src + q[|dst|..] in t
    {
      var q0 :| q0 in t && IsPrefix(src, q0) && q == Rebase(q0, src, dst);
      assert q[..|dst|] == dst;
      assert q0 == src + q[|dst|..];
    }
    kept + carried
  }

  lemma AncestorOfParent(p: Path, q: Path)
    requires q != []
    ensures IsPrefix(p, Parent(q)) ==> IsPrefix(p, q)
  {
    if IsPrefix(p, Parent(q)) {
      PrefixTransitive(p, Parent(q), q);
    }
  }

  lemma RebaseInjectiveBelow(src: Path, dst: Path)
    ensures forall q1, q2 ::
      (IsPrefix(src, q1) && IsPrefix(src, q2) && Rebase(q1, src, dst) == Rebase(q2, src, dst)) ==> q1 == q2
  {
    forall q1, q2 | IsPrefix(src, q1) && IsPrefix(src, q2) && Rebase(q1, src, dst) == Rebase(q2, src, dst)
      ensures q1 == q2
    {
      RebaseInjective(q1, q2, src, dst);
    }
  }

  /** `shutil.copy2(src, dst)`: a copy of the file at `src` is written to
      `dst`, or into `dst` under the source's name when `dst` is a directory. */
  function CopyFile(t: Tree, src: Path, dst: Path): (r: Result<Tree, Error>)
    ensures r.Ok? ==> src != [] && src in t && !t[src].Dir?
    ensures r.Ok? ==> src in r.value && r.value[src] == t[src]
    ensures r.Ok? ==> var target := CopyTarget(t, src, dst);
      target != src && r.value == t[target := t[src]]
    ensures src != [] && src in t && !t[src].Dir? ==>
      var target := CopyTarget(t, src, dst);
      (target != src && !IsDir(t, target) && IsDir(t, Parent(target)) ==> r.Ok?)
    ensures WellFormed(t) && ProperPath(dst) && r.Ok? ==> WellFormed(r.value)
  {
    if src == [] then Err(IsADirectory(src))
    else
      var target := CopyTarget(t, src, dst);
      CopyTargetProper(t, src, dst);
      if src in t && src == target then Err(SameFile(src))
      else if src !in t then Err(NotFound(src))
      else if t[src].Dir? then Err(IsADirectory(src))
      else Put(t, target, t[src])
  }

  function CopyTarget(t: Tree, src: Path, dst: Path): Path
    requires src != []
  {
    if IsDir(t, dst) then dst + [Name(src)] else dst
  }

  /** A copy into a proper directory keeps the source's proper name. */
  lemma CopyTargetProper(t: Tree, src: Path, dst: Path)
    requires src != []
    ensures WellFormed(t) && src in t && ProperPath(dst) ==> ProperPath(CopyTarget(t, src, dst))
  {
    if WellFormed(t) && src in t && ProperPath(dst) && IsDir(t, dst) {
      assert ProperName(src[|src| - 1]);
      ProperConcat(dst, [Name(src)]);
    }
  }
}
