/** What `move_files` does to a whole subtree when its files are the recursive
    glob of everything below `S`, with `whence=W` and `into=I`, whatever order the glob yields its entries in: every entry
    strictly below `S` reappears at the same relative place below
    `R = I / S.relative_to(W)`, every file below `S` is gone from its old
    place, the directories below `S` stay (empty of files), and nothing else
    changes except the directories made on the way to `R`. This is the step
    the ports use to regroup a checkout into `libs/<name>/...`. */
module Relocation {
  import opened Results
  import opened Paths
  import opened FileTree
  import opened Fs

  /** When the regions below `S` and below its target `R` are unrelated, `R`
      is fresh, everything on the way to `R` is a directory and `into` climbs
      nowhere. */
  ghost predicate Setting(t: Tree, whence: Path, into: Path, S: Path) {
    && WellFormed(t)
    && Under(S, whence) && S[|whence|] != ".."
    && ProperPath(into)
    && var R := Rebase(S, whence, into);
       && !IsPrefix(S, R) && !IsPrefix(R, S)
       && (forall q :: q in t ==> !IsPrefix(R, q))
       && DirsAlong(t, R)
  }

  /** `g` relocated from below `S` to below `R`. */
  function Moved(g: Path, S: Path, R: Path): Path
    requires IsPrefix(S, g)
  {
    R + g[|S|..]
  }

  /** The entry below `S` that a path below `R` came from. */
  function Origin(q: Path, S: Path, R: Path): Path
    requires IsPrefix(R, q)
  {
    S + q[|R|..]
  }

  /** The state after the entries `done` have been moved. */
  ghost predicate Relocated(t: Tree, u: Tree, done: seq<Path>, S: Path, R: Path) {
    && WellFormed(u)
    && (forall g :: g in done ==> Under(g, S) && g in t)
    && MovedKept(t, u, done, S, R)
    && FilesGone(t, u, done)
    && OthersKept(t, u, done)
    && NewExplained(t, u, S, R)
  }

  /** Each moved entry is at its new place with its old content. */
  ghost predicate MovedKept(t: Tree, u: Tree, done: seq<Path>, S: Path, R: Path) {
    forall g :: g in done && g in t && Under(g, S) ==> Moved(g, S, R) in u && u[Moved(g, S, R)] == t[g]
  }

  /** Each moved file has left its old place. */
  ghost predicate FilesGone(t: Tree, u: Tree, done: seq<Path>) {
    forall g :: g in done && g in t && !t[g].Dir? ==> g !in u
  }

  /** Every entry that is not a moved file is where it was. */
  ghost predicate OthersKept(t: Tree, u: Tree, done: seq<Path>) {
    forall p :: p in t && !(p in done && !t[p].Dir?) ==> p in u && u[p] == t[p]
  }

  /** Every new entry is a directory on the way to `R` or a relocated entry. */
  ghost predicate NewExplained(t: Tree, u: Tree, S: Path, R: Path) {
    forall q :: q in u && q !in t ==>
      || (IsPrefix(q, R) && u[q] == Dir)
      || (Under(q, R) && Origin(q, S, R) in t && u[q] == t[Origin(q, S, R)])
  }

  lemma RebaseBelow(g: Path, S: Path, whence: Path, into: Path)
    requires IsPrefix(whence, S) && IsPrefix(S, g)
    ensures IsPrefix(whence, g)
    ensures Rebase(g, whence, into) == Moved(g, S, Rebase(S, whence, into))
  {
    PrefixTransitive(whence, S, g);
    assert g[|whence|..] == S[|whence|..] + g[|S|..] by {
      assert g == S + g[|S|..];
      assert S == whence + S[|whence|..];
    }
  }

  /** Nothing below `S` is an ancestor of anything below `R`. */
  lemma Unrelated(S: Path, R: Path, g: Path, d: Path)
    requires !IsPrefix(S, R) && !IsPrefix(R, S)
    requires IsPrefix(S, g) && IsPrefix(R, d)
    ensures !IsPrefix(g, d)
  {
    if IsPrefix(g, d) {
      PrefixTransitive(S, g, d);
      PrefixesComparable(S, R, d);
    }
  }

  /** An ancestor of a moved path below `R` comes from an ancestor of the
      original below `S`. */
  lemma OriginOfAncestor(f: Path, S: Path, R: Path, q: Path)
    requires IsPrefix(S, f) && IsPrefix(R, q) && IsPrefix(q, Moved(f, S, R))
    ensures IsPrefix(Origin(q, S, R), f)
    ensures Origin(q, S, R) == f <==> q == Moved(f, S, R)
  {
    var d := Moved(f, S, R);
    assert q[|R|..] == d[|R|..][..|q| - |R|];
    assert d[|R|..] == f[|S|..];
    assert f == S + f[|S|..];
    assert q == R + q[|R|..];
  }

  lemma MovedIsBelow(f: Path, S: Path, R: Path)
    requires Under(f, S)
    ensures Under(Moved(f, S, R), R)
    ensures Origin(Moved(f, S, R), S, R) == f
  {
    assert f == S + f[|S|..];
  }

  /** Everything on the way to the target of an unmoved entry is a directory
      (the target itself only when the entry is a directory). */
  lemma AncestorOfTargetIsDir(t: Tree, u: Tree, done: seq<Path>, S: Path, R: Path, f: Path, q: Path)
    requires WellFormed(t) && Under(S, []) && !IsPrefix(S, R) && !IsPrefix(R, S)
    requires (forall p :: p in t ==> !IsPrefix(R, p)) && DirsAlong(t, R)
    requires Relocated(t, u, done, S, R)
    requires f in t && Under(f, S) && f !in done
    requires q in u && IsPrefix(q, Moved(f, S, R))
    requires q == Moved(f, S, R) ==> t[f].Dir?
    ensures u[q].Dir?
  {
    var d := Moved(f, S, R);
    assert IsPrefix(R, d);
    PrefixesComparable(q, R, d);
    if q in t {
      assert IsPrefix(q, R);
      assert t[q].Dir?;
      assert !(q in done && !t[q].Dir?);
    } else if !IsPrefix(q, R) {
      assert Under(q, R);
      var o := Origin(q, S, R);
      OriginOfAncestor(f, S, R, q);
      if o != f {
        AncestorsAreDirs(t, f, o);
      }
    }
  }

  /** The destination of the next entry can be made: `mkdir` of it (for a
      directory) or of its parent (for a file) succeeds. */
  lemma TargetDirsAlong(t: Tree, u: Tree, done: seq<Path>, S: Path, R: Path, f: Path, p: Path)
    requires WellFormed(t) && Under(S, []) && !IsPrefix(S, R) && !IsPrefix(R, S)
    requires (forall q :: q in t ==> !IsPrefix(R, q)) && DirsAlong(t, R)
    requires Relocated(t, u, done, S, R)
    requires f in t && Under(f, S) && f !in done
    requires p == Moved(f, S, R) || (p == Parent(Moved(f, S, R)))
    requires p == Moved(f, S, R) ==> t[f].Dir?
    ensures DirsAlong(u, p)
  {
    var d := Moved(f, S, R);
    forall q | q in u && IsPrefix(q, p) ensures u[q].Dir? {
      if p != d {
        PrefixTransitive(q, p, d);
      }
      AncestorOfTargetIsDir(t, u, done, S, R, f, q);
    }
  }

  /** A directory made on the way to the next target keeps the description of
      the relocated state. */
  lemma NewDirOnTheWay(t: Tree, S: Path, R: Path, f: Path, q: Path)
    requires WellFormed(t) && Under(S, [])
    requires (forall p :: p in t ==> !IsPrefix(R, p))
    requires f in t && Under(f, S)
    requires q !in t && IsPrefix(q, Moved(f, S, R))
    requires q == Moved(f, S, R) ==> t[f].Dir?
    ensures || IsPrefix(q, R)
            || (Under(q, R) && Origin(q, S, R) in t && t[Origin(q, S, R)] == Dir)
  {
    var d := Moved(f, S, R);
    assert IsPrefix(R, d);
    PrefixesComparable(q, R, d);
    if !IsPrefix(q, R) {
      var o := Origin(q, S, R);
      OriginOfAncestor(f, S, R, q);
      if o != f {
        AncestorsAreDirs(t, f, o);
      }
    }
  }

  /** Moving a directory entry: only its target directory is made. */
  lemma StepDirectory(t: Tree, u: Tree, done: seq<Path>, whence: Path, into: Path, S: Path, f: Path)
    requires Setting(t, whence, into, S)
    requires Relocated(t, u, done, S, Rebase(S, whence, into))
    requires f in t && Under(f, S) && f !in done && t[f].Dir?
    ensures TransferOne(Move, u, into, whence, f).Succeeded()
    ensures Relocated(t, TransferOne(Move, u, into, whence, f).tree, done + [f], S, Rebase(S, whence, into))
  {
    var R := Rebase(S, whence, into);
    var d := Moved(f, S, R);
    var u1 := DirTargetReady(t, u, done, whence, into, S, f);
    MovedKeptAfterMake(t, u, u1, done, S, R, f);
    FilesGoneAfterMake(t, u, u1, done, S, R, f);
    NewExplainedAfterMake(t, u, u1, S, R, f);
  }

  lemma MovedKeptAfterMake(t: Tree, u: Tree, u1: Tree, done: seq<Path>, S: Path, R: Path, f: Path)
    requires MovedKept(t, u, done, S, R)
    requires f in t && Under(f, S)
    requires forall q :: q in u ==> q in u1 && u1[q] == u[q]
    requires Moved(f, S, R) in u1 && u1[Moved(f, S, R)] == t[f]
    ensures MovedKept(t, u1, done + [f], S, R)
  {
    forall g | g in done + [f] && g in t && Under(g, S) ensures Moved(g, S, R) in u1 && u1[Moved(g, S, R)] == t[g] {
      if g != f {
        assert g in done;
      }
    }
  }

  lemma FilesGoneAfterMake(t: Tree, u: Tree, u1: Tree, done: seq<Path>, S: Path, R: Path, f: Path)
    requires !IsPrefix(S, R) && !IsPrefix(R, S)
    requires FilesGone(t, u, done) && forall g :: g in done ==> Under(g, S)
    requires f in t && Under(f, S) && t[f].Dir?
    requires forall q :: q in u1 && q !in u ==> IsPrefix(q, Moved(f, S, R))
    ensures FilesGone(t, u1, done + [f])
  {
    var d := Moved(f, S, R);
    MovedIsBelow(f, S, R);
    forall g | g in done + [f] && g in t && !t[g].Dir? ensures g !in u1 {
      assert g in done;
      Unrelated(S, R, g, d);
    }
  }

  lemma NewExplainedAfterMake(t: Tree, u: Tree, u1: Tree, S: Path, R: Path, f: Path)
    requires WellFormed(t) && Under(S, [])
    requires forall q :: q in t ==> !IsPrefix(R, q)
    requires NewExplained(t, u, S, R)
    requires f in t && Under(f, S) && t[f].Dir?
    requires forall q :: q in u ==> q in u1 && u1[q] == u[q]
    requires forall q :: q in u1 && q !in u ==> u1[q] == Dir && IsPrefix(q, Moved(f, S, R))
    ensures NewExplained(t, u1, S, R)
  {
    forall q | q in u1 && q !in t
      ensures || (IsPrefix(q, R) && u1[q] == Dir)
              || (Under(q, R) && Origin(q, S, R) in t && u1[q] == t[Origin(q, S, R)])
    {
      if q !in u {
        NewDirOnTheWay(t, S, R, f, q);
      }
    }
  }

  /** A directory entry's move makes its target and the directories on the
      way there, and nothing else. */
  lemma DirTargetReady(t: Tree, u: Tree, done: seq<Path>, whence: Path, into: Path, S: Path, f: Path)
    returns (u1: Tree)
    requires Setting(t, whence, into, S)
    requires Relocated(t, u, done, S, Rebase(S, whence, into))
    requires f in t && Under(f, S) && f !in done && t[f].Dir?
    ensures IsPrefix(S, f)
    ensures TransferOne(Move, u, into, whence, f) == Outcome(u1, None)
    ensures forall q :: q in u ==> q in u1 && u1[q] == u[q]
    ensures forall q :: q in u1 && q !in u ==> u1[q] == Dir && IsPrefix(q, Moved(f, S, Rebase(S, whence, into)))
    ensures Moved(f, S, Rebase(S, whence, into)) in u1 && u1[Moved(f, S, Rebase(S, whence, into))] == t[f]
    ensures WellFormed(u1)
  {
    var R := Rebase(S, whence, into);
    var d := Moved(f, S, R);
    RebaseBelow(f, S, whence, into);
    DestinationProper(f, whence, into);
    assert ProperPath(f);
    assert f[|whence|] == S[|whence|];
    assert IsDir(u, f);
    TargetDirsAlong(t, u, done, S, R, f, d);
    u1 := MakeDirs(u, d).value;
  }

  /** Moving a file entry: its target's parent is made and it is renamed. */
  lemma StepFile(t: Tree, u: Tree, done: seq<Path>, whence: Path, into: Path, S: Path, f: Path)
    requires Setting(t, whence, into, S)
    requires Relocated(t, u, done, S, Rebase(S, whence, into))
    requires f in t && Under(f, S) && f !in done && !t[f].Dir?
    ensures TransferOne(Move, u, into, whence, f).Succeeded()
    ensures Relocated(t, TransferOne(Move, u, into, whence, f).tree, done + [f], S, Rebase(S, whence, into))
  {
    var R := Rebase(S, whence, into);
    var d := Moved(f, S, R);
    var u1 := FileTargetReady(t, u, done, whence, into, S, f);
    RenameStep(u, u1, into, whence, f, d);
    var u2 := (u1 - {f})[d := t[f]];
    MovedKeptAfterRename(t, u, u1, done, S, R, f);
    FilesGoneAfterRename(t, u, u1, done, S, R, f);
    OthersKeptAfterRename(t, u, u1, done, f, d);
    NewExplainedAfterRename(t, u, u1, S, R, f);
    RelocatedOf(t, u2, done, S, R, f);
  }

  /** The invariant, gathered from its parts after one more step. */
  lemma RelocatedOf(t: Tree, u2: Tree, done: seq<Path>, S: Path, R: Path, f: Path)
    requires WellFormed(u2) && (forall g :: g in done ==> Under(g, S) && g in t) && f in t && Under(f, S)
    requires MovedKept(t, u2, done + [f], S, R) && FilesGone(t, u2, done + [f])
    requires OthersKept(t, u2, done + [f]) && NewExplained(t, u2, S, R)
    ensures Relocated(t, u2, done + [f], S, R)
  {
  }

  /** Before the rename: the file's target lies below `into`, apart from the
      file, and making its parent only adds directories on the way there. */
  lemma FileTargetReady(t: Tree, u: Tree, done: seq<Path>, whence: Path, into: Path, S: Path, f: Path)
    returns (u1: Tree)
    requires Setting(t, whence, into, S)
    requires Relocated(t, u, done, S, Rebase(S, whence, into))
    requires f in t && Under(f, S) && f !in done && !t[f].Dir?
    ensures IsPrefix(S, f)
    ensures Destination(f, whence, into) == Ok(Moved(f, S, Rebase(S, whence, into)))
    ensures f in u && !u[f].Dir? && u[f] == t[f] && f != Moved(f, S, Rebase(S, whence, into))
    ensures Moved(f, S, Rebase(S, whence, into)) !in t
    ensures MakeDirs(u, Parent(Moved(f, S, Rebase(S, whence, into)))) == Ok(u1)
    ensures !IsDir(u1, Moved(f, S, Rebase(S, whence, into)))
    ensures forall q :: q in u ==> q in u1 && u1[q] == u[q]
    ensures forall q :: q in u1 && q !in u ==> u1[q] == Dir && IsPrefix(q, Parent(Moved(f, S, Rebase(S, whence, into))))
    ensures ProperPath(f) && WellFormed(u1)
  {
    var R := Rebase(S, whence, into);
    var d := Moved(f, S, R);
    RebaseBelow(f, S, whence, into);
    MovedIsBelow(f, S, R);
    DestinationProper(f, whence, into);
    assert f[|whence|] == S[|whence|];
    TargetDirsAlong(t, u, done, S, R, f, Parent(d));
    u1 := MakeDirs(u, Parent(d)).value;
    assert f != d by {
      Unrelated(S, R, f, d);
    }
    assert d !in t;
    assert !IsDir(u1, d);
  }

  lemma OthersKeptAfterRename(t: Tree, u: Tree, u1: Tree, done: seq<Path>, f: Path, d: Path)
    requires OthersKept(t, u, done)
    requires f in t && !t[f].Dir? && d !in t
    requires forall q :: q in u ==> q in u1 && u1[q] == u[q]
    ensures OthersKept(t, (u1 - {f})[d := t[f]], done + [f])
  {
  }

  /** The iteration on a file source whose target's parent can be made and
      whose target is not a directory renames it there. */
  lemma RenameStep(u: Tree, u1: Tree, into: Path, whence: Path, f: Path, d: Path)
    requires Destination(f, whence, into) == Ok(d)
    requires f in u && !u[f].Dir? && f != d
    requires MakeDirs(u, Parent(d)) == Ok(u1)
    requires !IsDir(u1, d)
    ensures TransferOne(Move, u, into, whence, f) == Outcome((u1 - {f})[d := u[f]], None)
    ensures WellFormed(u) && ProperPath(into) && ProperPath(f) ==> WellFormed((u1 - {f})[d := u[f]])
  {
  }

  lemma MovedKeptAfterRename(t: Tree, u: Tree, u1: Tree, done: seq<Path>, S: Path, R: Path, f: Path)
    requires !IsPrefix(S, R) && !IsPrefix(R, S)
    requires MovedKept(t, u, done, S, R)
    requires f in t && Under(f, S) && f !in done
    requires forall q :: q in u ==> q in u1 && u1[q] == u[q]
    ensures MovedKept(t, (u1 - {f})[Moved(f, S, R) := t[f]], done + [f], S, R)
  {
    var d := Moved(f, S, R);
    var u2 := (u1 - {f})[d := t[f]];
    forall g | g in done + [f] && g in t && Under(g, S)
      ensures Moved(g, S, R) in u2 && u2[Moved(g, S, R)] == t[g]
    {
      if g != f {
        Unrelated(S, R, f, Moved(g, S, R));
      }
    }
  }

  lemma FilesGoneAfterRename(t: Tree, u: Tree, u1: Tree, done: seq<Path>, S: Path, R: Path, f: Path)
    requires !IsPrefix(S, R) && !IsPrefix(R, S)
    requires FilesGone(t, u, done) && forall g :: g in done ==> Under(g, S)
    requires f in t && Under(f, S)
    requires forall q :: q in u1 && q !in u ==> IsPrefix(q, Parent(Moved(f, S, R)))
    ensures FilesGone(t, (u1 - {f})[Moved(f, S, R) := t[f]], done + [f])
  {
    var d := Moved(f, S, R);
    assert IsPrefix(R, Parent(d)) by {
      MovedIsBelow(f, S, R);
    }
    forall g | g in done + [f] && g in t && !t[g].Dir? ensures g !in (u1 - {f})[d := t[f]] {
      if g != f {
        Unrelated(S, R, g, Parent(d));
        Unrelated(S, R, g, d);
      }
    }
  }

  lemma NewExplainedAfterRename(t: Tree, u: Tree, u1: Tree, S: Path, R: Path, f: Path)
    requires WellFormed(t) && Under(S, [])
    requires forall q :: q in t ==> !IsPrefix(R, q)
    requires NewExplained(t, u, S, R)
    requires f in t && Under(f, S)
    requires forall q :: q in u ==> q in u1 && u1[q] == u[q]
    requires forall q :: q in u1 && q !in u ==> u1[q] == Dir && IsPrefix(q, Parent(Moved(f, S, R)))
    ensures NewExplained(t, (u1 - {f})[Moved(f, S, R) := t[f]], S, R)
  {
    var d := Moved(f, S, R);
    MovedIsBelow(f, S, R);
    var u2 := (u1 - {f})[d := t[f]];
    forall q | q in u2 && q !in t
      ensures || (IsPrefix(q, R) && u2[q] == Dir)
              || (Under(q, R) && Origin(q, S, R) in t && u2[q] == t[Origin(q, S, R)])
    {
      if q != d && q !in u {
        PrefixTransitive(q, Parent(d), d);
        NewDirOnTheWay(t, S, R, f, q);
      }
    }
  }

  /** Moving the first `k` entries of the enumeration succeeds and reaches the
      relocated state for those entries. */
  lemma {:induction false} RelocatePrefix(t: Tree, whence: Path, into: Path, S: Path, files: seq<Path>, k: nat)
    requires Setting(t, whence, into, S)
    requires Distinct(files) && forall g :: g in files ==> g in t && Under(g, S)
    requires k <= |files|
    ensures MoveFiles(t, into, whence, files[..k]).Succeeded()
    ensures Relocated(t, MoveFiles(t, into, whence, files[..k]).tree, files[..k], S, Rebase(S, whence, into))
  {
    var R := Rebase(S, whence, into);
    if k == 0 {
      assert files[..0] == [];
    } else {
      RelocatePrefix(t, whence, into, S, files, k - 1);
      var done := files[..k - 1];
      var f := files[k - 1];
      var u := MoveFiles(t, into, whence, done).tree;
      assert files[..k] == done + [f];
      assert f !in done by {
        forall i | 0 <= i < k - 1 ensures done[i] != f {
          assert done[i] == files[i];
        }
      }
      TransferAllSplit(Move, t, into, whence, done, [f]);
      assert TransferAll(Move, u, into, whence, [f])
          == Resume(Move, TransferOne(Move, u, into, whence, f), into, whence, []);
      if t[f].Dir? {
        StepDirectory(t, u, done, whence, into, S, f);
      } else {
        StepFile(t, u, done, whence, into, S, f);
      }
    }
  }

  /** The tree `u` is `t` with the subtree strictly below `S` relocated to
      below `R`: each entry is found at its new place with its old content,
      the files below `S` are gone, every other entry of `t` is untouched,
      and the only new entries are the relocated ones and directories on the
      way to `R`. */
  ghost predicate SubtreeMoved(t: Tree, u: Tree, S: Path, R: Path) {
    && WellFormed(u)
    && (forall g :: g in t && Under(g, S) ==> Moved(g, S, R) in u && u[Moved(g, S, R)] == t[g])
    && (forall g :: g in t && Under(g, S) && !t[g].Dir? ==> g !in u)
    && (forall p :: p in t && !(Under(p, S) && !t[p].Dir?) ==> p in u && u[p] == t[p])
    && NewExplained(t, u, S, R)
  }

  /** Moving every entry strictly below `S`, in any order, relocates the
      subtree, and the batch succeeds. */
  lemma MoveSubtree(t: Tree, whence: Path, into: Path, S: Path, files: seq<Path>)
    requires Setting(t, whence, into, S)
    requires Distinct(files) && forall g :: g in files <==> g in t && Under(g, S)
    ensures MoveFiles(t, into, whence, files).Succeeded()
    ensures SubtreeMoved(t, MoveFiles(t, into, whence, files).tree, S, Rebase(S, whence, into))
  {
    RelocatePrefix(t, whence, into, S, files, |files|);
    assert files[..|files|] == files;
    var u := MoveFiles(t, into, whence, files).tree;
    var R := Rebase(S, whence, into);
    assert Relocated(t, u, files, S, R);
    assert MovedKept(t, u, files, S, R) && FilesGone(t, u, files) && OthersKept(t, u, files);
    assert forall g :: g in t && Under(g, S) ==> g in files;
  }
}
