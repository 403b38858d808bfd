/** The batch file operations of `dds_ports/fs.py`: moving and copying files
    relative to a root, removing files and directories, and rewriting file
    contents. A batch runs its items left to right and stops at the first
    failure, keeping whatever the earlier items did: there is no rollback, so
    a batch returns the tree as far as it got together with the error that
    stopped it. */
module Fs {
  import opened Results
  import opened Paths
  import opened Text
  import opened FileTree

  /** The tree after a batch and the error that stopped it, if any. */
  datatype Outcome = Outcome(tree: Tree, error: Option<Error>) {
    predicate Succeeded() {
      error.None?
    }

    /** The outcome as the caller sees it: the exception propagates. */
    function AsResult(): Result<Tree, Error> {
      if error.None? then Ok(tree) else Err(error.value)
    }
  }

  function FromResult(t: Tree, r: Result<Tree, Error>): (o: Outcome)
    ensures o.Succeeded() <==> r.Ok?
    ensures o.tree == if r.Ok? then r.value else t
  {
    match r
    case Ok(u) => Outcome(u, None)
    case Err(e) => Outcome(t, Some(e))
  }

  predicate Distinct(s: seq<Path>) {
    forall i, j :: 0 <= i < j < |s| ==> s[i] != s[j]
  }

  /** `move_files` renames, `copy_files` copies with `shutil.copy2`. */
  datatype Transfer = Move | Copy

  /** The destination `into / src.relative_to(whence)`, after the checks that
      `src` is below `whence` (`ValueError`), that the relative path has a
      first part at all (`IndexError`) and that this part is not `..`. */
  function Destination(src: Path, whence: Path, into: Path): (r: Result<Path, Error>)
    ensures r.Ok? <==> Under(src, whence) && src[|whence|] != ".."
    ensures r.Ok? ==> IsPrefix(whence, src) && r.value == Rebase(src, whence, into)
    ensures !IsPrefix(whence, src) ==> r == Err(NotRelative(src, whence))
    ensures src == whence ==> r == Err(EmptyRelative(src))
    ensures Under(src, whence) && src[|whence|] == ".." ==> r == Err(ParentEscape(src, whence))
  {
    match RelativeTo(src, whence)
    case None => Err(NotRelative(src, whence))
    case Some(rel) =>
      if |rel| == 0 then Err(EmptyRelative(src))
      else if rel[0] == ".." then Err(ParentEscape(src, whence))
      else Ok(into + rel)
  }

  /** The guard inspects only the first part below `whence`: a later `..`
      passes it and is kept, unresolved, in the destination. */
  lemma GuardSeesFirstPartOnly()
    ensures Destination(["w", "a", "..", "..", "x"], ["w"], ["i"]) == Ok(["i", "a", "..", "..", "x"])
  {
    var src: Path := ["w", "a", "..", "..", "x"];
    assert src[..1] == ["w"] && src[1..] == ["a", "..", "..", "x"];
    assert |src[1]| != |".."|;
    assert Under(src, ["w"]) && src[1] != "..";
    var d := Destination(src, ["w"], ["i"]);
    assert d.Ok?;
    assert d.value == Rebase(src, ["w"], ["i"]);
    assert d.value == ["i"] + ["a", "..", "..", "x"];
    assert d.value == ["i", "a", "..", "..", "x"];
  }

  /** For an entry of a well-formed tree the guard never fires: the
      destination exists exactly when the entry is below `whence`, and then it
      lies strictly below `into` with no `..` to climb out of it. */
  lemma DestinationContained(t: Tree, src: Path, whence: Path, into: Path)
    requires WellFormed(t) && src in t && ProperPath(into)
    ensures Destination(src, whence, into).Ok? <==> Under(src, whence)
    ensures Destination(src, whence, into).Ok? ==>
      Under(Destination(src, whence, into).value, into) && ProperPath(Destination(src, whence, into).value)
  {
    if Under(src, whence) {
      assert ProperName(src[|whence|]);
      DestinationProper(src, whence, into);
      var dst := Rebase(src, whence, into);
      assert dst[..|into|] == into;
    }
  }

  /** One iteration of the loop in `_move_files` / `_copy_files`. A directory
      source only makes its destination directory; a file source gets the
      destination's parent directories made and is then renamed or copied. */
  function TransferOne(kind: Transfer, t: Tree, into: Path, whence: Path, src: Path): (o: Outcome)
    ensures Destination(src, whence, into).Err? ==>
      o == Outcome(t, Some(Destination(src, whence, into).error))
    ensures WellFormed(t) && ProperPath(into) && ProperPath(src) ==> WellFormed(o.tree)
  {
    match Destination(src, whence, into)
    case Err(e) => Outcome(t, Some(e))
    case Ok(dst) =>
      DestinationProper(src, whence, into);
      if IsDir(t, src) then FromResult(t, MakeDirs(t, dst))
      else
        match MakeDirs(t, Parent(dst))
        case Err(e) => Outcome(t, Some(e))
        case Ok(t1) =>
          FromResult(t1, if kind == Move then Rename(t1, src, dst) else CopyFile(t1, src, dst))
  }

  /** A destination built from proper paths is proper, and so is its parent. */
  lemma DestinationProper(src: Path, whence: Path, into: Path)
    requires IsPrefix(whence, src)
    ensures ProperPath(into) && ProperPath(src) ==>
      ProperPath(Rebase(src, whence, into)) && ProperPath(Parent(Rebase(src, whence, into)))
  {
    if ProperPath(into) && ProperPath(src) {
      ProperParts(src, |whence|);
      ProperConcat(into, src[|whence|..]);
      if Rebase(src, whence, into) != [] {
        ParentProper(Rebase(src, whence, into));
      }
    }
  }

  /** `_move_files` / `_copy_files` over the snapshot `files`. */
  function TransferAll(kind: Transfer, t: Tree, into: Path, whence: Path, files: seq<Path>): (o: Outcome)
    ensures WellFormed(t) && ProperPath(into) && (forall i :: 0 <= i < |files| ==> ProperPath(files[i])) ==>
      WellFormed(o.tree)
    decreases |files|
  {
    if files == [] then Outcome(t, None)
    else
      var o := TransferOne(kind, t, into, whence, files[0]);
      if !o.Succeeded() then o else TransferAll(kind, o.tree, into, whence, files[1..])
  }

  function MoveFiles(t: Tree, into: Path, whence: Path, files: seq<Path>): Outcome {
    TransferAll(Move, t, into, whence, files)
  }

  function CopyFiles(t: Tree, into: Path, whence: Path, files: seq<Path>): Outcome {
    TransferAll(Copy, t, into, whence, files)
  }

  /** Continuing a batch from an outcome: nothing more happens after a failure. */
  function Resume(kind: Transfer, o: Outcome, into: Path, whence: Path, files: seq<Path>): Outcome {
    if o.Succeeded() then TransferAll(kind, o.tree, into, whence, files) else o
  }

  /** A batch is its first part followed by the rest, and a failure in the
      first part ends the batch with the tree as the first part left it. */
  lemma {:induction false} TransferAllSplit(kind: Transfer, t: Tree, into: Path, whence: Path, a: seq<Path>, b: seq<Path>)
    ensures TransferAll(kind, t, into, whence, a + b)
         == Resume(kind, TransferAll(kind, t, into, whence, a), into, whence, b)
    decreases |a|
  {
    if a != [] {
      assert (a + b)[0] == a[0];
      assert (a + b)[1..] == a[1..] + b;
      var o := TransferOne(kind, t, into, whence, a[0]);
      if o.Succeeded() {
        TransferAllSplit(kind, o.tree, into, whence, a[1..], b);
      }
    } else {
      assert a + b == b;
    }
  }

  /** A source whose path below `whence` starts with `..` stops the batch with
      the containment error; the files before it stay moved or copied. */
  lemma EscapeStopsBatch(kind: Transfer, t: Tree, into: Path, whence: Path, done: seq<Path>, bad: Path, rest: seq<Path>)
    requires TransferAll(kind, t, into, whence, done).Succeeded()
    requires Under(bad, whence) && bad[|whence|] == ".."
    ensures TransferAll(kind, t, into, whence, done + [bad] + rest)
         == Outcome(TransferAll(kind, t, into, whence, done).tree, Some(ParentEscape(bad, whence)))
  {
    assert done + [bad] + rest == done + ([bad] + rest);
    TransferAllSplit(kind, t, into, whence, done, [bad] + rest);
  }

  /** A batch of one is that one iteration. */
  lemma TransferSingle(kind: Transfer, t: Tree, into: Path, whence: Path, src: Path)
    ensures TransferAll(kind, t, into, whence, [src]) == TransferOne(kind, t, into, whence, src)
  {
    assert [src][1..] == [];
  }

  /** A successful iteration on a file source leaves the file at
      `into / relpath` with its content. A move removes the source; a copy
      keeps it unchanged and writes the copy (into the destination when that
      is a directory). Nothing else changes apart from new directories on the
      way to the destination. */
  lemma TransferFile(kind: Transfer, t: Tree, into: Path, whence: Path, src: Path)
    requires !IsDir(t, src)
    requires TransferOne(kind, t, into, whence, src).Succeeded()
    ensures Destination(src, whence, into).Ok? && src in t
    ensures var dst := Rebase(src, whence, into);
            var u := TransferOne(kind, t, into, whence, src).tree;
            && (kind == Move ==>
                  && dst in u && u[dst] == t[src]
                  && (dst != src ==> src !in u)
                  && (forall q :: q in t && q != src && q != dst ==> q in u && u[q] == t[q])
                  && (forall q :: q in u && q !in t ==> q == dst || (IsPrefix(q, Parent(dst)) && u[q] == Dir)))
            && (kind == Copy ==>
                  && src in u && u[src] == t[src]
                  && var target := CopyTarget(t, src, dst);
                     target in u && u[target] == t[src]
                     && (forall q :: q in t && q != target ==> q in u && u[q] == t[q])
                     && (forall q :: q in u && q !in t ==> q == target || (IsPrefix(q, Parent(dst)) && u[q] == Dir)))
  {
    var dst := Rebase(src, whence, into);
    var t1 := MakeDirs(t, Parent(dst)).value;
    assert IsDir(t, dst) <==> IsDir(t1, dst) by {
      if dst != [] && dst !in t && dst in t1 {
        assert false;
      }
    }
  }

  /** A successful iteration on a directory source makes the destination
      directory and leaves the source directory where it is. */
  lemma TransferDirectory(kind: Transfer, t: Tree, into: Path, whence: Path, src: Path)
    requires IsDir(t, src)
    requires TransferOne(kind, t, into, whence, src).Succeeded()
    ensures Destination(src, whence, into).Ok?
    ensures var u := TransferOne(kind, t, into, whence, src).tree;
            && IsDir(u, Rebase(src, whence, into)) && IsDir(u, src)
            && (forall q :: q in t ==> q in u && u[q] == t[q])
  {
  }

  /** `_remove_files`: unlink each path in turn. */
  function RemoveFiles(t: Tree, files: seq<Path>): (o: Outcome)
    ensures WellFormed(t) ==> WellFormed(o.tree)
    decreases |files|
  {
    if files == [] then Outcome(t, None)
    else
      match Unlink(t, files[0])
      case Err(e) => Outcome(t, Some(e))
      case Ok(t1) => RemoveFiles(t1, files[1..])
  }

  /** Every path names a file (not a directory) and none is listed twice. */
  predicate Removable(t: Tree, files: seq<Path>) {
    && Distinct(files)
    && forall i :: 0 <= i < |files| ==> files[i] != [] && files[i] in t && !t[files[i]].Dir?
  }

  /** Removing a list of files succeeds exactly when the list names distinct
      existing files, and then it removes those files and nothing else. */
  lemma {:induction false} RemoveFilesExactly(t: Tree, files: seq<Path>)
    ensures RemoveFiles(t, files).Succeeded() <==> Removable(t, files)
    ensures RemoveFiles(t, files).Succeeded() ==>
      RemoveFiles(t, files).tree == t - (set p | p in files)
    decreases |files|
  {
    if files != [] {
      var f, rest := files[0], files[1..];
      assert forall p :: p in files <==> p == f || p in rest;
      if Unlink(t, f).Ok? {
        var t1 := t - {f};
        RemoveFilesExactly(t1, rest);
        if Removable(t1, rest) {
          assert Removable(t, files) by {
            forall i, j | 0 <= i < j < |files| ensures files[i] != files[j] {
              if i == 0 {
                assert files[j] == rest[j - 1];
              } else {
                assert files[i] == rest[i - 1] && files[j] == rest[j - 1];
              }
            }
            forall i | 0 <= i < |files|
              ensures files[i] != [] && files[i] in t && !t[files[i]].Dir?
            {
              if i > 0 {
                assert files[i] == rest[i - 1];
              }
            }
          }
          assert t1 - (set p | p in rest) == t - (set p | p in files);
        } else if Removable(t, files) {
          assert Removable(t1, rest) by {
            forall i, j | 0 <= i < j < |rest| ensures rest[i] != rest[j] {
              assert rest[i] == files[i + 1] && rest[j] == files[j + 1];
            }
            forall i | 0 <= i < |rest|
              ensures rest[i] != [] && rest[i] in t1 && !t1[rest[i]].Dir?
            {
              assert rest[i] == files[i + 1];
            }
          }
        }
      } else {
        assert !(files[0] != [] && files[0] in t && !t[files[0]].Dir?);
      }
    }
  }

  /** `remove_directory`: `shutil.rmtree` of a whole subtree. */
  function RemoveDirectory(t: Tree, p: Path): (o: Outcome)
    ensures o.Succeeded() <==> IsDir(t, p)
    ensures o.Succeeded() ==> forall q :: q in o.tree <==> q in t && !IsPrefix(p, q)
    ensures !o.Succeeded() ==> o.tree == t
  {
    FromResult(t, RemoveTree(t, p))
  }

  /** Reading a text file: universal newlines turn `\r\n` and `\r` into `\n`. */
  function ReadText(t: Tree, p: Path): (r: Result<string, Error>)
    ensures r.Ok? <==> p != [] && p in t && t[p].File?
    ensures r.Ok? ==> r.value == TranslateNewlines(t[p].content)
  {
    if p == [] then Err(IsADirectory(p))
    else if p !in t then Err(NotFound(p))
    else if t[p].Dir? then Err(IsADirectory(p))
    else if t[p].Manifest? then Err(NotText(p))
    else Ok(TranslateNewlines(t[p].content))
  }

  /** One iteration of `filter_file_contents`: the filter reads the whole
      text of the file and its output replaces the file. */
  function FilterOne(t: Tree, p: Path, fn: string -> string): (r: Result<Tree, Error>)
    ensures r.Ok? <==> p != [] && p in t && t[p].File?
    ensures r.Ok? ==> r.value == t[p := File(fn(TranslateNewlines(t[p].content)))]
    ensures WellFormed(t) && r.Ok? ==> WellFormed(r.value)
  {
    var text :- ReadText(t, p);
    Ok(t[p := File(fn(text))])
  }

  function FilterFileContents(t: Tree, files: seq<Path>, fn: string -> string): (o: Outcome)
    ensures WellFormed(t) ==> WellFormed(o.tree)
    decreases |files|
  {
    if files == [] then Outcome(t, None)
    else
      match FilterOne(t, files[0], fn)
      case Err(e) => Outcome(t, Some(e))
      case Ok(t1) => FilterFileContents(t1, files[1..], fn)
  }

  /** Filtering distinct text files rewrites each of them once, from its
      own content, and changes nothing else; the set of paths stays. */
  lemma {:induction false} FilterRewritesEachFile(t: Tree, files: seq<Path>, fn: string -> string)
    requires Distinct(files)
    requires forall i :: 0 <= i < |files| ==> files[i] != [] && files[i] in t && t[files[i]].File?
    ensures var o := FilterFileContents(t, files, fn);
            && o.Succeeded()
            && o.tree.Keys == t.Keys
            && (forall p :: p in t && p !in files ==> o.tree[p] == t[p])
            && (forall p :: p in files ==> o.tree[p] == File(fn(TranslateNewlines(t[p].content))))
    decreases |files|
  {
    if files != [] {
      var f, rest := files[0], files[1..];
      var t1 := t[f := File(fn(TranslateNewlines(t[f].content)))];
      assert forall p :: p in files <==> p == f || p in rest;
      assert f !in rest by {
        forall j | 0 <= j < |rest| ensures rest[j] != f {
          assert rest[j] == files[j + 1];
        }
      }
      assert forall i :: 0 <= i < |rest| ==> rest[i] != [] && rest[i] in t1 && t1[rest[i]].File? by {
        forall i | 0 <= i < |rest| ensures rest[i] != [] && rest[i] in t1 && t1[rest[i]].File? {
          assert rest[i] == files[i + 1];
        }
      }
      assert Distinct(rest) by {
        forall i, j | 0 <= i < j < |rest| ensures rest[i] != rest[j] {
          assert rest[i] == files[i + 1] && rest[j] == files[j + 1];
        }
      }
      FilterRewritesEachFile(t1, rest, fn);
    }
  }

  /** The first path that is not a text file stops the filter with the files
      before it already rewritten. */
  lemma {:induction false} FilterStopsAtFirstFailure(t: Tree, done: seq<Path>, bad: Path, rest: seq<Path>, fn: string -> string)
    requires FilterFileContents(t, done, fn).Succeeded()
    requires FilterOne(FilterFileContents(t, done, fn).tree, bad, fn).Err?
    ensures FilterFileContents(t, done + [bad] + rest, fn)
         == Outcome(FilterFileContents(t, done, fn).tree,
                    Some(FilterOne(FilterFileContents(t, done, fn).tree, bad, fn).error))
    decreases |done|
  {
    if done == [] {
      assert done + [bad] + rest == [bad] + rest;
    } else {
      assert (done + [bad] + rest)[0] == done[0];
      assert (done + [bad] + rest)[1..] == done[1..] + [bad] + rest;
      FilterStopsAtFirstFailure(FilterOne(t, done[0], fn).value, done[1..], bad, rest, fn);
    }
  }

  // The glob patterns the ports use: `base.glob('**/*' + suffix)` (every
  // entry below `base` whose name ends in `suffix`) and
  // `base.glob('*' + suffix)` (the same, among the direct children).
  datatype Pattern =
    | Descendants(base: Path, suffix: string)
    | Children(base: Path, suffix: string)

  predicate EndsWith(s: string, suffix: string) {
    |suffix| <= |s| && s[|s| - |suffix|..] == suffix
  }

  predicate Matches(pat: Pattern, p: Path) {
    match pat
    case Descendants(base, suffix) => Under(p, base) && EndsWith(Name(p), suffix)
    case Children(base, suffix) => Under(p, base) && |p| == |base| + 1 && EndsWith(Name(p), suffix)
  }

  /** Some enumeration of a finite set of paths. The order in which a
      directory is walked is left open: every property proved about a glob
      holds for any order. */
  ghost function Enumerate(s: set<Path>): (r: seq<Path>)
    ensures Distinct(r)
    ensures forall p :: p in r <==> p in s
    decreases s
  {
    if s == {} then []
    else
      var p :| p in s;
      var rest := Enumerate(s - {p});
      assert forall i :: 0 <= i < |rest| ==> rest[i] != p;
      [p] + rest
  }

  /** `Path.glob`: the entries of the tree matching `pat`, each once. */
  ghost function Glob(t: Tree, pat: Pattern): (r: seq<Path>)
    ensures Distinct(r)
    ensures forall p :: p in r <==> p in t && Matches(pat, p)
  {
    Enumerate(set p | p in t && Matches(pat, p))
  }
}
