/** Several `move_files` calls in a row, each over everything strictly below
    one subtree, where the subtrees and the places they move to are
    independent of each other. Whatever order each glob yields its entries
    in, every entry ends up at the same relative place below its own target,
    the files leave their old places, and nothing else changes except the
    directories made on the way. This is how the googletest port regroups a
    checkout into `libs/<name>/...`. */
module Regroup {
  import opened Results
  import opened Paths
  import opened FileTree
  import opened Fs
  import opened Relocation

  /** One `move_files` call with `whence` and `into` over everything below
      `whence / rel`, which lands below `into / rel`. */
  datatype Regrouping = Regrouping(whence: Path, into: Path, rel: Path) {
    function Source(): Path {
      whence + rel
    }

    function Target(): Path {
      into + rel
    }
  }

  // The glob `S/**` followed by `/*`: every entry strictly below `S`.
  ghost function Below(t: Tree, S: Path): (r: seq<Path>)
    ensures Distinct(r)
    ensures forall g :: g in r <==> g in t && Under(g, S)
  {
    assert forall g :: Under(g, S) ==> EndsWith(Name(g), "");
    Glob(t, Descendants(S, ""))
  }

  ghost function MoveBelow(t: Tree, m: Regrouping): Outcome {
    MoveFiles(t, m.into, m.whence, Below(t, m.Source()))
  }

  /** The calls one after the other; the first failure aborts the rest. */
  ghost function RegroupAll(t: Tree, ms: seq<Regrouping>): Result<Tree, Error>
    decreases |ms|
  {
    if ms == [] then Ok(t)
    else
      var o := MoveBelow(t, ms[0]);
      if o.Succeeded() then RegroupAll(o.tree, ms[1..]) else Err(o.error.value)
  }

  /** Neither path is an ancestor of the other. */
  predicate Apart(p: Path, q: Path) {
    !IsPrefix(p, q) && !IsPrefix(q, p)
  }

  /** Every subtree is strictly below its `whence` without climbing out of
      it, every `into` climbs nowhere, no subtree meets any target, and
      distinct calls have apart subtrees and apart targets. */
  predicate Independent(ms: seq<Regrouping>) {
    && (forall i :: 0 <= i < |ms| ==> ms[i].rel != [] && ms[i].rel[0] != ".." && ProperPath(ms[i].into))
    && (forall i, j :: 0 <= i < |ms| && 0 <= j < |ms| ==> Apart(ms[i].Source(), ms[j].Target()))
    && (forall i, j :: 0 <= i < |ms| && 0 <= j < |ms| && i != j ==>
          Apart(ms[i].Source(), ms[j].Source()) && Apart(ms[i].Target(), ms[j].Target()))
  }

  /** Nothing exists at or below the target, and whatever exists on the way
      to it is a directory. */
  ghost predicate Fresh(t: Tree, m: Regrouping) {
    && (forall q :: q in t ==> !IsPrefix(m.Target(), q))
    && DirsAlong(t, m.Target())
  }

  /** The entry `q` of `u`, absent from `t`, is a directory on the way to
      the target of `m` or an entry relocated there from below its subtree. */
  ghost predicate NewFrom(t: Tree, u: Tree, m: Regrouping, q: Path) {
    && q in u
    && (|| (IsPrefix(q, m.Target()) && u[q] == Dir)
        || (Under(q, m.Target()) && Origin(q, m.Source(), m.Target()) in t
            && u[q] == t[Origin(q, m.Source(), m.Target())]))
  }

  /** `p` is a file that one of the calls moves away. */
  ghost predicate MovedFile(t: Tree, ms: seq<Regrouping>, p: Path) {
    p in t && !t[p].Dir? && exists i :: 0 <= i < |ms| && Under(p, ms[i].Source())
  }

  /** `u` is `t` after the calls `ms`. */
  ghost predicate Regrouped(t: Tree, u: Tree, ms: seq<Regrouping>) {
    && WellFormed(u)
    && (forall i, g :: 0 <= i < |ms| && g in t && Under(g, ms[i].Source()) ==>
          && Moved(g, ms[i].Source(), ms[i].Target()) in u
          && u[Moved(g, ms[i].Source(), ms[i].Target())] == t[g])
    && (forall p :: MovedFile(t, ms, p) ==> p !in u)
    && (forall p :: p in t && !MovedFile(t, ms, p) ==> p in u && u[p] == t[p])
    && (forall q :: q in u && q !in t ==> exists i :: 0 <= i < |ms| && NewFrom(t, u, ms[i], q))
  }

  /** The calls succeed and regroup the tree. */
  lemma {:induction false} RegroupSucceeds(t: Tree, ms: seq<Regrouping>)
    requires WellFormed(t) && Independent(ms)
    requires forall i :: 0 <= i < |ms| ==> Fresh(t, ms[i])
    ensures RegroupAll(t, ms).Ok?
    ensures Regrouped(t, RegroupAll(t, ms).value, ms)
    decreases |ms|
  {
    if ms == [] {
      assert forall p :: !MovedFile(t, ms, p);
    } else {
      var m, rest := ms[0], ms[1..];
      assert Independent(rest) by {
        assert forall i :: 0 <= i < |rest| ==> rest[i] == ms[i + 1];
      }
      SettingOf(t, m);
      MoveSubtree(t, m.whence, m.into, m.Source(), Below(t, m.Source()));
      var u1 := MoveBelow(t, m).tree;
      forall i | 0 <= i < |rest| ensures Fresh(u1, rest[i]) {
        assert rest[i] == ms[i + 1];
        FreshAfter(t, u1, m, rest[i]);
      }
      RegroupSucceeds(u1, rest);
      Compose(t, u1, RegroupAll(u1, rest).value, ms);
    }
  }

  /** A valid call into a fresh target is a relocation setting. */
  lemma SettingOf(t: Tree, m: Regrouping)
    requires WellFormed(t) && m.rel != [] && m.rel[0] != ".." && ProperPath(m.into)
    requires Apart(m.Source(), m.Target()) && Fresh(t, m)
    ensures Setting(t, m.whence, m.into, m.Source())
    ensures Rebase(m.Source(), m.whence, m.into) == m.Target()
  {
    var S := m.Source();
    assert S[..|m.whence|] == m.whence && S[|m.whence|..] == m.rel;
  }

  /** A relocation keeps every other target fresh. */
  lemma FreshAfter(t: Tree, u: Tree, m: Regrouping, n: Regrouping)
    requires SubtreeMoved(t, u, m.Source(), m.Target())
    requires Fresh(t, n) && Apart(m.Target(), n.Target())
    ensures Fresh(u, n)
  {
    var R, Rn := m.Target(), n.Target();
    forall q | q in u ensures !IsPrefix(Rn, q) {
      if q !in t {
        if IsPrefix(q, R) && IsPrefix(Rn, q) {
          PrefixTransitive(Rn, q, R);
        } else if IsPrefix(Rn, q) {
          PrefixesComparable(R, Rn, q);
        }
      }
    }
    forall q | q in u && IsPrefix(q, Rn) ensures u[q].Dir? {
      if q !in t && Under(q, R) {
        PrefixTransitive(R, q, Rn);
      }
    }
  }

  /** The first call followed by the others is the whole sequence. */
  lemma Compose(t: Tree, u1: Tree, u: Tree, ms: seq<Regrouping>)
    requires ms != [] && Independent(ms) && WellFormed(t)
    requires SubtreeMoved(t, u1, ms[0].Source(), ms[0].Target())
    requires Regrouped(u1, u, ms[1..])
    ensures Regrouped(t, u, ms)
  {
    ComposeMoved(t, u1, u, ms);
    ComposeGone(t, u1, u, ms);
    ComposeKept(t, u1, u, ms);
    ComposeNew(t, u1, u, ms);
  }

  /** An entry below the first subtree is not below any later one. */
  lemma NotBelowLater(ms: seq<Regrouping>, g: Path)
    requires ms != [] && Independent(ms) && Under(g, ms[0].Source())
    ensures forall j :: 0 <= j < |ms[1..]| ==> !Under(g, ms[1..][j].Source())
  {
    forall j | 0 <= j < |ms[1..]| ensures !Under(g, ms[1..][j].Source()) {
      assert ms[1..][j] == ms[j + 1];
      if Under(g, ms[j + 1].Source()) {
        PrefixesComparable(ms[0].Source(), ms[j + 1].Source(), g);
      }
    }
  }

  /** An entry relocated by the first call is below none of the later
      subtrees. */
  lemma TargetNotBelowLater(ms: seq<Regrouping>, q: Path)
    requires ms != [] && Independent(ms) && (IsPrefix(q, ms[0].Target()) || Under(q, ms[0].Target()))
    ensures forall j :: 0 <= j < |ms[1..]| ==> !Under(q, ms[1..][j].Source())
  {
    forall j | 0 <= j < |ms[1..]| ensures !Under(q, ms[1..][j].Source()) {
      assert ms[1..][j] == ms[j + 1];
      var S := ms[j + 1].Source();
      if Under(q, S) {
        if IsPrefix(q, ms[0].Target()) {
          PrefixTransitive(S, q, ms[0].Target());
        } else {
          PrefixesComparable(S, ms[0].Target(), q);
        }
      }
    }
  }

  lemma ComposeMoved(t: Tree, u1: Tree, u: Tree, ms: seq<Regrouping>)
    requires ms != [] && Independent(ms)
    requires SubtreeMoved(t, u1, ms[0].Source(), ms[0].Target())
    requires Regrouped(u1, u, ms[1..])
    ensures forall i, g :: 0 <= i < |ms| && g in t && Under(g, ms[i].Source()) ==>
              && Moved(g, ms[i].Source(), ms[i].Target()) in u
              && u[Moved(g, ms[i].Source(), ms[i].Target())] == t[g]
  {
    var rest := ms[1..];
    forall i, g | 0 <= i < |ms| && g in t && Under(g, ms[i].Source())
      ensures Moved(g, ms[i].Source(), ms[i].Target()) in u
      ensures u[Moved(g, ms[i].Source(), ms[i].Target())] == t[g]
    {
      var S, R := ms[i].Source(), ms[i].Target();
      var d := Moved(g, S, R);
      if i == 0 {
        MovedIsBelow(g, S, R);
        TargetNotBelowLater(ms, d);
        assert !MovedFile(u1, rest, d);
      } else {
        assert rest[i - 1] == ms[i];
        if Under(g, ms[0].Source()) {
          PrefixesComparable(ms[0].Source(), S, g);
        }
        assert g in u1 && u1[g] == t[g];
      }
    }
  }

  lemma ComposeGone(t: Tree, u1: Tree, u: Tree, ms: seq<Regrouping>)
    requires ms != [] && Independent(ms)
    requires SubtreeMoved(t, u1, ms[0].Source(), ms[0].Target())
    requires Regrouped(u1, u, ms[1..])
    ensures forall p :: MovedFile(t, ms, p) ==> p !in u
  {
    forall p | MovedFile(t, ms, p) ensures p !in u {
      var i :| 0 <= i < |ms| && Under(p, ms[i].Source());
      if i == 0 {
        FirstGone(t, u1, u, ms, p);
      } else {
        LaterGone(t, u1, u, ms, p, i);
      }
    }
  }

  /** A file moved by the first call does not come back. */
  lemma FirstGone(t: Tree, u1: Tree, u: Tree, ms: seq<Regrouping>, p: Path)
    requires ms != [] && Independent(ms)
    requires SubtreeMoved(t, u1, ms[0].Source(), ms[0].Target())
    requires Regrouped(u1, u, ms[1..])
    requires p in t && !t[p].Dir? && Under(p, ms[0].Source())
    ensures p !in u
  {
    var rest := ms[1..];
    assert p !in u1;
    forall j | 0 <= j < |rest| ensures !NewFrom(u1, u, rest[j], p) {
      assert rest[j] == ms[j + 1];
      NotOnTheWay(ms[0].Source(), ms[j + 1].Target(), p);
    }
  }

  /** Nothing below `S` is on the way to or below a target apart from `S`. */
  lemma NotOnTheWay(S: Path, R: Path, p: Path)
    requires Apart(S, R) && IsPrefix(S, p)
    ensures !IsPrefix(p, R) && !Under(p, R)
  {
    if IsPrefix(p, R) {
      PrefixTransitive(S, p, R);
    } else if Under(p, R) {
      PrefixesComparable(S, R, p);
    }
  }

  /** A file moved by a later call is still in place after the first one,
      so the later call moves it. */
  lemma LaterGone(t: Tree, u1: Tree, u: Tree, ms: seq<Regrouping>, p: Path, i: nat)
    requires ms != [] && Independent(ms)
    requires SubtreeMoved(t, u1, ms[0].Source(), ms[0].Target())
    requires Regrouped(u1, u, ms[1..])
    requires 0 < i < |ms| && p in t && !t[p].Dir? && Under(p, ms[i].Source())
    ensures p !in u
  {
    var rest := ms[1..];
    assert rest[i - 1] == ms[i];
    if Under(p, ms[0].Source()) {
      PrefixesComparable(ms[0].Source(), ms[i].Source(), p);
    }
    assert MovedFile(u1, rest, p);
  }

  lemma ComposeKept(t: Tree, u1: Tree, u: Tree, ms: seq<Regrouping>)
    requires ms != [] && Independent(ms)
    requires SubtreeMoved(t, u1, ms[0].Source(), ms[0].Target())
    requires Regrouped(u1, u, ms[1..])
    ensures forall p :: p in t && !MovedFile(t, ms, p) ==> p in u && u[p] == t[p]
  {
    var rest := ms[1..];
    forall p | p in t && !MovedFile(t, ms, p) ensures p in u && u[p] == t[p] {
      assert !(Under(p, ms[0].Source()) && !t[p].Dir?);
      assert p in u1 && u1[p] == t[p];
    }
  }

  lemma ComposeNew(t: Tree, u1: Tree, u: Tree, ms: seq<Regrouping>)
    requires ms != [] && Independent(ms)
    requires SubtreeMoved(t, u1, ms[0].Source(), ms[0].Target())
    requires Regrouped(u1, u, ms[1..])
    ensures forall q :: q in u && q !in t ==> exists i :: 0 <= i < |ms| && NewFrom(t, u, ms[i], q)
  {
    forall q | q in u && q !in t ensures exists i :: 0 <= i < |ms| && NewFrom(t, u, ms[i], q) {
      ComposeNewOne(t, u1, u, ms, q);
    }
  }

  lemma ComposeNewOne(t: Tree, u1: Tree, u: Tree, ms: seq<Regrouping>, q: Path)
    requires ms != [] && Independent(ms)
    requires SubtreeMoved(t, u1, ms[0].Source(), ms[0].Target())
    requires Regrouped(u1, u, ms[1..])
    requires q in u && q !in t
    ensures exists i :: 0 <= i < |ms| && NewFrom(t, u, ms[i], q)
  {
    if q in u1 {
      NewByFirst(t, u1, u, ms, q);
    } else {
      var j := LaterMaker(u1, u, ms[1..], q);
      assert ms[1..][j] == ms[j + 1];
      NewByLater(t, u1, u, ms, q, j + 1);
    }
  }

  /** Which later call made an entry new to `u1`. */
  lemma LaterMaker(u1: Tree, u: Tree, rest: seq<Regrouping>, q: Path) returns (j: nat)
    requires forall q :: q in u && q !in u1 ==> exists i :: 0 <= i < |rest| && NewFrom(u1, u, rest[i], q)
    requires q in u && q !in u1
    ensures j < |rest| && NewFrom(u1, u, rest[j], q)
  {
    j :| 0 <= j < |rest| && NewFrom(u1, u, rest[j], q);
  }

  /** An entry the first call made stays as it was. */
  lemma NewByFirst(t: Tree, u1: Tree, u: Tree, ms: seq<Regrouping>, q: Path)
    requires ms != [] && Independent(ms)
    requires SubtreeMoved(t, u1, ms[0].Source(), ms[0].Target())
    requires Regrouped(u1, u, ms[1..])
    requires q in u1 && q !in t
    ensures q in u && NewFrom(t, u, ms[0], q)
  {
    assert NewFrom(t, u1, ms[0], q);
    assert IsPrefix(q, ms[0].Target()) || Under(q, ms[0].Target());
    TargetNotBelowLater(ms, q);
    KeptLater(u1, u, ms[1..], q);
  }

  /** An entry below none of the sources of the calls is kept by them. */
  lemma KeptLater(u1: Tree, u: Tree, ms: seq<Regrouping>, q: Path)
    requires Regrouped(u1, u, ms) && q in u1
    requires forall j :: 0 <= j < |ms| ==> !Under(q, ms[j].Source())
    ensures q in u && u[q] == u1[q]
  {
    assert !MovedFile(u1, ms, q);
  }

  /** An entry a later call made comes from an entry of the original tree. */
  lemma NewByLater(t: Tree, u1: Tree, u: Tree, ms: seq<Regrouping>, q: Path, i: nat)
    requires ms != [] && Independent(ms) && 0 < i < |ms|
    requires SubtreeMoved(t, u1, ms[0].Source(), ms[0].Target())
    requires q in u && q !in u1 && NewFrom(u1, u, ms[i], q)
    ensures NewFrom(t, u, ms[i], q)
  {
    var m := ms[i];
    if !(IsPrefix(q, m.Target()) && u[q] == Dir) {
      var o := Origin(q, m.Source(), m.Target());
      assert IsPrefix(m.Source(), o);
      if o !in t {
        NotOnTheWay(m.Source(), ms[0].Target(), o);
      }
      if Under(o, ms[0].Source()) {
        PrefixesComparable(ms[0].Source(), m.Source(), o);
      }
    }
  }
}
