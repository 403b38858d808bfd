/** The sqlite3 port: which releases are published, where each release's
    amalgamation archive is downloaded from, and the source distribution built
    from it, whose three source files carry a configuration preamble. The
    download is a parameter: the archive is given as a map from member name
    to content. */
module Sqlite3 {
  import opened Results
  import opened Text
  import opened Paths
  import opened Packages
  import opened FileTree
  import opened Fs

  // ---------------------------------------------------------------------------
  // The release table.

  /** Releases of one `major.minor` line published in one year. */
  datatype VersionGroup = VersionGroup(year: nat, major: nat, minor: nat, patches: seq<nat>)

  /** `SQLite3Port(year, version)`, with the `package_id` its constructor
      derives. */
  datatype Sqlite3Port = Sqlite3Port(year: nat, version: Version, id: PackageId)

  const VersionGroups: seq<VersionGroup> := [
    VersionGroup(2021, 3, 35, [0, 1, 2, 3, 4]),
    VersionGroup(2021, 3, 34, [1]),
    VersionGroup(2020, 3, 34, [0]),
    VersionGroup(2020, 3, 33, [0]),
    VersionGroup(2020, 3, 32, [0, 1, 2, 3]),
    VersionGroup(2020, 3, 31, [0, 1]),
    VersionGroup(2019, 3, 30, [0, 1]),
    VersionGroup(2019, 3, 29, [0]),
    VersionGroup(2019, 3, 28, [0]),
    VersionGroup(2019, 3, 27, [0, 1, 2]),
    VersionGroup(2018, 3, 26, [0]),
    VersionGroup(2018, 3, 25, [0]),
    VersionGroup(2018, 3, 24, [0]),
    VersionGroup(2018, 3, 23, [0, 1]),
    VersionGroup(2018, 3, 22, [0]),
    VersionGroup(2017, 3, 21, [0]),
    VersionGroup(2017, 3, 20, [0, 1]),
    VersionGroup(2017, 3, 19, [0, 1, 2, 3])
  ]

  function GroupPort(g: VersionGroup, i: nat): Sqlite3Port
    requires i < |g.patches|
  {
    var v := Version(g.major, g.minor, g.patches[i]);
    Sqlite3Port(g.year, v, PackageId("sqlite3", v))
  }

  /** The ports of one group, in the order of its patch list. */
  function GroupPorts(g: VersionGroup): (r: seq<Sqlite3Port>)
    ensures |r| == |g.patches|
    ensures forall i :: 0 <= i < |r| ==> r[i] == GroupPort(g, i)
  {
    seq(|g.patches|, i requires 0 <= i < |g.patches| => GroupPort(g, i))
  }

  /** The number of ports of the groups from the `k`-th on. */
  function PatchCount(groups: seq<VersionGroup>, k: nat): nat
    decreases |groups| - k
  {
    if k >= |groups| then 0 else |groups[k].patches| + PatchCount(groups, k + 1)
  }

  /** `all_ports` from the `k`-th group on: one port per (group, patch),
      group by group. */
  function Expand(groups: seq<VersionGroup>, k: nat): (r: seq<Sqlite3Port>)
    ensures |r| == PatchCount(groups, k)
    decreases |groups| - k
  {
    if k >= |groups| then [] else GroupPorts(groups[k]) + Expand(groups, k + 1)
  }

  function AllPorts(): seq<Sqlite3Port> {
    Expand(VersionGroups, 0)
  }

  /** A port is listed exactly when some group lists its patch. */
  lemma {:induction false} ExpandMembers(groups: seq<VersionGroup>, k: nat, p: Sqlite3Port)
    ensures p in Expand(groups, k) <==>
      exists j, i :: k <= j < |groups| && 0 <= i < |groups[j].patches| && p == GroupPort(groups[j], i)
    decreases |groups| - k
  {
    if k < |groups| {
      var here, rest := GroupPorts(groups[k]), Expand(groups, k + 1);
      assert Expand(groups, k) == here + rest;
      ExpandMembers(groups, k + 1, p);
      if p in here {
        var i :| 0 <= i < |here| && here[i] == p;
        assert k <= k < |groups| && 0 <= i < |groups[k].patches| && p == GroupPort(groups[k], i);
      }
      if exists j, i :: k <= j < |groups| && 0 <= i < |groups[j].patches| && p == GroupPort(groups[j], i) {
        var j, i :| k <= j < |groups| && 0 <= i < |groups[j].patches| && p == GroupPort(groups[j], i);
        if j == k {
          assert here[i] == p;
        } else {
          assert p in rest;
        }
      }
    }
  }

  /** Version order, most significant part first. */
  predicate Older(a: Version, b: Version) {
    || a.major < b.major
    || (a.major == b.major && a.minor < b.minor)
    || (a.major == b.major && a.minor == b.minor && a.patch < b.patch)
  }

  predicate StrictlyAscending(s: seq<nat>) {
    |s| <= 1 || (s[0] < s[1] && StrictlyAscending(s[1..]))
  }

  function Oldest(g: VersionGroup): Version
    requires |g.patches| > 0
  {
    Version(g.major, g.minor, g.patches[0])
  }

  function Newest(g: VersionGroup): Version
    requires |g.patches| > 0
  {
    Version(g.major, g.minor, g.patches[|g.patches| - 1])
  }

  /** The shape of the release table from the `k`-th group on: newest group
      first, each group's patches listed oldest first, and every release of a
      group newer than every release of the groups after it. */
  predicate NewestFirst(groups: seq<VersionGroup>, k: nat)
    decreases |groups| - k
  {
    || k >= |groups|
    || (&& |groups[k].patches| > 0
        && StrictlyAscending(groups[k].patches)
        && (k + 1 < |groups| ==> |groups[k + 1].patches| > 0 && Older(Newest(groups[k + 1]), Oldest(groups[k])))
        && NewestFirst(groups, k + 1))
  }

  lemma ReleaseTableIsNewestFirst()
    ensures NewestFirst(VersionGroups, 0)
  {
    var g := VersionGroups;
    assert NewestFirst(g, 17);
    assert NewestFirst(g, 16);
    assert NewestFirst(g, 15);
    assert NewestFirst(g, 14);
    assert NewestFirst(g, 13);
    assert NewestFirst(g, 12);
    assert NewestFirst(g, 11);
    assert NewestFirst(g, 10);
    assert NewestFirst(g, 9);
    assert NewestFirst(g, 8);
    assert NewestFirst(g, 7);
    assert NewestFirst(g, 6);
    assert NewestFirst(g, 5);
    assert NewestFirst(g, 4);
    assert NewestFirst(g, 3);
    assert NewestFirst(g, 2);
    assert NewestFirst(g, 1);
    assert NewestFirst(g, 0);
  }

  lemma ReleaseTableSize()
    ensures PatchCount(VersionGroups, 0) == 34
  {
    var g := VersionGroups;
    assert PatchCount(g, 17) == 4;
    assert PatchCount(g, 16) == 6;
    assert PatchCount(g, 15) == 7;
    assert PatchCount(g, 14) == 8;
    assert PatchCount(g, 13) == 10;
    assert PatchCount(g, 12) == 11;
    assert PatchCount(g, 11) == 12;
    assert PatchCount(g, 10) == 13;
    assert PatchCount(g, 9) == 16;
    assert PatchCount(g, 8) == 17;
    assert PatchCount(g, 7) == 18;
    assert PatchCount(g, 6) == 20;
    assert PatchCount(g, 5) == 22;
    assert PatchCount(g, 4) == 26;
    assert PatchCount(g, 3) == 27;
    assert PatchCount(g, 2) == 28;
    assert PatchCount(g, 1) == 29;
    assert PatchCount(g, 0) == 34;
  }

  lemma {:induction false} AscendingBounds(s: seq<nat>, i: nat)
    requires StrictlyAscending(s) && i < |s|
    ensures s[0] <= s[i] <= s[|s| - 1]
    ensures forall j :: i < j < |s| ==> s[i] < s[j]
  {
    if i > 0 {
      AscendingBounds(s[1..], i - 1);
    } else if |s| > 1 {
      AscendingBounds(s[1..], 0);
    }
  }

  /** Every port from the `k`-th group on is no newer than the newest release
      of that group. */
  lemma {:induction false} ExpandBelowFirst(groups: seq<VersionGroup>, k: nat, j: nat)
    requires NewestFirst(groups, k) && k < |groups| && j < |Expand(groups, k)|
    ensures Expand(groups, k)[j].version == Newest(groups[k]) || Older(Expand(groups, k)[j].version, Newest(groups[k]))
    decreases |groups| - k
  {
    var g := groups[k];
    if j < |g.patches| {
      AscendingBounds(g.patches, j);
    } else {
      AscendingBounds(g.patches, 0);
      ExpandBelowFirst(groups, k + 1, j - |g.patches|);
    }
  }

  /** A newest-first table lists each release once. */
  lemma {:induction false} NewestFirstDistinct(groups: seq<VersionGroup>, k: nat)
    requires NewestFirst(groups, k)
    ensures forall i, j :: 0 <= i < j < |Expand(groups, k)| ==> Expand(groups, k)[i].version != Expand(groups, k)[j].version
    decreases |groups| - k
  {
    if k < |groups| {
      var g, r := groups[k], Expand(groups, k);
      NewestFirstDistinct(groups, k + 1);
      forall i, j | 0 <= i < j < |r| ensures r[i].version != r[j].version {
        if j < |g.patches| {
          AscendingBounds(g.patches, i);
        } else if i < |g.patches| {
          AscendingBounds(g.patches, 0);
          AscendingBounds(g.patches, i);
          ExpandBelowFirst(groups, k + 1, j - |g.patches|);
        } else {
          assert r[i] == Expand(groups, k + 1)[i - |g.patches|];
          assert r[j] == Expand(groups, k + 1)[j - |g.patches|];
        }
      }
    }
  }

  /** `all_ports` yields 34 ports, no two with the same version; each is
      the package `sqlite3` at its version, so no two share a package id. */
  lemma AllPortsDistinct()
    ensures |AllPorts()| == 34
    ensures forall i, j :: 0 <= i < j < |AllPorts()| ==> AllPorts()[i].version != AllPorts()[j].version
    ensures forall i :: 0 <= i < |AllPorts()| ==> AllPorts()[i].id == PackageId("sqlite3", AllPorts()[i].version)
    ensures forall i, j :: 0 <= i < j < |AllPorts()| ==> AllPorts()[i].id != AllPorts()[j].id
  {
    ReleaseTableIsNewestFirst();
    ReleaseTableSize();
    NewestFirstDistinct(VersionGroups, 0);
    ExpandIds(VersionGroups, 0);
    IdsApart(AllPorts());
  }

  /** Ports at distinct versions, each the package `sqlite3` at its version,
      have distinct package ids. */
  lemma IdsApart(ps: seq<Sqlite3Port>)
    requires forall i, j :: 0 <= i < j < |ps| ==> ps[i].version != ps[j].version
    requires forall p :: p in ps ==> p.id == PackageId("sqlite3", p.version)
    ensures forall i :: 0 <= i < |ps| ==> ps[i].id == PackageId("sqlite3", ps[i].version)
    ensures forall i, j :: 0 <= i < j < |ps| ==> ps[i].id != ps[j].id
  {
    forall i | 0 <= i < |ps| ensures ps[i].id == PackageId("sqlite3", ps[i].version) {
      assert ps[i] in ps;
    }
  }

  /** Every expanded port is the package `sqlite3` at its own version. */
  lemma ExpandIds(groups: seq<VersionGroup>, k: nat)
    ensures forall p :: p in Expand(groups, k) ==> p.id == PackageId("sqlite3", p.version)
  {
    forall p | p in Expand(groups, k) ensures p.id == PackageId("sqlite3", p.version) {
      ExpandMembers(groups, k, p);
    }
  }

  // ---------------------------------------------------------------------------
  // The archive URL.

  /** `{minor:0>2}`. */
  function TwoDigits(n: nat): string {
    PadLeft(NatToString(n), 2, '0')
  }

  /** The release number in the archive name: major, then minor and patch in
      two digits each, then `00`. */
  function ArchiveNumber(v: Version): string {
    NatToString(v.major) + TwoDigits(v.minor) + TwoDigits(v.patch) + "00"
  }

  function ArchiveName(v: Version): string {
    "sqlite-amalgamation-" + ArchiveNumber(v)
  }

  function ArchiveUrl(year: nat, v: Version): string {
    "https://sqlite.org/" + NatToString(year) + "/" + ArchiveName(v) + ".zip"
  }

  lemma TwoDigitsDigits(n: nat)
    ensures AllDigits(TwoDigits(n))
  {
    ParseNatZeroPadded(NatToString(n), 2);
  }

  /** Below 100, the two-digit form is exactly two digits and reads back. */
  lemma TwoDigitsValue(n: nat)
    requires n < 100
    ensures |TwoDigits(n)| == 2 && ParseNat(TwoDigits(n)) == n
  {
    NatToStringBelowHundred(n);
    ParseNatZeroPadded(NatToString(n), 2);
    ParseNatToString(n);
  }

  lemma DigitsConcat(a: string, b: string)
    requires AllDigits(a) && AllDigits(b)
    ensures AllDigits(a + b)
  {
  }

  lemma ArchiveNumberDigits(v: Version)
    ensures AllDigits(ArchiveNumber(v))
  {
    var a, b, c := NatToString(v.major), TwoDigits(v.minor), TwoDigits(v.patch);
    TwoDigitsDigits(v.minor);
    TwoDigitsDigits(v.patch);
    DigitsConcat(a, b);
    DigitsConcat(a + b, c);
    DigitsConcat(a + b + c, "00");
  }

  lemma ParseTwoDigitsAfter(a: string, b: string)
    requires AllDigits(a) && AllDigits(b) && |b| == 2
    ensures AllDigits(a + b) && ParseNat(a + b) == ParseNat(a) * 100 + ParseNat(b)
  {
    ParseNatAppend(a, b);
    assert Pow10(2) == 100;
  }

  /** The archive number read as a decimal is the version's packed form
      `major * 1000000 + minor * 10000 + patch * 100`. */
  lemma ArchiveNumberValue(v: Version)
    requires v.minor < 100 && v.patch < 100
    ensures AllDigits(ArchiveNumber(v))
    ensures ParseNat(ArchiveNumber(v)) == v.major * 1000000 + v.minor * 10000 + v.patch * 100
  {
    var a, b, c := NatToString(v.major), TwoDigits(v.minor), TwoDigits(v.patch);
    ParseNatToString(v.major);
    TwoDigitsDigits(v.minor);
    TwoDigitsDigits(v.patch);
    TwoDigitsValue(v.minor);
    TwoDigitsValue(v.patch);
    ParseTwoDigitsAfter(a, b);
    ParseTwoDigitsAfter(a + b, c);
    ZerosParseToZero("00");
    ParseTwoDigitsAfter(a + b + c, "00");
    PackDigits(v.major, v.minor, v.patch);
  }

  lemma PackDigits(x: nat, y: nat, z: nat)
    ensures ((x * 100 + y) * 100 + z) * 100 + 0 == x * 1000000 + y * 10000 + z * 100
  {
  }

  /** Releases whose minor and patch fit in two digits have distinct archive
      numbers. */
  lemma ArchiveNumberInjective(v1: Version, v2: Version)
    requires v1.minor < 100 && v1.patch < 100 && v2.minor < 100 && v2.patch < 100
    requires ArchiveNumber(v1) == ArchiveNumber(v2)
    ensures v1 == v2
  {
    TwoDigitsLength(v1.minor);
    TwoDigitsLength(v1.patch);
    TwoDigitsLength(v2.minor);
    TwoDigitsLength(v2.patch);
    assert ArchiveNumber(v1) == NatToString(v1.major) + TwoDigits(v1.minor) + (TwoDigits(v1.patch) + "00");
    assert ArchiveNumber(v2) == NatToString(v2.major) + TwoDigits(v2.minor) + (TwoDigits(v2.patch) + "00");
    SameLengthTails(NatToString(v1.major), TwoDigits(v1.minor), TwoDigits(v1.patch) + "00",
                    NatToString(v2.major), TwoDigits(v2.minor), TwoDigits(v2.patch) + "00");
    assert TwoDigits(v1.patch) == (TwoDigits(v1.patch) + "00")[..2];
    assert TwoDigits(v2.patch) == (TwoDigits(v2.patch) + "00")[..2];
    NatToStringInjective(v1.major, v2.major);
    TwoDigitsInjective(v1.minor, v2.minor);
    TwoDigitsInjective(v1.patch, v2.patch);
  }

  lemma TwoDigitsLength(n: nat)
    requires n < 100
    ensures |TwoDigits(n)| == 2
  {
    NatToStringBelowHundred(n);
  }

  lemma TwoDigitsInjective(a: nat, b: nat)
    requires a < 100 && b < 100 && TwoDigits(a) == TwoDigits(b)
    ensures a == b
  {
    TwoDigitsValue(a);
    TwoDigitsValue(b);
  }

  /** Strings that agree and are cut into pieces of the same lengths from the
      end agree piece by piece. */
  lemma SameLengthTails(a1: string, b1: string, c1: string, a2: string, b2: string, c2: string)
    requires |b1| == |b2| && |c1| == |c2|
    requires a1 + b1 + c1 == a2 + b2 + c2
    ensures a1 == a2 && b1 == b2 && c1 == c2
  {
    var s := a1 + b1 + c1;
    assert a1 == s[..|a1|] && a2 == s[..|a2|];
    assert b1 == s[|a1|..|a1| + |b1|] && b2 == s[|a2|..|a2| + |b2|];
    assert c1 == s[|a1| + |b1|..] && c2 == s[|a2| + |b2|..];
  }

  lemma NatToStringInjective(a: nat, b: nat)
    requires NatToString(a) == NatToString(b)
    ensures a == b
  {
    ParseNatToString(a);
    ParseNatToString(b);
  }

  /** Such releases also get distinct URLs, whatever their years. */
  lemma ArchiveUrlInjective(y1: nat, v1: Version, y2: nat, v2: Version)
    requires v1.minor < 100 && v1.patch < 100 && v2.minor < 100 && v2.patch < 100
    requires ArchiveUrl(y1, v1) == ArchiveUrl(y2, v2)
    ensures y1 == y2 && v1 == v2
  {
    UrlParts(y1, v1, y2, v2);
    NatToStringInjective(y1, y2);
    ArchiveNumberInjective(v1, v2);
  }

  /** Equal URLs have equal year directories and equal archive numbers. */
  lemma UrlParts(y1: nat, v1: Version, y2: nat, v2: Version)
    requires ArchiveUrl(y1, v1) == ArchiveUrl(y2, v2)
    ensures NatToString(y1) == NatToString(y2) && ArchiveNumber(v1) == ArchiveNumber(v2)
  {
    var s1, s2 := NatToString(y1), NatToString(y2);
    var a1, a2 := ArchiveNumber(v1), ArchiveNumber(v2);
    DigitsHaveNoSlash(s1);
    DigitsHaveNoSlash(s2);
    UrlShape(y1, v1);
    UrlShape(y2, v2);
    UrlCut(s1, a1, s2, a2);
  }

  lemma UrlShape(y: nat, v: Version)
    ensures ArchiveUrl(y, v)
         == "https://sqlite.org/" + NatToString(y) + "/" + ("sqlite-amalgamation-" + ArchiveNumber(v) + ".zip")
  {
  }

  lemma UrlCut(s1: string, a1: string, s2: string, a2: string)
    requires '/' !in s1 && '/' !in s2
    requires "https://sqlite.org/" + s1 + "/" + ("sqlite-amalgamation-" + a1 + ".zip")
          == "https://sqlite.org/" + s2 + "/" + ("sqlite-amalgamation-" + a2 + ".zip")
    ensures s1 == s2 && a1 == a2
  {
    CutAfterHead("https://sqlite.org/", s1, "sqlite-amalgamation-" + a1 + ".zip",
                 s2, "sqlite-amalgamation-" + a2 + ".zip");
    SameLengthTails("sqlite-amalgamation-", a1, ".zip", "sqlite-amalgamation-", a2, ".zip");
  }

  /** After a common head, the text up to the first `/` and the text after
      it agree. */
  lemma CutAfterHead(head: string, s1: string, r1: string, s2: string, r2: string)
    requires '/' !in s1 && '/' !in s2
    requires head + s1 + "/" + r1 == head + s2 + "/" + r2
    ensures s1 == s2 && r1 == r2
  {
    var u1, u2 := head + s1 + "/" + r1, head + s2 + "/" + r2;
    assert u1[|head|..] == s1 + ['/'] + r1;
    assert u2[|head|..] == s2 + ['/'] + r2;
    CutAtFirst(s1, r1, s2, r2, '/');
  }

  lemma ArchiveUrlExample(y: nat, v: Version)
    requires y == 2021 && v == Version(3, 35, 2)
    ensures ArchiveUrl(y, v) == "https://sqlite.org/2021/sqlite-amalgamation-3350200.zip"
  {
    UrlShape(y, v);
    ExampleNumber(y, v);
    ExampleUrlText();
  }

  lemma ExampleNumber(y: nat, v: Version)
    requires y == 2021 && v == Version(3, 35, 2)
    ensures NatToString(y) == "2021" && ArchiveNumber(v) == "3350200"
  {
    ExampleNumerals();
    assert "3" + "35" + "02" + "00" == "3350200";
  }

  lemma ExampleUrlText()
    ensures "https://sqlite.org/" + "2021" + "/" + ("sqlite-amalgamation-" + "3350200" + ".zip")
         == "https://sqlite.org/2021/sqlite-amalgamation-3350200.zip"
  {
    ExampleUrlPieces();
    ExampleUrlJoin();
  }

  lemma ExampleUrlPieces()
    ensures "https://sqlite.org/" + "2021" + "/" == "https://sqlite.org/2021/"
    ensures "sqlite-amalgamation-" + "3350200" + ".zip" == "sqlite-amalgamation-3350200.zip"
  {
  }

  lemma ExampleUrlJoin()
    ensures "https://sqlite.org/2021/" + "sqlite-amalgamation-3350200.zip"
         == "https://sqlite.org/2021/sqlite-amalgamation-3350200.zip"
  {
  }

  lemma ExampleNumerals()
    ensures NatToString(2021) == "2021" && NatToString(3) == "3"
    ensures TwoDigits(35) == "35" && TwoDigits(2) == "02"
  {
    assert NatToString(20) == "2" + "0";
    assert NatToString(202) == "20" + "2";
    assert NatToString(2021) == "202" + "1";
    assert NatToString(35) == "3" + "5";
    assert NatToString(2) == "2";
    assert PadLeft("2", 2, '0') == "0" + "2";
  }

  // ---------------------------------------------------------------------------
  // The name of the archive's top directory.

  /** `PurePosixPath(url)` keeps the non-empty segments other than `.`. */
  function PathParts(segments: seq<string>): (r: seq<string>)
    ensures forall i :: 0 <= i < |r| ==> r[i] in segments && r[i] != "" && r[i] != "."
  {
    if segments == [] then []
    else
      var rest := PathParts(segments[1..]);
      if segments[0] == "" || segments[0] == "." then rest else [segments[0]] + rest
  }

  /** `PurePath.with_suffix('')` on a name: drop the text from the last dot,
      unless that dot opens the name or ends it. */
  function Stem(name: string): (r: string)
    ensures StartsWith(name, r)
  {
    var i := LastIndexOf(name, '.');
    if 0 < i < |name| - 1 then name[..i] else name
  }

  /** `PurePosixPath(url).with_suffix('').name`; `with_suffix` raises when
      the path has no name. */
  function TopDir(url: string): (r: Result<string, Error>)
    ensures r.Err? ==> r == Err(EmptyName(url))
    ensures r.Ok? ==> '/' !in r.value && r.value != ""
  {
    var parts := PathParts(Split(url, '/'));
    if parts == [] then Err(EmptyName(url))
    else
      SplitPartsFree(url, '/');
      Ok(Stem(parts[|parts| - 1]))
  }

  /** The stem of `name.ext` is `name` when the extension holds no dot. */
  lemma StemDropsExtension(name: string, ext: string)
    requires name != "" && ext != "" && '.' !in ext
    ensures Stem(name + "." + ext) == name
  {
    LastIndexBeforeTail(name, '.', ext);
    assert (name + "." + ext)[..|name|] == name;
  }

  lemma PathPartsAppend(a: seq<string>, b: seq<string>)
    ensures PathParts(a + b) == PathParts(a) + PathParts(b)
  {
    if a != [] {
      assert (a + b)[1..] == a[1..] + b;
      PathPartsAppend(a[1..], b);
    } else {
      assert a + b == b;
    }
  }

  /** The top directory named by a URL ending in `/name.ext` is `name`. */
  lemma TopDirOfName(head: string, name: string, ext: string)
    requires '/' !in name && '/' !in ext && '.' !in ext && name != "" && ext != ""
    ensures TopDir(head + "/" + name + "." + ext) == Ok(name)
  {
    var last := name + "." + ext;
    assert head + "/" + name + "." + ext == head + ['/'] + last;
    assert '/' !in last by {
      assert forall i :: 0 <= i < |last| ==> last[i] == (if i < |name| then name[i] else if i == |name| then '.' else ext[i - |name| - 1]);
    }
    LastPieceOfSplit(head, '/', last);
    PathPartsAppend(Split(head, '/'), [last]);
    assert |last| > 1;
    StemDropsExtension(name, ext);
  }

  /** The top directory of a release archive is its file name without
      `.zip`. */
  lemma TopDirOfArchive(year: nat, v: Version)
    ensures TopDir(ArchiveUrl(year, v)) == Ok(ArchiveName(v))
  {
    var head := "https://sqlite.org/" + NatToString(year);
    assert ArchiveUrl(year, v) == head + "/" + ArchiveName(v) + "." + "zip";
    NameHasNoSlash(v);
    TopDirOfName(head, ArchiveName(v), "zip");
  }

  lemma NameHasNoSlash(v: Version)
    ensures '/' !in ArchiveName(v)
  {
    ArchiveNumberDigits(v);
    DigitsHaveNoSlash(ArchiveNumber(v));
    NoSlashInEither("sqlite-amalgamation-", ArchiveNumber(v));
  }

  lemma DigitsHaveNoSlash(s: string)
    requires AllDigits(s)
    ensures '/' !in s
  {
    assert forall i :: 0 <= i < |s| ==> IsDigit(s[i]);
  }

  lemma NoSlashInEither(a: string, b: string)
    requires '/' !in a && '/' !in b
    ensures '/' !in a + b
  {
  }

  // ---------------------------------------------------------------------------
  // The configuration preamble.

  datatype Config = Config(macro: string, default: nat)

  const Configs: seq<Config> := [
    Config("SQLITE_THREADSAFE", 2),
    Config("SQLITE_OMIT_LOAD_EXTENSION", 1),
    Config("SQLITE_OMIT_DEPRECATED", 1),
    Config("SQLITE_DEFAULT_MEMSTATUS", 0),
    Config("SQLITE_DQS", 0)
  ]

  /** A macro is given its default only when the build has not defined it. */
  function ConfigBlock(c: Config): string {
    "\n#ifndef " + c.macro + "\n#define " + c.macro + " " + NatToString(c.default) + "\n#endif\n"
  }

  function DefaultConfigOf(configs: seq<Config>): string {
    if configs == [] then "" else ConfigBlock(configs[0]) + DefaultConfigOf(configs[1..])
  }

  const DefaultConfig: string := DefaultConfigOf(Configs)

  const PreambleHead: string :=
    "\n/**\n * The contents of this preamble are not part of the main sqlite3 distribution,\n"
    + " * and are inserted as part of the dds port for sqlite3.\n */\n\n"
    + "#if defined(__has_include)\n#  if __has_include(<sqlite3.tweaks.h>)\n"
    + "#    include <sqlite3.tweaks.h>\n#  endif\n#endif\n\n"

  const PreambleTail: string := "\n\n/** End of dds-inserted configuration preamble */\n\n"

  const SrcPrefix: string := PreambleHead + DefaultConfig + PreambleTail

  /** The preamble guards every configured macro, in the configured order. */
  lemma {:induction false} ConfigBlocksInOrder(configs: seq<Config>, i: nat) returns (pre: string, post: string)
    requires i < |configs|
    ensures DefaultConfigOf(configs) == pre + ConfigBlock(configs[i]) + post
  {
    if i == 0 {
      pre, post := "", DefaultConfigOf(configs[1..]);
      assert DefaultConfigOf(configs) == ConfigBlock(configs[0]) + DefaultConfigOf(configs[1..]);
    } else {
      var p0, p1 := ConfigBlocksInOrder(configs[1..], i - 1);
      assert configs[1..][i - 1] == configs[i];
      pre, post := ConfigBlock(configs[0]) + p0, p1;
      PrependBlock(ConfigBlock(configs[0]), p0, ConfigBlock(configs[i]), p1);
    }
  }

  lemma PrependBlock(a: string, b: string, c: string, d: string)
    ensures a + (b + c + d) == (a + b) + c + d
  {
  }

  /** A preamble around the rendered configuration guards each of its
      macros. */
  lemma PreambleGuards(head: string, configs: seq<Config>, tail: string, i: nat)
    requires i < |configs|
    ensures Contains(head + DefaultConfigOf(configs) + tail, ConfigBlock(configs[i]))
  {
    var pre, post := ConfigBlocksInOrder(configs, i);
    var block := ConfigBlock(configs[i]);
    Regroup(head, pre, block, post, tail);
    ContainsInside(head + pre, block, post + tail);
  }

  lemma Regroup(a: string, b: string, c: string, d: string, e: string)
    ensures a + (b + c + d) + e == (a + b) + c + (d + e)
  {
  }

  lemma PreambleGuardsEveryMacro(i: nat)
    requires i < |Configs|
    ensures Contains(SrcPrefix, ConfigBlock(Configs[i]))
  {
    PreambleGuards(PreambleHead, Configs, PreambleTail, i);
  }

  // ---------------------------------------------------------------------------
  // Building the source distribution.

  /** The downloaded zip file: member name to content. */
  type Archive = map<string, string>

  const Members: seq<string> := ["sqlite3.h", "sqlite3.c", "sqlite3ext.h"]

  const SourceDir: Path := ["src", "sqlite3"]

  /** The name the archive stores a member under. */
  function MemberKey(topdir: string, name: string): string {
    topdir + "/" + name
  }

  /** The loop of `prep_sqlite3_dir`: each member, with `prefix` in front, is
      written to `src/sqlite3/<name>`; a missing member raises `KeyError`
      after the earlier ones have been written. The preamble is a parameter
      so that its text is fixed in one place, `PrepareSdist`. */
  function ExtractMembers(t: Tree, archive: Archive, topdir: string, prefix: string, names: seq<string>): (o: Outcome)
    ensures WellFormed(t) && (forall i :: 0 <= i < |names| ==> ProperName(names[i])) ==> WellFormed(o.tree)
    decreases |names|
  {
    if names == [] then Outcome(t, None)
    else
      SourcePathProper(names[0]);
      var key := MemberKey(topdir, names[0]);
      if key !in archive then Outcome(t, Some(MissingMember(key)))
      else
        match Put(t, SourceDir + [names[0]], File(prefix + archive[key]))
        case Err(e) => Outcome(t, Some(e))
        case Ok(t1) => ExtractMembers(t1, archive, topdir, prefix, names[1..])
  }

  /** The source directory and every member written into it climb nowhere. */
  lemma SourcePathProper(name: string)
    ensures ProperPath(SourceDir)
    ensures ProperName(name) ==> ProperPath(SourceDir + [name])
  {
    assert ProperName("src") && ProperName("sqlite3");
    ProperConcat(SourceDir, [name]);
  }

  lemma MembersProper()
    ensures forall i :: 0 <= i < |Members| ==> ProperName(Members[i])
  {
    assert ProperName("sqlite3.h") && ProperName("sqlite3.c") && ProperName("sqlite3ext.h");
  }

  /** `prep_sqlite3_dir(destdir, url)` after the download. */
  function PrepSqlite3Dir(t: Tree, url: string, archive: Archive, prefix: string): (o: Outcome)
    ensures WellFormed(t) ==> WellFormed(o.tree)
  {
    match TopDir(url)
    case Err(e) => Outcome(t, Some(e))
    case Ok(topdir) =>
      SourcePathProper("sqlite3.h");
      MembersProper();
      match MakeDirs(t, SourceDir)
      case Err(e) => Outcome(t, Some(e))
      case Ok(t1) => ExtractMembers(t1, archive, topdir, prefix, Members)
  }

  function PackageManifest(v: Version): PackageJson {
    PackageJson("sqlite3", VersionString(v), "sqlite3", None)
  }

  const LibraryManifest: LibraryJson := LibraryJson("sqlite3", None)

  /** `prepare_sdist` with the preamble `prefix`, starting from the fresh
      temporary directory. */
  function PrepareSdistWith(port: Sqlite3Port, archive: Archive, prefix: string): (o: Outcome)
    ensures WellFormed(o.tree)
  {
    assert WellFormed(map[]);
    assert ProperPath(["package.json"]) && ProperPath(["library.json"]);
    var o := PrepSqlite3Dir(map[], ArchiveUrl(port.year, port.version), archive, prefix);
    if !o.Succeeded() then o
    else
      match Put(o.tree, ["package.json"], Manifest(Package(PackageManifest(port.version))))
      case Err(e) => Outcome(o.tree, Some(e))
      case Ok(t1) => FromResult(t1, Put(t1, ["library.json"], Manifest(Library(LibraryManifest))))
  }

  /** `SQLite3Port.prepare_sdist`. */
  function PrepareSdist(port: Sqlite3Port, archive: Archive): Outcome {
    PrepareSdistWith(port, archive, SrcPrefix)
  }

  /** The directories `mkdir(parents=True)` creates for `src/sqlite3`. */
  const SourceDirs: Tree := map[["src"] := Dir, ["src", "sqlite3"] := Dir]

  lemma MakeSourceDirs()
    ensures MakeDirs(map[], SourceDir) == Ok(SourceDirs)
  {
    var src: Path := ["src"];
    assert Parent(src) == [];
    assert Parent(SourceDir) == src;
    assert MakeDirs(map[], []) == Ok(map[]);
    assert MakeDirs(map[], src) == Ok(map[src := Dir]);
  }

  function SourcePath(name: string): Path {
    SourceDir + [name]
  }

  /** One member written into a tree that has `src/sqlite3` and no directory
      at the member's place. */
  lemma ExtractOne(t: Tree, archive: Archive, topdir: string, prefix: string, names: seq<string>)
    requires names != [] && MemberKey(topdir, names[0]) in archive
    requires IsDir(t, SourceDir) && !IsDir(t, SourcePath(names[0]))
    ensures ExtractMembers(t, archive, topdir, prefix, names)
         == ExtractMembers(t[SourcePath(names[0]) := File(prefix + archive[MemberKey(topdir, names[0])])],
                           archive, topdir, prefix, names[1..])
  {
    assert Parent(SourcePath(names[0])) == SourceDir;
  }

  /** The archive holds the three members under `topdir`. */
  predicate HasMembers(archive: Archive, topdir: string) {
    && MemberKey(topdir, "sqlite3.h") in archive
    && MemberKey(topdir, "sqlite3.c") in archive
    && MemberKey(topdir, "sqlite3ext.h") in archive
  }

  /** The three members written into the fresh `src/sqlite3`. */
  function Sources(archive: Archive, topdir: string, prefix: string): Tree
    requires HasMembers(archive, topdir)
  {
    SourceDirs[SourcePath("sqlite3.h") := File(prefix + archive[MemberKey(topdir, "sqlite3.h")])]
              [SourcePath("sqlite3.c") := File(prefix + archive[MemberKey(topdir, "sqlite3.c")])]
              [SourcePath("sqlite3ext.h") := File(prefix + archive[MemberKey(topdir, "sqlite3ext.h")])]
  }

  /** Everything the members are written to lies below `src`. */
  lemma SourcesBelowSrc(archive: Archive, topdir: string, prefix: string)
    requires HasMembers(archive, topdir)
    ensures forall p :: p in Sources(archive, topdir, prefix) ==> p != [] && p[0] == "src"
  {
    assert forall p :: p in SourceDirs ==> p == ["src"] || p == SourceDir;
    assert forall name :: SourcePath(name)[0] == "src";
  }

  lemma ExtractAll(archive: Archive, topdir: string, prefix: string)
    requires HasMembers(archive, topdir)
    ensures ExtractMembers(SourceDirs, archive, topdir, prefix, Members) == Outcome(Sources(archive, topdir, prefix), None)
  {
    var t0 := SourceDirs;
    assert SourcePath("sqlite3.h") !in t0 && SourcePath("sqlite3.c") !in t0 && SourcePath("sqlite3ext.h") !in t0;
    ExtractThree(t0, archive, topdir, prefix);
  }

  /** The three members written, one after the other, into a tree that has
      `src/sqlite3` and none of them. */
  lemma ExtractThree(t0: Tree, archive: Archive, topdir: string, prefix: string)
    requires HasMembers(archive, topdir) && IsDir(t0, SourceDir)
    requires SourcePath("sqlite3.h") !in t0 && SourcePath("sqlite3.c") !in t0 && SourcePath("sqlite3ext.h") !in t0
    ensures ExtractMembers(t0, archive, topdir, prefix, Members)
         == Outcome(t0[SourcePath("sqlite3.h") := File(prefix + archive[MemberKey(topdir, "sqlite3.h")])]
                      [SourcePath("sqlite3.c") := File(prefix + archive[MemberKey(topdir, "sqlite3.c")])]
                      [SourcePath("sqlite3ext.h") := File(prefix + archive[MemberKey(topdir, "sqlite3ext.h")])],
                    None)
  {
    var n1, n2 := Members[1..], Members[1..][1..];
    assert Members[0] == "sqlite3.h" && n1[0] == "sqlite3.c" && n2 == ["sqlite3ext.h"] && n2[1..] == [];
    var t1 := t0[SourcePath("sqlite3.h") := File(prefix + archive[MemberKey(topdir, "sqlite3.h")])];
    var t2 := t1[SourcePath("sqlite3.c") := File(prefix + archive[MemberKey(topdir, "sqlite3.c")])];
    ExtractOne(t0, archive, topdir, prefix, Members);
    assert !IsDir(t1, SourcePath("sqlite3.c")) by {
      assert SourcePath("sqlite3.c") != SourcePath("sqlite3.h");
    }
    ExtractOne(t1, archive, topdir, prefix, n1);
    assert !IsDir(t2, SourcePath("sqlite3ext.h")) by {
      assert SourcePath("sqlite3ext.h") != SourcePath("sqlite3.h") && SourcePath("sqlite3ext.h") != SourcePath("sqlite3.c");
    }
    ExtractOne(t2, archive, topdir, prefix, n2);
  }

  /** The release's `src/sqlite3`, when its archive has the three members. */
  lemma PrepSqlite3DirOfArchive(year: nat, v: Version, archive: Archive, prefix: string)
    requires HasMembers(archive, ArchiveName(v))
    ensures PrepSqlite3Dir(map[], ArchiveUrl(year, v), archive, prefix) == Outcome(Sources(archive, ArchiveName(v), prefix), None)
  {
    TopDirOfArchive(year, v);
    MakeSourceDirs();
    ExtractAll(archive, ArchiveName(v), prefix);
  }

  /** The exact source distribution of a release whose archive has the three
      members: `src/sqlite3` holding each member with the preamble in front,
      and the two manifests. */
  lemma PrepareSdistTree(port: Sqlite3Port, archive: Archive)
    requires HasMembers(archive, ArchiveName(port.version))
    ensures PrepareSdist(port, archive)
         == Outcome(Sources(archive, ArchiveName(port.version), SrcPrefix)
                      [["package.json"] := Manifest(Package(PackageManifest(port.version)))]
                      [["library.json"] := Manifest(Library(LibraryManifest))],
                    None)
  {
    PrepareSdistWithTree(port, archive, SrcPrefix);
  }

  lemma PrepareSdistWithTree(port: Sqlite3Port, archive: Archive, prefix: string)
    requires HasMembers(archive, ArchiveName(port.version))
    ensures PrepareSdistWith(port, archive, prefix)
         == Outcome(Sources(archive, ArchiveName(port.version), prefix)
                      [["package.json"] := Manifest(Package(PackageManifest(port.version)))]
                      [["library.json"] := Manifest(Library(LibraryManifest))],
                    None)
  {
    PrepSqlite3DirOfArchive(port.year, port.version, archive, prefix);
    var t := Sources(archive, ArchiveName(port.version), prefix);
    SourcesBelowSrc(archive, ArchiveName(port.version), prefix);
    PutManifests(t, Manifest(Package(PackageManifest(port.version))), Manifest(Library(LibraryManifest)));
  }

  /** Both manifests land at the top of a tree that holds only `src/...`. */
  lemma PutManifests(t: Tree, package: Node, library: Node)
    requires !package.Dir? && !library.Dir?
    requires forall p :: p in t ==> p != [] && p[0] == "src"
    ensures Put(t, ["package.json"], package) == Ok(t[["package.json"] := package])
    ensures Put(t[["package.json"] := package], ["library.json"], library)
         == Ok(t[["package.json"] := package][["library.json"] := library])
  {
    assert Parent(["package.json"]) == [] && Parent(["library.json"]) == [];
    assert ["package.json"][0] != "src" && ["library.json"][0] != "src";
  }

  /** A release whose archive lacks `sqlite3.h` fails naming it, with only
      `src/sqlite3` created. */
  lemma PrepareSdistMissingHeader(port: Sqlite3Port, archive: Archive)
    requires MemberKey(ArchiveName(port.version), "sqlite3.h") !in archive
    ensures PrepareSdist(port, archive)
         == Outcome(SourceDirs, Some(MissingMember(MemberKey(ArchiveName(port.version), "sqlite3.h"))))
  {
    TopDirOfArchive(port.year, port.version);
    MakeSourceDirs();
  }

  /** The package manifest names the release's version, which reads back. */
  lemma PackageManifestVersion(v: Version)
    ensures ParseVersion(PackageManifest(v).version) == Some(v)
  {
    VersionRoundTrip(v);
  }

  /** The `package.json` of a listed port names its package id: the name
      and a version that reads back as the id's version. */
  lemma PackageManifestNamesPort(port: Sqlite3Port)
    requires port in AllPorts()
    ensures PackageManifest(port.version).name == port.id.name
    ensures ParseVersion(PackageManifest(port.version).version) == Some(port.id.version)
  {
    ExpandIds(VersionGroups, 0);
    PackageManifestVersion(port.version);
  }
}
