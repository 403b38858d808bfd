/** The googletest port (`ports/googletest_ports.py`): a release checkout is
    regrouped into the four libraries `gtest`, `gtest-main`, `gmock` and
    `gmock-main` below `libs/`, the directories the package does not need are
    removed, the package and library manifests are written, and every `.cc`
    file has `#include "src/...` turned into `#include "...`. */
module Googletest {
  import opened Results
  import opened Text
  import opened Paths
  import opened Packages
  import opened FileTree
  import opened Fs
  import opened Relocation
  import opened Regroup

  // ---------------------------------------------------------------------------
  // `del_src_from_inc`: the substitution of `^(\s*#include\s+")src/` by the
  // captured group, applied to each line read.

  /** The pattern matches `line` with the leading whitespace ending at `i` and
      the whitespace after `#include` ending at the quote at `j`. */
  predicate SrcIncludeAt(line: string, i: nat, j: nat) {
    && i + 8 < j && j + 5 <= |line|
    && AllSpace(line[..i])
    && line[i..i + 8] == "#include"
    && AllSpace(line[i + 8..j])
    && line[j..j + 5] == "\"src/"
  }

  /** The line with the `src/` after the opening quote removed when the
      pattern matches at its start. Both `\s` runs are greedy; since neither
      `#` nor `"` is whitespace, backtracking into them never helps. */
  function StripSrcInclude(line: string): string {
    var i := SpanSpace(line, 0);
    if i + 8 <= |line| && line[i..i + 8] == "#include" then
      var j := SpanSpace(line, i + 8);
      if i + 8 < j && j + 5 <= |line| && line[j..j + 5] == "\"src/" then
        line[..j + 1] + line[j + 5..]
      else line
    else line
  }

  /** Wherever the pattern matches, its two whitespace runs are the ones the
      greedy scan finds. */
  lemma MatchIsGreedy(line: string, i: nat, j: nat)
    requires SrcIncludeAt(line, i, j)
    ensures SpanSpace(line, 0) == i && SpanSpace(line, i + 8) == j
  {
    assert line[0..i] == line[..i];
    assert line[i] == line[i..i + 8][0] == '#';
    SpanSpaceAt(line, 0, i);
    assert line[j] == line[j..j + 5][0] == '"';
    SpanSpaceAt(line, i + 8, j);
  }

  /** A line changes exactly when the pattern matches it, and then only the
      four characters `src/` after the quote go. */
  lemma StripSrcIncludeExactly(line: string)
    ensures forall i, j :: SrcIncludeAt(line, i, j) ==>
      StripSrcInclude(line) == line[..j + 1] + line[j + 5..]
    ensures (forall i, j :: !SrcIncludeAt(line, i, j)) ==> StripSrcInclude(line) == line
  {
    forall i, j | SrcIncludeAt(line, i, j)
      ensures StripSrcInclude(line) == line[..j + 1] + line[j + 5..]
    {
      MatchIsGreedy(line, i, j);
    }
    StripUnmatched(line);
  }

  /** A line the greedy scan does not match stays as it is. */
  lemma StripUnmatched(line: string)
    ensures || StripSrcInclude(line) == line
            || (SpanSpace(line, 0) + 8 <= |line|
                && SrcIncludeAt(line, SpanSpace(line, 0), SpanSpace(line, SpanSpace(line, 0) + 8)))
  {
    if StripSrcInclude(line) != line {
      var i := SpanSpace(line, 0);
      assert i + 8 <= |line| && line[i..i + 8] == "#include";
      var j := SpanSpace(line, i + 8);
      assert i + 8 < j && j + 5 <= |line| && line[j..j + 5] == "\"src/";
      ScanFindsMatch(line, i, j);
    }
  }

  /** What the greedy scan finds, when it finds the pattern, is a match. */
  lemma ScanFindsMatch(line: string, i: nat, j: nat)
    requires i == SpanSpace(line, 0) && i + 8 <= |line| && line[i..i + 8] == "#include"
    requires j == SpanSpace(line, i + 8) && i + 8 < j && j + 5 <= |line| && line[j..j + 5] == "\"src/"
    ensures SrcIncludeAt(line, i, j)
  {
    SpanIsSpace(line, 0);
    assert line[0..i] == line[..i];
    SpanIsSpace(line, i + 8);
  }

  /** A line read from a file stays such a line: the rewrite only removes
      characters before the end of the line. */
  lemma StripKeepsLine(line: string, isLast: bool)
    requires ProperLine(line, isLast)
    ensures ProperLine(StripSrcInclude(line), isLast)
  {
    var i := SpanSpace(line, 0);
    if i + 8 <= |line| && line[i..i + 8] == "#include" {
      var j := SpanSpace(line, i + 8);
      if i + 8 < j && j + 5 <= |line| && line[j..j + 5] == "\"src/" {
        assert StripSrcInclude(line) == line[..j + 1] + line[j + 5..];
        assert line[j + 4] == line[j..j + 5][4];
        CutKeepsLine(line, isLast, j + 1);
      }
    }
  }

  /** Cutting four characters that are not the line's end out of a line
      leaves a line. */
  lemma CutKeepsLine(line: string, isLast: bool, k: nat)
    requires ProperLine(line, isLast)
    requires 0 < k && k + 4 <= |line| && line[k + 3] != '\n'
    ensures ProperLine(line[..k] + line[k + 4..], isLast)
  {
    var r := line[..k] + line[k + 4..];
    assert forall m :: 0 <= m < k ==> r[m] == line[m];
    assert forall m :: k <= m < |r| ==> r[m] == line[m + 4];
  }

  /** A plain include of a private header loses its `src/`. */
  lemma StripExampleRemoves()
    ensures StripSrcInclude("#include \"src/a.h\"\n") == "#include \"a.h\"\n"
  {
    var a := "#include \"src/a.h\"\n";
    PlainMatches(a);
    MatchIsGreedy(a, 0, 9);
    assert a[..10] + a[14..] == "#include \"a.h\"\n";
  }

  /** Leading whitespace and a tab before the quote are allowed. */
  lemma StripExampleIndented()
    ensures StripSrcInclude(" #include\t\"src/a.h\"\n") == " #include\t\"a.h\"\n"
  {
    var b := " #include\t\"src/a.h\"\n";
    IndentedMatches(b);
    MatchIsGreedy(b, 1, 10);
    assert b[..11] + b[15..] == " #include\t\"a.h\"\n";
  }

  /** Angle-bracket includes are left alone. */
  lemma StripExampleAngle()
    ensures StripSrcInclude("#include <src/a.h>\n") == "#include <src/a.h>\n"
  {
    var c := "#include <src/a.h>\n";
    AngleShape(c);
    SpanSpaceAt(c, 0, 0);
    SpanSpaceAt(c, 8, 9);
  }

  lemma PlainMatches(a: string)
    requires a == "#include \"src/a.h\"\n"
    ensures SrcIncludeAt(a, 0, 9)
  {
    assert a[..0] == [];
    assert a[0..8] == [a[0], a[1], a[2], a[3], a[4], a[5], a[6], a[7]] == "#include";
    assert a[8..9] == [a[8]] == " ";
    assert a[9..14] == [a[9], a[10], a[11], a[12], a[13]] == "\"src/";
  }

  lemma IndentedMatches(b: string)
    requires b == " #include\t\"src/a.h\"\n"
    ensures SrcIncludeAt(b, 1, 10)
  {
    assert b[..1] == [b[0]] == " ";
    assert b[1..9] == [b[1], b[2], b[3], b[4], b[5], b[6], b[7], b[8]] == "#include";
    assert b[9..10] == [b[9]] == "\t";
    assert b[10..15] == [b[10], b[11], b[12], b[13], b[14]] == "\"src/";
  }

  lemma AngleShape(c: string)
    requires c == "#include <src/a.h>\n"
    ensures |c| == 19 && !IsSpace(c[0]) && AllSpace(c[0..0])
    ensures c[0..8] == "#include" && AllSpace(c[8..9]) && !IsSpace(c[9])
    ensures c[9..14] != "\"src/"
  {
    assert c[0] == '#' && c[8] == ' ' && c[9] == '<';
    assert c[0..8] == [c[0], c[1], c[2], c[3], c[4], c[5], c[6], c[7]] == "#include";
    assert c[8..9] == [c[8]] == " ";
    assert c[9..14][0] == '<';
  }

  /** `\s+` needs at least one whitespace character before the quote. */
  lemma StripExampleNoSpace()
    ensures StripSrcInclude("#include\"src/a.h\"\n") == "#include\"src/a.h\"\n"
  {
    var d := "#include\"src/a.h\"\n";
    assert SpanSpace(d, 0) == 0;
    assert SpanSpace(d, 8) == 8;
  }

  /** `del_src_from_inc` over a whole text: each line read is rewritten and
      written out. */
  function DelSrcFromInc(text: string): string {
    var lines := SplitLines(text);
    Concat(seq(|lines|, k requires 0 <= k < |lines| => StripSrcInclude(lines[k])))
  }

  /** The output has the same lines as the input, each rewritten on its own:
      the rewrite never merges or splits lines. */
  lemma DelSrcFromIncLineByLine(text: string)
    ensures var lines := SplitLines(text);
            var out := SplitLines(DelSrcFromInc(text));
            && |out| == |lines|
            && forall k :: 0 <= k < |lines| ==> out[k] == StripSrcInclude(lines[k])
  {
    var lines := SplitLines(text);
    var mapped := seq(|lines|, k requires 0 <= k < |lines| => StripSrcInclude(lines[k]));
    SplitLinesProper(text);
    forall k | 0 <= k < |mapped| ensures ProperLine(mapped[k], k == |mapped| - 1) {
      StripKeepsLine(lines[k], k == |lines| - 1);
    }
    SplitLinesConcat(mapped);
  }

  /** A text without a matching line is written back unchanged. */
  lemma DelSrcFromIncUnchanged(text: string)
    requires forall line, i, j :: line in SplitLines(text) ==> !SrcIncludeAt(line, i, j)
    ensures DelSrcFromInc(text) == text
  {
    var lines := SplitLines(text);
    var mapped := seq(|lines|, k requires 0 <= k < |lines| => StripSrcInclude(lines[k]));
    forall k | 0 <= k < |lines| ensures mapped[k] == lines[k] {
      StripSrcIncludeExactly(lines[k]);
    }
    assert mapped == lines;
    ConcatSplitLines(text);
  }

  // ---------------------------------------------------------------------------
  // The ports: one per release tag.

  const GitUrl: string := "https://github.com/google/googletest"

  /** A port: the git tag to clone and the package it produces. */
  datatype GoogleTestPort = GoogleTestPort(tag: string, id: PackageId)

  /** `GoogleTestPort(tag, version)`; `VersionInfo.parse` raising on a
      malformed version is `None`. */
  function MakePort(tag: string, version: string): (r: Option<GoogleTestPort>)
    ensures r.Some? <==> ParseVersion(version).Some?
    ensures r.Some? ==> r.value.tag == tag && r.value.id.name == "googletest"
                        && VersionString(r.value.id.version) == version
  {
    match ParseVersion(version)
    case None => None
    case Some(v) =>
      ParsedVersionIsCanonical(version);
      Some(GoogleTestPort(tag, PackageId("googletest", v)))
  }

  const Tags: seq<(string, string)> := [("release-1.11.0", "1.11.0"), ("release-1.10.0", "1.10.0")]

  function MakePorts(tags: seq<(string, string)>): (r: Option<seq<GoogleTestPort>>)
    ensures r.Some? ==> |r.value| == |tags|
  {
    if tags == [] then Some([])
    else
      var p :- MakePort(tags[0].0, tags[0].1);
      var rest :- MakePorts(tags[1..]);
      Some([p] + rest)
  }

  lemma MakePortsCons(tags: seq<(string, string)>)
    requires tags != []
    ensures MakePorts(tags) ==
      if MakePort(tags[0].0, tags[0].1).Some? && MakePorts(tags[1..]).Some?
      then Some([MakePort(tags[0].0, tags[0].1).value] + MakePorts(tags[1..]).value)
      else None
  {
  }

  function AllPorts(): Option<seq<GoogleTestPort>> {
    MakePorts(Tags)
  }

  lemma ReleaseVersions()
    ensures VersionString(Version(1, 11, 0)) == "1.11.0"
    ensures VersionString(Version(1, 10, 0)) == "1.10.0"
  {
    assert NatToString(1) == "1" && NatToString(0) == "0";
    assert NatToString(11) == NatToString(1) + "1";
    assert NatToString(10) == NatToString(1) + "0";
  }

  /** The two releases parse into the ports for googletest 1.11.0 and
      1.10.0, in that order. */
  lemma AllPortsListed()
    ensures AllPorts() == Some([
      GoogleTestPort("release-1.11.0", PackageId("googletest", Version(1, 11, 0))),
      GoogleTestPort("release-1.10.0", PackageId("googletest", Version(1, 10, 0)))])
  {
    var p0 := GoogleTestPort("release-1.11.0", PackageId("googletest", Version(1, 11, 0)));
    var p1 := GoogleTestPort("release-1.10.0", PackageId("googletest", Version(1, 10, 0)));
    TagPorts();
    var rest := Tags[1..];
    assert rest[0] == Tags[1] && rest[1..] == [];
    assert MakePorts(rest[1..]) == Some([]);
    assert MakePort(rest[0].0, rest[0].1) == Some(p1);
    MakePortsCons(rest);
    assert [p1] + [] == [p1];
    assert MakePorts(rest) == Some([p1]);
    assert MakePort(Tags[0].0, Tags[0].1) == Some(p0);
    MakePortsCons(Tags);
    assert [p0] + [p1] == [p0, p1];
  }

  lemma TagPorts()
    ensures MakePort(Tags[0].0, Tags[0].1) == Some(GoogleTestPort("release-1.11.0", PackageId("googletest", Version(1, 11, 0))))
    ensures MakePort(Tags[1].0, Tags[1].1) == Some(GoogleTestPort("release-1.10.0", PackageId("googletest", Version(1, 10, 0))))
  {
    ReleaseVersions();
    VersionRoundTrip(Version(1, 11, 0));
    VersionRoundTrip(Version(1, 10, 0));
  }

  /** Each tag is `release-` followed by the version its port builds. */
  lemma TagsNameTheirVersions()
    ensures AllPorts().Some?
    ensures forall p :: p in AllPorts().value ==> p.tag == "release-" + VersionString(p.id.version)
  {
    AllPortsListed();
    ReleaseTags();
  }

  lemma ReleaseTags()
    ensures "release-" + VersionString(Version(1, 11, 0)) == "release-1.11.0"
    ensures "release-" + VersionString(Version(1, 10, 0)) == "release-1.10.0"
  {
    ReleaseVersions();
    assert "release-" + "1.11.0" == "release-1.11.0";
    assert "release-" + "1.10.0" == "release-1.10.0";
  }

  // ---------------------------------------------------------------------------
  // The manifests.

  /** `_write_package_json`. */
  function PackageManifest(v: Version): PackageJson {
    PackageJson("googletest", VersionString(v), "googletest", Some(["abseil@2021.3.24"]))
  }

  /** `_write_library_jsons`, in the order of the dictionary literal. */
  const Libraries: seq<LibraryJson> := [
    LibraryJson("gtest", Some(["abseil/abseil"])),
    LibraryJson("gtest-main", Some(["abseil/abseil", "googletest/gtest"])),
    LibraryJson("gmock", Some(["abseil/abseil", "googletest/gtest"])),
    LibraryJson("gmock-main", Some(["abseil/abseil", "googletest/gmock"]))
  ]

  /** `libs/<name>/library.json`. */
  function LibraryJsonPath(name: string): Path {
    ["libs", name, "library.json"]
  }

  /** A library's `uses` entry resolves when it names abseil, which the
      package depends on, or a library of this package listed before it. */
  predicate UseResolves(libs: seq<LibraryJson>, k: nat, use: string) {
    || use == "abseil/abseil"
    || exists m :: 0 <= m < k && m < |libs| && use == "googletest/" + libs[m].name
  }

  /** The dependencies the manifests declare are all satisfiable and form no
      cycle: every use names abseil or an earlier library, and the package
      declares its abseil dependency. */
  lemma LibraryUsesResolve()
    ensures forall k :: 0 <= k < |Libraries| ==>
      && Libraries[k].uses.Some?
      && forall use :: use in Libraries[k].uses.value ==> UseResolves(Libraries, k, use)
    ensures forall v :: PackageManifest(v).depends == Some(["abseil@2021.3.24"])
    ensures forall k, m :: 0 <= k < m < |Libraries| ==> Libraries[k].name != Libraries[m].name
  {
    assert UseResolves(Libraries, 1, "googletest/gtest") by {
      assert "googletest/gtest" == "googletest/" + Libraries[0].name;
    }
    assert UseResolves(Libraries, 2, "googletest/gtest") by {
      assert "googletest/gtest" == "googletest/" + Libraries[0].name;
    }
    assert UseResolves(Libraries, 3, "googletest/gmock") by {
      assert "googletest/gmock" == "googletest/" + Libraries[2].name;
    }
  }

  function WritePackageJson(t: Tree, v: Version): Result<Tree, Error> {
    Put(t, ["package.json"], Manifest(Package(PackageManifest(v))))
  }

  /** Writing each library's manifest in turn; `open` fails when the
      library's directory is missing. */
  function WriteLibraryJsons(t: Tree, libs: seq<LibraryJson>): Result<Tree, Error>
    decreases |libs|
  {
    if libs == [] then Ok(t)
    else
      var t1 :- Put(t, LibraryJsonPath(libs[0].name), Manifest(Library(libs[0])));
      WriteLibraryJsons(t1, libs[1..])
  }

  /** Every library directory present and no directory in the way of a
      manifest. */
  ghost predicate LibraryDirsReady(t: Tree, libs: seq<LibraryJson>) {
    forall k :: 0 <= k < |libs| ==>
      IsDir(t, ["libs", libs[k].name]) && !IsDir(t, LibraryJsonPath(libs[k].name))
  }

  /** With the library directories in place the manifests are all written,
      each with its own record, and nothing else changes; a missing
      directory is an error. */
  lemma {:induction false} WriteLibraryJsonsExactly(t: Tree, libs: seq<LibraryJson>)
    requires LibraryDirsReady(t, libs)
    ensures WriteLibraryJsons(t, libs).Ok?
    ensures var u := WriteLibraryJsons(t, libs).value;
            && (forall k :: 0 <= k < |libs| ==> LibraryJsonPath(libs[k].name) in u)
            && (forall q :: q in u <==> q in t || exists k :: 0 <= k < |libs| && q == LibraryJsonPath(libs[k].name))
            && (forall q :: q in t && (forall k :: 0 <= k < |libs| ==> q != LibraryJsonPath(libs[k].name)) ==> u[q] == t[q])
            && (WellFormed(t) ==> WellFormed(u))
    decreases |libs|
  {
    if libs != [] {
      var t1 := t[LibraryJsonPath(libs[0].name) := Manifest(Library(libs[0]))];
      FirstManifestWritten(t, libs);
      ReadyAfterFirst(t, libs);
      WriteLibraryJsonsExactly(t1, libs[1..]);
      var u := WriteLibraryJsons(t1, libs[1..]).value;
      WriteStepMembers(t, libs, t1, u);
      WriteStepKept(t, libs, t1, u);
    }
  }

  lemma FirstManifestWritten(t: Tree, libs: seq<LibraryJson>)
    requires libs != [] && LibraryDirsReady(t, libs)
    ensures Put(t, LibraryJsonPath(libs[0].name), Manifest(Library(libs[0])))
         == Ok(t[LibraryJsonPath(libs[0].name) := Manifest(Library(libs[0]))])
    ensures WellFormed(t) ==> WellFormed(t[LibraryJsonPath(libs[0].name) := Manifest(Library(libs[0]))])
    ensures WriteLibraryJsons(t, libs)
         == WriteLibraryJsons(t[LibraryJsonPath(libs[0].name) := Manifest(Library(libs[0]))], libs[1..])
  {
    assert Parent(LibraryJsonPath(libs[0].name)) == ["libs", libs[0].name];
  }

  lemma WriteStepMembers(t: Tree, libs: seq<LibraryJson>, t1: Tree, u: Tree)
    requires libs != []
    requires t1 == t[LibraryJsonPath(libs[0].name) := Manifest(Library(libs[0]))]
    requires forall k :: 0 <= k < |libs[1..]| ==> LibraryJsonPath(libs[1..][k].name) in u
    requires forall q :: q in u <==> q in t1 || exists k :: 0 <= k < |libs[1..]| && q == LibraryJsonPath(libs[1..][k].name)
    ensures forall k :: 0 <= k < |libs| ==> LibraryJsonPath(libs[k].name) in u
    ensures forall q :: q in u <==> q in t || exists k :: 0 <= k < |libs| && q == LibraryJsonPath(libs[k].name)
  {
    var rest := libs[1..];
    forall q | q in u ensures q in t || exists k :: 0 <= k < |libs| && q == LibraryJsonPath(libs[k].name) {
      if q !in t1 {
        var k :| 0 <= k < |rest| && q == LibraryJsonPath(rest[k].name);
        assert rest[k] == libs[k + 1];
      }
    }
    forall q | q in t || exists k :: 0 <= k < |libs| && q == LibraryJsonPath(libs[k].name) ensures q in u {
      if q !in t {
        var k :| 0 <= k < |libs| && q == LibraryJsonPath(libs[k].name);
        if k > 0 {
          assert libs[k] == rest[k - 1];
        }
      }
    }
    forall k | 0 <= k < |libs| ensures LibraryJsonPath(libs[k].name) in u {
      if k > 0 {
        assert libs[k] == rest[k - 1];
      }
    }
  }

  lemma WriteStepKept(t: Tree, libs: seq<LibraryJson>, t1: Tree, u: Tree)
    requires libs != []
    requires t1 == t[LibraryJsonPath(libs[0].name) := Manifest(Library(libs[0]))]
    requires forall q :: q in t1 ==> q in u
    requires forall q :: q in t1 && (forall k :: 0 <= k < |libs[1..]| ==> q != LibraryJsonPath(libs[1..][k].name)) ==> u[q] == t1[q]
    ensures forall q :: q in t && (forall k :: 0 <= k < |libs| ==> q != LibraryJsonPath(libs[k].name)) ==> q in u && u[q] == t[q]
  {
    var rest := libs[1..];
    forall q | q in t && (forall k :: 0 <= k < |libs| ==> q != LibraryJsonPath(libs[k].name)) ensures q in u && u[q] == t[q] {
      assert q != LibraryJsonPath(libs[0].name);
      forall k | 0 <= k < |rest| ensures q != LibraryJsonPath(rest[k].name) {
        assert rest[k] == libs[k + 1];
      }
    }
  }

  /** After the first manifest is written the remaining directories are
      still ready. */
  lemma ReadyAfterFirst(t: Tree, libs: seq<LibraryJson>)
    requires libs != [] && LibraryDirsReady(t, libs)
    ensures LibraryDirsReady(t[LibraryJsonPath(libs[0].name) := Manifest(Library(libs[0]))], libs[1..])
  {
    var t1 := t[LibraryJsonPath(libs[0].name) := Manifest(Library(libs[0]))];
    var rest := libs[1..];
    forall k | 0 <= k < |rest|
      ensures IsDir(t1, ["libs", rest[k].name]) && !IsDir(t1, LibraryJsonPath(rest[k].name))
    {
      assert rest[k] == libs[k + 1];
      assert LibraryJsonPath(libs[0].name) != ["libs", rest[k].name];
    }
  }

  /** Each library's manifest holds the last record written under its name:
      a record whose name does not come again is what its file holds. */
  lemma {:induction false} WriteLibraryJsonsLastWins(t: Tree, libs: seq<LibraryJson>, k: nat)
    requires LibraryDirsReady(t, libs)
    requires k < |libs| && forall j :: k < j < |libs| ==> libs[j].name != libs[k].name
    ensures WriteLibraryJsons(t, libs).Ok?
    ensures LibraryJsonPath(libs[k].name) in WriteLibraryJsons(t, libs).value
    ensures WriteLibraryJsons(t, libs).value[LibraryJsonPath(libs[k].name)] == Manifest(Library(libs[k]))
    decreases |libs|
  {
    WriteLibraryJsonsExactly(t, libs);
    var t1 := t[LibraryJsonPath(libs[0].name) := Manifest(Library(libs[0]))];
    var rest := libs[1..];
    assert Parent(LibraryJsonPath(libs[0].name)) == ["libs", libs[0].name];
    ReadyAfterFirst(t, libs);
    assert WriteLibraryJsons(t, libs) == WriteLibraryJsons(t1, rest);
    if k == 0 {
      WriteLibraryJsonsExactly(t1, rest);
      forall j | 0 <= j < |rest| ensures LibraryJsonPath(libs[0].name) != LibraryJsonPath(rest[j].name) {
        assert rest[j] == libs[j + 1];
        assert LibraryJsonPath(rest[j].name)[1] == rest[j].name;
      }
    } else {
      forall j | k - 1 < j < |rest| ensures rest[j].name != rest[k - 1].name {
        assert rest[j] == libs[j + 1];
      }
      WriteLibraryJsonsLastWins(t1, rest, k - 1);
    }
  }

  // ---------------------------------------------------------------------------
  // `_munge_files_into_libs`.

  /** The four `move_files` calls: the `include` and `src` trees of
      `googlemock` and `googletest` go to `libs/gmock` and `libs/gtest`. */
  const Regroupings: seq<Regrouping> := [
    Regrouping(["googlemock"], ["libs", "gmock"], ["include"]),
    Regrouping(["googlemock"], ["libs", "gmock"], ["src"]),
    Regrouping(["googletest"], ["libs", "gtest"], ["include"]),
    Regrouping(["googletest"], ["libs", "gtest"], ["src"])
  ]

  /** What the clean-up removes: the top-level `library.json` and the
      `docs`, `ci`, `googletest` and `googlemock` trees. */
  predicate Doomed(q: Path) {
    || q == ["library.json"]
    || IsPrefix(["docs"], q) || IsPrefix(["ci"], q)
    || IsPrefix(["googletest"], q) || IsPrefix(["googlemock"], q)
  }

  /** The three unconditional `remove_directory` calls, one after the
      other; the first that raises ends the sequence. */
  function RemoveDirectories(t: Tree, dirs: seq<Path>): Result<Tree, Error>
    decreases |dirs|
  {
    if dirs == [] then Ok(t)
    else
      var t1 :- RemoveDirectory(t, dirs[0]).AsResult();
      RemoveDirectories(t1, dirs[1..])
  }

  /** The tree without the subtree at `p`. */
  function Without(t: Tree, p: Path): Tree {
    map q | q in t && !IsPrefix(p, q) :: t[q]
  }

  /** The entries of `t` below none of `dirs`. */
  function WithoutAll(t: Tree, dirs: seq<Path>): Tree {
    map q | q in t && (forall i :: 0 <= i < |dirs| ==> !IsPrefix(dirs[i], q)) :: t[q]
  }

  lemma RemoveDirectoryIsWithout(t: Tree, p: Path)
    requires IsDir(t, p)
    ensures RemoveDirectory(t, p).AsResult() == Ok(Without(t, p))
  {
  }

  /** Removing directories none of which contains another succeeds exactly
      when each is a directory, and then removes exactly their subtrees. */
  lemma {:induction false} RemoveDirectoriesExactly(t: Tree, dirs: seq<Path>)
    requires forall i, j :: 0 <= i < |dirs| && 0 <= j < |dirs| && i != j ==> !IsPrefix(dirs[i], dirs[j])
    ensures RemoveDirectories(t, dirs).Ok? <==> forall i :: 0 <= i < |dirs| ==> IsDir(t, dirs[i])
    ensures RemoveDirectories(t, dirs).Ok? ==> RemoveDirectories(t, dirs).value == WithoutAll(t, dirs)
    decreases |dirs|
  {
    if dirs != [] {
      var d, rest := dirs[0], dirs[1..];
      if IsDir(t, d) {
        RemoveDirectoryIsWithout(t, d);
        var t1 := Without(t, d);
        forall i, j | 0 <= i < |rest| && 0 <= j < |rest| && i != j ensures !IsPrefix(rest[i], rest[j]) {
          assert rest[i] == dirs[i + 1] && rest[j] == dirs[j + 1];
        }
        RemoveDirectoriesExactly(t1, rest);
        OthersSurvive(t, dirs);
        if forall i :: 0 <= i < |rest| ==> IsDir(t, rest[i]) {
          forall i | 0 <= i < |dirs| ensures IsDir(t, dirs[i]) {
            if i > 0 {
              assert dirs[i] == rest[i - 1];
            }
          }
          WithoutFirst(t, dirs);
        } else {
          var i :| 0 <= i < |rest| && !IsDir(t, rest[i]);
          assert dirs[i + 1] == rest[i];
        }
      }
    }
  }

  /** Removing the first directory leaves the kind of every other one as it was. */
  lemma OthersSurvive(t: Tree, dirs: seq<Path>)
    requires dirs != []
    requires forall i, j :: 0 <= i < |dirs| && 0 <= j < |dirs| && i != j ==> !IsPrefix(dirs[i], dirs[j])
    ensures forall i :: 0 <= i < |dirs[1..]| ==> IsDir(Without(t, dirs[0]), dirs[1..][i]) == IsDir(t, dirs[1..][i])
  {
    var rest := dirs[1..];
    forall i | 0 <= i < |rest| ensures IsDir(Without(t, dirs[0]), rest[i]) == IsDir(t, rest[i]) {
      assert rest[i] == dirs[i + 1];
    }
  }

  /** Removing the first directory and then the rest removes them all. */
  lemma WithoutFirst(t: Tree, dirs: seq<Path>)
    requires dirs != []
    ensures WithoutAll(Without(t, dirs[0]), dirs[1..]) == WithoutAll(t, dirs)
  {
    forall q ensures q in WithoutAll(Without(t, dirs[0]), dirs[1..]) <==> q in WithoutAll(t, dirs) {
      OutsideAllCons(dirs, q);
    }
  }

  /** A path lies outside every directory of a list exactly when it lies
      outside the first and outside each of the rest. */
  lemma OutsideAllCons(dirs: seq<Path>, q: Path)
    requires dirs != []
    ensures (forall i :: 0 <= i < |dirs| ==> !IsPrefix(dirs[i], q))
        <==> !IsPrefix(dirs[0], q) && (forall i :: 0 <= i < |dirs[1..]| ==> !IsPrefix(dirs[1..][i], q))
  {
    var rest := dirs[1..];
    if !IsPrefix(dirs[0], q) && (forall i :: 0 <= i < |rest| ==> !IsPrefix(rest[i], q)) {
      forall i | 0 <= i < |dirs| ensures !IsPrefix(dirs[i], q) {
        if i > 0 {
          assert dirs[i] == rest[i - 1];
        }
      }
    }
    if forall i :: 0 <= i < |dirs| ==> !IsPrefix(dirs[i], q) {
      forall i | 0 <= i < |rest| ensures !IsPrefix(rest[i], q) {
        assert rest[i] == dirs[i + 1];
      }
    }
  }

  /** Lines 79-85: each removal raises when its target is missing or of the
      wrong kind, except that a missing `docs` is skipped. */
  function Cleanup(t: Tree): Result<Tree, Error> {
    var t1 :- RemoveFiles(t, [["library.json"]]).AsResult();
    var t2 :- if Exists(t1, ["docs"]) then RemoveDirectory(t1, ["docs"]).AsResult() else Ok(t1);
    RemoveDirectories(t2, [["ci"], ["googletest"], ["googlemock"]])
  }

  /** The clean-up succeeds on these conditions only. */
  predicate CanClean(t: Tree) {
    && ["library.json"] in t && !t[["library.json"]].Dir?
    && (["docs"] in t ==> t[["docs"]].Dir?)
    && IsDir(t, ["ci"]) && IsDir(t, ["googletest"]) && IsDir(t, ["googlemock"])
  }

  /** With its library.json gone, `docs` is removed when it is a directory,
      skipped when it is missing, and an error otherwise. */
  lemma CleanupDocs(t: Tree, t1: Tree)
    requires WellFormed(t) && t1 == t - {["library.json"]}
    ensures var r := if Exists(t1, ["docs"]) then RemoveDirectory(t1, ["docs"]).AsResult() else Ok(t1);
            && (r.Ok? <==> (["docs"] in t ==> t[["docs"]].Dir?))
            && (r.Ok? ==> r.value == Without(t1, ["docs"]))
  {
    if ["docs"] !in t {
      forall q | q in t1 && IsPrefix(["docs"], q) ensures false {
        AncestorsAreDirs(t, q, ["docs"]);
      }
      assert Without(t1, ["docs"]) == t1;
    }
  }

  const Removed: seq<Path> := [["ci"], ["googletest"], ["googlemock"]]

  lemma RemovedApart()
    ensures forall i, j :: 0 <= i < |Removed| && 0 <= j < |Removed| && i != j ==> !IsPrefix(Removed[i], Removed[j])
    ensures forall q :: (forall i :: 0 <= i < |Removed| ==> !IsPrefix(Removed[i], q))
                        <==> !IsPrefix(["ci"], q) && !IsPrefix(["googletest"], q) && !IsPrefix(["googlemock"], q)
  {
    var r := Removed;
    assert |r| == 3 && r[0] == ["ci"] && r[1] == ["googletest"] && r[2] == ["googlemock"];
    assert "googletest"[6] != "googlemock"[6];
    forall i, j | 0 <= i < |r| && 0 <= j < |r| && i != j ensures !IsPrefix(r[i], r[j]) {
      assert |r[i]| == 1 && |r[j]| == 1 && r[i][0] != r[j][0];
    }
    forall q ensures (forall i :: 0 <= i < |r| ==> !IsPrefix(r[i], q))
                     <==> !IsPrefix(["ci"], q) && !IsPrefix(["googletest"], q) && !IsPrefix(["googlemock"], q)
    {
      if !IsPrefix(["ci"], q) && !IsPrefix(["googletest"], q) && !IsPrefix(["googlemock"], q) {
        forall i | 0 <= i < |r| ensures !IsPrefix(r[i], q) {
          assert i == 0 || i == 1 || i == 2;
        }
      }
    }
  }

  /** In a well-formed tree the clean-up succeeds exactly when the file and
      the directories it removes are there (`docs` may be absent), and it
      then removes them and nothing else. */
  lemma CleanupExactly(t: Tree)
    requires WellFormed(t)
    ensures Cleanup(t).Ok? <==> CanClean(t)
    ensures Cleanup(t).Ok? ==> Cleanup(t).value == map q | q in t && !Doomed(q) :: t[q]
  {
    RemoveFilesExactly(t, [["library.json"]]);
    assert Removable(t, [["library.json"]]) <==> ["library.json"] in t && !t[["library.json"]].Dir?;
    if ["library.json"] in t && !t[["library.json"]].Dir? {
      assert (set p | p in [["library.json"]]) == {["library.json"]};
      var t1 := t - {["library.json"]};
      assert RemoveFiles(t, [["library.json"]]).AsResult() == Ok(t1);
      CleanupDocs(t, t1);
      if ["docs"] in t ==> t[["docs"]].Dir? {
        CleanedDirs(t, Without(t1, ["docs"]));
      }
    }
  }

  /** The last three removals, after `library.json` and `docs`. */
  lemma CleanedDirs(t: Tree, t2: Tree)
    requires t2 == Without(t - {["library.json"]}, ["docs"])
    ensures var r := RemoveDirectories(t2, [["ci"], ["googletest"], ["googlemock"]]);
            && (r.Ok? <==> IsDir(t, ["ci"]) && IsDir(t, ["googletest"]) && IsDir(t, ["googlemock"]))
            && (r.Ok? ==> r.value == map q | q in t && !Doomed(q) :: t[q])
  {
    RemovedApart();
    RemoveDirectoriesExactly(t2, Removed);
    CleanedDirsPresent(t, t2);
    CleanedDirsMap(t, t2);
  }

  lemma CleanedDirsPresent(t: Tree, t2: Tree)
    requires t2 == Without(t - {["library.json"]}, ["docs"])
    ensures (forall i :: 0 <= i < |Removed| ==> IsDir(t2, Removed[i]))
        <==> IsDir(t, ["ci"]) && IsDir(t, ["googletest"]) && IsDir(t, ["googlemock"])
  {
    assert Removed[0] == ["ci"] && Removed[1] == ["googletest"] && Removed[2] == ["googlemock"];
    KeptTopDir(t, t2, ["ci"]);
    KeptTopDir(t, t2, ["googletest"]);
    KeptTopDir(t, t2, ["googlemock"]);
  }

  /** A top-level directory other than `docs` survives the first removals. */
  lemma KeptTopDir(t: Tree, t2: Tree, p: Path)
    requires t2 == Without(t - {["library.json"]}, ["docs"])
    requires |p| == 1 && p[0] != "docs" && p[0] != "library.json"
    ensures IsDir(t2, p) == IsDir(t, p)
  {
    assert !IsPrefix(["docs"], p);
    assert p != ["library.json"];
  }

  lemma CleanedDirsMap(t: Tree, t2: Tree)
    requires t2 == Without(t - {["library.json"]}, ["docs"])
    requires forall q :: (forall i :: 0 <= i < |Removed| ==> !IsPrefix(Removed[i], q))
                        <==> !IsPrefix(["ci"], q) && !IsPrefix(["googletest"], q) && !IsPrefix(["googlemock"], q)
    ensures WithoutAll(t2, Removed) == map q | q in t && !Doomed(q) :: t[q]
  {
  }

  /** `libs/<lib>/src/<lib>_main.cc`, the file each main library takes. */
  function MainSource(lib: string): Path {
    ["libs", lib, "src", lib + "_main.cc"]
  }

  /** Where lines 89-99 put it: the path relative to `libs/<lib>` is kept,
      so it lands in a `src` directory below `libs/<lib>-main/src`. */
  function MainTarget(lib: string): Path {
    ["libs", lib + "-main", "src", "src", lib + "_main.cc"]
  }

  function MoveMain(t: Tree, lib: string): Result<Tree, Error> {
    MoveFiles(t, ["libs", lib + "-main", "src"], ["libs", lib], [MainSource(lib)]).AsResult()
  }

  /** Lines 89-99: `gmock` first, then `gtest`. */
  function MoveMains(t: Tree): Result<Tree, Error> {
    var t1 :- MoveMain(t, "gmock");
    MoveMain(t1, "gtest")
  }

  /** `u` is `t` with the main file of `lib` moved to `MainTarget(lib)`. */
  ghost predicate MainMoved(t: Tree, u: Tree, lib: string) {
    && WellFormed(u)
    && MainSource(lib) in t && MainSource(lib) !in u
    && MainTarget(lib) in u && u[MainTarget(lib)] == t[MainSource(lib)]
    && (forall q :: q in t && q != MainSource(lib) ==> q in u && u[q] == t[q])
    && (forall q :: q in u && q !in t ==> q == MainTarget(lib) || (q in MainDirs(lib) && u[q] == Dir))
  }

  /** Moving a main file whose new library does not exist yet succeeds: the
      file lands at `MainTarget`, leaves its old place, and the only other
      new entries are the directories of the new library. */
  lemma MoveMainLands(t: Tree, lib: string)
    requires WellFormed(t) && IsDir(t, ["libs"])
    requires MainSource(lib) in t && !t[MainSource(lib)].Dir?
    requires forall q :: q in t ==> !IsPrefix(["libs", lib + "-main"], q)
    ensures MoveMain(t, lib).Ok?
    ensures WellFormed(MoveMain(t, lib).value)
    ensures MainTarget(lib) in MoveMain(t, lib).value
    ensures MoveMain(t, lib).value[MainTarget(lib)] == t[MainSource(lib)]
    ensures MainSource(lib) !in MoveMain(t, lib).value
    ensures forall q :: q in t && q != MainSource(lib) ==>
              q in MoveMain(t, lib).value && MoveMain(t, lib).value[q] == t[q]
    ensures forall q :: q in MoveMain(t, lib).value && q !in t ==>
              q == MainTarget(lib) || (q in MainDirs(lib) && MoveMain(t, lib).value[q] == Dir)
  {
    var src, into, whence := MainSource(lib), ["libs", lib + "-main", "src"], ["libs", lib];
    var dst := MainTarget(lib);
    MainDestination(lib);
    MainParentReady(t, lib);
    MainIntoProper(lib);
    assert ProperPath(src);
    assert TransferOne(Move, t, into, whence, src).Succeeded();
    TransferSingle(Move, t, into, whence, src);
    TransferFile(Move, t, into, whence, src);
    var u := TransferOne(Move, t, into, whence, src).tree;
    assert MoveMain(t, lib) == Ok(u);
    assert Parent(dst) == ["libs", lib + "-main", "src", "src"];
    forall q | q in u && q !in t && q != dst ensures q in MainDirs(lib) {
      assert IsPrefix(q, Parent(dst)) && q != [] && q != ["libs"];
      assert q != Parent(dst)[..1];
      OnTheWayToMain(lib, q);
    }
  }

  lemma MainDestination(lib: string)
    ensures Destination(MainSource(lib), ["libs", lib], ["libs", lib + "-main", "src"]) == Ok(MainTarget(lib))
    ensures Parent(MainTarget(lib)) == ["libs", lib + "-main", "src", "src"]
    ensures MainTarget(lib) != MainSource(lib)
  {
    var src, into, whence := MainSource(lib), ["libs", lib + "-main", "src"], ["libs", lib];
    assert src[..|whence|] == whence && src[2] == "src";
    assert into + src[|whence|..] == MainTarget(lib);
    assert |lib + "-main"| != |lib|;
    assert MainTarget(lib)[1] != MainSource(lib)[1];
  }

  lemma MainIntoProper(lib: string)
    ensures ProperPath(["libs", lib + "-main", "src"])
  {
    assert |lib + "-main"| >= 5;
  }

  lemma MainParentReady(t: Tree, lib: string)
    requires WellFormed(t) && IsDir(t, ["libs"])
    requires forall q :: q in t ==> !IsPrefix(["libs", lib + "-main"], q)
    ensures DirsAlong(t, ["libs", lib + "-main", "src", "src"])
    ensures MakeDirs(t, ["libs", lib + "-main", "src", "src"]).Ok?
    ensures MainTarget(lib) !in MakeDirs(t, ["libs", lib + "-main", "src", "src"]).value
  {
    var p: Path := ["libs", lib + "-main", "src", "src"];
    forall q | q in t && IsPrefix(q, p) ensures t[q].Dir? {
      PrefixOfPrefix(q, p, ["libs", lib + "-main"]);
      if |q| >= 2 {
        assert false;
      }
      assert q != [];
      assert q == p[..1] == ["libs"];
    }
    assert DirsAlong(t, p);
    var dst := MainTarget(lib);
    assert IsPrefix(["libs", lib + "-main"], dst);
    assert dst !in t;
    assert |dst| > |p|;
  }

  lemma OnTheWayToMain(lib: string, q: Path)
    requires IsPrefix(q, ["libs", lib + "-main", "src", "src"]) && |q| >= 2
    ensures q in MainDirs(lib)
  {
    var d := ["libs", lib + "-main", "src", "src"];
    assert q == d[..|q|];
    if |q| == 2 {
      assert q == ["libs", lib + "-main"];
    } else if |q| == 3 {
      assert q == ["libs", lib + "-main", "src"];
    } else {
      assert q == d;
    }
  }

  /** Of two prefixes of one path, the shorter is a prefix of the longer. */
  lemma PrefixOfPrefix(q: Path, d: Path, a: Path)
    ensures IsPrefix(q, d) && IsPrefix(a, d) && |a| <= |q| ==> IsPrefix(a, q)
  {
  }

  /** The directories the move of a main file may create. */
  function MainDirs(lib: string): set<Path> {
    {["libs", lib + "-main"], ["libs", lib + "-main", "src"], ["libs", lib + "-main", "src", "src"]}
  }

  // ---------------------------------------------------------------------------
  // The regrouping in terms of the checkout.

  /** `g` lies in one of the four moved subtrees. */
  predicate InLibrary(g: Path) {
    && |g| > 2
    && (g[0] == "googlemock" || g[0] == "googletest")
    && (g[1] == "include" || g[1] == "src")
  }

  function LibraryOf(top: string): string {
    if top == "googlemock" then "gmock" else "gtest"
  }

  function TopOf(lib: string): string {
    if lib == "gmock" then "googlemock" else "googletest"
  }

  /** Where the regrouping puts an entry of a library subtree. */
  function LibPath(g: Path): Path
    requires g != []
  {
    ["libs", LibraryOf(g[0])] + g[1..]
  }

  /** An entry inside a subtree of `libs/gmock` or `libs/gtest`. */
  predicate IsLibPath(q: Path) {
    && |q| > 3 && q[0] == "libs"
    && (q[1] == "gmock" || q[1] == "gtest")
    && (q[2] == "include" || q[2] == "src")
  }

  /** The checkout entry a library entry came from. */
  function Back(q: Path): Path
    requires |q| > 1
  {
    [TopOf(q[1])] + q[2..]
  }

  /** `LibPath` and `Back` are inverse to each other. */
  lemma LibPathBack(g: Path, q: Path)
    ensures InLibrary(g) ==> IsLibPath(LibPath(g)) && Back(LibPath(g)) == g
    ensures IsLibPath(q) ==> InLibrary(Back(q)) && LibPath(Back(q)) == q
  {
    if InLibrary(g) {
      assert LibPath(g)[2..] == g[1..];
      assert Back(LibPath(g)) == [g[0]] + g[1..];
    }
    if IsLibPath(q) {
      assert Back(q)[1..] == q[2..];
      assert LibPath(Back(q)) == ["libs", q[1]] + q[2..];
    }
  }

  /** The directories the regrouping may create. */
  const RegroupDirs: set<Path> := {
    ["libs"], ["libs", "gmock"], ["libs", "gtest"],
    ["libs", "gmock", "include"], ["libs", "gmock", "src"],
    ["libs", "gtest", "include"], ["libs", "gtest", "src"]}

  /** `u` is the checkout `t` after the four moves, in the checkout's terms:
      every library entry is at its `LibPath`, everything outside the two
      source trees stays, and the only other new entries are the library
      directories. */
  ghost predicate AfterRegroup(t: Tree, u: Tree) {
    && WellFormed(u)
    && (forall g :: g in t && InLibrary(g) ==> LibPath(g) in u && u[LibPath(g)] == t[g])
    && (forall p :: p in t && !(InLibrary(p) && !t[p].Dir?) ==> p in u && u[p] == t[p])
    && (forall p :: p in u && p in t ==> u[p] == t[p])
    && (forall q :: q in u && q !in t ==>
          || (q in RegroupDirs && u[q] == Dir)
          || (IsLibPath(q) && Back(q) in t && u[q] == t[Back(q)]))
  }

  lemma RegroupingsShape()
    ensures |Regroupings| == 4
    ensures Regroupings[0].Source() == ["googlemock", "include"] && Regroupings[0].Target() == ["libs", "gmock", "include"]
    ensures Regroupings[1].Source() == ["googlemock", "src"] && Regroupings[1].Target() == ["libs", "gmock", "src"]
    ensures Regroupings[2].Source() == ["googletest", "include"] && Regroupings[2].Target() == ["libs", "gtest", "include"]
    ensures Regroupings[3].Source() == ["googletest", "src"] && Regroupings[3].Target() == ["libs", "gtest", "src"]
    ensures forall i :: 0 <= i < 4 ==> Regroupings[i].rel != [] && Regroupings[i].rel[0] != ".."
    ensures forall i :: 0 <= i < 4 ==> ProperPath(Regroupings[i].into)
  {
    assert ProperPath(["libs", "gmock"]) && ProperPath(["libs", "gtest"]);
  }

  /** Moves from distinct two-segment subtrees outside `libs` to distinct
      three-segment places inside it are independent. */
  lemma IndependentBySegments(ms: seq<Regrouping>)
    requires forall i :: 0 <= i < |ms| ==>
      && ms[i].rel != [] && ms[i].rel[0] != ".." && ProperPath(ms[i].into)
      && |ms[i].Source()| == 2 && ms[i].Source()[0] != "libs"
      && |ms[i].Target()| == 3 && ms[i].Target()[0] == "libs"
    requires forall i, j :: 0 <= i < j < |ms| ==>
      ms[i].Source() != ms[j].Source() && ms[i].Target() != ms[j].Target()
    ensures Independent(ms)
  {
    forall i, j | 0 <= i < |ms| && 0 <= j < |ms| ensures Apart(ms[i].Source(), ms[j].Target()) {
      assert ms[j].Target()[..2][0] == "libs";
    }
    forall i, j | 0 <= i < |ms| && 0 <= j < |ms| && i != j
      ensures Apart(ms[i].Source(), ms[j].Source()) && Apart(ms[i].Target(), ms[j].Target())
    {
      assert ms[i].Source()[..2] == ms[i].Source() && ms[i].Target()[..3] == ms[i].Target();
      assert ms[j].Source()[..2] == ms[j].Source() && ms[j].Target()[..3] == ms[j].Target();
    }
  }

  /** The four moves touch four separate subtrees and write to four
      separate places. */
  lemma RegroupingsIndependent()
    ensures Independent(Regroupings)
  {
    RegroupingsShape();
    var ms := Regroupings;
    assert "googlemock" != "libs" && "googletest" != "libs";
    assert "googlemock"[6] != "googletest"[6];
    assert "include"[0] != "src"[0];
    assert "gmock"[1] != "gtest"[1];
    forall i, j | 0 <= i < j < 4 ensures ms[i].Source() != ms[j].Source() && ms[i].Target() != ms[j].Target() {
      assert ms[i].Source()[0] != ms[j].Source()[0] || ms[i].Source()[1] != ms[j].Source()[1];
      assert ms[i].Target()[1] != ms[j].Target()[1] || ms[i].Target()[2] != ms[j].Target()[2];
    }
    IndependentBySegments(ms);
  }

  /** Two paths one of which is a non-empty prefix of the other start
      alike. */
  lemma SameHead(a: Path, b: Path)
    ensures IsPrefix(a, b) && a != [] ==> a[..1] == b[..1]
  {
  }

  /** Nothing of a checkout without `libs` is in the way of the moves. */
  lemma RegroupingsFresh(t: Tree)
    requires WellFormed(t) && forall q :: q in t ==> !IsPrefix(["libs"], q)
    ensures forall i :: 0 <= i < |Regroupings| ==> Fresh(t, Regroupings[i])
  {
    RegroupingsShape();
    forall i | 0 <= i < |Regroupings| ensures Fresh(t, Regroupings[i]) {
      FreshBelowLibs(t, Regroupings[i].Target());
    }
  }

  /** A target below `libs` is fresh in a tree without `libs`. */
  lemma FreshBelowLibs(t: Tree, R: Path)
    requires [] !in t && forall q :: q in t ==> !IsPrefix(["libs"], q)
    requires |R| > 0 && R[0] == "libs"
    ensures forall q :: q in t ==> !IsPrefix(R, q)
    ensures DirsAlong(t, R)
  {
    assert R[..1] == ["libs"];
    forall q | q in t ensures !IsPrefix(R, q) && !IsPrefix(q, R) {
      SameHead(R, q);
      SameHead(q, R);
    }
  }

  /** The move that takes a library entry. */
  function MoveIndex(g: Path): (i: nat)
    requires InLibrary(g)
    ensures i < 4
  {
    (if g[0] == "googlemock" then 0 else 2) + (if g[1] == "include" then 0 else 1)
  }

  lemma MovedToLibPath(g: Path)
    requires InLibrary(g)
    ensures var m := Regroupings[MoveIndex(g)];
            Under(g, m.Source()) && Moved(g, m.Source(), m.Target()) == LibPath(g)
  {
    RegroupingsShape();
    var m := Regroupings[MoveIndex(g)];
    assert m.Source() == g[..2];
    assert m.Target() == ["libs", LibraryOf(g[0]), g[1]];
    assert g[1..] == [g[1]] + g[2..];
  }

  lemma RegroupMovedLibs(t: Tree, u: Tree)
    requires Regrouped(t, u, Regroupings)
    ensures forall g :: g in t && InLibrary(g) ==> LibPath(g) in u && u[LibPath(g)] == t[g]
  {
    forall g | g in t && InLibrary(g) ensures LibPath(g) in u && u[LibPath(g)] == t[g] {
      MovedToLibPath(g);
    }
  }

  /** Only entries of the four library subtrees are moved. */
  lemma OutsideNotMoved(p: Path)
    requires !InLibrary(p)
    ensures forall i :: 0 <= i < |Regroupings| ==> !Under(p, Regroupings[i].Source())
  {
    RegroupingsShape();
    forall i | 0 <= i < 4 ensures !Under(p, Regroupings[i].Source()) {
      var S := Regroupings[i].Source();
      if |p| > 2 {
        assert p[..2] != S by {
          assert S[0] == "googlemock" || S[0] == "googletest";
          assert S[1] == "include" || S[1] == "src";
        }
      }
    }
  }

  lemma RegroupKeepsRest(t: Tree, u: Tree)
    requires Regrouped(t, u, Regroupings)
    ensures forall p :: p in t && !(InLibrary(p) && !t[p].Dir?) ==> p in u && u[p] == t[p]
    ensures forall p :: p in u && p in t ==> u[p] == t[p]
  {
    forall p | p in t && !(InLibrary(p) && !t[p].Dir?) ensures !MovedFile(t, Regroupings, p) {
      if !InLibrary(p) {
        OutsideNotMoved(p);
      }
    }
  }

  /** What one move adds: a directory on the way to its target, or an entry
      relocated from its subtree. */
  lemma NewEntryShape(t: Tree, u: Tree, i: nat, q: Path)
    requires i < 4 && q != [] && NewFrom(t, u, Regroupings[i], q)
    ensures || (q in RegroupDirs && u[q] == Dir)
            || (IsLibPath(q) && Back(q) in t && u[q] == t[Back(q)])
  {
    RegroupingsShape();
    var S, R := Regroupings[i].Source(), Regroupings[i].Target();
    if IsPrefix(q, R) && u[q] == Dir {
      assert q == R[..|q|];
      if |q| == 1 {
        assert q == ["libs"];
      } else if |q| == 2 {
        assert q == ["libs", "gmock"] || q == ["libs", "gtest"];
      } else {
        assert q == R;
      }
    } else {
      assert q[..3] == R;
      assert Origin(q, S, R) == Back(q);
    }
  }

  lemma RegroupNewEntries(t: Tree, u: Tree)
    requires Regrouped(t, u, Regroupings)
    ensures forall q :: q in u && q !in t ==>
              || (q in RegroupDirs && u[q] == Dir)
              || (IsLibPath(q) && Back(q) in t && u[q] == t[Back(q)])
  {
    RegroupingsShape();
    forall q | q in u && q !in t
      ensures || (q in RegroupDirs && u[q] == Dir)
              || (IsLibPath(q) && Back(q) in t && u[q] == t[Back(q)])
    {
      var i :| 0 <= i < |Regroupings| && NewFrom(t, u, Regroupings[i], q);
      NewEntryShape(t, u, i, q);
    }
  }

  /** The four moves succeed on a well-formed checkout without `libs` and
      regroup it. */
  lemma RegroupLayout(t: Tree)
    requires WellFormed(t) && forall q :: q in t ==> !IsPrefix(["libs"], q)
    ensures RegroupAll(t, Regroupings).Ok?
    ensures AfterRegroup(t, RegroupAll(t, Regroupings).value)
  {
    RegroupingsIndependent();
    RegroupingsFresh(t);
    RegroupSucceeds(t, Regroupings);
    var u := RegroupAll(t, Regroupings).value;
    RegroupMovedLibs(t, u);
    RegroupKeepsRest(t, u);
    RegroupNewEntries(t, u);
  }

  // ---------------------------------------------------------------------------
  // The whole of `_munge_files_into_libs`.

  ghost function MungeFilesIntoLibs(t: Tree): Result<Tree, Error> {
    var t1 :- RegroupAll(t, Regroupings);
    var t2 :- Cleanup(t1);
    MoveMains(t2)
  }

  /** `googlemock/src/gmock_main.cc` and `googletest/src/gtest_main.cc`. */
  function CheckoutMain(lib: string): Path {
    [TopOf(lib), "src", lib + "_main.cc"]
  }

  predicate IsMain(g: Path) {
    g == CheckoutMain("gmock") || g == CheckoutMain("gtest")
  }

  /** What a googletest release checkout looks like, as far as the port
      relies on it. */
  ghost predicate Checkout(t: Tree) {
    && WellFormed(t)
    && (forall q :: q in t ==> !IsPrefix(["libs"], q))
    && CanClean(t)
    && CheckoutMain("gmock") in t && !t[CheckoutMain("gmock")].Dir?
    && CheckoutMain("gtest") in t && !t[CheckoutMain("gtest")].Dir?
    && (["package.json"] in t ==> !t[["package.json"]].Dir?)
    && (forall q :: q in t && q != [] && EndsWith(Name(q), ".cc") ==> t[q].File?)
  }

  /** The checkout after the moves and the clean-up. */
  ghost predicate Cleaned(t: Tree, u: Tree) {
    && WellFormed(u)
    && (forall g :: g in t && InLibrary(g) ==> LibPath(g) in u && u[LibPath(g)] == t[g])
    && (forall p :: p in t && !Doomed(p) ==> p in u && u[p] == t[p])
    && (forall q :: q in u && !IsPrefix(["libs"], q) ==> q in t && !Doomed(q))
    && (forall q :: q in u && IsPrefix(["libs"], q) ==>
          || (q in RegroupDirs && u[q] == Dir)
          || (IsLibPath(q) && Back(q) in t && u[q] == t[Back(q)]))
  }

  /** Nothing under `libs` is doomed, and library entries are not kept in
      place: `InLibrary` entries are all below the two source trees. */
  lemma DoomedShape(q: Path)
    ensures IsPrefix(["libs"], q) ==> !Doomed(q)
    ensures InLibrary(q) ==> Doomed(q)
  {
    if IsPrefix(["libs"], q) {
      assert q[0] == "libs";
    }
    if InLibrary(q) {
      assert q[..1] == [q[0]];
    }
  }

  /** Regrouped entries survive the clean-up; whatever survives is kept or
      new below `libs`. */
  lemma CleanedLayout(t: Tree)
    requires Checkout(t)
    ensures RegroupAll(t, Regroupings).Ok?
    ensures var u1 := RegroupAll(t, Regroupings).value;
            Cleanup(u1).Ok? && Cleaned(t, Cleanup(u1).value)
  {
    RegroupLayout(t);
    var u1 := RegroupAll(t, Regroupings).value;
    CleanableAfterRegroup(t, u1);
    CleanupExactly(u1);
    var u2 := Cleanup(u1).value;
    CleanedFacts(t, u1, u2);
  }

  /** A top-level entry other than `libs` is neither moved nor created. */
  lemma TopLevelKept(t: Tree, u1: Tree, p: Path)
    requires AfterRegroup(t, u1) && |p| == 1 && p[0] != "libs"
    ensures p in u1 <==> p in t
    ensures p in t ==> u1[p] == t[p]
  {
    assert !InLibrary(p) && !IsLibPath(p);
    assert p !in RegroupDirs;
  }

  lemma CleanableAfterRegroup(t: Tree, u1: Tree)
    requires CanClean(t) && AfterRegroup(t, u1)
    ensures CanClean(u1)
  {
    TopLevelKept(t, u1, ["library.json"]);
    TopLevelKept(t, u1, ["docs"]);
    TopLevelKept(t, u1, ["ci"]);
    TopLevelKept(t, u1, ["googletest"]);
    TopLevelKept(t, u1, ["googlemock"]);
  }

  lemma CleanedFacts(t: Tree, u1: Tree, u2: Tree)
    requires Checkout(t) && AfterRegroup(t, u1) && CanClean(u1)
    requires u2 == map q | q in u1 && !Doomed(q) :: u1[q]
    ensures Cleaned(t, u2)
  {
    CleanedWellFormed(u1, u2);
    CleanedLibs(t, u1, u2);
    CleanedRest(t, u1, u2);
    CleanedNew(t, u1, u2);
  }

  /** The clean-up removes whole subtrees and a file, so the tree stays
      well formed. */
  lemma CleanedWellFormed(u1: Tree, u2: Tree)
    requires WellFormed(u1) && CanClean(u1)
    requires u2 == map q | q in u1 && !Doomed(q) :: u1[q]
    ensures WellFormed(u2)
  {
    forall q | q in u2 ensures IsDir(u2, Parent(q)) && ProperPath(q) {
      assert q in u1 && !Doomed(q);
      var r := Parent(q);
      if r != [] {
        assert IsDir(u1, r);
        assert r != ["library.json"];
        DoomedInherited(r, q);
        assert r in u2;
      }
    }
  }

  /** Whether a path is doomed depends on its first part only. */
  lemma DoomedInherited(r: Path, q: Path)
    requires r != [] && IsPrefix(r, q) && r != ["library.json"]
    ensures Doomed(r) ==> Doomed(q)
  {
    assert r[..1] == q[..1];
  }

  lemma CleanedLibs(t: Tree, u1: Tree, u2: Tree)
    requires AfterRegroup(t, u1)
    requires u2 == map q | q in u1 && !Doomed(q) :: u1[q]
    ensures forall g :: g in t && InLibrary(g) ==> LibPath(g) in u2 && u2[LibPath(g)] == t[g]
  {
    forall g | g in t && InLibrary(g) ensures LibPath(g) in u2 && u2[LibPath(g)] == t[g] {
      DoomedShape(LibPath(g));
    }
  }

  lemma CleanedRest(t: Tree, u1: Tree, u2: Tree)
    requires AfterRegroup(t, u1)
    requires u2 == map q | q in u1 && !Doomed(q) :: u1[q]
    ensures forall p :: p in t && !Doomed(p) ==> p in u2 && u2[p] == t[p]
  {
    forall p | p in t && !Doomed(p) ensures p in u2 && u2[p] == t[p] {
      DoomedShape(p);
    }
  }

  /** Everything the regrouping creates is below `libs`. */
  lemma CreatedUnderLibs(q: Path)
    ensures q in RegroupDirs ==> IsPrefix(["libs"], q) && |q| <= 3
    ensures IsLibPath(q) ==> IsPrefix(["libs"], q)
  {
    if IsLibPath(q) {
      assert q[..1] == [q[0]];
    }
  }

  lemma CleanedNew(t: Tree, u1: Tree, u2: Tree)
    requires (forall q :: q in t ==> !IsPrefix(["libs"], q)) && AfterRegroup(t, u1)
    requires u2 == map q | q in u1 && !Doomed(q) :: u1[q]
    ensures forall q :: q in u2 && !IsPrefix(["libs"], q) ==> q in t && !Doomed(q)
    ensures forall q :: q in u2 && IsPrefix(["libs"], q) ==>
              || (q in RegroupDirs && u2[q] == Dir)
              || (IsLibPath(q) && Back(q) in t && u2[q] == t[Back(q)])
  {
    forall q | q in u2 && !IsPrefix(["libs"], q) ensures q in t {
      CreatedUnderLibs(q);
    }
  }

  /** The checkout after the whole of `_munge_files_into_libs`: each
      library's sources below `libs/<lib>`, the main files in their own
      libraries, the rest of the checkout minus what the clean-up removes,
      and nothing else but the new directories. */
  ghost predicate Munged(t: Tree, u: Tree) {
    && WellFormed(u)
    && IsDir(u, ["libs", "gmock"]) && IsDir(u, ["libs", "gtest"])
    && (forall g :: g in t && InLibrary(g) && !IsMain(g) ==> LibPath(g) in u && u[LibPath(g)] == t[g])
    && CheckoutMain("gmock") in t && MainTarget("gmock") in u && u[MainTarget("gmock")] == t[CheckoutMain("gmock")]
    && CheckoutMain("gtest") in t && MainTarget("gtest") in u && u[MainTarget("gtest")] == t[CheckoutMain("gtest")]
    && (forall p :: p in t && !Doomed(p) ==> p in u && u[p] == t[p])
    && (forall q :: q in u && !IsPrefix(["libs"], q) ==> q in t && !Doomed(q))
    && (forall q :: q in u && IsPrefix(["libs"], q) ==>
          || (q in LibDirs && u[q] == Dir)
          || q == MainTarget("gmock") || q == MainTarget("gtest")
          || (IsLibPath(q) && Back(q) in t && !IsMain(Back(q)) && u[q] == t[Back(q)]))
  }

  /** Every directory the port creates below `libs`. */
  const LibDirs: set<Path> := RegroupDirs + MainDirs("gmock") + MainDirs("gtest")

  /** The main files are the library entries `MainSource` names. */
  lemma MainPaths()
    ensures MainSource("gmock") == LibPath(CheckoutMain("gmock")) && InLibrary(CheckoutMain("gmock"))
    ensures MainSource("gtest") == LibPath(CheckoutMain("gtest")) && InLibrary(CheckoutMain("gtest"))
    ensures MainSource("gmock") != MainSource("gtest")
    ensures forall q :: IsLibPath(q) && IsMain(Back(q)) ==> q == MainSource("gmock") || q == MainSource("gtest")
  {
    assert "gmock"[1] != "gtest"[1];
    forall q | IsLibPath(q) && IsMain(Back(q)) ensures q == MainSource("gmock") || q == MainSource("gtest") {
      LibPathBack([], q);
    }
  }

  /** After the clean-up nothing is below `libs/<x>-main`. */
  lemma NoMainLibraryYet(q: Path, lib: string)
    requires lib + "-main" != "gmock" && lib + "-main" != "gtest"
    requires IsPrefix(["libs"], q) ==> q in RegroupDirs || IsLibPath(q)
    ensures !IsPrefix(["libs", lib + "-main"], q)
  {
    TwoSegments("libs", lib + "-main", q);
  }

  /** What a two-segment prefix says about a path. */
  lemma TwoSegments(a: string, b: string, q: Path)
    ensures IsPrefix([a, b], q) ==> |q| >= 2 && q[0] == a && q[1] == b && IsPrefix([a], q)
  {
  }

  lemma MainSuffixes()
    ensures "gmock" + "-main" != "gmock" && "gmock" + "-main" != "gtest"
    ensures "gtest" + "-main" != "gmock" && "gtest" + "-main" != "gtest"
    ensures "gmock" + "-main" != "gtest" + "-main"
    ensures "gmock" + "-main" == "gmock-main" && "gtest" + "-main" == "gtest-main"
  {
    assert |"gmock" + "-main"| == 10;
    assert ("gmock" + "-main")[1] != ("gtest" + "-main")[1];
  }

  lemma MainsUnderLibs(lib: string)
    ensures IsPrefix(["libs"], MainTarget(lib))
    ensures forall q :: q in MainDirs(lib) ==> IsPrefix(["libs"], q)
    ensures |MainTarget(lib)| == 5 && |MainSource(lib)| == 4
  {
  }

  /** The clean-up leaves the checkout ready for both moves of lines 89-99. */
  lemma MainsReady(t: Tree, u: Tree, lib: string)
    requires lib == "gmock" || lib == "gtest"
    requires CheckoutMain(lib) in t && !t[CheckoutMain(lib)].Dir?
    requires WellFormed(u)
    requires forall g :: g in t && InLibrary(g) ==> LibPath(g) in u && u[LibPath(g)] == t[g]
    requires forall q :: q in u && IsPrefix(["libs"], q) ==> q in RegroupDirs || IsLibPath(q)
    ensures IsDir(u, ["libs"])
    ensures MainSource(lib) in u && !u[MainSource(lib)].Dir?
    ensures forall q :: q in u ==> !IsPrefix(["libs", lib + "-main"], q)
  {
    MainPaths();
    MainSuffixes();
    AncestorsAreDirs(u, MainSource(lib), ["libs"]);
    forall q | q in u ensures !IsPrefix(["libs", lib + "-main"], q) {
      NoMainLibraryYet(q, lib);
    }
  }

  /** After the first move the second one is still ready. */
  lemma SecondMainReady(u: Tree, v: Tree)
    requires IsDir(u, ["libs"]) && MainSource("gtest") in u && !u[MainSource("gtest")].Dir?
    requires forall q :: q in u ==> !IsPrefix(["libs", "gtest" + "-main"], q)
    requires forall q :: q in u && q != MainSource("gmock") ==> q in v && v[q] == u[q]
    requires forall q :: q in v && q !in u ==> q == MainTarget("gmock") || q in MainDirs("gmock")
    ensures IsDir(v, ["libs"])
    ensures MainSource("gtest") in v && !v[MainSource("gtest")].Dir?
    ensures forall q :: q in v ==> !IsPrefix(["libs", "gtest" + "-main"], q)
  {
    MainPaths();
    MainSuffixes();
    forall q | q in v ensures !IsPrefix(["libs", "gtest" + "-main"], q) {
      TwoSegments("libs", "gtest-main", q);
      if q !in u {
        assert q[1] == "gmock" + "-main";
      }
    }
  }

  /** From a checkout, `_munge_files_into_libs` succeeds and gives `Munged`. */
  lemma MungeLayout(t: Tree)
    requires Checkout(t)
    ensures MungeFilesIntoLibs(t).Ok?
    ensures Munged(t, MungeFilesIntoLibs(t).value)
  {
    CleanedLayout(t);
    var u := Cleanup(RegroupAll(t, Regroupings).value).value;
    MainsReady(t, u, "gmock");
    MainsReady(t, u, "gtest");
    MoveMainLands(u, "gmock");
    var v := MoveMain(u, "gmock").value;
    SecondMainReady(u, v);
    MoveMainLands(v, "gtest");
    var w := MoveMain(v, "gtest").value;
    assert MungeFilesIntoLibs(t) == Ok(w);
    MungedFacts(t, u, v, w);
  }

  lemma MungedFacts(t: Tree, u: Tree, v: Tree, w: Tree)
    requires Checkout(t) && Cleaned(t, u)
    requires MainMoved(u, v, "gmock") && MainMoved(v, w, "gtest")
    ensures Munged(t, w)
  {
    MungedLibraryDirs(u, v, w);
    MungedLibs(t, u, v, w);
    MungedMains(t, u, v, w);
    MungedKept(t, u, v, w);
    MungedTopLevel(t, u, v, w);
    MungedNew(t, u, v, w);
  }

  /** Moving the main files leaves their old libraries' directories. */
  lemma MungedLibraryDirs(u: Tree, v: Tree, w: Tree)
    requires WellFormed(u) && MainSource("gmock") in u
    requires WellFormed(v) && MainSource("gtest") in v
    requires forall q :: q in u && q != MainSource("gmock") ==> q in v && v[q] == u[q]
    requires forall q :: q in v && q != MainSource("gtest") ==> q in w && w[q] == v[q]
    ensures IsDir(w, ["libs", "gmock"]) && IsDir(w, ["libs", "gtest"])
  {
    AncestorsAreDirs(u, MainSource("gmock"), ["libs", "gmock"]);
    AncestorsAreDirs(v, MainSource("gtest"), ["libs", "gtest"]);
    MainsUnderLibs("gmock");
  }

  lemma MungedLibs(t: Tree, u: Tree, v: Tree, w: Tree)
    requires forall g :: g in t && InLibrary(g) ==> LibPath(g) in u && u[LibPath(g)] == t[g]
    requires forall q :: q in u && q != MainSource("gmock") ==> q in v && v[q] == u[q]
    requires forall q :: q in v && q != MainSource("gtest") ==> q in w && w[q] == v[q]
    ensures forall g :: g in t && InLibrary(g) && !IsMain(g) ==> LibPath(g) in w && w[LibPath(g)] == t[g]
  {
    MainPaths();
    forall g | g in t && InLibrary(g) && !IsMain(g) ensures LibPath(g) in w && w[LibPath(g)] == t[g] {
      LibPathBack(g, []);
      LibPathBack([], MainSource("gmock"));
      LibPathBack([], MainSource("gtest"));
    }
  }

  lemma MungedMains(t: Tree, u: Tree, v: Tree, w: Tree)
    requires Checkout(t) && Cleaned(t, u) && MainMoved(u, v, "gmock") && MainMoved(v, w, "gtest")
    ensures MainTarget("gmock") in w && w[MainTarget("gmock")] == t[CheckoutMain("gmock")]
    ensures MainTarget("gtest") in w && w[MainTarget("gtest")] == t[CheckoutMain("gtest")]
  {
    MainPaths();
    MainsUnderLibs("gmock");
    MainsUnderLibs("gtest");
  }

  lemma MungedKept(t: Tree, u: Tree, v: Tree, w: Tree)
    requires forall q :: q in t ==> !IsPrefix(["libs"], q)
    requires forall p :: p in t && !Doomed(p) ==> p in u && u[p] == t[p]
    requires forall q :: q in u && q != MainSource("gmock") ==> q in v && v[q] == u[q]
    requires forall q :: q in v && q != MainSource("gtest") ==> q in w && w[q] == v[q]
    ensures forall p :: p in t && !Doomed(p) ==> p in w && w[p] == t[p]
  {
    MainsUnderLibs("gmock");
    MainsUnderLibs("gtest");
    forall p | p in t && !Doomed(p) ensures p in w && w[p] == t[p] {
      assert MainSource("gmock")[..1] == ["libs"] == MainSource("gtest")[..1];
    }
  }

  lemma MungedTopLevel(t: Tree, u: Tree, v: Tree, w: Tree)
    requires forall q :: q in u && !IsPrefix(["libs"], q) ==> q in t && !Doomed(q)
    requires forall q :: q in v && q !in u ==> q == MainTarget("gmock") || q in MainDirs("gmock")
    requires forall q :: q in w && q !in v ==> q == MainTarget("gtest") || q in MainDirs("gtest")
    ensures forall q :: q in w && !IsPrefix(["libs"], q) ==> q in t && !Doomed(q)
  {
    MainsUnderLibs("gmock");
    MainsUnderLibs("gtest");
  }
  lemma MungedNew(t: Tree, u: Tree, v: Tree, w: Tree)
    requires Cleaned(t, u) && MainMoved(u, v, "gmock") && MainMoved(v, w, "gtest")
    ensures forall q :: q in w && IsPrefix(["libs"], q) ==>
              || (q in LibDirs && w[q] == Dir)
              || q == MainTarget("gmock") || q == MainTarget("gtest")
              || (IsLibPath(q) && Back(q) in t && !IsMain(Back(q)) && w[q] == t[Back(q)])
  {
    MainPaths();
    forall q | q in w && IsPrefix(["libs"], q)
      ensures || (q in LibDirs && w[q] == Dir)
              || q == MainTarget("gmock") || q == MainTarget("gtest")
              || (IsLibPath(q) && Back(q) in t && !IsMain(Back(q)) && w[q] == t[Back(q)])
    {
      if q in v && q in u {
        assert w[q] == v[q] == u[q];
      }
    }
  }

  // ---------------------------------------------------------------------------
  // `_rewrite_includes` and `prepare_sdist`.

  /** What `_rewrite_includes` makes of the entry at `p`: a `.cc` file is read
      as text and loses the `src/` of its quoted includes; the rest stays. */
  function RewriteNode(p: Path, n: Node): Node {
    if p != [] && EndsWith(Name(p), ".cc") && n.File? then File(DelSrcFromInc(TranslateNewlines(n.content)))
    else n
  }

  /** `filter_file_contents` over every `.cc` entry of the tree, as globbed. */
  ghost function RewriteIncludes(t: Tree): Result<Tree, Error> {
    FilterFileContents(t, Glob(t, Descendants([], ".cc")), DelSrcFromInc).AsResult()
  }

  /** Every entry named `*.cc` is a regular file. */
  ghost predicate SourcesAreFiles(t: Tree) {
    forall q :: q in t && q != [] && EndsWith(Name(q), ".cc") ==> t[q].File?
  }

  /** When every `.cc` entry is a file, the rewrite succeeds, rewrites every
      one of them and leaves every other entry as it was. */
  lemma RewriteIncludesExactly(t: Tree)
    requires WellFormed(t) && SourcesAreFiles(t)
    ensures RewriteIncludes(t).Ok?
    ensures RewriteIncludes(t).value == map q | q in t :: RewriteNode(q, t[q])
    ensures WellFormed(RewriteIncludes(t).value)
  {
    var files := Glob(t, Descendants([], ".cc"));
    forall i | 0 <= i < |files| ensures files[i] != [] && files[i] in t && t[files[i]].File? {
      assert Matches(Descendants([], ".cc"), files[i]);
    }
    FilterRewritesEachFile(t, files, DelSrcFromInc);
    var u := FilterFileContents(t, files, DelSrcFromInc).tree;
    forall q | q in t ensures u[q] == RewriteNode(q, t[q]) {
      if q in files {
        assert Matches(Descendants([], ".cc"), q);
      } else {
        assert !(Under(q, []) && EndsWith(Name(q), ".cc"));
      }
    }
  }

  /** `GoogleTestPort.prepare_sdist`, from a checkout of the release tag. */
  ghost function PrepareSdist(port: GoogleTestPort, checkout: Tree): Result<Tree, Error> {
    var t1 :- MungeFilesIntoLibs(checkout);
    var t2 :- WritePackageJson(t1, port.id.version);
    var t3 :- WriteLibraryJsons(t2, Libraries);
    RewriteIncludes(t3)
  }

  /** The paths of the four library manifests. */
  const LibraryJsonPaths: set<Path> := set l | l in Libraries :: LibraryJsonPath(l.name)

  /** The source distribution made from checkout `t` for version `v`. */
  ghost predicate Prepared(t: Tree, v: Version, u: Tree) {
    && WellFormed(u)
    && ["package.json"] in u && u[["package.json"]] == Manifest(Package(PackageManifest(v)))
    && (forall k :: 0 <= k < |Libraries| ==>
          LibraryJsonPath(Libraries[k].name) in u && u[LibraryJsonPath(Libraries[k].name)] == Manifest(Library(Libraries[k])))
    && (forall g :: g in t && InLibrary(g) && !IsMain(g) ==> LibPath(g) in u && u[LibPath(g)] == RewriteNode(g, t[g]))
    && CheckoutMain("gmock") in t && MainTarget("gmock") in u
    && u[MainTarget("gmock")] == RewriteNode(CheckoutMain("gmock"), t[CheckoutMain("gmock")])
    && CheckoutMain("gtest") in t && MainTarget("gtest") in u
    && u[MainTarget("gtest")] == RewriteNode(CheckoutMain("gtest"), t[CheckoutMain("gtest")])
    && (forall p :: p in t && !Doomed(p) && p != ["package.json"] ==> p in u && u[p] == RewriteNode(p, t[p]))
    && (forall q :: q in u ==>
          || q == ["package.json"] || q in LibraryJsonPaths
          || (q in LibDirs && u[q] == Dir)
          || q == MainTarget("gmock") || q == MainTarget("gtest")
          || (IsLibPath(q) && Back(q) in t && !IsMain(Back(q)))
          || (q in t && !Doomed(q)))
  }

  /** Library manifests lie three deep, below a library directory. */
  lemma LibraryJsonPathsShape()
    ensures forall q :: q in LibraryJsonPaths ==> |q| == 3 && q[0] == "libs" && q[2] == "library.json"
    ensures forall k :: 0 <= k < |Libraries| ==> LibraryJsonPath(Libraries[k].name) in LibraryJsonPaths
    ensures forall k :: 0 <= k < |Libraries| ==> Libraries[k].name in {"gmock", "gtest", "gmock-main", "gtest-main"}
  {
    forall k | 0 <= k < |Libraries| ensures LibraryJsonPath(Libraries[k].name) in LibraryJsonPaths {
      assert Libraries[k] in Libraries;
    }
  }

  /** What a name ending in `.cc` looks like at its end. */
  lemma CcEnding(s: string)
    ensures EndsWith(s, ".cc") ==> |s| >= 3 && s[|s| - 3] == '.' && s[|s| - 1] == 'c'
  {
    if EndsWith(s, ".cc") {
      assert s[|s| - 3..][0] == '.' && s[|s| - 3..][2] == 'c';
    }
  }

  /** The names of the directories the port creates are not `*.cc`, and none
      of them is a library manifest's place. */
  lemma LibDirsShape(q: Path)
    requires q in LibDirs
    ensures q != [] && !EndsWith(Name(q), ".cc")
    ensures |q| == 3 ==> q[2] == "include" || q[2] == "src"
  {
    var names := ["libs", "gmock", "gtest", "include", "src", "gmock" + "-main", "gtest" + "-main"];
    forall k | 0 <= k < |names| ensures !EndsWith(names[k], ".cc") {
      CcEnding(names[k]);
    }
    assert Name(q) in names;
  }

  /** Munging leaves no entry where a library manifest goes. */
  lemma NoLibraryJsonYet(t: Tree, w: Tree, q: Path)
    requires q in LibraryJsonPaths
    requires forall q :: q in w && IsPrefix(["libs"], q) ==>
          || (q in LibDirs && w[q] == Dir)
          || q == MainTarget("gmock") || q == MainTarget("gtest")
          || (IsLibPath(q) && Back(q) in t && !IsMain(Back(q)) && w[q] == t[Back(q)])
    ensures q !in w
  {
    LibraryJsonPathsShape();
    assert IsPrefix(["libs"], q);
    if q in LibDirs {
      LibDirsShape(q);
    }
  }

  /** After munging, the manifests can be written. */
  lemma ManifestsReady(t: Tree, v: Version, w: Tree)
    requires WellFormed(w) && MainTarget("gmock") in w && MainTarget("gtest") in w
    requires IsDir(w, ["libs", "gmock"]) && IsDir(w, ["libs", "gtest"])
    requires ["package.json"] in w ==> !w[["package.json"]].Dir?
    requires forall q :: q in w && IsPrefix(["libs"], q) ==>
          || (q in LibDirs && w[q] == Dir)
          || q == MainTarget("gmock") || q == MainTarget("gtest")
          || (IsLibPath(q) && Back(q) in t && !IsMain(Back(q)) && w[q] == t[Back(q)])
    ensures WritePackageJson(w, v).Ok?
    ensures LibraryDirsReady(WritePackageJson(w, v).value, Libraries)
    ensures WellFormed(WritePackageJson(w, v).value)
  {
    MainLibraryDirs(w);
    var t2 := PackageJsonSlot(w, v);
    LibraryJsonPathsShape();
    forall k | 0 <= k < |Libraries|
      ensures IsDir(t2, ["libs", Libraries[k].name]) && !IsDir(t2, LibraryJsonPath(Libraries[k].name))
    {
      var n := Libraries[k].name;
      NoLibraryJsonYet(t, w, LibraryJsonPath(n));
      LibraryDirReady(w, t2, n);
    }
  }

  /** The main files' new library directories exist. */
  lemma MainLibraryDirs(w: Tree)
    requires WellFormed(w) && MainTarget("gmock") in w && MainTarget("gtest") in w
    ensures IsDir(w, ["libs", "gmock-main"]) && IsDir(w, ["libs", "gtest-main"])
  {
    MainSuffixes();
    MainsUnderLibs("gmock");
    AncestorsAreDirs(w, MainTarget("gmock"), ["libs", "gmock" + "-main"]);
    AncestorsAreDirs(w, MainTarget("gtest"), ["libs", "gtest" + "-main"]);
  }

  /** Writing `package.json` touches nothing else. */
  lemma PackageJsonSlot(w: Tree, v: Version) returns (t2: Tree)
    requires WellFormed(w) && (["package.json"] in w ==> !w[["package.json"]].Dir?)
    ensures WritePackageJson(w, v) == Ok(t2) && WellFormed(t2)
    ensures forall q :: q in w && q != ["package.json"] ==> q in t2 && t2[q] == w[q]
    ensures forall q :: q in t2 && q !in w ==> q == ["package.json"]
  {
    PutTop(w, "package.json", Manifest(Package(PackageManifest(v))));
    t2 := WritePackageJson(w, v).value;
  }

  lemma LibraryDirReady(w: Tree, t2: Tree, n: string)
    requires forall q :: q in w && q != ["package.json"] ==> q in t2 && t2[q] == w[q]
    requires forall q :: q in t2 && q !in w ==> q == ["package.json"]
    requires n in {"gmock", "gtest", "gmock-main", "gtest-main"}
    requires IsDir(w, ["libs", "gmock"]) && IsDir(w, ["libs", "gtest"])
    requires IsDir(w, ["libs", "gmock-main"]) && IsDir(w, ["libs", "gtest-main"])
    requires LibraryJsonPath(n) !in w
    ensures IsDir(t2, ["libs", n]) && !IsDir(t2, LibraryJsonPath(n))
  {
  }

  /** A `package.json` in the checkout is a file, and munging keeps it. */
  lemma PackageJsonKept(t: Tree, w: Tree)
    requires ["package.json"] in t ==> !t[["package.json"]].Dir?
    requires forall p :: p in t && !Doomed(p) ==> p in w && w[p] == t[p]
    requires forall q :: q in w && !IsPrefix(["libs"], q) ==> q in t && !Doomed(q)
    ensures ["package.json"] in w ==> !w[["package.json"]].Dir?
  {
    assert |"package.json"| != |"libs"|;
    assert ["package.json"][..1] == ["package.json"];
  }

  /** A library path keeps the name of the checkout entry it came from. */
  lemma BackKeepsName(q: Path)
    requires IsLibPath(q)
    ensures Back(q) != [] && Name(Back(q)) == Name(q)
  {
  }

  /** The main files are `.cc` files and keep their names. */
  lemma MainNames(lib: string)
    ensures EndsWith(Name(CheckoutMain(lib)), ".cc")
    ensures Name(MainTarget(lib)) == Name(CheckoutMain(lib))
  {
    var n := lib + "_main.cc";
    assert n[|n| - 3..] == ".cc";
  }

  /** After munging every `.cc` entry is still a file: it comes from the
      checkout, whose `.cc` entries are files. */
  lemma MungedSourcesAreFiles(t: Tree, w: Tree)
    requires forall q :: q in t && q != [] && EndsWith(Name(q), ".cc") ==> t[q].File?
    requires CheckoutMain("gmock") in t && MainTarget("gmock") in w && w[MainTarget("gmock")] == t[CheckoutMain("gmock")]
    requires CheckoutMain("gtest") in t && MainTarget("gtest") in w && w[MainTarget("gtest")] == t[CheckoutMain("gtest")]
    requires forall p :: p in t && !Doomed(p) ==> p in w && w[p] == t[p]
    requires forall q :: q in w && !IsPrefix(["libs"], q) ==> q in t && !Doomed(q)
    requires forall q :: q in w && IsPrefix(["libs"], q) ==>
          || (q in LibDirs && w[q] == Dir)
          || q == MainTarget("gmock") || q == MainTarget("gtest")
          || (IsLibPath(q) && Back(q) in t && !IsMain(Back(q)) && w[q] == t[Back(q)])
    ensures SourcesAreFiles(w)
  {
    forall q | q in w && q != [] && EndsWith(Name(q), ".cc") ensures w[q].File? {
      MungedSourceIsFile(t, w, q);
    }
  }

  lemma MungedSourceIsFile(t: Tree, w: Tree, q: Path)
    requires forall q :: q in t && q != [] && EndsWith(Name(q), ".cc") ==> t[q].File?
    requires CheckoutMain("gmock") in t && MainTarget("gmock") in w && w[MainTarget("gmock")] == t[CheckoutMain("gmock")]
    requires CheckoutMain("gtest") in t && MainTarget("gtest") in w && w[MainTarget("gtest")] == t[CheckoutMain("gtest")]
    requires q in w && !IsPrefix(["libs"], q) ==> q in t && w[q] == t[q]
    requires q in w && IsPrefix(["libs"], q) ==>
          || (q in LibDirs && w[q] == Dir)
          || q == MainTarget("gmock") || q == MainTarget("gtest")
          || (IsLibPath(q) && Back(q) in t && w[q] == t[Back(q)])
    requires q in w && q != [] && EndsWith(Name(q), ".cc")
    ensures w[q].File?
  {
    if !IsPrefix(["libs"], q) {
    } else if q in LibDirs && w[q] == Dir {
      LibDirsShape(q);
    } else if q == MainTarget("gmock") {
      MainNames("gmock");
    } else if q == MainTarget("gtest") {
      MainNames("gtest");
    } else {
      BackKeepsName(q);
    }
  }

  /** Before the rewrite every `.cc` entry is a file: the manifests are not
      `.cc` entries. */
  lemma WrittenSourcesAreFiles(w: Tree, t3: Tree)
    requires SourcesAreFiles(w)
    requires forall q :: q in t3 ==> q == ["package.json"] || q in LibraryJsonPaths || (q in w && t3[q] == w[q])
    ensures SourcesAreFiles(t3)
  {
    LibraryJsonPathsShape();
    assert !EndsWith("package.json", ".cc") && !EndsWith("library.json", ".cc");
  }

  /** Writing the library manifests over `t2`, which is `w` with
      `package.json` written: the manifests are the only new entries and
      `package.json` keeps what was written into it. */
  lemma ManifestStage(w: Tree, t2: Tree, m: Node)
    requires t2 == w[["package.json"] := m]
    requires LibraryDirsReady(t2, Libraries)
    ensures WriteLibraryJsons(t2, Libraries).Ok?
    ensures var t3 := WriteLibraryJsons(t2, Libraries).value;
            && (forall q :: q in t3 ==> q == ["package.json"] || q in LibraryJsonPaths || (q in w && t3[q] == w[q]))
            && (forall q :: q in w && q != ["package.json"] && q !in LibraryJsonPaths ==> q in t3 && t3[q] == w[q])
            && ["package.json"] in t3 && t3[["package.json"]] == m
  {
    WriteLibraryJsonsExactly(t2, Libraries);
    var t3 := WriteLibraryJsons(t2, Libraries).value;
    LibraryJsonPathsShape();
    forall q | q in t3 ensures q == ["package.json"] || q in LibraryJsonPaths || (q in w && t3[q] == w[q]) {
      if q !in LibraryJsonPaths {
        assert forall k :: 0 <= k < |Libraries| ==> q != LibraryJsonPath(Libraries[k].name);
      }
    }
    forall q | q in w && q != ["package.json"] && q !in LibraryJsonPaths ensures q in t3 && t3[q] == w[q] {
      assert forall k :: 0 <= k < |Libraries| ==> q != LibraryJsonPath(Libraries[k].name);
    }
    WriteLibraryJsonsKeepsOthers(t2, Libraries, ["package.json"]);
  }

  /** An entry that is not a `libs/<name>/library.json` survives the writing
      of the library manifests. */
  lemma WriteLibraryJsonsKeepsOthers(t: Tree, libs: seq<LibraryJson>, q: Path)
    requires LibraryDirsReady(t, libs) && q in t
    requires |q| != 3 || q[0] != "libs" || q[2] != "library.json"
    ensures WriteLibraryJsons(t, libs).Ok?
    ensures q in WriteLibraryJsons(t, libs).value && WriteLibraryJsons(t, libs).value[q] == t[q]
  {
    WriteLibraryJsonsExactly(t, libs);
    assert forall k :: 0 <= k < |libs| ==> q != LibraryJsonPath(libs[k].name);
  }

  /** Each library manifest holds its own record: the names are distinct. */
  lemma LibraryManifestsWritten(t2: Tree)
    requires LibraryDirsReady(t2, Libraries)
    ensures WriteLibraryJsons(t2, Libraries).Ok?
    ensures var t3 := WriteLibraryJsons(t2, Libraries).value;
            forall k :: 0 <= k < |Libraries| ==>
              LibraryJsonPath(Libraries[k].name) in t3
              && t3[LibraryJsonPath(Libraries[k].name)] == Manifest(Library(Libraries[k]))
  {
    WriteLibraryJsonsExactly(t2, Libraries);
    LibraryUsesResolve();
    forall k | 0 <= k < |Libraries|
      ensures LibraryJsonPath(Libraries[k].name) in WriteLibraryJsons(t2, Libraries).value
      ensures WriteLibraryJsons(t2, Libraries).value[LibraryJsonPath(Libraries[k].name)] == Manifest(Library(Libraries[k]))
    {
      WriteLibraryJsonsLastWins(t2, Libraries, k);
    }
  }

  /** `prepare_sdist` from a checkout: every stage succeeds and the result
      is the distribution `Prepared` describes. */
  lemma PrepareSdistLayout(port: GoogleTestPort, t: Tree)
    requires Checkout(t)
    ensures PrepareSdist(port, t).Ok?
    ensures Prepared(t, port.id.version, PrepareSdist(port, t).value)
  {
    var v := port.id.version;
    MungeLayout(t);
    var w := MungeFilesIntoLibs(t).value;
    PackageJsonKept(t, w);
    ManifestsReady(t, v, w);
    var t2 := WritePackageJson(w, v).value;
    ManifestStage(w, t2, Manifest(Package(PackageManifest(v))));
    LibraryManifestsWritten(t2);
    WriteLibraryJsonsExactly(t2, Libraries);
    var t3 := WriteLibraryJsons(t2, Libraries).value;
    MungedSourcesAreFiles(t, w);
    WrittenSourcesAreFiles(w, t3);
    RewriteIncludesExactly(t3);
    var u := RewriteIncludes(t3).value;
    assert PrepareSdist(port, t) == Ok(u);
    PreparedFacts(t, v, w, t3, u);
  }

  lemma PreparedFacts(t: Tree, v: Version, w: Tree, t3: Tree, u: Tree)
    requires Checkout(t) && Munged(t, w)
    requires forall q :: q in t3 ==> q == ["package.json"] || q in LibraryJsonPaths || (q in w && t3[q] == w[q])
    requires forall q :: q in w && q != ["package.json"] && q !in LibraryJsonPaths ==> q in t3 && t3[q] == w[q]
    requires ["package.json"] in t3 && t3[["package.json"]] == Manifest(Package(PackageManifest(v)))
    requires forall k :: 0 <= k < |Libraries| ==>
               LibraryJsonPath(Libraries[k].name) in t3
               && t3[LibraryJsonPath(Libraries[k].name)] == Manifest(Library(Libraries[k]))
    requires WellFormed(u) && u == map q | q in t3 :: RewriteNode(q, t3[q])
    ensures Prepared(t, v, u)
  {
    PreparedManifests(v, t3, u);
    PreparedLibs(t, w, t3, u);
    PreparedMains(t, w, t3, u);
    PreparedKept(t, w, t3, u);
    PreparedKeys(t, w, t3, u);
  }

  lemma PreparedManifests(v: Version, t3: Tree, u: Tree)
    requires ["package.json"] in t3 && t3[["package.json"]] == Manifest(Package(PackageManifest(v)))
    requires forall k :: 0 <= k < |Libraries| ==>
               LibraryJsonPath(Libraries[k].name) in t3
               && t3[LibraryJsonPath(Libraries[k].name)] == Manifest(Library(Libraries[k]))
    requires u == map q | q in t3 :: RewriteNode(q, t3[q])
    ensures ["package.json"] in u && u[["package.json"]] == Manifest(Package(PackageManifest(v)))
    ensures forall k :: 0 <= k < |Libraries| ==>
              LibraryJsonPath(Libraries[k].name) in u && u[LibraryJsonPath(Libraries[k].name)] == Manifest(Library(Libraries[k]))
  {
  }

  lemma PreparedLibs(t: Tree, w: Tree, t3: Tree, u: Tree)
    requires forall g :: g in t && InLibrary(g) && !IsMain(g) ==> LibPath(g) in w && w[LibPath(g)] == t[g]
    requires forall q :: q in w && q != ["package.json"] && q !in LibraryJsonPaths ==> q in t3 && t3[q] == w[q]
    requires u == map q | q in t3 :: RewriteNode(q, t3[q])
    ensures forall g :: g in t && InLibrary(g) && !IsMain(g) ==> LibPath(g) in u && u[LibPath(g)] == RewriteNode(g, t[g])
  {
    LibraryJsonPathsShape();
    forall g | g in t && InLibrary(g) && !IsMain(g) ensures LibPath(g) in u && u[LibPath(g)] == RewriteNode(g, t[g]) {
      LibPathBack(g, []);
      BackKeepsName(LibPath(g));
    }
  }

  lemma PreparedMains(t: Tree, w: Tree, t3: Tree, u: Tree)
    requires CheckoutMain("gmock") in t && MainTarget("gmock") in w && w[MainTarget("gmock")] == t[CheckoutMain("gmock")]
    requires CheckoutMain("gtest") in t && MainTarget("gtest") in w && w[MainTarget("gtest")] == t[CheckoutMain("gtest")]
    requires forall q :: q in w && q != ["package.json"] && q !in LibraryJsonPaths ==> q in t3 && t3[q] == w[q]
    requires u == map q | q in t3 :: RewriteNode(q, t3[q])
    ensures MainTarget("gmock") in u && u[MainTarget("gmock")] == RewriteNode(CheckoutMain("gmock"), t[CheckoutMain("gmock")])
    ensures MainTarget("gtest") in u && u[MainTarget("gtest")] == RewriteNode(CheckoutMain("gtest"), t[CheckoutMain("gtest")])
  {
    LibraryJsonPathsShape();
    MainNames("gmock");
    MainNames("gtest");
    MainsUnderLibs("gmock");
    MainsUnderLibs("gtest");
  }

  lemma PreparedKept(t: Tree, w: Tree, t3: Tree, u: Tree)
    requires forall q :: q in t ==> !IsPrefix(["libs"], q)
    requires forall p :: p in t && !Doomed(p) ==> p in w && w[p] == t[p]
    requires forall q :: q in w && q != ["package.json"] && q !in LibraryJsonPaths ==> q in t3 && t3[q] == w[q]
    requires u == map q | q in t3 :: RewriteNode(q, t3[q])
    ensures forall p :: p in t && !Doomed(p) && p != ["package.json"] ==> p in u && u[p] == RewriteNode(p, t[p])
  {
    forall p | p in t && !Doomed(p) && p != ["package.json"] ensures p in u && u[p] == RewriteNode(p, t[p]) {
      OutsideLibsNoLibraryJson(p);
      assert p in w && w[p] == t[p];
      assert p in t3 && t3[p] == t[p];
    }
  }

  lemma OutsideLibsNoLibraryJson(p: Path)
    ensures !IsPrefix(["libs"], p) ==> p !in LibraryJsonPaths
  {
    LibraryJsonPathsShape();
    if p in LibraryJsonPaths {
      assert p[..1] == ["libs"];
    }
  }

  lemma PreparedKeys(t: Tree, w: Tree, t3: Tree, u: Tree)
    requires forall q :: q in w && !IsPrefix(["libs"], q) ==> q in t && !Doomed(q)
    requires forall q :: q in w && IsPrefix(["libs"], q) ==>
          || (q in LibDirs && w[q] == Dir)
          || q == MainTarget("gmock") || q == MainTarget("gtest")
          || (IsLibPath(q) && Back(q) in t && !IsMain(Back(q)) && w[q] == t[Back(q)])
    requires forall q :: q in t3 ==> q == ["package.json"] || q in LibraryJsonPaths || (q in w && t3[q] == w[q])
    requires u == map q | q in t3 :: RewriteNode(q, t3[q])
    ensures forall q :: q in u ==>
          || q == ["package.json"] || q in LibraryJsonPaths
          || (q in LibDirs && u[q] == Dir)
          || q == MainTarget("gmock") || q == MainTarget("gtest")
          || (IsLibPath(q) && Back(q) in t && !IsMain(Back(q)))
          || (q in t && !Doomed(q))
  {
  }

  // ---------------------------------------------------------------------------
  // A checkout exists.

  /** A smallest checkout: the top-level `library.json`, `ci`, the two
      library trees and their main files. */
  const ExampleCheckout: Tree :=
    map[["library.json"] := File(""), ["ci"] := Dir,
        ["googlemock"] := Dir, ["googlemock", "src"] := Dir, CheckoutMain("gmock") := File(""),
        ["googletest"] := Dir, ["googletest", "src"] := Dir, CheckoutMain("gtest") := File("")]

  /** The example meets every condition the layout lemmas assume, so
      `prepare_sdist` succeeds on it. */
  lemma ExampleCheckoutShape(port: GoogleTestPort)
    ensures Checkout(ExampleCheckout)
    ensures PrepareSdist(port, ExampleCheckout).Ok?
  {
    ExampleIsCheckout(ExampleCheckout);
    PrepareSdistLayout(port, ExampleCheckout);
  }

  lemma ExampleIsCheckout(t: Tree)
    requires t == ExampleCheckout
    ensures Checkout(t)
  {
    ExampleProper(t);
    ExampleParents(t);
    ExamplePlain(t);
    ExampleEntries(t);
    CheckoutOf(t);
  }

  /** The conditions of a checkout, gathered. */
  lemma CheckoutOf(t: Tree)
    requires [] !in t
    requires forall q :: q in t ==> ProperPath(q)
    requires forall q :: q in t ==> IsDir(t, Parent(q))
    requires forall q :: q in t ==> !IsPrefix(["libs"], q)
    requires forall q :: q in t && q != [] && EndsWith(Name(q), ".cc") ==> t[q].File?
    requires CanClean(t) && ["package.json"] !in t
    requires CheckoutMain("gmock") in t && !t[CheckoutMain("gmock")].Dir?
    requires CheckoutMain("gtest") in t && !t[CheckoutMain("gtest")].Dir?
    ensures Checkout(t)
  {
  }

  lemma ExampleEntries(t: Tree)
    requires t == ExampleCheckout
    ensures [] !in t && CanClean(t) && ["package.json"] !in t
    ensures CheckoutMain("gmock") in t && !t[CheckoutMain("gmock")].Dir?
    ensures CheckoutMain("gtest") in t && !t[CheckoutMain("gtest")].Dir?
  {
    assert "googlemock"[6] != "googletest"[6];
    assert "gtest"[1] != "gmock"[1];
  }

  lemma ExampleProper(t: Tree)
    requires t == ExampleCheckout
    ensures forall q :: q in t ==> ProperPath(q)
  {
    assert "ci"[0] != ".."[0];
  }

  lemma ExampleParents(t: Tree)
    requires t == ExampleCheckout
    ensures forall q :: q in t ==> IsDir(t, Parent(q))
  {
    var gm, gt := CheckoutMain("gmock"), CheckoutMain("gtest");
    forall q | q in t ensures IsDir(t, Parent(q)) {
      if q == gm {
        assert Parent(q) == ["googlemock", "src"];
      } else if q == gt {
        assert Parent(q) == ["googletest", "src"];
      } else if q == ["googlemock", "src"] || q == ["googletest", "src"] {
        assert Parent(q) == [q[0]];
      } else {
        assert Parent(q) == [];
      }
    }
  }

  /** Nothing in the example is below `libs`, and only the main files end
      in `.cc`. */
  lemma ExamplePlain(t: Tree)
    requires t == ExampleCheckout
    ensures forall q :: q in t ==> !IsPrefix(["libs"], q)
    ensures forall q :: q in t && q != [] && EndsWith(Name(q), ".cc") ==> t[q].File?
  {
    var gm, gt := CheckoutMain("gmock"), CheckoutMain("gtest");
    forall q | q in t ensures !IsPrefix(["libs"], q) {
      assert q[0] != "libs";
    }
    forall q | q in t && q != [] && EndsWith(Name(q), ".cc") ensures t[q].File? {
      if q != gm && q != gt {
        assert false;
      }
    }
  }
}
