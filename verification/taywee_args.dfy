/** The taywee/args port (`ports/taywee_args_ports.py`): the header-only
    library's checkout loses its `test` directory and bundled `catch.hpp`,
    `args.hxx` goes to `include/` and `test.cxx` becomes
    `src/args.test.cxx`, the two manifests are written, and a filter is meant
    to point the Catch include at `catch2/` and drop the
    `CATCH_CONFIG_MAIN` definition. */
module TayweeArgs {
  import opened Results
  import opened Text
  import opened Paths
  import opened Packages
  import opened FileTree
  import opened Fs

  // ---------------------------------------------------------------------------
  // `fix_catch_include`: the substitution of `^(#include\s+["<])(catch.hpp[>"])`
  // by `\1catch2/\2`, then the dropping of `#define CATCH_CONFIG_MAIN` lines.

  /** The pattern matches `line` with the whitespace after `#include` ending
      at the opening delimiter at `j`. The `.` of `catch.hpp` is a regex
      wildcard (any character but a newline) and the two delimiters are
      chosen independently. */
  predicate CatchIncludeAt(line: string, j: nat) {
    && 8 < j && j + 11 <= |line|
    && line[..8] == "#include"
    && AllSpace(line[8..j])
    && (line[j] == '"' || line[j] == '<')
    && line[j + 1..j + 6] == "catch"
    && line[j + 6] != '\n'
    && line[j + 7..j + 10] == "hpp"
    && (line[j + 10] == '>' || line[j + 10] == '"')
  }

  /** The substitution on one line: `catch2/` goes in after the opening
      delimiter when the pattern matches at the start of the line. */
  function FixCatchLine(line: string): string {
    if |line| >= 8 && line[..8] == "#include" then
      var j := SpanSpace(line, 8);
      if 8 < j && j + 11 <= |line| && (line[j] == '"' || line[j] == '<')
         && line[j + 1..j + 6] == "catch" && line[j + 6] != '\n' && line[j + 7..j + 10] == "hpp"
         && (line[j + 10] == '>' || line[j + 10] == '"')
      then line[..j + 1] + "catch2/" + line[j + 1..]
      else line
    else line
  }

  /** Wherever the pattern matches, its whitespace run is the one the greedy
      scan finds: neither delimiter is whitespace. */
  lemma CatchMatchIsGreedy(line: string, j: nat)
    requires CatchIncludeAt(line, j)
    ensures SpanSpace(line, 8) == j
  {
    SpanSpaceAt(line, 8, j);
  }

  /** A line changes exactly when the pattern matches it, and then only by
      `catch2/` after the opening delimiter. */
  lemma FixCatchLineExactly(line: string)
    ensures forall j :: CatchIncludeAt(line, j) ==>
      FixCatchLine(line) == line[..j + 1] + "catch2/" + line[j + 1..]
    ensures (forall j :: !CatchIncludeAt(line, j)) ==> FixCatchLine(line) == line
  {
    forall j | CatchIncludeAt(line, j)
      ensures FixCatchLine(line) == line[..j + 1] + "catch2/" + line[j + 1..]
    {
      CatchMatchIsGreedy(line, j);
    }
    if |line| >= 8 && line[..8] == "#include" {
      var j := SpanSpace(line, 8);
      SpanIsSpace(line, 8);
      if 8 < j && j + 11 <= |line| && (line[j] == '"' || line[j] == '<')
         && line[j + 1..j + 6] == "catch" && line[j + 6] != '\n' && line[j + 7..j + 10] == "hpp"
         && (line[j + 10] == '>' || line[j + 10] == '"')
      {
        assert CatchIncludeAt(line, j);
      }
    }
  }

  /** Fixing twice is fixing once: after `catch2/` the delimiter is followed
      by `catch2/catch`, which the pattern does not match. */
  lemma FixCatchLineIdempotent(line: string)
    ensures FixCatchLine(FixCatchLine(line)) == FixCatchLine(line)
  {
    FixCatchLineExactly(line);
    var once := FixCatchLine(line);
    FixCatchLineExactly(once);
    if j: nat :| CatchIncludeAt(line, j) {
      FixedLineDoesNotMatch(line, j, once);
    }
  }

  /** The fixed line has its delimiter at the same place, and `/` where the
      pattern wants the `h` of `hpp`. */
  lemma FixedLineDoesNotMatch(line: string, j: nat, once: string)
    requires CatchIncludeAt(line, j) && once == line[..j + 1] + "catch2/" + line[j + 1..]
    ensures forall k :: !CatchIncludeAt(once, k)
  {
    assert once[8..j] == line[8..j];
    assert once[j] == line[j];
    assert once[j + 7] == '/';
    SpanSpaceAt(once, 8, j);
    forall k ensures !CatchIncludeAt(once, k) {
      if CatchIncludeAt(once, k) {
        CatchMatchIsGreedy(once, k);
        SlashIsNotH(once, k);
      }
    }
  }

  lemma SlashIsNotH(s: string, k: nat)
    requires k + 10 <= |s|
    ensures s[k + 7] == '/' ==> s[k + 7..k + 10] != "hpp"
  {
    assert s[k + 7..k + 10][0] == s[k + 7];
  }

  const CatchConfigMain: string := "#define CATCH_CONFIG_MAIN"

  /** The loop of `fix_catch_include` keeps a substituted line unless it
      starts with `#define CATCH_CONFIG_MAIN`. The substitution works on one
      line at a time, so substituting every line first and then dropping is
      the same loop. */
  function DropConfigMain(lines: seq<string>): (out: seq<string>)
    ensures |out| <= |lines|
    ensures forall k :: 0 <= k < |out| ==> !StartsWith(out[k], CatchConfigMain)
    decreases |lines|
  {
    if lines == [] then []
    else
      var rest := DropConfigMain(lines[1..]);
      if StartsWith(lines[0], CatchConfigMain) then rest else [lines[0]] + rest
  }

  function FixCatchLines(lines: seq<string>): seq<string> {
    DropConfigMain(seq(|lines|, k requires 0 <= k < |lines| => FixCatchLine(lines[k])))
  }

  /** `fix_catch_include` over a whole text. */
  function FixCatchInclude(text: string): string {
    Concat(FixCatchLines(SplitLines(text)))
  }

  /** Exactly the lines not starting with `#define CATCH_CONFIG_MAIN` are
      kept. */
  lemma {:induction false} DropConfigMainKeeps(lines: seq<string>)
    ensures forall l :: l in DropConfigMain(lines) <==> l in lines && !StartsWith(l, CatchConfigMain)
    decreases |lines|
  {
    if lines != [] {
      DropConfigMainKeeps(lines[1..]);
      assert forall l :: l in lines <==> l == lines[0] || l in lines[1..];
    }
  }

  /** Without such lines nothing is dropped. */
  lemma {:induction false} DropConfigMainNone(lines: seq<string>)
    requires forall k :: 0 <= k < |lines| ==> !StartsWith(lines[k], CatchConfigMain)
    ensures DropConfigMain(lines) == lines
    decreases |lines|
  {
    if lines != [] {
      var rest := lines[1..];
      assert forall k :: 0 <= k < |rest| ==> rest[k] == lines[k + 1];
      DropConfigMainNone(rest);
      assert [lines[0]] + rest == lines;
    }
  }

  /** Dropping lines keeps the rest in their order: the output is a
      subsequence of the input. */
  lemma {:induction false} DropConfigMainOrder(lines: seq<string>)
    ensures Subsequence(DropConfigMain(lines), lines)
    decreases |lines|
  {
    if lines != [] {
      DropConfigMainOrder(lines[1..]);
    }
  }

  /** `a` is `b` with some elements taken out. */
  predicate Subsequence(a: seq<string>, b: seq<string>)
    decreases |b|
  {
    if a == [] then true
    else if b == [] then false
    else if a[0] == b[0] then Subsequence(a[1..], b[1..])
    else Subsequence(a, b[1..])
  }

  /** A substituted line is still a line as read: `catch2/` goes in before
      the line's end. */
  lemma FixKeepsLine(line: string, isLast: bool)
    requires ProperLine(line, isLast)
    ensures ProperLine(FixCatchLine(line), isLast)
  {
    FixCatchLineExactly(line);
    if j: nat :| CatchIncludeAt(line, j) {
      InsertKeepsLine(line, isLast, j + 1, "catch2/");
    }
  }

  /** Inserting text without a newline before the last character of a line
      leaves a line. */
  lemma InsertKeepsLine(line: string, isLast: bool, k: nat, ins: string)
    requires ProperLine(line, isLast)
    requires 0 < k < |line| && '\n' !in ins
    ensures ProperLine(line[..k] + ins + line[k..], isLast)
  {
    var r := line[..k] + ins + line[k..];
    assert forall m :: 0 <= m < k ==> r[m] == line[m];
    assert forall m :: k <= m < k + |ins| ==> r[m] == ins[m - k];
    assert forall m :: k + |ins| <= m < |r| ==> r[m] == line[m - |ins|];
  }

  /** The output text reads back as the kept lines: filtering never merges or
      splits lines. */
  lemma FixCatchIncludeLines(text: string)
    ensures SplitLines(FixCatchInclude(text)) == FixCatchLines(SplitLines(text))
  {
    var lines := SplitLines(text);
    var fixed := seq(|lines|, k requires 0 <= k < |lines| => FixCatchLine(lines[k]));
    SplitLinesProper(text);
    forall k | 0 <= k < |fixed| ensures ProperLine(fixed[k], k == |fixed| - 1) {
      FixKeepsLine(lines[k], k == |lines| - 1);
    }
    DropConfigMainProper(fixed);
    SplitLinesConcat(FixCatchLines(lines));
  }

  /** Dropping lines from proper lines gives proper lines. A dropped last
      line leaves the new last line ending in '\n', which is still a proper
      last line. */
  lemma {:induction false} DropConfigMainProper(lines: seq<string>)
    requires ProperLines(lines)
    ensures ProperLines(DropConfigMain(lines))
    decreases |lines|
  {
    if lines != [] {
      var rest := lines[1..];
      assert ProperLines(rest) by {
        forall i | 0 <= i < |rest| ensures ProperLine(rest[i], i == |rest| - 1) {
          assert rest[i] == lines[i + 1];
        }
      }
      DropConfigMainProper(rest);
      var out := DropConfigMain(lines);
      if !StartsWith(lines[0], CatchConfigMain) {
        var tail := DropConfigMain(rest);
        assert out == [lines[0]] + tail;
        assert ProperLine(lines[0], |lines| == 1);
        forall i | 0 <= i < |out| ensures ProperLine(out[i], i == |out| - 1) {
          if i == 0 {
            assert |tail| <= |rest|;
          } else {
            assert out[i] == tail[i - 1];
          }
        }
      }
    }
  }

  /** `#include "catch.hpp"` is pointed at `catch2/`. */
  lemma FixExampleQuoted()
    ensures FixCatchLine("#include \"catch.hpp\"\n") == "#include \"catch2/catch.hpp\"\n"
  {
    var a := "#include \"catch.hpp\"\n";
    QuotedMatches(a);
    QuotedFixed(a);
    FixCatchLineExactly(a);
  }

  lemma QuotedMatches(a: string)
    requires a == "#include \"catch.hpp\"\n"
    ensures CatchIncludeAt(a, 9)
  {
    assert a[..8] == [a[0], a[1], a[2], a[3], a[4], a[5], a[6], a[7]] == "#include";
    assert a[8..9] == [a[8]] == " ";
    assert a[10..15] == [a[10], a[11], a[12], a[13], a[14]] == "catch";
    assert a[16..19] == [a[16], a[17], a[18]] == "hpp";
  }

  lemma QuotedFixed(a: string)
    requires a == "#include \"catch.hpp\"\n"
    ensures a[..10] + "catch2/" + a[10..] == "#include \"catch2/catch.hpp\"\n"
  {
    assert a[..10] == [a[0], a[1], a[2], a[3], a[4], a[5], a[6], a[7], a[8], a[9]];
  }

  /** The delimiters need not match and the `.` is a wildcard. */
  lemma FixExampleLoose()
    ensures FixCatchLine("#include <catchXhpp\"") == "#include <catch2/catchXhpp\""
  {
    var b := "#include <catchXhpp\"";
    LooseMatches(b);
    LooseFixed(b);
    FixCatchLineExactly(b);
  }

  lemma LooseMatches(b: string)
    requires b == "#include <catchXhpp\""
    ensures CatchIncludeAt(b, 9)
  {
    assert b[..8] == [b[0], b[1], b[2], b[3], b[4], b[5], b[6], b[7]] == "#include";
    assert b[8..9] == [b[8]] == " ";
    assert b[10..15] == [b[10], b[11], b[12], b[13], b[14]] == "catch";
    assert b[16..19] == [b[16], b[17], b[18]] == "hpp";
  }

  lemma LooseFixed(b: string)
    requires b == "#include <catchXhpp\""
    ensures b[..10] + "catch2/" + b[10..] == "#include <catch2/catchXhpp\""
  {
    assert b[..10] == [b[0], b[1], b[2], b[3], b[4], b[5], b[6], b[7], b[8], b[9]];
  }

  /** The pattern is anchored at column 0: an indented include stays. */
  lemma FixExampleIndented()
    ensures FixCatchLine(" #include \"catch.hpp\"\n") == " #include \"catch.hpp\"\n"
  {
    var c := " #include \"catch.hpp\"\n";
    assert c[..8] != "#include" by {
      assert c[..8][0] == ' ';
    }
  }

  /** The `CATCH_CONFIG_MAIN` definition goes; the lines around it stay. */
  lemma FixExampleDropsMain()
    ensures FixCatchLines(["#define CATCH_CONFIG_MAIN\n", "int x;\n"]) == ["int x;\n"]
  {
    var d := "#define CATCH_CONFIG_MAIN\n";
    var e := "int x;\n";
    assert d[..8] != "#include" by {
      assert d[..8][1] == d[1] == 'd';
      assert "#include"[1] == 'i';
    }
    assert |e| < 8;
    assert FixCatchLine(d) == d;
    assert FixCatchLine(e) == e;
    assert StartsWith(d, CatchConfigMain) by {
      assert d[..|CatchConfigMain|] == CatchConfigMain;
    }
    assert !StartsWith(e, CatchConfigMain) by {
      assert |e| < |CatchConfigMain|;
    }
    var lines: seq<string> := [d, e];
    var none: seq<string> := [];
    assert seq(|lines|, k requires 0 <= k < |lines| => FixCatchLine(lines[k])) == lines;
    assert lines[1..] == [e];
    assert [e][1..] == none;
    assert DropConfigMain([e]) == [e] + none;
  }

  // ---------------------------------------------------------------------------
  // The port: one per version, whose git tag is the version itself.

  const GitUrl: string := "https://github.com/taywee/args"

  datatype TayweeArgsPort = TayweeArgsPort(tag: string, id: PackageId)

  /** `TayweeArgsPort(version)`; `VersionInfo.parse` raising on a malformed
      version is `None`. */
  function MakePort(version: string): (r: Option<TayweeArgsPort>)
    ensures r.Some? <==> ParseVersion(version).Some?
    ensures r.Some? ==> r.value.tag == version && r.value.id.name == "taywee-args"
                        && VersionString(r.value.id.version) == version
  {
    match ParseVersion(version)
    case None => None
    case Some(v) =>
      ParsedVersionIsCanonical(version);
      Some(TayweeArgsPort(version, PackageId("taywee-args", v)))
  }

  const Versions: seq<string> := ["6.2.7"]

  function MakePorts(versions: seq<string>): (r: Option<seq<TayweeArgsPort>>)
    ensures r.Some? ==> |r.value| == |versions|
  {
    if versions == [] then Some([])
    else
      var p :- MakePort(versions[0]);
      var rest :- MakePorts(versions[1..]);
      Some([p] + rest)
  }

  function AllPorts(): Option<seq<TayweeArgsPort>> {
    MakePorts(Versions)
  }

  /** The one port: taywee-args 6.2.7, cloned at the tag `6.2.7`. */
  lemma AllPortsListed()
    ensures AllPorts() == Some([TayweeArgsPort("6.2.7", PackageId("taywee-args", Version(6, 2, 7)))])
    ensures forall p :: p in AllPorts().value ==> p.tag == VersionString(p.id.version)
  {
    var v := Version(6, 2, 7);
    assert NatToString(6) == "6" && NatToString(2) == "2" && NatToString(7) == "7";
    assert VersionString(v) == "6.2.7";
    VersionRoundTrip(v);
    var p := TayweeArgsPort("6.2.7", PackageId("taywee-args", v));
    assert MakePort(Versions[0]) == Some(p);
    var none: seq<string> := [];
    var noPorts: seq<TayweeArgsPort> := [];
    assert Versions[1..] == none;
    assert MakePorts(none) == Some(noPorts);
    assert [p] + noPorts == [p];
  }

  // ---------------------------------------------------------------------------
  // The manifests.

  /** `_write_package_json`: no `depends` key. */
  function PackageManifest(v: Version): PackageJson {
    PackageJson("taywee-args", VersionString(v), "taywee", None)
  }

  /** `_write_library_jsons`: one root library named `args`, no `uses` key. */
  const LibraryManifest: LibraryJson := LibraryJson("args", None)

  function WritePackageJson(t: Tree, v: Version): Result<Tree, Error> {
    Put(t, ["package.json"], Manifest(Package(PackageManifest(v))))
  }

  function WriteLibraryJson(t: Tree): Result<Tree, Error> {
    Put(t, ["library.json"], Manifest(Library(LibraryManifest)))
  }

  /** The package manifest names the port's package: its name and a version
      string that parses back to the port's version. */
  lemma PackageManifestNamesPort(port: TayweeArgsPort)
    requires port.id.name == "taywee-args"
    ensures PackageManifest(port.id.version).name == port.id.name
    ensures ParseVersion(PackageManifest(port.id.version).version) == Some(port.id.version)
    ensures PackageManifest(port.id.version).depends.None?
  {
    VersionRoundTrip(port.id.version);
  }

  // ---------------------------------------------------------------------------
  // `_munge_files_into_libs`.

  /** Lines 42-57: remove `test/` and `catch.hpp`, move `args.hxx` into
      `include/` and `test.cxx` into `src/`, then rename the latter to
      `src/args.test.cxx`. */
  function MungeFilesIntoLibs(t: Tree): Result<Tree, Error> {
    var t1 :- RemoveDirectory(t, ["test"]).AsResult();
    var t2 :- RemoveFiles(t1, [["catch.hpp"]]).AsResult();
    var t3 :- MoveFiles(t2, ["include"], [], [["args.hxx"]]).AsResult();
    var t4 :- MoveFiles(t3, ["src"], [], [["test.cxx"]]).AsResult();
    Rename(t4, ["src", "test.cxx"], ["src", "args.test.cxx"])
  }

  /** The munging stops at its first step when `test/` is not a directory,
      and at its second, with `FileNotFoundError`, when `catch.hpp` is
      missing. */
  lemma MungeNeedsTestAndCatch(t: Tree)
    ensures !IsDir(t, ["test"]) ==> MungeFilesIntoLibs(t).Err?
    ensures IsDir(t, ["test"]) && ["catch.hpp"] !in t ==> MungeFilesIntoLibs(t) == Err(NotFound(["catch.hpp"]))
  {
    if IsDir(t, ["test"]) && ["catch.hpp"] !in t {
      var t1 := RemoveDirectory(t, ["test"]).tree;
      assert ["catch.hpp"] !in t1;
      assert RemoveFiles(t1, [["catch.hpp"]]) == Outcome(t1, Some(NotFound(["catch.hpp"])));
    }
  }

  /** A checkout of the library, as far as the port relies on it. */
  ghost predicate Checkout(t: Tree) {
    && WellFormed(t)
    && IsDir(t, ["test"])
    && ["catch.hpp"] in t && !t[["catch.hpp"]].Dir?
    && ["args.hxx"] in t && !t[["args.hxx"]].Dir?
    && ["test.cxx"] in t && t[["test.cxx"]].File?
    && (forall q :: q in t ==> !IsPrefix(["include"], q) && !IsPrefix(["src"], q))
    && (["package.json"] in t ==> !t[["package.json"]].Dir?)
    && (["library.json"] in t ==> !t[["library.json"]].Dir?)
  }

  /** What the munging leaves: the checkout without `test/`, `catch.hpp`,
      `args.hxx` and `test.cxx`, plus `include/args.hxx` and
      `src/args.test.cxx` with their contents. */
  ghost function MungedTree(t: Tree): Tree
    requires ["args.hxx"] in t && ["test.cxx"] in t
  {
    (map q | q in t && !IsPrefix(["test"], q) && q != ["catch.hpp"] && q != ["args.hxx"] && q != ["test.cxx"] :: t[q])
      [["include"] := Dir][["include", "args.hxx"] := t[["args.hxx"]]]
      [["src"] := Dir][["src", "args.test.cxx"] := t[["test.cxx"]]]
  }

  /** Moving a top-level file into a new top-level directory: the directory
      is made and the file lands in it. */
  lemma MoveIntoNewDir(t: Tree, dir: string, name: string)
    requires WellFormed(t) && [name] in t && !t[[name]].Dir?
    requires forall q :: q in t ==> !IsPrefix([dir], q)
    requires ProperName(dir)
    ensures MoveFiles(t, [dir], [], [[name]]).AsResult() == Ok((t - {[name]})[[dir] := Dir][[dir, name] := t[[name]]])
    ensures WellFormed((t - {[name]})[[dir] := Dir][[dir, name] := t[[name]]])
  {
    assert ProperPath([name]) && [name][0] == name;
    assert ProperPath([dir]);
    TransferSingle(Move, t, [dir], [], [name]);
    MoveOneIntoNewDir(t, dir, name);
  }

  /** From a checkout the munging succeeds and leaves `MungedTree`. */
  lemma MungeLayout(t: Tree)
    requires Checkout(t)
    ensures MungeFilesIntoLibs(t) == Ok(MungedTree(t))
    ensures WellFormed(MungedTree(t))
  {
    var t1 := map q | q in t && !IsPrefix(["test"], q) :: t[q];
    RemoveTestDir(t);
    var t2 := t1 - {["catch.hpp"]};
    RemoveCatch(t, t1);
    AfterRemovals(t, t1, t2);
    var t3 := (t2 - {["args.hxx"]})[["include"] := Dir][["include", "args.hxx"] := t2[["args.hxx"]]];
    assert ProperName("include") && ProperName("src");
    MoveIntoNewDir(t2, "include", "args.hxx");
    AfterInclude(t, t2, t3);
    var t4 := (t3 - {["test.cxx"]})[["src"] := Dir][["src", "test.cxx"] := t3[["test.cxx"]]];
    MoveIntoNewDir(t3, "src", "test.cxx");
    AfterSrc(t3, t4);
    RenameTest(t4);
    var u := (t4 - {["src", "test.cxx"]})[["src", "args.test.cxx"] := t4[["src", "test.cxx"]]];
    MungeSteps(t, t1, t2, t3, t4, u);
    MungedTreeIs(t, t1, t2, t3, t4, u);
  }

  lemma AfterRemovals(t: Tree, t1: Tree, t2: Tree)
    requires ["args.hxx"] in t && ["test.cxx"] in t && !t[["args.hxx"]].Dir? && t[["test.cxx"]].File?
    requires t1 == map q | q in t && !IsPrefix(["test"], q) :: t[q]
    requires t2 == t1 - {["catch.hpp"]}
    ensures ["args.hxx"] in t2 && t2[["args.hxx"]] == t[["args.hxx"]] && !t2[["args.hxx"]].Dir?
    ensures ["test.cxx"] in t2 && t2[["test.cxx"]] == t[["test.cxx"]]
    ensures forall q :: q in t2 ==> q in t
  {
    var a: Path := ["args.hxx"];
    var c: Path := ["test.cxx"];
    assert a[..1][0] == "args.hxx" != "test";
    assert c[..1][0] == "test.cxx" != "test";
  }

  lemma AfterInclude(t: Tree, t2: Tree, t3: Tree)
    requires forall q :: q in t ==> !IsPrefix(["src"], q)
    requires forall q :: q in t2 ==> q in t
    requires ["args.hxx"] in t2 && ["test.cxx"] in t2 && t2[["test.cxx"]].File?
    requires t3 == (t2 - {["args.hxx"]})[["include"] := Dir][["include", "args.hxx"] := t2[["args.hxx"]]]
    ensures ["test.cxx"] in t3 && t3[["test.cxx"]] == t2[["test.cxx"]] && !t3[["test.cxx"]].Dir?
    ensures forall q :: q in t3 ==> !IsPrefix(["src"], q)
  {
    SrcIsNew(t, t3);
  }

  lemma AfterSrc(t3: Tree, t4: Tree)
    requires ["test.cxx"] in t3 && !t3[["test.cxx"]].Dir?
    requires forall q :: q in t3 ==> !IsPrefix(["src"], q)
    requires t4 == (t3 - {["test.cxx"]})[["src"] := Dir][["src", "test.cxx"] := t3[["test.cxx"]]]
    ensures ["src"] in t4 && t4[["src"]] == Dir && ["src", "test.cxx"] in t4
    ensures !t4[["src", "test.cxx"]].Dir? && ["src", "args.test.cxx"] !in t4
  {
    var n: Path := ["src", "args.test.cxx"];
    assert IsPrefix(["src"], n);
    assert n != ["src", "test.cxx"] by { assert n[1] == "args.test.cxx" != "test.cxx"; }
  }

  lemma MungeSteps(t: Tree, t1: Tree, t2: Tree, t3: Tree, t4: Tree, u: Tree)
    requires RemoveDirectory(t, ["test"]).AsResult() == Ok(t1)
    requires RemoveFiles(t1, [["catch.hpp"]]).AsResult() == Ok(t2)
    requires MoveFiles(t2, ["include"], [], [["args.hxx"]]).AsResult() == Ok(t3)
    requires MoveFiles(t3, ["src"], [], [["test.cxx"]]).AsResult() == Ok(t4)
    requires Rename(t4, ["src", "test.cxx"], ["src", "args.test.cxx"]) == Ok(u)
    ensures MungeFilesIntoLibs(t) == Ok(u)
  {
  }

  lemma MungedTreeIs(t: Tree, t1: Tree, t2: Tree, t3: Tree, t4: Tree, u: Tree)
    requires ["args.hxx"] in t && ["test.cxx"] in t
    requires forall q :: q in t ==> !IsPrefix(["include"], q) && !IsPrefix(["src"], q)
    requires t1 == map q | q in t && !IsPrefix(["test"], q) :: t[q]
    requires t2 == t1 - {["catch.hpp"]}
    requires ["args.hxx"] in t2 && ["test.cxx"] in t3
    requires t3 == (t2 - {["args.hxx"]})[["include"] := Dir][["include", "args.hxx"] := t2[["args.hxx"]]]
    requires ["src", "test.cxx"] in t4
    requires t4 == (t3 - {["test.cxx"]})[["src"] := Dir][["src", "test.cxx"] := t3[["test.cxx"]]]
    requires u == (t4 - {["src", "test.cxx"]})[["src", "args.test.cxx"] := t4[["src", "test.cxx"]]]
    ensures u == MungedTree(t)
  {
    var inc: Path, hdr: Path, src: Path, moved: Path, renamed: Path :=
      ["include"], ["include", "args.hxx"], ["src"], ["src", "test.cxx"], ["src", "args.test.cxx"];
    assert ["args.hxx"] in t1 && t2[["args.hxx"]] == t[["args.hxx"]];
    assert ["test.cxx"] in t2 && t3[["test.cxx"]] == t[["test.cxx"]];
    MungedCore(t, t1, t2);
    var core := t2 - {["args.hxx"]} - {["test.cxx"]};
    var h := t[["args.hxx"]];
    assert inc != ["test.cxx"] && hdr != ["test.cxx"];
    RemoveAfterUpdate((t2 - {["args.hxx"]})[inc := Dir], hdr, h, ["test.cxx"]);
    RemoveAfterUpdate(t2 - {["args.hxx"]}, inc, Dir, ["test.cxx"]);
    assert t3 - {["test.cxx"]} == core[inc := Dir][hdr := h];
    assert IsPrefix(src, moved) && moved != inc && moved != hdr && moved != src;
    assert moved !in t2;
    DropFresh((t3 - {["test.cxx"]})[src := Dir], moved, t[["test.cxx"]]);
  }

  /** The entries of the checkout that stay where they are. */
  lemma MungedCore(t: Tree, t1: Tree, t2: Tree)
    requires t1 == map q | q in t && !IsPrefix(["test"], q) :: t[q]
    requires t2 == t1 - {["catch.hpp"]}
    ensures t2 - {["args.hxx"]} - {["test.cxx"]}
         == map q | q in t && !IsPrefix(["test"], q) && q != ["catch.hpp"] && q != ["args.hxx"] && q != ["test.cxx"] :: t[q]
  {
  }

  /** Removing a key commutes with setting another. */
  lemma RemoveAfterUpdate(m: Tree, k: Path, v: Node, r: Path)
    requires r != k
    ensures m[k := v] - {r} == (m - {r})[k := v]
  {
  }

  /** Setting a fresh key and removing it again changes nothing. */
  lemma DropFresh(m: Tree, k: Path, v: Node)
    requires k !in m
    ensures m[k := v] - {k} == m
  {
  }

  lemma RemoveTestDir(t: Tree)
    requires WellFormed(t) && IsDir(t, ["test"])
    ensures RemoveDirectory(t, ["test"]).AsResult() == Ok(map q | q in t && !IsPrefix(["test"], q) :: t[q])
    ensures WellFormed(map q | q in t && !IsPrefix(["test"], q) :: t[q])
  {
    assert RemoveTree(t, ["test"]).Ok?;
  }

  lemma RemoveCatch(t: Tree, t1: Tree)
    requires ["catch.hpp"] in t && !t[["catch.hpp"]].Dir?
    requires t1 == map q | q in t && !IsPrefix(["test"], q) :: t[q]
    ensures RemoveFiles(t1, [["catch.hpp"]]).AsResult() == Ok(t1 - {["catch.hpp"]})
    ensures WellFormed(t1) ==> WellFormed(t1 - {["catch.hpp"]})
  {
    var c: Path := ["catch.hpp"];
    assert c[..1] != ["test"] by {
      assert c[..1][0] == "catch.hpp" != "test";
    }
    assert c in t1;
    RemoveFilesExactly(t1, [c]);
    assert (set p | p in [c]) == {c};
    assert Removable(t1, [c]);
  }

  lemma SrcIsNew(t: Tree, t3: Tree)
    requires forall q :: q in t ==> !IsPrefix(["src"], q)
    requires forall q :: q in t3 ==> q in t || q == ["include"] || q == ["include", "args.hxx"]
    ensures forall q :: q in t3 ==> !IsPrefix(["src"], q)
  {
    forall q | q in t3 ensures !IsPrefix(["src"], q) {
      if q !in t {
        assert q[..1][0] == "include" != "src";
      }
    }
  }

  lemma RenameTest(t4: Tree)
    requires ["src"] in t4 && t4[["src"]] == Dir && ["src", "test.cxx"] in t4
    requires !t4[["src", "test.cxx"]].Dir? && ["src", "args.test.cxx"] !in t4
    ensures Rename(t4, ["src", "test.cxx"], ["src", "args.test.cxx"])
         == Ok((t4 - {["src", "test.cxx"]})[["src", "args.test.cxx"] := t4[["src", "test.cxx"]]])
    ensures WellFormed(t4) ==> WellFormed((t4 - {["src", "test.cxx"]})[["src", "args.test.cxx"] := t4[["src", "test.cxx"]]])
  {
    assert ProperPath(["src", "args.test.cxx"]);
    assert Parent(["src", "args.test.cxx"]) == ["src"];
    assert "test.cxx" != "args.test.cxx";
  }

  lemma MoveOneIntoNewDir(t: Tree, dir: string, name: string)
    requires WellFormed(t) && [name] in t && !t[[name]].Dir?
    requires forall q :: q in t ==> !IsPrefix([dir], q)
    requires name != ".."
    ensures TransferOne(Move, t, [dir], [], [name]) == Outcome((t - {[name]})[[dir] := Dir][[dir, name] := t[[name]]], None)
  {
    TopLevelDestination(dir, name);
    MakeTopDir(t, dir);
    RenameIntoNewDir(t, dir, name);
  }

  lemma TopLevelDestination(dir: string, name: string)
    requires name != ".."
    ensures Destination([name], [], [dir]) == Ok([dir, name])
    ensures Parent([dir, name]) == [dir]
  {
    var src: Path := [name];
    var whence: Path := [];
    assert IsPrefix(whence, src);
    assert src[|whence|..] == src;
    assert RelativeTo(src, whence) == Some(src);
    assert src[0] == name;
    assert [dir] + src == [dir, name];
  }

  lemma RenameIntoNewDir(t: Tree, dir: string, name: string)
    requires [name] in t && !t[[name]].Dir?
    requires forall q :: q in t ==> !IsPrefix([dir], q)
    ensures Rename(t[[dir] := Dir], [name], [dir, name]) == Ok((t - {[name]})[[dir] := Dir][[dir, name] := t[[name]]])
  {
    var t1 := t[[dir] := Dir];
    assert [dir, name] !in t1;
    assert Parent([dir, name]) == [dir];
    assert (t1 - {[name]})[[dir, name] := t1[[name]]] == (t - {[name]})[[dir] := Dir][[dir, name] := t[[name]]];
  }

  /** `mkdir(parents=True)` of a new top-level directory adds just it. */
  lemma MakeTopDir(t: Tree, dir: string)
    requires WellFormed(t)
    requires forall q :: q in t ==> !IsPrefix([dir], q)
    ensures MakeDirs(t, [dir]) == Ok(t[[dir] := Dir])
  {
    forall q | q in t ensures !IsPrefix(q, [dir]) {
      ShortPrefix(q, dir);
    }
    assert DirsAlong(t, [dir]);
    NewTopDir(t, MakeDirs(t, [dir]).value, dir);
  }

  lemma ShortPrefix(q: Path, dir: string)
    ensures IsPrefix(q, [dir]) ==> q == [] || q == [dir]
  {
  }

  lemma NewTopDir(t: Tree, t1: Tree, dir: string)
    requires forall q :: q in t ==> q in t1 && t1[q] == t[q]
    requires forall q :: q in t1 && q !in t ==> t1[q] == Dir && q != [] && IsPrefix(q, [dir])
    requires IsDir(t1, [dir]) && [dir] !in t
    ensures t1 == t[[dir] := Dir]
  {
    forall q | q in t1 && q !in t ensures q == [dir] {
      assert q == [dir][..|q|];
    }
  }

  // ---------------------------------------------------------------------------
  // `_rewrite_includes`: `fix_catch_include` over the `.cxx` files directly in `base`.

  /** `filter_file_contents` over `root.glob` of the `.cxx` files directly in `base`, with `fix_catch_include`. */
  ghost function RewriteChildren(t: Tree, base: Path): Result<Tree, Error> {
    FilterFileContents(t, Glob(t, Children(base, ".cxx")), FixCatchInclude).AsResult()
  }

  /** Lines 68-70 as written: the glob names `test/`, which the munging has
      already removed. */
  ghost function RewriteIncludesAsWritten(t: Tree): Result<Tree, Error> {
    RewriteChildren(t, ["test"])
  }

  /** The rewrite aimed where the munging put the test source: `src/`. */
  ghost function RewriteIncludes(t: Tree): Result<Tree, Error> {
    RewriteChildren(t, ["src"])
  }

  /** What the rewrite makes of one entry: a `.cxx` file directly in `base`
      is read as text and filtered; anything else stays. */
  function FixSourceNode(base: Path, p: Path, n: Node): Node {
    if Matches(Children(base, ".cxx"), p) && n.File? then File(FixCatchInclude(TranslateNewlines(n.content)))
    else n
  }

  /** When every `.cxx` entry directly in `base` is a file, the rewrite
      succeeds, filters each of them and leaves every other entry as it was. */
  lemma RewriteChildrenExactly(t: Tree, base: Path)
    requires WellFormed(t)
    requires forall q :: q in t && Matches(Children(base, ".cxx"), q) ==> t[q].File?
    ensures RewriteChildren(t, base).Ok?
    ensures RewriteChildren(t, base).value == map q | q in t :: FixSourceNode(base, q, t[q])
    ensures WellFormed(RewriteChildren(t, base).value)
  {
    var files := Glob(t, Children(base, ".cxx"));
    forall i | 0 <= i < |files| ensures files[i] != [] && files[i] in t && t[files[i]].File? {
      assert Matches(Children(base, ".cxx"), files[i]);
    }
    FilterRewritesEachFile(t, files, FixCatchInclude);
    var u := FilterFileContents(t, files, FixCatchInclude).tree;
    forall q | q in t ensures u[q] == FixSourceNode(base, q, t[q]) {
      if q in files {
        assert Matches(Children(base, ".cxx"), q);
      } else {
        assert !Matches(Children(base, ".cxx"), q);
      }
    }
  }

  /** With nothing below `base`, the glob is empty and the rewrite changes
      nothing. */
  lemma RewriteChildrenOfNothing(t: Tree, base: Path)
    requires forall q :: q in t ==> !IsPrefix(base, q)
    ensures RewriteChildren(t, base) == Ok(t)
  {
  }

  // ---------------------------------------------------------------------------
  // `prepare_sdist`.

  /** Lines 75-77: munge, then write the two manifests. */
  function Assemble(port: TayweeArgsPort, checkout: Tree): Result<Tree, Error> {
    var t1 :- MungeFilesIntoLibs(checkout);
    var t2 :- WritePackageJson(t1, port.id.version);
    WriteLibraryJson(t2)
  }

  /** `prepare_sdist` as written: the rewrite of line 78 globs the `.cxx` files of `test/`. */
  ghost function PrepareSdistAsWritten(port: TayweeArgsPort, checkout: Tree): Result<Tree, Error> {
    var t :- Assemble(port, checkout);
    RewriteIncludesAsWritten(t)
  }

  /** `prepare_sdist` with the rewrite aimed at the `.cxx` files of `src/`. */
  ghost function PrepareSdist(port: TayweeArgsPort, checkout: Tree): Result<Tree, Error> {
    var t :- Assemble(port, checkout);
    RewriteIncludes(t)
  }

  /** The munged checkout with the two manifests written at the root. */
  ghost function AssembledTree(t: Tree, v: Version): Tree
    requires ["args.hxx"] in t && ["test.cxx"] in t
  {
    MungedTree(t)[["package.json"] := Manifest(Package(PackageManifest(v)))]
                 [["library.json"] := Manifest(Library(LibraryManifest))]
  }

  /** From a checkout the munging and the manifests succeed. */
  lemma AssembleLayout(port: TayweeArgsPort, t: Tree)
    requires Checkout(t)
    ensures Assemble(port, t) == Ok(AssembledTree(t, port.id.version))
    ensures WellFormed(AssembledTree(t, port.id.version))
  {
    MungeLayout(t);
    var m := MungedTree(t);
    ManifestSlotsFree(t, m);
    var m1 := m[["package.json"] := Manifest(Package(PackageManifest(port.id.version)))];
    PutTop(m, "package.json", Manifest(Package(PackageManifest(port.id.version))));
    assert !IsDir(m1, ["library.json"]) by {
      assert ["library.json"] != ["package.json"] by {
        assert ["library.json"][0] != ["package.json"][0];
      }
    }
    PutTop(m1, "library.json", Manifest(Library(LibraryManifest)));
  }

  /** The manifests' slots in the munged tree hold no directory. */
  lemma ManifestSlotsFree(t: Tree, m: Tree)
    requires ["args.hxx"] in t && ["test.cxx"] in t
    requires m == MungedTree(t)
    requires ["package.json"] in t ==> !t[["package.json"]].Dir?
    requires ["library.json"] in t ==> !t[["library.json"]].Dir?
    ensures !IsDir(m, ["package.json"]) && !IsDir(m, ["library.json"])
  {
    assert "package.json" != "include" && "package.json" != "src";
    assert "library.json" != "include" && "library.json" != "src";
  }

  /** The source distribution as written: the assembled tree, the test
      source left as the checkout had it. */
  lemma PrepareSdistAsWrittenLayout(port: TayweeArgsPort, t: Tree)
    requires Checkout(t)
    ensures PrepareSdistAsWritten(port, t) == Ok(AssembledTree(t, port.id.version))
  {
    var a := AssembledTree(t, port.id.version);
    AssembleLayout(port, t);
    AssembledKeys(t, port.id.version);
    NoTestLeft(t, a);
    RewriteChildrenOfNothing(a, ["test"]);
    AsWrittenSteps(port, t, a, a);
  }

  lemma AsWrittenSteps(port: TayweeArgsPort, t: Tree, a: Tree, r: Tree)
    requires Assemble(port, t) == Ok(a) && RewriteIncludesAsWritten(a) == Ok(r)
    ensures PrepareSdistAsWritten(port, t) == Ok(r)
  {
  }

  lemma CorrectedSteps(port: TayweeArgsPort, t: Tree, a: Tree, r: Tree)
    requires Assemble(port, t) == Ok(a) && RewriteIncludes(a) == Ok(r)
    ensures PrepareSdist(port, t) == Ok(r)
  {
  }

  /** Every entry of the assembled tree came from the checkout outside
      `test/`, or is one the port made at the root, in `include/` or in
      `src/`. */
  lemma AssembledKeys(t: Tree, v: Version)
    requires ["args.hxx"] in t && ["test.cxx"] in t
    ensures forall q :: q in AssembledTree(t, v) ==>
      (q in t && !IsPrefix(["test"], q))
      || q == ["include"] || q == ["include", "args.hxx"] || q == ["src"] || q == ["src", "args.test.cxx"]
      || q == ["package.json"] || q == ["library.json"]
  {
  }

  lemma NoTestLeft(t: Tree, a: Tree)
    requires forall q :: q in a ==>
      (q in t && !IsPrefix(["test"], q))
      || q == ["include"] || q == ["include", "args.hxx"] || q == ["src"] || q == ["src", "args.test.cxx"]
      || q == ["package.json"] || q == ["library.json"]
    ensures forall q :: q in a ==> !IsPrefix(["test"], q)
  {
    forall q | q in a ensures !IsPrefix(["test"], q) {
      TestHead(q);
    }
  }

  lemma TestHead(q: Path)
    ensures IsPrefix(["test"], q) ==> |q| > 0 && q[0] == "test"
  {
  }

  /** The source distribution with the rewrite aimed at `src/`: the
      assembled tree with `src/args.test.cxx` filtered. */
  lemma PrepareSdistLayout(port: TayweeArgsPort, t: Tree)
    requires Checkout(t)
    ensures PrepareSdist(port, t)
         == Ok(AssembledTree(t, port.id.version)[["src", "args.test.cxx"] := File(FixCatchInclude(TranslateNewlines(t[["test.cxx"]].content)))])
  {
    var a := AssembledTree(t, port.id.version);
    AssembleLayout(port, t);
    AssembledKeys(t, port.id.version);
    AssembledTestSource(t, port.id.version);
    OnlyTestSource(t, a);
    RewriteChildrenExactly(a, ["src"]);
    var r := RewriteChildren(a, ["src"]).value;
    SourceRewritten(a, r, t[["test.cxx"]].content);
    CorrectedSteps(port, t, a, r);
  }

  lemma AssembledTestSource(t: Tree, v: Version)
    requires ["args.hxx"] in t && ["test.cxx"] in t
    ensures ["src", "args.test.cxx"] in AssembledTree(t, v)
    ensures AssembledTree(t, v)[["src", "args.test.cxx"]] == t[["test.cxx"]]
  {
  }

  /** `src/args.test.cxx` is the only `.cxx` entry directly in `src/`. */
  lemma OnlyTestSource(t: Tree, a: Tree)
    requires forall q :: q in t ==> !IsPrefix(["src"], q)
    requires forall q :: q in a ==>
      (q in t && !IsPrefix(["test"], q))
      || q == ["include"] || q == ["include", "args.hxx"] || q == ["src"] || q == ["src", "args.test.cxx"]
      || q == ["package.json"] || q == ["library.json"]
    ensures Matches(Children(["src"], ".cxx"), ["src", "args.test.cxx"])
    ensures forall q :: q in a && Matches(Children(["src"], ".cxx"), q) ==> q == ["src", "args.test.cxx"]
  {
    var n: Path := ["src", "args.test.cxx"];
    assert Name(n)[|Name(n)| - 4..] == ".cxx";
    forall q | q in a && Matches(Children(["src"], ".cxx"), q) ensures q == n {
      SrcHead(q);
    }
  }

  lemma SrcHead(q: Path)
    ensures IsPrefix(["src"], q) ==> |q| > 0 && q[0] == "src"
    ensures Under(q, ["src"]) ==> IsPrefix(["src"], q)
  {
  }

  lemma SourceRewritten(a: Tree, r: Tree, c: string)
    requires ["src", "args.test.cxx"] in a && a[["src", "args.test.cxx"]] == File(c)
    requires Matches(Children(["src"], ".cxx"), ["src", "args.test.cxx"])
    requires forall q :: q in a && Matches(Children(["src"], ".cxx"), q) ==> q == ["src", "args.test.cxx"]
    requires r == map q | q in a :: FixSourceNode(["src"], q, a[q])
    ensures r == a[["src", "args.test.cxx"] := File(FixCatchInclude(TranslateNewlines(c)))]
  {
  }

  // ---------------------------------------------------------------------------
  // The rewrite misses the test source.

  /** As written, a `#define CATCH_CONFIG_MAIN` line of the checkout's
      `test.cxx` reaches the source distribution: `src/args.test.cxx` is the
      checkout's file, unfiltered. */
  lemma ConfigMainSurvivesAsWritten(port: TayweeArgsPort, t: Tree, k: nat)
    requires Checkout(t)
    requires k < |SplitLines(t[["test.cxx"]].content)|
    requires StartsWith(SplitLines(t[["test.cxx"]].content)[k], CatchConfigMain)
    ensures PrepareSdistAsWritten(port, t).Ok?
    ensures var u := PrepareSdistAsWritten(port, t).value;
            && ["src", "args.test.cxx"] in u && u[["src", "args.test.cxx"]].File?
            && k < |SplitLines(u[["src", "args.test.cxx"]].content)|
            && StartsWith(SplitLines(u[["src", "args.test.cxx"]].content)[k], CatchConfigMain)
  {
    PrepareSdistAsWrittenLayout(port, t);
    AssembledTestSource(t, port.id.version);
  }

  /** With the rewrite aimed at `src/`, no line of `src/args.test.cxx` starts
      with `#define CATCH_CONFIG_MAIN`, and the rest of its lines are the
      checkout's, filtered line by line. */
  lemma CorrectedDropsConfigMain(port: TayweeArgsPort, t: Tree)
    requires Checkout(t)
    ensures PrepareSdist(port, t).Ok?
    ensures var u := PrepareSdist(port, t).value;
            && ["src", "args.test.cxx"] in u && u[["src", "args.test.cxx"]].File?
            && SplitLines(u[["src", "args.test.cxx"]].content)
               == FixCatchLines(SplitLines(TranslateNewlines(t[["test.cxx"]].content)))
            && forall l :: l in SplitLines(u[["src", "args.test.cxx"]].content) ==> !StartsWith(l, CatchConfigMain)
  {
    PrepareSdistLayout(port, t);
    FixCatchIncludeLines(TranslateNewlines(t[["test.cxx"]].content));
  }

  /** A checkout whose test source opens with the Catch main definition. */
  const ExampleCheckout: Tree :=
    map[["test"] := Dir, ["catch.hpp"] := File(""), ["args.hxx"] := File(""),
        ["test.cxx"] := File(CatchConfigMain + "\n")]

  /** The example is a checkout, and the first line of its test source is the
      definition. */
  lemma ExampleCheckoutShape()
    ensures Checkout(ExampleCheckout)
    ensures SplitLines(ExampleCheckout[["test.cxx"]].content) == [CatchConfigMain + "\n"]
    ensures StartsWith(CatchConfigMain + "\n", CatchConfigMain)
  {
    ExampleIsCheckout(ExampleCheckout);
    DefineLine(ExampleCheckout[["test.cxx"]].content);
  }

  lemma ExampleIsCheckout(t: Tree)
    requires t == ExampleCheckout
    ensures Checkout(t)
  {
    ExampleTopLevel(t);
    ExampleEntries(t);
    CheckoutOf(t);
  }

  /** The example's named entries, each of its kind. */
  lemma ExampleEntries(t: Tree)
    requires t == ExampleCheckout
    ensures ["test"] in t && t[["test"]] == Dir
    ensures ["catch.hpp"] in t && ["args.hxx"] in t && ["test.cxx"] in t
    ensures !t[["catch.hpp"]].Dir? && !t[["args.hxx"]].Dir? && t[["test.cxx"]].File?
    ensures ["package.json"] !in t && ["library.json"] !in t
  {
  }

  /** A tree of top-level entries with proper names, none of them `include`
      or `src`, that has the files a checkout needs, is a checkout. */
  lemma CheckoutOf(t: Tree)
    requires forall q :: q in t ==> |q| == 1 && ProperPath(q) && q[0] != "include" && q[0] != "src"
    requires ["test"] in t && t[["test"]] == Dir
    requires ["catch.hpp"] in t && ["args.hxx"] in t && ["test.cxx"] in t
    requires !t[["catch.hpp"]].Dir? && !t[["args.hxx"]].Dir? && t[["test.cxx"]].File?
    requires ["package.json"] !in t && ["library.json"] !in t
    ensures Checkout(t)
  {
    TopLevelWellFormed(t);
    forall q | q in t ensures !IsPrefix(["include"], q) && !IsPrefix(["src"], q) {
      IncludeSrcHead(q);
    }
  }

  /** Every entry of the example is a single proper name other than
      `include` and `src`. */
  lemma ExampleTopLevel(t: Tree)
    requires t == ExampleCheckout
    ensures forall q :: q in t ==> |q| == 1 && ProperPath(q) && q[0] != "include" && q[0] != "src"
  {
    forall q | q in t ensures |q| == 1 && ProperPath(q) && q[0] != "include" && q[0] != "src" {
      assert q == ["test"] || q == ["catch.hpp"] || q == ["args.hxx"] || q == ["test.cxx"];
    }
  }

  /** A tree of top-level entries with proper names is well formed. */
  lemma TopLevelWellFormed(t: Tree)
    requires forall q :: q in t ==> |q| == 1 && ProperPath(q)
    ensures WellFormed(t)
  {
    forall q | q in t ensures IsDir(t, Parent(q)) {
      assert Parent(q) == [];
    }
  }

  /** The definition followed by a newline is a single line starting with it. */
  lemma DefineLine(d: string)
    requires d == CatchConfigMain + "\n"
    ensures SplitLines(d) == [d] && StartsWith(d, CatchConfigMain)
  {
    assert ProperLine(d, true);
    SplitLinesConcat([d]);
    assert Concat([d]) == d;
    assert d[..|CatchConfigMain|] == CatchConfigMain;
  }

  lemma IncludeSrcHead(q: Path)
    ensures IsPrefix(["include"], q) ==> |q| > 0 && q[0] == "include"
    ensures IsPrefix(["src"], q) ==> |q| > 0 && q[0] == "src"
  {
  }

  /** For the example checkout the two differ: as written the definition is
      still the first line of `src/args.test.cxx`; corrected it is gone. */
  lemma FindingExample(port: TayweeArgsPort)
    ensures PrepareSdistAsWritten(port, ExampleCheckout).Ok? && PrepareSdist(port, ExampleCheckout).Ok?
    ensures var u := PrepareSdistAsWritten(port, ExampleCheckout).value;
            && ["src", "args.test.cxx"] in u && u[["src", "args.test.cxx"]].File?
            && SplitLines(u[["src", "args.test.cxx"]].content) == [CatchConfigMain + "\n"]
    ensures var u := PrepareSdist(port, ExampleCheckout).value;
            && ["src", "args.test.cxx"] in u && u[["src", "args.test.cxx"]].File?
            && forall l :: l in SplitLines(u[["src", "args.test.cxx"]].content) ==> !StartsWith(l, CatchConfigMain)
  {
    ExampleCheckoutShape();
    Contrast(port, ExampleCheckout);
  }

  lemma Contrast(port: TayweeArgsPort, t: Tree)
    requires Checkout(t)
    ensures PrepareSdistAsWritten(port, t).Ok? && PrepareSdist(port, t).Ok?
    ensures var u := PrepareSdistAsWritten(port, t).value;
            ["src", "args.test.cxx"] in u && u[["src", "args.test.cxx"]] == t[["test.cxx"]]
    ensures var u := PrepareSdist(port, t).value;
            && ["src", "args.test.cxx"] in u && u[["src", "args.test.cxx"]].File?
            && forall l :: l in SplitLines(u[["src", "args.test.cxx"]].content) ==> !StartsWith(l, CatchConfigMain)
  {
    PrepareSdistAsWrittenLayout(port, t);
    AssembledTestSource(t, port.id.version);
    CorrectedDropsConfigMain(port, t);
  }
}
