/** Package identity and the manifest records every prepared source
    distribution carries. A semantic version is modelled as the numeric triple
    the ports use; `VersionString` is `str(VersionInfo)` and `ParseVersion` is
    `VersionInfo.parse` restricted to that triple form. */
module Packages {
  import opened Results
  import opened Text

  datatype Version = Version(major: nat, minor: nat, patch: nat)

  /** A package's identity: its name and its version. */
  datatype PackageId = PackageId(name: string, version: Version)

  /** The `package.json` record. `depends` is `None` when the key is absent. */
  datatype PackageJson = PackageJson(
    name: string,
    version: string,
    namespace: string,
    depends: Option<seq<string>>)

  /** A `library.json` record. `uses` is `None` when the key is absent. */
  datatype LibraryJson = LibraryJson(name: string, uses: Option<seq<string>>)

  datatype Document = Package(package: PackageJson) | Library(library: LibraryJson)

  function VersionString(v: Version): string {
    NatToString(v.major) + "." + NatToString(v.minor) + "." + NatToString(v.patch)
  }

  /** `major.minor.patch`, each part a decimal numeral without leading zeros. */
  function ParseVersion(s: string): Option<Version> {
    var parts := Split(s, '.');
    if |parts| == 3
       && IsCanonicalNumeral(parts[0])
       && IsCanonicalNumeral(parts[1])
       && IsCanonicalNumeral(parts[2])
    then Some(Version(ParseNat(parts[0]), ParseNat(parts[1]), ParseNat(parts[2])))
    else None
  }

  lemma DigitsHaveNoDot(s: string)
    requires AllDigits(s)
    ensures '.' !in s
  {
  }

  /** The printed version parses back to the same version. */
  lemma VersionRoundTrip(v: Version)
    ensures ParseVersion(VersionString(v)) == Some(v)
  {
    var a, b, c := NatToString(v.major), NatToString(v.minor), NatToString(v.patch);
    DigitsHaveNoDot(a);
    DigitsHaveNoDot(b);
    DigitsHaveNoDot(c);
    SplitFree(a, '.');
    SplitFree(b, '.');
    SplitFree(c, '.');
    assert VersionString(v) == a + ['.'] + (b + ['.'] + c);
    SplitAround(a, '.', b + ['.'] + c);
    SplitAround(b, '.', c);
    assert Split(VersionString(v), '.') == [a, b, c];
    ParseNatToString(v.major);
    ParseNatToString(v.minor);
    ParseNatToString(v.patch);
  }

  /** A string that parses as a version is the printed form of that version:
      the textual form of a version is unique. */
  lemma ParsedVersionIsCanonical(s: string)
    requires ParseVersion(s).Some?
    ensures VersionString(ParseVersion(s).value) == s
  {
    var parts := Split(s, '.');
    var p0, p1, p2 := parts[0], parts[1], parts[2];
    JoinSplit(s, '.');
    assert JoinWith(parts[2..], '.') == p2;
    assert JoinWith(parts[1..], '.') == p1 + ['.'] + p2 by {
      assert parts[1..][1..] == parts[2..];
    }
    assert s == p0 + ['.'] + (p1 + ['.'] + p2);
    NatToStringOfParse(p0);
    NatToStringOfParse(p1);
    NatToStringOfParse(p2);
  }
}
