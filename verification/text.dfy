/** Character and string helpers that stand in for the pieces of Python's
    string machinery the ports rely on: `str.isspace`/regex `\s`, `str(int)`,
    the `0>2` format spec, splitting on a separator, iterating a text file
    line by line, and universal-newline decoding. */
module Text {

  /** The characters for which Python's `str.isspace()` holds, which is also
      what `\s` matches in a `str` regular expression. */
  const Whitespace: set<char> :=
    {' ', '\t', '\n', '\r', '\U{0b}', '\U{0c}', '\U{1c}', '\U{1d}', '\U{1e}', '\U{1f}',
     '\U{85}', '\U{a0}', '\U{1680}', '\U{2000}', '\U{2001}', '\U{2002}', '\U{2003}',
     '\U{2004}', '\U{2005}', '\U{2006}', '\U{2007}', '\U{2008}', '\U{2009}', '\U{200a}',
     '\U{2028}', '\U{2029}', '\U{202f}', '\U{205f}', '\U{3000}'}

  predicate IsSpace(c: char) {
    c in Whitespace
  }

  predicate AllSpace(s: string) {
    forall i :: 0 <= i < |s| ==> IsSpace(s[i])
  }

  predicate StartsWith(s: string, prefix: string) {
    |prefix| <= |s| && s[..|prefix|] == prefix
  }

  /** The end of the run of whitespace that starts at `i`: what a greedy `\s*`
      consumes from position `i`. */
  function SpanSpace(s: string, i: nat): (j: nat)
    requires i <= |s|
    ensures i <= j <= |s|
    ensures forall k :: i <= k < j ==> IsSpace(s[k])
    ensures j < |s| ==> !IsSpace(s[j])
    decreases |s| - i
  {
    if i < |s| && IsSpace(s[i]) then SpanSpace(s, i + 1) else i
  }

  /** Greedy matching of a whitespace run from `i` is deterministic: it ends
      at the first position that is not whitespace. */
  lemma {:induction false} SpanSpaceAt(s: string, i: nat, j: nat)
    requires i <= j <= |s|
    requires AllSpace(s[i..j])
    requires j < |s| ==> !IsSpace(s[j])
    ensures SpanSpace(s, i) == j
    decreases j - i
  {
    if i < j {
      assert IsSpace(s[i..j][0]);
      assert s[i + 1..j] == s[i..j][1..];
      SpanSpaceAt(s, i + 1, j);
    }
  }

  /** The run `SpanSpace` finds is whitespace. */
  lemma SpanIsSpace(s: string, i: nat)
    requires i <= |s|
    ensures AllSpace(s[i..SpanSpace(s, i)])
  {
    var j := SpanSpace(s, i);
    assert forall k :: 0 <= k < j - i ==> s[i..j][k] == s[i + k];
  }

  // ---------------------------------------------------------------------------
  // Decimal numbers: Python's str(int) on a non-negative int, and int(s) back.

  predicate IsDigit(c: char) {
    '0' <= c <= '9'
  }

  predicate AllDigits(s: string) {
    forall i :: 0 <= i < |s| ==> IsDigit(s[i])
  }

  /** A decimal numeral as `str` prints it: non-empty, digits only, and no
      leading zero unless the numeral is `0` itself. */
  predicate IsCanonicalNumeral(s: string) {
    |s| > 0 && AllDigits(s) && (s[0] == '0' ==> |s| == 1)
  }

  function DigitChar(d: nat): (c: char)
    requires d < 10
    ensures IsDigit(c)
  {
    (48 + d) as char
  }

  function DigitValue(c: char): (d: nat)
    requires IsDigit(c)
    ensures d < 10 && DigitChar(d) == c
  {
    (c as int - 48) as nat
  }

  function NatToString(n: nat): (s: string)
    ensures IsCanonicalNumeral(s)
  {
    if n < 10 then [DigitChar(n)] else NatToString(n / 10) + [DigitChar(n % 10)]
  }

  function ParseNat(s: string): nat
    requires AllDigits(s)
  {
    if s == [] then 0 else 10 * ParseNat(s[..|s| - 1]) + DigitValue(s[|s| - 1])
  }

  /** Printing then parsing a number gives the number back. */
  lemma {:induction false} ParseNatToString(n: nat)
    ensures ParseNat(NatToString(n)) == n
  {
    var s := NatToString(n);
    if n >= 10 {
      ParseNatToString(n / 10);
      assert s[..|s| - 1] == NatToString(n / 10);
    }
  }

  /** Parsing then printing a canonical numeral gives the numeral back, so a
      canonical numeral is exactly the printed form of one number. */
  lemma {:induction false} NatToStringOfParse(s: string)
    requires IsCanonicalNumeral(s)
    ensures NatToString(ParseNat(s)) == s
  {
    var init := s[..|s| - 1];
    var last := s[|s| - 1];
    var n := ParseNat(s);
    assert n == 10 * ParseNat(init) + DigitValue(last);
    if |s| == 1 {
      assert init == [];
      assert [last] == s;
    } else {
      assert init[0] == s[0] && s[0] != '0';
      NatToStringOfParse(init);
      PositiveParse(init);
      assert n / 10 == ParseNat(init) && n % 10 == DigitValue(last);
      assert s == init + [last];
    }
  }

  /** A numeral that does not start with `0` denotes a positive number. */
  lemma {:induction false} PositiveParse(s: string)
    requires |s| > 0 && AllDigits(s) && s[0] != '0'
    ensures ParseNat(s) > 0
  {
    var init := s[..|s| - 1];
    if |s| > 1 {
      assert init[0] == s[0];
      PositiveParse(init);
    }
  }

  /** Python's `format(s, fill + '>' + str(width))`: right-align `s` in a field
      of `width` characters, filling on the left. Longer strings are kept as
      they are. */
  function PadLeft(s: string, width: nat, fill: char): (r: string)
    ensures |r| == if |s| < width then width else |s|
    ensures r[|r| - |s|..] == s
    ensures forall i :: 0 <= i < |r| - |s| ==> r[i] == fill
  {
    if |s| < width then seq(width - |s|, _ => fill) + s else s
  }

  function Pow10(k: nat): (r: nat)
    ensures r > 0
  {
    if k == 0 then 1 else 10 * Pow10(k - 1)
  }

  /** Reading digits appended to digits shifts the first part left. */
  lemma {:induction false} ParseNatAppend(a: string, b: string)
    requires AllDigits(a) && AllDigits(b)
    ensures AllDigits(a + b)
    ensures ParseNat(a + b) == ParseNat(a) * Pow10(|b|) + ParseNat(b)
    decreases |b|
  {
    if b == [] {
      assert a + b == a;
    } else {
      var b' := b[..|b| - 1];
      var d := DigitValue(b[|b| - 1]);
      ParseNatAppend(a, b');
      assert (a + b)[..|a + b| - 1] == a + b';
      assert (a + b)[|a + b| - 1] == b[|b| - 1];
      assert ParseNat(a + b) == 10 * ParseNat(a + b') + d;
      assert ParseNat(b) == 10 * ParseNat(b') + d;
      ShiftDigit(ParseNat(a), Pow10(|b'|), ParseNat(b'), d);
    }
  }

  lemma ShiftDigit(x: nat, p: nat, y: nat, d: nat)
    ensures 10 * (x * p + y) + d == x * (10 * p) + (10 * y + d)
  {
  }

  /** Zero padding on the left does not change the value of a numeral. */
  lemma {:induction false} ParseNatZeroPadded(s: string, width: nat)
    requires AllDigits(s)
    ensures AllDigits(PadLeft(s, width, '0'))
    ensures ParseNat(PadLeft(s, width, '0')) == ParseNat(s)
  {
    var r := PadLeft(s, width, '0');
    var zeros := r[..|r| - |s|];
    assert r == zeros + s;
    ZerosParseToZero(zeros);
    ParseNatAppend(zeros, s);
  }

  lemma {:induction false} ZerosParseToZero(z: string)
    requires forall i :: 0 <= i < |z| ==> z[i] == '0'
    ensures AllDigits(z) && ParseNat(z) == 0
  {
    if z != [] {
      ZerosParseToZero(z[..|z| - 1]);
    }
  }

  /** Numbers below 100 print in at most two digits, so the `0>2` format
      prints them in exactly two. */
  lemma NatToStringBelowHundred(n: nat)
    requires n < 100
    ensures |NatToString(n)| <= 2
    ensures |PadLeft(NatToString(n), 2, '0')| == 2
  {
  }

  // ---------------------------------------------------------------------------
  // Splitting on a separator character, as `str.split(sep)` does.

  function Split(s: string, sep: char): (parts: seq<string>)
    ensures |parts| > 0
  {
    if s == [] then [""]
    else if s[0] == sep then [""] + Split(s[1..], sep)
    else var rest := Split(s[1..], sep); [[s[0]] + rest[0]] + rest[1..]
  }

  function JoinWith(parts: seq<string>, sep: char): string
    requires |parts| > 0
  {
    if |parts| == 1 then parts[0] else parts[0] + [sep] + JoinWith(parts[1..], sep)
  }

  /** Two strings cut at the first occurrence of a separator agree on both
      sides of it. */
  lemma CutAtFirst(a: string, x: string, b: string, y: string, sep: char)
    requires sep !in a && sep !in b
    requires a + [sep] + x == b + [sep] + y
    ensures a == b && x == y
  {
    var s := a + [sep] + x;
    assert |a| == |b| by {
      assert s[|a|] == sep && s[|b|] == sep;
      assert forall i :: 0 <= i < |a| ==> s[i] == a[i];
      assert forall i :: 0 <= i < |b| ==> s[i] == b[i];
    }
    assert a == s[..|a|] && b == s[..|b|];
    assert x == s[|a| + 1..] && y == s[|b| + 1..];
  }

  /** The piece after the last separator is the last piece of a split. */
  lemma LastPieceOfSplit(a: string, sep: char, b: string)
    requires sep !in b
    ensures Split(a + [sep] + b, sep) == Split(a, sep) + [b]
  {
    SplitAround(a, sep, b);
    SplitFree(b, sep);
  }

  /** No piece of a split contains the separator. */
  lemma {:induction false} SplitPartsFree(s: string, sep: char)
    ensures forall i :: 0 <= i < |Split(s, sep)| ==> sep !in Split(s, sep)[i]
  {
    if s != [] {
      SplitPartsFree(s[1..], sep);
    }
  }

  /** Joining the pieces of a split with the separator restores the string. */
  lemma {:induction false} JoinSplit(s: string, sep: char)
    ensures JoinWith(Split(s, sep), sep) == s
  {
    if s != [] {
      JoinSplit(s[1..], sep);
      var rest := Split(s[1..], sep);
      if s[0] == sep {
        assert Split(s, sep) == [""] + rest;
      } else {
        var parts := Split(s, sep);
        if |rest| == 1 {
          assert parts == [[s[0]] + rest[0]];
        } else {
          assert parts[1..] == rest[1..];
          assert JoinWith(rest, sep) == rest[0] + [sep] + JoinWith(rest[1..], sep);
        }
      }
    }
  }

  /** A string free of the separator is its own single piece. */
  lemma {:induction false} SplitFree(s: string, sep: char)
    requires sep !in s
    ensures Split(s, sep) == [s]
  {
    if s != [] {
      assert sep !in s[1..];
      SplitFree(s[1..], sep);
      assert [s[0]] + s[1..] == s;
    }
  }

  /** Splitting `a + sep + b` splits the two sides independently. */
  lemma {:induction false} SplitAround(a: string, sep: char, b: string)
    ensures Split(a + [sep] + b, sep) == Split(a, sep) + Split(b, sep)
  {
    if a == [] {
      assert a + [sep] + b == [sep] + b;
      SplitCons(sep, b, sep);
    } else {
      var x := a[1..] + [sep] + b;
      SplitAround(a[1..], sep, b);
      assert a + [sep] + b == [a[0]] + x;
      assert a == [a[0]] + a[1..];
      SplitCons(a[0], x, sep);
      SplitCons(a[0], a[1..], sep);
      var ra, rb := Split(a[1..], sep), Split(b, sep);
      if a[0] == sep {
        ConsAssoc("", ra, rb);
      } else {
        HeadOfAppend(ra, rb);
        ConsAssoc([a[0]] + ra[0], ra[1..], rb);
      }
    }
  }

  lemma ConsAssoc(x: string, y: seq<string>, z: seq<string>)
    ensures [x] + (y + z) == ([x] + y) + z
  {
  }

  lemma HeadOfAppend(y: seq<string>, z: seq<string>)
    requires |y| > 0
    ensures (y + z)[0] == y[0] && (y + z)[1..] == y[1..] + z
  {
  }

  /** One step of `Split`: the first character either ends the first piece
      or joins it. */
  lemma SplitCons(c: char, x: string, sep: char)
    ensures c == sep ==> Split([c] + x, sep) == [""] + Split(x, sep)
    ensures c != sep ==> Split([c] + x, sep) == [[c] + Split(x, sep)[0]] + Split(x, sep)[1..]
  {
    assert ([c] + x)[0] == c && ([c] + x)[1..] == x;
  }

  // ---------------------------------------------------------------------------
  // Text files read line by line: `for line in fh` yields each line with its
  // terminating '\n'; the last line may lack one.

  function SplitLines(s: string): (lines: seq<string>)
  {
    if s == [] then []
    else
      var rest := SplitLines(s[1..]);
      if s[0] == '\n' || rest == [] then [[s[0]]] + rest
      else [[s[0]] + rest[0]] + rest[1..]
  }

  function Concat(lines: seq<string>): string
  {
    if lines == [] then "" else lines[0] + Concat(lines[1..])
  }

  /** A line as the iteration yields it: non-empty, with '\n' only as its last
      character, and ending in '\n' unless it is the final line. */
  predicate ProperLine(line: string, isLast: bool) {
    && |line| > 0
    && (forall j :: 0 <= j < |line| - 1 ==> line[j] != '\n')
    && (!isLast ==> line[|line| - 1] == '\n')
  }

  predicate ProperLines(lines: seq<string>) {
    forall i :: 0 <= i < |lines| ==> ProperLine(lines[i], i == |lines| - 1)
  }

  /** Writing out every line read reproduces the text. */
  lemma {:induction false} ConcatSplitLines(s: string)
    ensures Concat(SplitLines(s)) == s
  {
    if s != [] {
      ConcatSplitLines(s[1..]);
      var rest := SplitLines(s[1..]);
      if !(s[0] == '\n' || rest == []) {
        assert Concat(rest) == rest[0] + Concat(rest[1..]);
      }
    }
  }

  /** The lines of a text are proper lines. */
  lemma {:induction false} SplitLinesProper(s: string)
    ensures ProperLines(SplitLines(s))
  {
    if s != [] {
      SplitLinesProper(s[1..]);
      var rest := SplitLines(s[1..]);
      var lines := SplitLines(s);
      if s[0] == '\n' || rest == [] {
        assert forall i :: 1 <= i < |lines| ==> lines[i] == rest[i - 1];
        if s[0] != '\n' {
          assert |lines| == 1;
        }
      } else {
        assert lines[0] == [s[0]] + rest[0];
        assert forall i :: 1 <= i < |lines| ==> lines[i] == rest[i];
        assert ProperLine(rest[0], 0 == |rest| - 1);
      }
    }
  }

  /** Reading back the concatenation of proper lines yields those lines. */
  lemma {:induction false} SplitLinesConcat(lines: seq<string>)
    requires ProperLines(lines)
    ensures SplitLines(Concat(lines)) == lines
  {
    if lines != [] {
      var rest := lines[1..];
      assert ProperLines(rest) by {
        forall i | 0 <= i < |rest|
          ensures ProperLine(rest[i], i == |rest| - 1)
        {
          assert rest[i] == lines[i + 1];
        }
      }
      SplitLinesConcat(rest);
      assert ProperLine(lines[0], 0 == |lines| - 1);
      SplitOneLine(lines[0], Concat(rest), rest == []);
    }
  }

  /** Splitting a proper line followed by more text peels that line off. */
  lemma {:induction false} SplitOneLine(line: string, more: string, isLast: bool)
    requires ProperLine(line, isLast)
    requires isLast <==> more == []
    ensures SplitLines(line + more) == [line] + SplitLines(more)
    decreases |line|
  {
    var s := line + more;
    if |line| == 1 {
      assert s[1..] == more;
      assert s[0] == line[0];
      if !isLast {
        assert line[0] == '\n';
      }
      assert [s[0]] == line;
    } else {
      var tail := line[1..];
      assert ProperLine(tail, isLast) by {
        assert forall j :: 0 <= j < |tail| ==> tail[j] == line[j + 1];
      }
      SplitOneLine(tail, more, isLast);
      assert s[1..] == tail + more;
      assert s[0] == line[0] && line[0] != '\n';
      assert [s[0]] + tail == line;
    }
  }

  /** The length of every line read is at least one, so a text has at most as
      many lines as characters. */
  lemma {:induction false} LineCountBound(s: string)
    ensures |SplitLines(s)| <= |s|
  {
    if s != [] {
      LineCountBound(s[1..]);
    }
  }

  // ---------------------------------------------------------------------------
  // Searching.

  /** `str.rfind(c)`: the index of the last `c` in `s`, or -1. */
  function LastIndexOf(s: string, c: char): (r: int)
    ensures -1 <= r < |s|
    ensures r == -1 <==> c !in s
    ensures r >= 0 ==> s[r] == c && c !in s[r + 1..]
  {
    if s == [] then -1
    else if s[|s| - 1] == c then |s| - 1
    else
      var r := LastIndexOf(s[..|s| - 1], c);
      assert s == s[..|s| - 1] + [s[|s| - 1]];
      r
  }

  /** `c` found last right before a tail free of `c`. */
  lemma {:induction false} LastIndexBeforeTail(x: string, c: char, y: string)
    requires c !in y
    ensures LastIndexOf(x + [c] + y, c) == |x|
    decreases |y|
  {
    var s := x + [c] + y;
    if y != [] {
      var y' := y[..|y| - 1];
      assert s[..|s| - 1] == x + [c] + y';
      assert s[|s| - 1] == y[|y| - 1];
      LastIndexBeforeTail(x, c, y');
    }
  }

  /** `needle` occurs somewhere in `s`. */
  predicate Contains(s: string, needle: string) {
    exists i :: 0 <= i <= |s| && OccursAt(s, needle, i)
  }

  predicate OccursAt(s: string, needle: string, i: int) {
    0 <= i && i + |needle| <= |s| && s[i..i + |needle|] == needle
  }

  lemma ContainsInside(a: string, needle: string, b: string)
    ensures Contains(a + needle + b, needle)
  {
    var s := a + needle + b;
    assert OccursAt(s, needle, |a|);
  }

  // ---------------------------------------------------------------------------
  // Universal newlines: a file opened in text mode with the default newline
  // handling reads "\r\n" and a lone "\r" as "\n".

  function TranslateNewlines(s: string): (r: string)
    ensures '\r' !in r
    ensures |r| <= |s|
  {
    if s == [] then []
    else if s[0] == '\r' then
      if |s| > 1 && s[1] == '\n' then "\n" + TranslateNewlines(s[2..])
      else "\n" + TranslateNewlines(s[1..])
    else [s[0]] + TranslateNewlines(s[1..])
  }

  /** Text without carriage returns reads back unchanged. */
  lemma {:induction false} TranslateNewlinesPlain(s: string)
    requires '\r' !in s
    ensures TranslateNewlines(s) == s
  {
    if s != [] {
      assert '\r' !in s[1..];
      TranslateNewlinesPlain(s[1..]);
    }
  }
}
