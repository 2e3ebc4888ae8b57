/** File-name arithmetic of the splitter: POSIX `os.path.splitext`, the
    three-digit zero-padded rendering of the part number, and the part paths
    `<stem>.partNNN<ext>`. */
module Paths {
  import opened Common

  // ---------------------------------------------------------------------
  // splitext
  // ---------------------------------------------------------------------

  /** Index of the last occurrence of `c`, or -1 (Python's `str.rfind`). */
  function LastIndex(s: string, c: char): (r: int)
    ensures -1 <= r < |s|
    ensures r >= 0 ==> s[r] == c
    ensures forall i :: r < i < |s| ==> s[i] != c
  {
    if s == [] then -1
    else if s[|s| - 1] == c then |s| - 1
    else LastIndex(s[..|s| - 1], c)
  }

  /** `os.path.splitext` with '/' as the only separator: the extension runs
      from the last '.' that follows the last '/', unless everything between
      that '/' and the dot is dots (a leading-dot name such as ".bashrc" has
      no extension). Root and extension always concatenate back to the path;
      a non-empty extension is one dot followed by neither dots nor
      separators, and what precedes it in the final component is not all
      dots. */
  function SplitExt(p: string): (r: (string, string))
    ensures r.0 + r.1 == p
    ensures r.1 != [] ==> (r.1[0] == '.' &&
      forall i :: 0 < i < |r.1| ==> r.1[i] != '.' && r.1[i] != '/')
    ensures r.1 != [] ==>
      exists k :: LastIndex(p, '/') < k < |r.0| && r.0[k] != '.'
    ensures r.1 == [] ==> forall k :: LastIndex(p, '/') < k < LastIndex(p, '.') ==> p[k] == '.'
  {
    var sep := LastIndex(p, '/');
    var dot := LastIndex(p, '.');
    if dot > sep && exists k :: sep < k < dot && p[k] != '.' then
      assert p[..dot] + p[dot..] == p;
      (p[..dot], p[dot..])
    else
      (p, "")
  }

  // ---------------------------------------------------------------------
  // Three-digit, zero-padded part numbers
  // ---------------------------------------------------------------------

  predicate IsDigit(c: char)
  {
    '0' <= c <= '9'
  }

  predicate AllDigits(s: string)
  {
    forall i :: 0 <= i < |s| ==> IsDigit(s[i])
  }

  function DigitChar(d: nat): (c: char)
    requires d < 10
    ensures IsDigit(c)
  {
    (48 + d) as char
  }

  function DigitValue(c: char): (d: nat)
    requires IsDigit(c)
    ensures d < 10 && DigitChar(d) == c
  {
    c as int - 48
  }

  /** Decimal rendering without leading zeros. */
  function Decimal(n: nat): (r: string)
    ensures 1 <= |r| && AllDigits(r)
  {
    if n < 10 then [DigitChar(n)] else Decimal(n / 10) + [DigitChar(n % 10)]
  }

  /** Python's `03d` format of a non-negative `n`: zeros on the left up to
      three characters; wider numbers keep all their digits. */
  function ZeroPad3(n: nat): (r: string)
    ensures |r| == Max(3, |Decimal(n)|) && AllDigits(r)
  {
    var d := Decimal(n);
    Repeat('0', 3 - |d|) + d
  }

  /** The value of a digit string, most significant digit first. */
  function ParseDecimal(s: string): nat
    requires AllDigits(s)
  {
    if s == [] then 0 else 10 * ParseDecimal(s[..|s| - 1]) + DigitValue(s[|s| - 1])
  }

  lemma {:induction false} ParseDecimalInverse(n: nat)
    ensures ParseDecimal(Decimal(n)) == n
  {
    if n >= 10 {
      var d := Decimal(n);
      assert d[..|d| - 1] == Decimal(n / 10);
      ParseDecimalInverse(n / 10);
    }
  }

  lemma {:induction false} LeadingZero(s: string)
    requires AllDigits(s)
    ensures AllDigits("0" + s) && ParseDecimal("0" + s) == ParseDecimal(s)
    decreases |s|
  {
    if s != [] {
      var t := "0" + s;
      assert t[..|t| - 1] == "0" + s[..|s| - 1];
      LeadingZero(s[..|s| - 1]);
    }
  }

  lemma {:induction false} LeadingZeros(k: int, s: string)
    requires AllDigits(s)
    ensures AllDigits(Repeat('0', k) + s)
    ensures ParseDecimal(Repeat('0', k) + s) == ParseDecimal(s)
    decreases k
  {
    if k <= 0 {
      assert Repeat('0', k) + s == s;
    } else {
      LeadingZeros(k - 1, s);
      assert Repeat('0', k) + s == "0" + (Repeat('0', k - 1) + s);
      LeadingZero(Repeat('0', k - 1) + s);
    }
  }

  /** The padded number reads back as the number: padding loses nothing,
      so distinct part numbers give distinct texts. */
  lemma ZeroPad3Inverse(n: nat)
    ensures ParseDecimal(ZeroPad3(n)) == n
  {
    var d := Decimal(n);
    LeadingZeros(3 - |d|, d);
    ParseDecimalInverse(n);
  }

  lemma ZeroPad3Injective(a: nat, b: nat)
    requires ZeroPad3(a) == ZeroPad3(b)
    ensures a == b
  {
    ZeroPad3Inverse(a);
    ZeroPad3Inverse(b);
  }

  /** Below 1000 the padded text is exactly the three decimal digits. */
  lemma ZeroPad3Digits(n: nat)
    requires n < 1000
    ensures ZeroPad3(n) == [DigitChar(n / 100), DigitChar(n / 10 % 10), DigitChar(n % 10)]
  {
    if n < 10 {
      assert Decimal(n) == [DigitChar(n)];
      assert Repeat('0', 2) == ['0', '0'];
    } else if n < 100 {
      assert Decimal(n / 10) == [DigitChar(n / 10)];
      assert Repeat('0', 1) == ['0'];
    } else {
      assert Decimal(n / 100) == [DigitChar(n / 100)];
      assert Decimal(n / 10) == [DigitChar(n / 100), DigitChar(n / 10 % 10)];
    }
  }

  // ---------------------------------------------------------------------
  // Lexicographic order of Python strings
  // ---------------------------------------------------------------------

  /** Python's `a < b` on strings: code-point lexicographic order. */
  predicate LexLess(a: string, b: string)
  {
    if a == [] then b != []
    else if b == [] then false
    else if a[0] != b[0] then a[0] < b[0]
    else LexLess(a[1..], b[1..])
  }

  lemma {:induction false} LexLessPrefix(p: string, x: string, y: string)
    ensures LexLess(p + x, p + y) == LexLess(x, y)
    decreases |p|
  {
    if p == [] {
      assert p + x == x && p + y == y;
    } else {
      assert (p + x)[1..] == p[1..] + x;
      assert (p + y)[1..] == p[1..] + y;
      LexLessPrefix(p[1..], x, y);
    }
  }

  /** Between equal-length texts the order is decided inside them, whatever
      follows. */
  lemma {:induction false} LexLessAppend(x: string, y: string, e: string, f: string)
    requires |x| == |y| && LexLess(x, y)
    ensures LexLess(x + e, y + f)
    decreases |x|
  {
    if x[0] == y[0] {
      assert (x + e)[1..] == x[1..] + e;
      assert (y + f)[1..] == y[1..] + f;
      LexLessAppend(x[1..], y[1..], e, f);
    }
  }

  /** Three-character texts compare by their first differing character. */
  lemma LexLess3(x0: char, x1: char, x2: char, y0: char, y1: char, y2: char)
    requires x0 < y0 || (x0 == y0 && x1 < y1) || (x0 == y0 && x1 == y1 && x2 < y2)
    ensures LexLess([x0, x1, x2], [y0, y1, y2])
  {
    var x := [x0, x1, x2];
    var y := [y0, y1, y2];
    assert x[1..] == [x1, x2] && y[1..] == [y1, y2];
    assert x[1..][1..] == [x2] && y[1..][1..] == [y2];
    assert x[1..][1..][1..] == [] && y[1..][1..][1..] == [];
  }

  /** Numbers below 1000 compare like their digit triples. */
  lemma DigitTripleOrder(a: nat, b: nat)
    requires a < b < 1000
    ensures a / 100 < b / 100 ||
      (a / 100 == b / 100 && a / 10 % 10 < b / 10 % 10) ||
      (a / 100 == b / 100 && a / 10 % 10 == b / 10 % 10 && a % 10 < b % 10)
  {
    assert a == 100 * (a / 100) + 10 * (a / 10 % 10) + a % 10;
    assert b == 100 * (b / 100) + 10 * (b / 10 % 10) + b % 10;
  }

  /** Padded numbers below 1000 are three characters long and sort like the
      numbers they render. */
  lemma ThreeDigitOrder(a: nat, b: nat)
    requires a < b < 1000
    ensures |ZeroPad3(a)| == 3 && |ZeroPad3(b)| == 3
    ensures LexLess(ZeroPad3(a), ZeroPad3(b))
  {
    ZeroPad3Digits(a);
    ZeroPad3Digits(b);
    DigitTripleOrder(a, b);
    LexLess3(DigitChar(a / 100), DigitChar(a / 10 % 10), DigitChar(a % 10),
             DigitChar(b / 100), DigitChar(b / 10 % 10), DigitChar(b % 10));
  }

  // ---------------------------------------------------------------------
  // Part paths
  // ---------------------------------------------------------------------

  /** The path of part `n` (counted from 1) of `input`. */
  function PartPath(input: string, n: nat): string
  {
    var (root, ext) := SplitExt(input);
    root + ".part" + ZeroPad3(n) + ext
  }

  /** The paths `split_video` writes for `count` parts, in order. */
  function PartPaths(input: string, count: nat): (r: seq<string>)
    ensures |r| == count
    ensures forall i :: 0 <= i < count ==> r[i] == PartPath(input, i + 1)
  {
    seq(count, i requires 0 <= i < count => PartPath(input, i + 1))
  }

  lemma CancelAround(p: string, x: string, y: string, e: string)
    requires p + x + e == p + y + e
    ensures x == y
  {
    assert |x| == |y|;
    assert x == (p + x + e)[|p|..|p| + |x|];
    assert y == (p + y + e)[|p|..|p| + |y|];
  }

  /** Different part numbers give different paths. */
  lemma PartPathInjective(input: string, a: nat, b: nat)
    requires PartPath(input, a) == PartPath(input, b)
    ensures a == b
  {
    var (root, ext) := SplitExt(input);
    CancelAround(root + ".part", ZeroPad3(a), ZeroPad3(b), ext);
    ZeroPad3Injective(a, b);
  }

  /** A part path is never the input path: it is strictly longer. */
  lemma PartPathLonger(input: string, n: nat)
    ensures |PartPath(input, n)| > |input|
  {
  }

  /** The parts of one split are pairwise distinct files, none of them the
      input. */
  lemma PartPathsDistinct(input: string, count: nat)
    ensures forall i, j :: 0 <= i < j < count ==> PartPaths(input, count)[i] != PartPaths(input, count)[j]
    ensures input !in PartPaths(input, count)
  {
    var ps := PartPaths(input, count);
    forall i, j | 0 <= i < j < count ensures ps[i] != ps[j] {
      if ps[i] == ps[j] {
        PartPathInjective(input, i + 1, j + 1);
      }
    }
    forall i | 0 <= i < count ensures ps[i] != input {
      PartPathLonger(input, i + 1);
    }
  }

  /** Up to 999 parts the names sort in part order. */
  lemma PartPathsSorted(input: string, count: nat)
    requires count <= 999
    ensures forall i, j :: 0 <= i < j < count ==> LexLess(PartPaths(input, count)[i], PartPaths(input, count)[j])
  {
    var (root, ext) := SplitExt(input);
    var p := root + ".part";
    forall i, j | 0 <= i < j < count
      ensures LexLess(PartPaths(input, count)[i], PartPaths(input, count)[j])
    {
      ThreeDigitOrder(i + 1, j + 1);
      var x := ZeroPad3(i + 1);
      var y := ZeroPad3(j + 1);
      LexLessAppend(x, y, ext, ext);
      LexLessPrefix(p, x + ext, y + ext);
      assert PartPath(input, i + 1) == p + (x + ext);
      assert PartPath(input, j + 1) == p + (y + ext);
    }
  }

  /** From the thousandth part on the padding no longer keeps the names in
      order: ".part1000" sorts before ".part999". */
  lemma {:induction false} ThousandthPartSortsEarly(input: string)
    ensures LexLess(PartPath(input, 1000), PartPath(input, 999))
  {
    var (root, ext) := SplitExt(input);
    var p := root + ".part";
    var x := ZeroPad3(1000);
    var y := ZeroPad3(999);
    PadLeadingDigits();
    LexLessFirst(x + ext, y + ext);
    assert PartPath(input, 1000) == p + (x + ext);
    assert PartPath(input, 999) == p + (y + ext);
    LexLessPrefix(p, x + ext, y + ext);
  }

  /** The padded forms of 1000 and 999 start with '1' and '9'. */
  lemma PadLeadingDigits()
    ensures ZeroPad3(1000)[0] == '1' && ZeroPad3(999)[0] == '9'
  {
    assert Decimal(10) == ['1', '0'];
    assert Decimal(100) == Decimal(10) + ['0'];
    assert Decimal(1000) == Decimal(100) + ['0'];
    ZeroPad3Digits(999);
  }

  /** Strings whose first characters differ are ordered by them. */
  lemma LexLessFirst(a: string, b: string)
    ensures a != [] && b != [] && a[0] < b[0] ==> LexLess(a, b)
  {
  }
}
