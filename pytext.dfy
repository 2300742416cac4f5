/**
 * The pieces of Python's `str` and `os.path` behaviour the engine relies on:
 * decimal rendering and `zfill`, ASCII lower-casing, `find`/`rfind`,
 * `replace`, `os.path.splitext` and `os.path.join`. The platform separator
 * (`os.path.sep`) is always an explicit parameter.
 */
module PyText {

  predicate IsDigit(c: char) { '0' <= c <= '9' }

  predicate AllDigits(s: string) { forall i :: 0 <= i < |s| ==> IsDigit(s[i]) }

  predicate IsAsciiLetter(c: char) { 'A' <= c <= 'Z' || 'a' <= c <= 'z' }

  function DigitChar(d: nat): (c: char)
    requires d < 10
    ensures IsDigit(c)
  {
    ('0' as int + d) as char
  }

  function Pow10(k: nat): (p: nat)
    ensures p >= 1
  {
    if k == 0 then 1 else 10 * Pow10(k - 1)
  }

  /** Python's `str(n)` for a non-negative integer: no leading zero unless n is 0. */
  function Digits(n: nat): (s: string)
    ensures |s| >= 1 && AllDigits(s)
    ensures s[0] == '0' ==> n == 0
    decreases n
  {
    if n < 10 then [DigitChar(n)] else Digits(n / 10) + [DigitChar(n % 10)]
  }

  /** The number a string of decimal digits denotes (leading zeros allowed). */
  function Value(s: string): nat
    requires AllDigits(s)
  {
    if s == [] then 0 else 10 * Value(s[..|s| - 1]) + (s[|s| - 1] as int - '0' as int)
  }

  /** Python's `str(n)` for any integer. */
  function IntToString(n: int): string
  {
    if n < 0 then "-" + Digits(-n) else Digits(n)
  }

  function Zeros(k: nat): (s: string)
    ensures |s| == k && AllDigits(s)
    ensures forall i :: 0 <= i < k ==> s[i] == '0'
  {
    seq(k, _ => '0')
  }

  /** Python's `str(n).zfill(width)` for a non-negative integer. */
  function ZFill(n: nat, width: nat): (s: string)
    ensures AllDigits(s)
    ensures |s| == if |Digits(n)| < width then width else |Digits(n)|
  {
    var d := Digits(n);
    (if |d| < width then Zeros(width - |d|) else []) + d
  }

  /** Reading back the decimal rendering gives the number. */
  lemma {:induction false} ValueOfDigits(n: nat)
    ensures Value(Digits(n)) == n
    decreases n
  {
    if n >= 10 {
      var s := Digits(n);
      assert s[..|s| - 1] == Digits(n / 10);
      ValueOfDigits(n / 10);
    }
  }

  lemma {:induction false} ValueOfZeros(k: nat)
    ensures Value(Zeros(k)) == 0
  {
    if k > 0 {
      assert Zeros(k)[..k - 1] == Zeros(k - 1);
      ValueOfZeros(k - 1);
    }
  }

  /** Leading zeros do not change the value of a digit string. */
  lemma {:induction false} ValueIgnoresLeadingZeros(k: nat, s: string)
    requires AllDigits(s)
    ensures AllDigits(Zeros(k) + s) && Value(Zeros(k) + s) == Value(s)
    decreases |s|
  {
    var z := Zeros(k) + s;
    assert AllDigits(z);
    if s == [] {
      assert z == Zeros(k);
      ValueOfZeros(k);
    } else {
      assert z[..|z| - 1] == Zeros(k) + s[..|s| - 1];
      ValueIgnoresLeadingZeros(k, s[..|s| - 1]);
    }
  }

  /** `zfill` padding never changes the number a rendering denotes. */
  lemma ZFillValue(n: nat, width: nat)
    ensures Value(ZFill(n, width)) == n
  {
    var d := Digits(n);
    ValueOfDigits(n);
    if |d| < width {
      ValueIgnoresLeadingZeros(width - |d|, d);
    } else {
      assert ZFill(n, width) == d;
    }
  }

  /** Distinct numbers have distinct `zfill` renderings. */
  lemma ZFillInjective(a: nat, b: nat, width: nat)
    requires ZFill(a, width) == ZFill(b, width)
    ensures a == b
  {
    ZFillValue(a, width);
    ZFillValue(b, width);
  }

  /** A number below 10^w has at most w digits. */
  lemma {:induction false} DigitsLength(n: nat, w: nat)
    requires w >= 1 && n < Pow10(w)
    ensures |Digits(n)| <= w
    decreases n
  {
    if n >= 10 {
      assert w >= 2;
      assert n / 10 < Pow10(w - 1);
      DigitsLength(n / 10, w - 1);
    }
  }

  /** With a number below 10^width, `zfill(width)` renders exactly `width` digits. */
  lemma ZFillExactWidth(n: nat, width: nat)
    requires width >= 1 && n < Pow10(width)
    ensures |ZFill(n, width)| == width
  {
    DigitsLength(n, width);
  }

  function LowerChar(c: char): char
  {
    if 'A' <= c <= 'Z' then (c as int - 'A' as int + 'a' as int) as char else c
  }

  /** Python's `str.lower()` restricted to ASCII letters. */
  function Lower(s: string): (r: string)
    ensures |r| == |s| && forall i :: 0 <= i < |s| ==> r[i] == LowerChar(s[i])
  {
    seq(|s|, i requires 0 <= i < |s| => LowerChar(s[i]))
  }

  /** Python's `s.rfind(c)`: the last index holding c, or -1. */
  function RFind(s: string, c: char): (r: int)
    ensures -1 <= r < |s|
    ensures r >= 0 ==> s[r] == c
    ensures forall i :: r < i < |s| ==> s[i] != c
  {
    if s == [] then -1
    else if s[|s| - 1] == c then |s| - 1
    else RFind(s[..|s| - 1], c)
  }

  /** Python's `s.find(c)`: the first index holding c, or -1. */
  function Find(s: string, c: char): (r: int)
    ensures -1 <= r < |s|
    ensures r >= 0 ==> s[r] == c
    ensures forall i :: 0 <= i < |s| && (r < 0 || i < r) ==> s[i] != c
  {
    if s == [] then -1
    else if s[0] == c then 0
    else
      var k := Find(s[1..], c);
      if k < 0 then -1 else k + 1
  }

  /** Whether `pat` occurs in `s` starting at index i. */
  predicate OccursAt(s: string, pat: string, i: int)
  {
    0 <= i <= |s| - |pat| && s[i..i + |pat|] == pat
  }

  /** Whether `pat` occurs in `s` as a contiguous piece. */
  ghost predicate Occurs(s: string, pat: string)
  {
    exists i :: OccursAt(s, pat, i)
  }

  /** Python's `s.replace(pat, repl)` for a non-empty pattern: left to right, without overlaps. */
  function ReplaceAll(s: string, pat: string, repl: string): string
    requires |pat| > 0
    decreases |s|
  {
    if |s| < |pat| then s
    else if s[..|pat|] == pat then repl + ReplaceAll(s[|pat|..], pat, repl)
    else [s[0]] + ReplaceAll(s[1..], pat, repl)
  }

  /** Replacing a pattern that does not occur changes nothing. */
  lemma {:induction false} ReplaceAbsent(s: string, pat: string, repl: string)
    requires |pat| > 0 && !Occurs(s, pat)
    ensures ReplaceAll(s, pat, repl) == s
    decreases |s|
  {
    if |s| >= |pat| {
      assert !OccursAt(s, pat, 0);
      assert s[0..|pat|] == s[..|pat|];
      forall i | OccursAt(s[1..], pat, i)
        ensures OccursAt(s, pat, i + 1)
      {
        assert s[1..][i..i + |pat|] == s[i + 1..i + 1 + |pat|];
      }
      ReplaceAbsent(s[1..], pat, repl);
    }
  }

  /** Replacing one character by another maps every position independently. */
  lemma {:induction false} ReplaceCharPointwise(s: string, c: char, d: char)
    ensures |ReplaceAll(s, [c], [d])| == |s|
    ensures forall i :: 0 <= i < |s| ==> ReplaceAll(s, [c], [d])[i] == (if s[i] == c then d else s[i])
    decreases |s|
  {
    if |s| >= 1 {
      ReplaceCharPointwise(s[1..], c, d);
      assert s[..1] == [s[0]];
    }
  }

  /**
   * Python's `os.path.splitext(p)`: the extension starts at the last dot of
   * the final path component, provided some character before that dot in
   * the component is not a dot (so `.jpg` has no extension).
   */
  function SplitExt(p: string, sep: char): (r: (string, string))
    ensures r.0 + r.1 == p
    ensures r.1 == [] || (r.1[0] == '.' && '.' !in r.1[1..] && sep !in r.1)
  {
    var sepIndex := RFind(p, sep);
    var dotIndex := RFind(p, '.');
    if dotIndex > sepIndex && exists i :: sepIndex < i < dotIndex && p[i] != '.' then
      (p[..dotIndex], p[dotIndex..])
    else
      (p, [])
  }

  /** Index d holds the last dot of p, and no separator follows it: the dot is in the final component. */
  predicate LastDotAt(p: string, d: int, sep: char)
  {
    0 <= d < |p| && p[d] == '.' && forall j :: d < j < |p| ==> p[j] != '.' && p[j] != sep
  }

  /** Some character other than a dot precedes index d within the final component. */
  ghost predicate StemBefore(p: string, d: int, sep: char)
    requires 0 <= d < |p|
  {
    exists i :: 0 <= i < d && p[i] != '.' && forall j :: i <= j <= d ==> p[j] != sep
  }

  /**
   * `splitext` has an extension exactly when the last dot of the final
   * component follows some other character of that component, and the
   * extension then starts at that dot. So `.jpg` and `..jpg` have none, and a
   * dot in a directory name never starts one.
   */
  lemma SplitExtRule(p: string, sep: char)
    ensures SplitExt(p, sep).1 != [] <==> exists d :: LastDotAt(p, d, sep) && StemBefore(p, d, sep)
    ensures forall d :: LastDotAt(p, d, sep) && StemBefore(p, d, sep) ==> SplitExt(p, sep) == (p[..d], p[d..])
  {
    var s, t := RFind(p, sep), RFind(p, '.');
    if SplitExt(p, sep).1 != [] {
      var i :| s < i < t && p[i] != '.';
      assert LastDotAt(p, t, sep);
      assert StemBefore(p, t, sep);
    }
    forall d | LastDotAt(p, d, sep) && StemBefore(p, d, sep)
      ensures SplitExt(p, sep) == (p[..d], p[d..])
    {
      var i :| 0 <= i < d && p[i] != '.' && forall j :: i <= j <= d ==> p[j] != sep;
      assert t == d;
      assert s < i;
    }
  }

  /** `splitext` of a stem without dots or separators and a dotted extension without them. */
  lemma SplitSample(stem: string, ext: string, sep: char)
    requires |stem| > 0 && '.' !in stem && sep !in stem && sep != '.'
    requires |ext| > 0 && ext[0] == '.' && '.' !in ext[1..] && sep !in ext
    ensures SplitExt(stem + ext, sep) == (stem, ext)
  {
    var p := stem + ext;
    assert p[|stem|] == '.';
    assert forall i :: |stem| < i < |p| ==> p[i] == ext[i - |stem|] && ext[i - |stem|] in ext[1..];
    assert RFind(p, '.') == |stem|;
    assert RFind(p, sep) == -1;
    assert p[0] == stem[0] != '.';
  }

  /** Python's `os.path.join(a, b)` with a single separator character. */
  function Join(a: string, b: string, sep: char): string
  {
    if |b| > 0 && b[0] == sep then b
    else if a == [] || a[|a| - 1] == sep then a + b
    else a + [sep] + b
  }
}
