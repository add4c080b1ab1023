/**
 * The names of the files the bot writes: the staged copy of an upload,
 * `./@temp_<Date.now()>_<fileName>`, and the obfuscated output,
 * `./enc_<fileName>`.
 */
module Paths {

  /** The decimal digit for `d`. */
  function Digit(d: nat): (c: char)
    requires d < 10
    ensures '0' <= c <= '9'
  {
    ('0' as int + d) as char
  }

  /** The decimal numeral of `n`, as a template literal renders a millisecond timestamp. */
  function Decimal(n: nat): (s: string)
    ensures |s| >= 1
    ensures forall i :: 0 <= i < |s| ==> '0' <= s[i] <= '9'
    ensures n >= 10 ==> |s| >= 2
  {
    if n < 10 then [Digit(n)] else Decimal(n / 10) + [Digit(n % 10)]
  }

  /** Different timestamps render as different numerals. */
  lemma {:induction false} DecimalIsInjective(a: nat, b: nat)
    requires Decimal(a) == Decimal(b)
    ensures a == b
  {
    var sa, sb := Decimal(a), Decimal(b);
    if a >= 10 && b >= 10 {
      assert sa[|sa| - 1] == Digit(a % 10) && sb[|sb| - 1] == Digit(b % 10);
      assert Decimal(a / 10) == sa[..|sa| - 1] == sb[..|sb| - 1] == Decimal(b / 10);
      DecimalIsInjective(a / 10, b / 10);
    } else if a < 10 && b < 10 {
      assert sa[0] == Digit(a) && sb[0] == Digit(b);
    }
  }

  const TempPrefix: string := "./@temp_"
  const OutPrefix: string := "./enc_"

  /** Where /encinv stages a download (bot.js:72). */
  function TempPath(stagedAt: nat, fileName: string): (p: string)
    ensures |p| >= |TempPrefix| + 2 + |fileName|
  {
    TempPrefix + Decimal(stagedAt) + "_" + fileName
  }

  /** A staged name starts with `./@temp_` and ends with the upload's own name, so its extension survives. */
  lemma TempPathShape(stagedAt: nat, fileName: string)
    ensures var p := TempPath(stagedAt, fileName);
            p[..|TempPrefix|] == TempPrefix && p[|p| - |fileName|..] == fileName
  {
    var p := TempPath(stagedAt, fileName);
    var mid := Decimal(stagedAt) + "_";
    assert p == TempPrefix + (mid + fileName);
  }

  /** Where the obfuscated file is written (bot.js:156). */
  function OutPath(fileName: string): (p: string)
    ensures |p| == |OutPrefix| + |fileName|
    ensures p[..|OutPrefix|] == OutPrefix && p[|OutPrefix|..] == fileName
  {
    OutPrefix + fileName
  }

  /** A staged file and an output file never share a name: they differ in their third character. */
  lemma TempIsNotOut(stagedAt: nat, tempName: string, outName: string)
    ensures TempPath(stagedAt, tempName) != OutPath(outName)
  {
    assert TempPath(stagedAt, tempName)[2] == '@';
    assert OutPath(outName)[2] == 'e';
  }

  /** The index of the first underscore in `s`, or `|s|` when there is none. */
  function FirstUnderscore(s: string): (i: nat)
    ensures i <= |s|
  {
    if s == [] || s[0] == '_' then 0 else 1 + FirstUnderscore(s[1..])
  }

  /** After a run of digits, the first underscore is the one that follows them. */
  lemma {:induction false} FirstUnderscoreAfterDigits(digits: string, rest: string)
    requires forall i :: 0 <= i < |digits| ==> '0' <= digits[i] <= '9'
    ensures FirstUnderscore(digits + "_" + rest) == |digits|
  {
    if digits != [] {
      assert (digits + "_" + rest)[1..] == digits[1..] + "_" + rest;
      FirstUnderscoreAfterDigits(digits[1..], rest);
    }
  }

  /**
   * Two staged files share a name only when both the timestamp and the
   * uploaded file name agree: the numeral has no underscore, so the first
   * underscore after the prefix separates the two.
   */
  lemma TempPathIsInjective(a: nat, f: string, b: nat, g: string)
    requires TempPath(a, f) == TempPath(b, g)
    ensures a == b && f == g
  {
    var p, da, db := TempPath(a, f), Decimal(a), Decimal(b);
    var k := |TempPrefix|;
    var q := p[k..];
    assert q == da + "_" + f == db + "_" + g;
    FirstUnderscoreAfterDigits(da, f);
    FirstUnderscoreAfterDigits(db, g);
    assert da == q[..|da|] == db;
    DecimalIsInjective(a, b);
    assert f == q[|da| + 1..] == g;
  }
}
