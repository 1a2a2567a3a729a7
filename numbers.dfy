/**
 * The number/text conversions of JavaScript that the source relies on:
 * `Number.prototype.toString(radix)` and template interpolation of integers,
 * `parseInt(text, radix)`, and the ToUint16 conversion of `String.fromCharCode`.
 * Numbers are integers here (see README: floating point is not modelled).
 */
module Numbers {
  import opened Results

  /** The character `toString` writes for a digit: `0`-`9`, then lowercase `a`-`z`. */
  function DigitChar(d: nat): (c: char)
    requires d < 36
    ensures DigitValue(c) == Some(d)
  {
    if d < 10 then ('0' as int + d) as char else ('a' as int + d - 10) as char
  }

  /** The radixes JavaScript accepts. */
  type Radix = r: int | 2 <= r <= 36 witness 10

  /** The value `parseInt` gives a digit character, in either case; None for any other character. */
  function DigitValue(c: char): (d: Option<nat>)
    ensures d.Some? ==> d.value < 36
  {
    if '0' <= c <= '9' then Some(c as int - '0' as int)
    else if 'a' <= c <= 'z' then Some(c as int - 'a' as int + 10)
    else if 'A' <= c <= 'Z' then Some(c as int - 'A' as int + 10)
    else None
  }

  /** True when c is a digit of the given radix. */
  predicate IsDigit(c: char, radix: Radix) {
    DigitValue(c).Some? && DigitValue(c).value < radix
  }

  /** True when every character of s is a digit of the given radix. */
  predicate AllDigits(s: string, radix: Radix) {
    forall i :: 0 <= i < |s| ==> IsDigit(s[i], radix)
  }

  /** The value of a string of digits, most significant first. */
  function DigitsValue(s: string, radix: Radix): nat
    requires AllDigits(s, radix)
  {
    if s == [] then 0
    else DigitsValue(s[..|s| - 1], radix) * radix + DigitValue(s[|s| - 1]).value
  }

  /** `n.toString(radix)` for a non-negative integer: lowercase digits, no leading zeros. */
  function ToRadixString(n: nat, radix: Radix): (s: string)
    ensures |s| > 0 && AllDigits(s, radix)
    ensures n < radix <==> |s| == 1
  {
    if n < radix then [DigitChar(n)]
    else
      var q, d := n / radix, n % radix;
      DivMod(n, radix);
      var p := ToRadixString(q, radix);
      DigitsSnoc(p, DigitChar(d), radix);
      p + [DigitChar(d)]
  }

  lemma DivMod(n: nat, radix: Radix)
    ensures (n / radix) * radix + n % radix == n && 0 <= n % radix < radix
    ensures n >= radix ==> 0 <= n / radix < n
  {
  }

  lemma DigitsSnoc(s: string, c: char, radix: Radix)
    requires AllDigits(s, radix) && IsDigit(c, radix)
    ensures AllDigits(s + [c], radix)
  {
    forall i | 0 <= i < |s + [c]| ensures IsDigit((s + [c])[i], radix) {
      if i < |s| {
        assert (s + [c])[i] == s[i];
      }
    }
  }

  /** `${n}` and `String(n)` for an integer: an optional minus sign and its decimal digits. */
  function NumberToString(n: int): string {
    if n < 0 then "-" + ToRadixString(-n, 10) else ToRadixString(n, 10)
  }

  /** The longest prefix of s made of digits of the radix. */
  function DigitPrefix(s: string, radix: Radix): (p: string)
    ensures |p| <= |s| && p == s[..|p|] && AllDigits(p, radix)
    ensures |p| < |s| ==> !IsDigit(s[|p|], radix)
  {
    if s != [] && IsDigit(s[0], radix) then [s[0]] + DigitPrefix(s[1..], radix) else []
  }

  /**
   * `parseInt(s, radix)` for text that has no leading white space: an optional
   * sign, then (for radix 16) an optional `0x` or `0X`, then the longest run of
   * digits. None stands for NaN, which `parseInt` returns when there is no digit.
   */
  function ParseInt(s: string, radix: Radix): Option<int> {
    var negative := |s| > 0 && s[0] == '-';
    var unsigned := if |s| > 0 && (s[0] == '-' || s[0] == '+') then s[1..] else s;
    var body := if radix == 16 && |unsigned| >= 2 && unsigned[0] == '0' && (unsigned[1] == 'x' || unsigned[1] == 'X')
                then unsigned[2..] else unsigned;
    var digits := DigitPrefix(body, radix);
    if digits == [] then None
    else
      var magnitude: int := DigitsValue(digits, radix);
      Some(if negative then -magnitude else magnitude)
  }

  /** ToUint16, which `String.fromCharCode` applies to its argument; also maps -0 to 0. */
  function ToUint16(n: int): (u: int)
    ensures 0 <= u < 0x1_0000
    ensures 0 <= n < 0x1_0000 ==> u == n
  {
    n % 0x1_0000
  }

  lemma DigitsValueSnoc(t: string, d: nat, radix: Radix)
    requires AllDigits(t, radix) && d < radix
    ensures AllDigits(t + [DigitChar(d)], radix)
    ensures DigitsValue(t + [DigitChar(d)], radix) == DigitsValue(t, radix) * radix + d
  {
    var s := t + [DigitChar(d)];
    assert s[..|s| - 1] == t;
  }

  lemma {:induction false} DigitsValueOfRadixString(n: nat, radix: Radix)
    ensures DigitsValue(ToRadixString(n, radix), radix) == n
  {
    if n >= radix {
      var q, r := n / radix, n % radix;
      var t := ToRadixString(q, radix);
      assert ToRadixString(n, radix) == t + [DigitChar(r)];
      DivMod(n, radix);
      assert q < n;
      DigitsValueOfRadixString(q, radix);
      DigitsValueSnoc(t, r, radix);
      assert DigitsValue(t + [DigitChar(r)], radix) == q * radix + r;
    }
  }

  lemma {:induction false} DigitPrefixOfDigits(s: string, radix: Radix)
    requires AllDigits(s, radix)
    ensures DigitPrefix(s, radix) == s
  {
    if s != [] {
      DigitPrefixOfDigits(s[1..], radix);
    }
  }

  /** `parseInt(n.toString(radix), radix)` gives n back, for every radix. */
  lemma ParseRadixString(n: nat, radix: Radix)
    ensures ParseInt(ToRadixString(n, radix), radix) == Some(n)
  {
    var s := ToRadixString(n, radix);
    DigitPrefixOfDigits(s, radix);
    DigitsValueOfRadixString(n, radix);
    assert s[0] != '-' && s[0] != '+' by { assert IsDigit(s[0], radix); }
    if radix == 16 && |s| >= 2 {
      assert s[1] != 'x' && s[1] != 'X' by { assert IsDigit(s[1], radix); }
    }
    assert ParseInt(s, radix) == Some(DigitsValue(DigitPrefix(s, radix), radix));
  }

  /** `parseInt(String(n), 10)` gives n back: decimal rendering is invertible. */
  lemma ParseNumberToString(n: int)
    ensures ParseInt(NumberToString(n), 10) == Some(n)
  {
    if n < 0 {
      var s := ToRadixString(-n, 10);
      assert ("-" + s)[1..] == s;
      ParseRadixString(-n, 10);
    } else {
      ParseRadixString(n, 10);
    }
  }
}
