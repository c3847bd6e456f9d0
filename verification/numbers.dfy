/**
 * Integer to text and back: JavaScript's rendering of an integral number in
 * a template literal (`${n}`) and the global `parseInt` with no radix.
 */
module Numbers {
  import opened Optional
  import opened Text

  /** The decimal digit character for `d`. */
  function DigitChar(d: nat): (c: char)
    requires d < 10
    ensures '0' <= c <= '9'
  {
    (48 + d) as char
  }

  /** The value of a digit character in bases up to 16 (`0-9`, `a-f`, `A-F`), 16 or more otherwise. */
  function DigitValue(c: char): (v: nat)
    ensures '0' <= c <= '9' ==> v == c as int - 48
  {
    if '0' <= c <= '9' then c as int - 48
    else if 'a' <= c <= 'f' then c as int - 87
    else if 'A' <= c <= 'F' then c as int - 55
    else 16
  }

  /** True when `c` is a digit of base `radix`. */
  predicate IsDigitIn(c: char, radix: nat) {
    DigitValue(c) < radix
  }

  /** Decimal rendering of a natural number, without leading zeros. */
  function NatToString(n: nat): (r: string)
    ensures |r| >= 1
    ensures forall i :: 0 <= i < |r| ==> '0' <= r[i] <= '9'
  {
    if n < 10 then [DigitChar(n)] else NatToString(n / 10) + [DigitChar(n % 10)]
  }

  /** Decimal rendering of an integer, with a leading `-` when negative. */
  function IntToString(n: int): (r: string)
    ensures |r| >= 1
  {
    if n < 0 then "-" + NatToString(-n) else NatToString(n)
  }

  /** The longest prefix of `s` made of base-`radix` digits. */
  function DigitPrefix(s: string, radix: nat): (r: string)
    ensures r <= s
    ensures forall i :: 0 <= i < |r| ==> IsDigitIn(r[i], radix)
    ensures |r| == |s| || !IsDigitIn(s[|r|], radix)
  {
    if |s| > 0 && IsDigitIn(s[0], radix) then [s[0]] + DigitPrefix(s[1..], radix) else []
  }

  /** The number that a string of base-`radix` digits denotes. */
  function DigitsValue(ds: string, radix: nat): nat {
    if |ds| == 0 then 0 else DigitsValue(ds[..|ds| - 1], radix) * radix + DigitValue(ds[|ds| - 1])
  }

  /**
   * JavaScript `parseInt(s)`: skip leading whitespace, read an optional sign,
   * switch to base 16 after a `0x` or `0X` prefix, then read the longest run of
   * digits. `None` stands for `NaN` (no digit at all). `-0` reads as `0`,
   * which is what `===` sees.
   */
  function ParseInt(s: string): Option<int> {
    var t := TrimStart(s);
    var negative := |t| > 0 && t[0] == '-';
    var u := if |t| > 0 && (t[0] == '-' || t[0] == '+') then t[1..] else t;
    match ParseMagnitude(u)
    case None => None
    case Some(m) =>
      var magnitude: int := m;
      Some(if negative then -magnitude else magnitude)
  }

  /** The unsigned part of `parseInt`: radix prefix, then the longest run of digits. */
  function ParseMagnitude(u: string): Option<nat> {
    var hex := |u| >= 2 && u[0] == '0' && (u[1] == 'x' || u[1] == 'X');
    var radix := if hex then 16 else 10;
    var digits := DigitPrefix(if hex then u[2..] else u, radix);
    if |digits| == 0 then None else Some(DigitsValue(digits, radix))
  }

  /** A rendering starts with `0` only for zero itself. */
  lemma {:induction false} NatToStringLeadingZero(n: nat)
    ensures NatToString(n)[0] == '0' ==> n == 0
  {
    if n >= 10 {
      NatToStringLeadingZero(n / 10);
      assert NatToString(n)[0] == NatToString(n / 10)[0];
    }
  }

  /** Reading back a rendering gives the number rendered. */
  lemma {:induction false} DigitsValueOfNatToString(n: nat)
    ensures DigitsValue(NatToString(n), 10) == n
  {
    var r := NatToString(n);
    if n >= 10 {
      var head := NatToString(n / 10);
      assert r[..|r| - 1] == head;
      DigitsValueOfNatToString(n / 10);
    }
  }

  /** A string made only of decimal digits is its own longest digit prefix. */
  lemma {:induction false} DigitPrefixOfDigits(s: string)
    requires forall i :: 0 <= i < |s| ==> '0' <= s[i] <= '9'
    ensures DigitPrefix(s, 10) == s
  {
    if |s| > 0 {
      DigitPrefixOfDigits(s[1..]);
    }
  }

  /** The unsigned reader reads a rendering back. */
  lemma {:induction false} ParseMagnitudeRoundTrip(m: nat)
    ensures ParseMagnitude(NatToString(m)) == Some(m)
  {
    NatToStringLeadingZero(m);
    DigitPrefixOfDigits(NatToString(m));
    DigitsValueOfNatToString(m);
  }

  /** `parseInt(String(n)) === n` for every integer `n`. */
  lemma ParseIntRoundTrip(n: int)
    ensures ParseInt(IntToString(n)) == Some(n)
  {
    var m := if n < 0 then -n else n;
    var digits := NatToString(m);
    ParseMagnitudeRoundTrip(m);
    var s := IntToString(n);
    SignOrDigitNotWhitespace(s[0]);
    TrimStartKeeps(s);
    if n < 0 {
      assert s == "-" + digits;
      assert s[1..] == digits;
    } else {
      assert s == digits;
    }
  }

  /** A minus sign or a decimal digit is not whitespace. */
  lemma SignOrDigitNotWhitespace(c: char)
    requires c == '-' || '0' <= c <= '9'
    ensures !IsWhitespace(c)
  {
  }

  /** A text that does not start with whitespace has nothing to trim at its start. */
  lemma TrimStartKeeps(s: string)
    requires |s| > 0 && !IsWhitespace(s[0])
    ensures TrimStart(s) == s
  {
  }

  /** Rendering is injective: distinct integers never render to the same text. */
  lemma IntToStringInjective(a: int, b: int)
    ensures IntToString(a) == IntToString(b) <==> a == b
  {
    if IntToString(a) == IntToString(b) {
      ParseIntRoundTrip(a);
      ParseIntRoundTrip(b);
    }
  }
}
