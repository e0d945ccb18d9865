/** Values shared by every module of the model: optional values, results,
    string prefixes and suffixes, and JavaScript's decimal rendering and
    parsing of integers. */
module Common {

  datatype Option<T> = None | Some(value: T)

  datatype Result<T, E> = Ok(value: T) | Err(error: E)

  /** `s.startsWith(p)` */
  predicate StartsWith(s: string, p: string) {
    |p| <= |s| && s[..|p|] == p
  }

  /** `s.endsWith(p)`, which is also what an anchored `p$` regex tests for a literal `p` */
  predicate EndsWith(s: string, p: string) {
    |p| <= |s| && s[|s| - |p|..] == p
  }

  /** A string that starts with `p + q` also starts with `p`. */
  lemma StartsWithConcat(s: string, p: string, q: string)
    requires StartsWith(s, p + q)
    ensures StartsWith(s, p)
  {
    assert s[..|p|] == (s[..|p + q|])[..|p|];
  }

  /** A string that differs from `p` at a position both have does not start with `p`. */
  lemma NotStartsWith(s: string, p: string, i: nat)
    requires i < |p| && i < |s| && s[i] != p[i]
    ensures !StartsWith(s, p)
  {
    if |p| <= |s| {
      assert s[..|p|][i] == s[i];
    }
  }

  /** The decimal digit character for `d`. */
  function DigitChar(d: nat): (c: char)
    requires d < 10
    ensures '0' <= c <= '9'
  {
    ('0' as int + d) as char
  }

  /** The decimal rendering of a non-negative integer, most significant digit
      first and without leading zeros (what `String(n)` gives in JavaScript for
      the safe integers). */
  function NatToDecimal(n: nat): (s: string)
    decreases n
  {
    if n < 10 then [DigitChar(n)] else NatToDecimal(n / 10) + [DigitChar(n % 10)]
  }

  /** The decimal rendering of an integer, with a leading `-` when negative;
      this is the `${n}` of a template literal. */
  function IntToDecimal(n: int): (d: string)
    ensures |d| >= 1
    ensures d[0] == '-' <==> n < 0
    ensures forall i :: 0 < i < |d| ==> '0' <= d[i] <= '9'
  {
    if n < 0 then
      NatToDecimalShape(-n);
      "-" + NatToDecimal(-n)
    else
      NatToDecimalShape(n);
      NatToDecimal(n)
  }

  lemma {:induction false} NatToDecimalShape(n: nat)
    ensures |NatToDecimal(n)| >= 1
    ensures forall i :: 0 <= i < |NatToDecimal(n)| ==> '0' <= NatToDecimal(n)[i] <= '9'
    ensures n >= 10 ==> NatToDecimal(n)[0] != '0'
    decreases n
  {
    if n >= 10 {
      NatToDecimalShape(n / 10);
      var s := NatToDecimal(n / 10);
      assert NatToDecimal(n) == s + [DigitChar(n % 10)];
      assert NatToDecimal(n)[0] == s[0];
      if n / 10 < 10 {
        assert s == [DigitChar(n / 10)];
      }
    }
  }

  /** The value of a digit character in `radix` (10 or 16), or -1 when it is not one. */
  function DigitValue(c: char, radix: nat): (v: int)
    ensures v >= 0 ==> v < radix && v < 16
  {
    if '0' <= c <= '9' && (c as int - '0' as int) < radix then c as int - '0' as int
    else if radix == 16 && 'a' <= c <= 'f' then c as int - 'a' as int + 10
    else if radix == 16 && 'A' <= c <= 'F' then c as int - 'A' as int + 10
    else -1
  }

  predicate AllDigits(s: string, radix: nat) {
    forall i :: 0 <= i < |s| ==> DigitValue(s[i], radix) >= 0
  }

  /** The length of the longest prefix of `s` made of digits of `radix`. */
  function DigitPrefixLength(s: string, radix: nat): (n: nat)
    ensures n <= |s|
    ensures AllDigits(s[..n], radix)
    ensures n < |s| ==> DigitValue(s[n], radix) < 0
    decreases |s|
  {
    if |s| == 0 || DigitValue(s[0], radix) < 0 then 0
    else
      var n := 1 + DigitPrefixLength(s[1..], radix);
      assert s[..n] == [s[0]] + s[1..][..n - 1];
      n
  }

  /** The digit prefix ends where the first non-digit is. */
  lemma DigitPrefixAt(s: string, radix: nat, k: nat)
    requires k <= |s| && AllDigits(s[..k], radix)
    requires k < |s| ==> DigitValue(s[k], radix) < 0
    ensures DigitPrefixLength(s, radix) == k
  {
    var n := DigitPrefixLength(s, radix);
    forall i | 0 <= i < k ensures DigitValue(s[i], radix) >= 0 {
      assert s[..k][i] == s[i];
    }
    forall i | 0 <= i < n ensures DigitValue(s[i], radix) >= 0 {
      assert s[..n][i] == s[i];
    }
  }

  /** The number a string of digits denotes in `radix`. */
  function DigitsValue(s: string, radix: nat): nat
    requires AllDigits(s, radix)
    decreases |s|
  {
    if |s| == 0 then 0
    else
      assert AllDigits(s[..|s| - 1], radix);
      DigitsValue(s[..|s| - 1], radix) * radix + DigitValue(s[|s| - 1], radix)
  }

  /** JavaScript's white space and line terminators, which `parseInt` skips. */
  predicate IsJsSpace(c: char) {
    c == '\t' || c == '\n' || c == '\r' || c == ' '
    || c == '\U{000B}' || c == '\U{000C}' || c == '\U{00A0}' || c == '\U{1680}'
    || ('\U{2000}' <= c <= '\U{200A}')
    || c == '\U{2028}' || c == '\U{2029}' || c == '\U{202F}' || c == '\U{205F}'
    || c == '\U{3000}' || c == '\U{FEFF}'
  }

  function TrimStart(s: string): (t: string)
    ensures |t| <= |s| && t == s[|s| - |t|..]
    ensures |t| > 0 ==> !IsJsSpace(t[0])
    decreases |s|
  {
    if |s| > 0 && IsJsSpace(s[0]) then TrimStart(s[1..]) else s
  }

  /** The unsigned part of `parseInt`: a `0x`/`0X` prefix selects hexadecimal,
      and the longest run of digits that follows gives the value; no digit at
      all gives NaN, here `None`. */
  function ParseUnsigned(u: string): Option<int> {
    var hex := |u| >= 2 && u[0] == '0' && (u[1] == 'x' || u[1] == 'X');
    var radix := if hex then 16 else 10;
    var digits := if hex then u[2..] else u;
    var n := DigitPrefixLength(digits, radix);
    if n == 0 then None else Some(DigitsValue(digits[..n], radix))
  }

  /** `parseInt(s)` with no radix argument: leading white space is skipped and
      an optional sign is read before the unsigned part. */
  function ParseInt(s: string): (r: Option<int>)
    ensures r.Some? ==> |TrimStart(s)| > 0
    ensures r.Some? && r.value < 0 ==> TrimStart(s)[0] == '-'
  {
    var t := TrimStart(s);
    if |t| > 0 && t[0] == '-' then
      match ParseUnsigned(t[1..])
      case None => None
      case Some(v) => Some(-v)
    else if |t| > 0 && t[0] == '+' then ParseUnsigned(t[1..])
    else ParseUnsigned(t)
  }

  lemma {:induction false} DigitsOfNatToDecimal(n: nat)
    ensures AllDigits(NatToDecimal(n), 10)
    ensures DigitsValue(NatToDecimal(n), 10) == n
    decreases n
  {
    var s := NatToDecimal(n);
    if n < 10 {
      assert s[..|s| - 1] == [];
    } else {
      DigitsOfNatToDecimal(n / 10);
      assert s[..|s| - 1] == NatToDecimal(n / 10);
    }
  }

  /** The decimal rendering of a natural number parses back to it. */
  lemma ParseUnsignedOfDecimal(m: nat)
    ensures ParseUnsigned(NatToDecimal(m)) == Some(m)
  {
    var d := NatToDecimal(m);
    NatToDecimalShape(m);
    DigitsOfNatToDecimal(m);
    assert !(|d| >= 2 && d[0] == '0');
    AllDigitsPrefix(d, 10);
    assert d[..|d|] == d;
  }

  /** `parseInt(String(n))` gives `n` back for every integer `n`. */
  lemma ParseIntOfDecimal(n: int)
    ensures ParseInt(IntToDecimal(n)) == Some(n)
  {
    if n < 0 {
      ParseIntOfNegative(-n);
    } else {
      ParseIntOfNatural(n);
    }
  }

  lemma ParseIntOfNatural(m: nat)
    ensures ParseInt(NatToDecimal(m)) == Some(m)
  {
    var d := NatToDecimal(m);
    FirstDigit(m);
    TrimStartNoSpace(d);
    ParseUnsignedOfDecimal(m);
  }

  lemma ParseIntOfNegative(m: nat)
    requires m > 0
    ensures ParseInt("-" + NatToDecimal(m)) == Some(-(m as int))
  {
    var s := "-" + NatToDecimal(m);
    TrimStartNoSpace(s);
    assert s[1..] == NatToDecimal(m);
    ParseUnsignedOfDecimal(m);
  }

  lemma FirstDigit(m: nat)
    ensures |NatToDecimal(m)| > 0 && '0' <= NatToDecimal(m)[0] <= '9'
  {
    NatToDecimalShape(m);
  }

  lemma TrimStartNoSpace(s: string)
    requires |s| > 0 && !IsJsSpace(s[0])
    ensures TrimStart(s) == s
  {
  }

  /** A string made of digits is its own longest digit prefix. */
  lemma {:induction false} AllDigitsPrefix(s: string, radix: nat)
    requires AllDigits(s, radix)
    ensures DigitPrefixLength(s, radix) == |s|
    decreases |s|
  {
    if |s| > 0 {
      assert AllDigits(s[1..], radix) by {
        forall i | 0 <= i < |s[1..]| ensures DigitValue(s[1..][i], radix) >= 0 {
          assert s[1..][i] == s[i + 1];
        }
      }
      AllDigitsPrefix(s[1..], radix);
    }
  }
}
