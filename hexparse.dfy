/**
 * Go's `strconv.ParseInt(s, 16, 32)`, the only way the emoji parser turns a
 * token into a code point: an optional `+` or `-`, then one or more hex
 * digits of either case, no prefix and no underscores, and a value that fits
 * a signed 32-bit integer.
 */
module HexParse {
  import opened Wrappers

  const MinInt32: int := -0x8000_0000
  const MaxInt32: int := 0x7FFF_FFFF
  const MaxUint32: int := 0xFFFF_FFFF

  /** Go's `int32`, which is also Go's `rune`. */
  type Int32 = x: int | MinInt32 <= x <= MaxInt32

  /** The two causes `strconv` reports: `ErrSyntax` and `ErrRange`. */
  datatype NumError = ErrSyntax | ErrRange

  predicate IsHexDigit(c: char)
  {
    '0' <= c <= '9' || 'a' <= c <= 'f' || 'A' <= c <= 'F'
  }

  function DigitValue(c: char): (d: nat)
    requires IsHexDigit(c)
    ensures d < 16
  {
    if '0' <= c <= '9' then c as int - '0' as int
    else if 'a' <= c <= 'f' then c as int - 'a' as int + 10
    else c as int - 'A' as int + 10
  }

  predicate AllHex(s: string)
  {
    forall k | 0 <= k < |s| :: IsHexDigit(s[k])
  }

  /** The reference meaning of a string of hex digits: its value in base 16. */
  function HexValue(s: string): nat
    requires AllHex(s)
  {
    if s == [] then 0 else HexValue(s[..|s| - 1]) * 16 + DigitValue(s[|s| - 1])
  }

  /** The digit loop of `ParseUint(s, 16, 32)`, from position `i` with the value
      `n` read so far: a bad digit is a syntax error, a value beyond 32 bits a
      range error, whichever the scan meets first. */
  function ScanDigits(s: string, i: nat, n: nat): Result<nat, NumError>
    requires i <= |s|
    decreases |s| - i
  {
    if i == |s| then Success(n)
    else if !IsHexDigit(s[i]) then Failure(ErrSyntax)
    else if n * 16 + DigitValue(s[i]) > MaxUint32 then Failure(ErrRange)
    else ScanDigits(s, i + 1, n * 16 + DigitValue(s[i]))
  }

  /** `strconv.ParseUint(s, 16, 32)`. */
  function ParseUint32(s: string): Result<nat, NumError>
  {
    if s == "" then Failure(ErrSyntax) else ScanDigits(s, 0, 0)
  }

  /** The digits of `s` once a leading sign is taken off. */
  function Unsigned(s: string): string
  {
    if |s| > 0 && (s[0] == '+' || s[0] == '-') then s[1..] else s
  }

  /** `strconv.ParseInt(s, 16, 32)`. A range error from `ParseUint` stays a
      range error (Go then compares the saturated value with the signed cutoff). */
  function ParseHex32(s: string): Result<Int32, NumError>
  {
    if s == "" then Failure(ErrSyntax)
    else
      var neg := s[0] == '-';
      match ParseUint32(Unsigned(s))
      case Failure(e) => Failure(e)
      case Success(un) =>
        if !neg && un > MaxInt32 then Failure(ErrRange)
        else if neg && un > -MinInt32 then Failure(ErrRange)
        else
          var u: int := un;
          Success(if neg then -u else u)
  }

  /** A sign (optional) followed by at least one hex digit. */
  predicate WellFormedHex(s: string)
  {
    |Unsigned(s)| > 0 && AllHex(Unsigned(s))
  }

  /** The reference value of a well-formed token. */
  function SignedValue(s: string): int
    requires WellFormedHex(s)
  {
    var v: int := HexValue(Unsigned(s));
    if s[0] == '-' then -v else v
  }

  /** The value of a prefix of a digit string is at most the value of the whole. */
  lemma {:induction false} HexValuePrefix(s: string, j: nat)
    requires AllHex(s) && j <= |s|
    ensures AllHex(s[..j]) && HexValue(s[..j]) <= HexValue(s)
    decreases |s|
  {
    if j < |s| {
      var init := s[..|s| - 1];
      HexValuePrefix(init, j);
      assert init[..j] == s[..j];
    } else {
      assert s[..j] == s;
    }
  }

  /** Appending one digit multiplies by 16 and adds it. */
  lemma HexValueSnoc(s: string, i: nat)
    requires i < |s| && AllHex(s[..i + 1])
    ensures AllHex(s[..i]) && HexValue(s[..i + 1]) == HexValue(s[..i]) * 16 + DigitValue(s[i])
  {
    assert s[..i + 1][..i] == s[..i];
  }

  /** Position `k` holds the first non-digit of `s`, and the digits before it
      still fit 32 bits: the digit loop stops there with a syntax error. */
  predicate SyntaxStop(s: string, k: int)
  {
    0 <= k < |s| && !IsHexDigit(s[k]) && AllHex(s[..k]) && HexValue(s[..k]) <= MaxUint32
  }

  /** What the digit loop computes, against `HexValue`: it succeeds exactly on
      all-hex input whose value fits 32 bits, with that value; it fails for
      syntax exactly when a bad digit comes before any overflow; and otherwise
      it fails for range. */
  lemma {:induction false} ScanDigitsMeaning(s: string, i: nat)
    requires i <= |s| && AllHex(s[..i]) && HexValue(s[..i]) <= MaxUint32
    ensures var r := ScanDigits(s, i, HexValue(s[..i]));
      && (r.Success? <==> AllHex(s) && HexValue(s) <= MaxUint32)
      && (r.Success? ==> AllHex(s) && r.value == HexValue(s))
      && (AllHex(s) && r.Failure? ==> r.error == ErrRange)
      && (r == Failure(ErrSyntax) <==> exists k | i <= k < |s| :: SyntaxStop(s, k))
    decreases |s| - i
  {
    var n := HexValue(s[..i]);
    if i == |s| {
      assert s[..i] == s;
    } else if !IsHexDigit(s[i]) {
      assert SyntaxStop(s, i);
      forall k | i < k < |s| ensures !AllHex(s[..k]) {
        assert s[..k][i] == s[i];
      }
    } else {
      assert AllHex(s[..i + 1]) by {
        forall k | 0 <= k < i + 1 ensures IsHexDigit(s[k]) {
          if k < i { assert s[..i][k] == s[k]; }
        }
      }
      HexValueSnoc(s, i);
      if n * 16 + DigitValue(s[i]) <= MaxUint32 {
        ScanDigitsMeaning(s, i + 1);
      } else {
        if AllHex(s) {
          HexValuePrefix(s, i + 1);
        }
        forall k | i < k < |s| && AllHex(s[..k]) ensures HexValue(s[..k]) > MaxUint32 {
          HexValuePrefix(s[..k], i + 1);
          assert s[..k][..i + 1] == s[..i + 1];
        }
        assert !SyntaxStop(s, i);
      }
    }
  }

  /** `ParseHex32` against the reference definition: it succeeds exactly on a
      well-formed token whose signed value fits 32 bits and then returns that
      value; a token without digits is a syntax error, and a well-formed token
      can only fail for range. */
  lemma ParseHex32Meaning(s: string)
    ensures ParseHex32(s).Success? <==> WellFormedHex(s) && MinInt32 <= SignedValue(s) <= MaxInt32
    ensures ParseHex32(s).Success? ==> ParseHex32(s).value == SignedValue(s)
    ensures Unsigned(s) == "" ==> ParseHex32(s) == Failure(ErrSyntax)
    ensures WellFormedHex(s) && ParseHex32(s).Failure? ==> ParseHex32(s).error == ErrRange
  {
    var u := Unsigned(s);
    if u != "" {
      assert u[..0] == "";
      ScanDigitsMeaning(u, 0);
    }
  }

  /** A token whose first bad character comes before the value overflows is a syntax error. */
  lemma ParseHex32BadDigit(s: string, k: nat)
    requires k < |Unsigned(s)| && !IsHexDigit(Unsigned(s)[k])
    requires AllHex(Unsigned(s)[..k]) && HexValue(Unsigned(s)[..k]) <= MaxUint32
    ensures ParseHex32(s) == Failure(ErrSyntax)
  {
    var u := Unsigned(s);
    assert u[..0] == "";
    assert SyntaxStop(u, k);
    ScanDigitsMeaning(u, 0);
  }

  /** `ParseHex32` reports a syntax error exactly when the token has no digits
      or holds a bad character before its value overflows; every other
      failure is a range error. */
  lemma ParseHex32SyntaxError(s: string)
    ensures ParseHex32(s) == Failure(ErrSyntax) <==>
      Unsigned(s) == "" || exists k | 0 <= k < |Unsigned(s)| :: SyntaxStop(Unsigned(s), k)
    ensures ParseHex32(s).Failure? && ParseHex32(s).error != ErrSyntax ==> ParseHex32(s).error == ErrRange
  {
    var u := Unsigned(s);
    if u != "" {
      assert u[..0] == "";
      ScanDigitsMeaning(u, 0);
    }
  }

  /** ASCII upper-casing of one character. */
  function UpperAscii(c: char): char
  {
    if 'a' <= c <= 'z' then (c as int - 32) as char else c
  }

  function ToUpper(s: string): string
  {
    seq(|s|, k requires 0 <= k < |s| => UpperAscii(s[k]))
  }

  lemma {:induction false} ScanDigitsIgnoresCase(s: string, i: nat, n: nat)
    requires i <= |s|
    ensures ScanDigits(ToUpper(s), i, n) == ScanDigits(s, i, n)
    decreases |s| - i
  {
    if i < |s| && IsHexDigit(s[i]) {
      ScanDigitsIgnoresCase(s, i + 1, n * 16 + DigitValue(s[i]));
    }
  }

  /** Hex digits are read in either case: upper-casing a token does not change what it parses to. */
  lemma ParseHex32IgnoresCase(s: string)
    ensures ParseHex32(ToUpper(s)) == ParseHex32(s)
  {
    var u := Unsigned(s);
    if s != "" {
      assert Unsigned(ToUpper(s)) == ToUpper(u);
      ScanDigitsIgnoresCase(u, 0, 0);
    }
  }

  /** The upper-case hex digit of `d`. */
  function HexDigit(d: nat): char
    requires d < 16
  {
    if d < 10 then ('0' as int + d) as char else ('A' as int + d - 10) as char
  }

  /** Upper-case hex without leading zeros, the way the data file writes code points. */
  function FormatHex(v: nat): string
    decreases v
  {
    if v < 16 then [HexDigit(v)] else FormatHex(v / 16) + [HexDigit(v % 16)]
  }

  lemma {:induction false} FormatHexValue(v: nat)
    ensures |FormatHex(v)| > 0 && AllHex(FormatHex(v)) && HexValue(FormatHex(v)) == v
    ensures FormatHex(v)[0] != '+' && FormatHex(v)[0] != '-'
    decreases v
  {
    if v >= 16 {
      FormatHexValue(v / 16);
      var s := FormatHex(v);
      assert s[..|s| - 1] == FormatHex(v / 16);
    }
  }

  /** Writing a code point in hex and parsing it back gives the code point. */
  lemma ParseFormatHex(v: nat)
    requires v <= MaxInt32
    ensures ParseHex32(FormatHex(v)) == Success(v)
  {
    FormatHexValue(v);
    ParseHex32Meaning(FormatHex(v));
  }

  /** Upper-case hex digits with no leading zero (unless the token is "0"). */
  predicate Canonical(t: string)
  {
    && |t| > 0
    && (forall k | 0 <= k < |t| :: '0' <= t[k] <= '9' || 'A' <= t[k] <= 'F')
    && (|t| > 1 ==> t[0] != '0')
  }

  lemma {:induction false} FormatHexValueOf(t: string)
    requires Canonical(t)
    ensures AllHex(t) && FormatHex(HexValue(t)) == t
    decreases |t|
  {
    var n := |t|;
    if n > 1 {
      var init := t[..n - 1];
      FormatHexValueOf(init);
      assert init[0] == t[0];
      assert HexValue(init) >= 1 by {
        HexValuePrefix(init, 1);
        assert init[..1] == [init[0]];
        assert init[..1][..0] == [];
      }
      assert t == init + [t[n - 1]];
    }
  }

  /** Parsing a canonical token and writing the value back in hex reproduces the token. */
  lemma FormatParseHex(t: string)
    requires Canonical(t)
    requires ParseHex32(t).Success?
    ensures FormatHex(ParseHex32(t).value) == t
  {
    FormatHexValueOf(t);
    ParseHex32Meaning(t);
  }
}
