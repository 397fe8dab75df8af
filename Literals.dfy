/**
  Literal parsing: `parseBool` (util.go:276-285), Go's `strconv.ParseInt` for
  an explicit base and 64 bits, and `parseInt` (util.go:264-275), which picks
  a base from a `0x`/`0o`/`0b` prefix and hands the WHOLE string, prefix
  included, to `strconv.ParseInt`.
*/
module Literals {
  import opened Wrappers
  import opened Text

  const Int64Min: int := -0x8000_0000_0000_0000
  const Int64Max: int := 0x7FFF_FFFF_FFFF_FFFF
  const Uint64Max: int := 0xFFFF_FFFF_FFFF_FFFF

  predicate IsInt64(v: int) {
    Int64Min <= v <= Int64Max
  }

  // ----- parseBool -----

  /** `a` and `b` are equal ignoring ASCII letter case. */
  predicate EqualFold(a: string, b: string) {
    |a| == |b| && forall i :: 0 <= i < |a| ==> ToLowerChar(a[i]) == ToLowerChar(b[i])
  }

  lemma EqualFoldToLower(s: string, w: string)
    requires ToLower(w) == w
    ensures EqualFold(s, w) <==> ToLower(s) == w
  {
    if EqualFold(s, w) {
      forall i | 0 <= i < |s| ensures ToLower(s)[i] == w[i] {
        assert ToLowerChar(w[i]) == ToLower(w)[i];
      }
    }
    if ToLower(s) == w {
      forall i | 0 <= i < |s| ensures ToLowerChar(s[i]) == ToLowerChar(w[i]) {
        assert ToLowerChar(w[i]) == ToLower(w)[i];
      }
    }
  }

  /**
    `parseBool`: "true", "yes" and "1" in any letter case are true; "", "false",
    "no" and "0" in any letter case are false; anything else is an error that
    carries the raw value.
  */
  function ParseBool(s: string): (r: Result<bool, string>)
    ensures r == Ok(true) <==> EqualFold(s, "true") || EqualFold(s, "yes") || s == "1"
    ensures r == Ok(false) <==> s == "" || EqualFold(s, "false") || EqualFold(s, "no") || s == "0"
    ensures r.Err? ==> r.error == s
  {
    var l := ToLower(s);
    EqualFoldToLower(s, "true");
    EqualFoldToLower(s, "yes");
    EqualFoldToLower(s, "false");
    EqualFoldToLower(s, "no");
    assert ToLower(s) == "1" <==> s == "1";
    assert ToLower(s) == "0" <==> s == "0";
    if l == "true" || l == "yes" || l == "1" then Ok(true)
    else if l == "" || l == "false" || l == "no" || l == "0" then Ok(false)
    else Err(s)
  }

  // ----- strconv.ParseInt(s, base, 64) -----

  datatype NumErrorKind = SyntaxError | RangeError

  /** Go's `*strconv.NumError`: the offending input and why it was refused. */
  datatype NumError = NumError(num: string, kind: NumErrorKind)

  /** The digit a character stands for in strconv: `0`-`9`, then letters in either case from 10. */
  function DigitValue(c: char): Option<nat> {
    if '0' <= c <= '9' then Some(c as int - '0' as int)
    else if 'a' <= c <= 'z' then Some(c as int - 'a' as int + 10)
    else if 'A' <= c <= 'Z' then Some(c as int - 'A' as int + 10)
    else None
  }

  predicate IsDigit(c: char, base: nat) {
    DigitValue(c).Some? && DigitValue(c).value < base
  }

  predicate AllDigits(ds: string, base: nat) {
    forall i :: 0 <= i < |ds| ==> IsDigit(ds[i], base)
  }

  /** The value of a run of digits, most significant first (the reference definition). */
  function DigitsValue(ds: string, base: nat): nat
    requires AllDigits(ds, base)
  {
    if |ds| == 0 then 0
    else DigitsValue(ds[..|ds| - 1], base) * base + DigitValue(ds[|ds| - 1]).value
  }

  /**
    The digit loop of `strconv.ParseUint`: left to right, the first character
    that is not a digit below `base` is a syntax error, and the first digit that
    takes the accumulated value past 2^64 - 1 is a range error.
  */
  function ScanDigits(ds: string, base: nat, n: nat): (r: Result<nat, NumErrorKind>)
    requires n <= Uint64Max
    ensures r.Ok? ==> n <= r.value <= Uint64Max
    ensures r == Err(RangeError) ==> |ds| > 0
    decreases |ds|
  {
    if |ds| == 0 then Ok(n)
    else match DigitValue(ds[0])
      case None => Err(SyntaxError)
      case Some(d) =>
        if d >= base then Err(SyntaxError)
        else if n * base + d > Uint64Max then Err(RangeError)
        else MulGrows(n, base); ScanDigits(ds[1..], base, n * base + d)
  }

  /** The sign-free part of a literal. */
  function Unsigned(s: string): string {
    if |s| > 0 && (s[0] == '+' || s[0] == '-') then s[1..] else s
  }

  /**
    Go's `strconv.ParseInt(s, base, 64)` for `2 <= base <= 36`: an optional sign,
    then a non-empty run of digits below `base`, the value within int64 range.
  */
  function StrconvParseInt(s: string, base: nat): (r: Result<int, NumError>)
    requires 2 <= base <= 36
    ensures r.Ok? ==> IsInt64(r.value)
    ensures r.Err? ==> r.error.num == s
  {
    if |s| == 0 then Err(NumError(s, SyntaxError))
    else
      var neg := s[0] == '-';
      var body := Unsigned(s);
      if |body| == 0 then Err(NumError(s, SyntaxError))
      else match ScanDigits(body, base, 0)
        case Err(kind) => Err(NumError(s, kind))
        case Ok(un) =>
          if !neg && un > Int64Max then Err(NumError(s, RangeError))
          else if neg && un > -Int64Min then Err(NumError(s, RangeError))
          else Ok(if neg then -(un as int) else un)
  }

  /** `s` is an optional sign followed by a non-empty run of digits below `base`. */
  predicate IsNumeral(s: string, base: nat) {
    |Unsigned(s)| > 0 && AllDigits(Unsigned(s), base)
  }

  function NumeralValue(s: string, base: nat): int
    requires IsNumeral(s, base)
  {
    var v := DigitsValue(Unsigned(s), base);
    if |s| > 0 && s[0] == '-' then -(v as int) else v
  }

  /** What the scan accumulates from `n` over the digits `ds`. */
  function Accumulate(n: nat, ds: string, base: nat): nat
    requires AllDigits(ds, base)
    decreases |ds|
  {
    if |ds| == 0 then n else Accumulate(n * base + DigitValue(ds[0]).value, ds[1..], base)
  }

  lemma {:induction false} AccumulateGrows(n: nat, ds: string, base: nat)
    requires AllDigits(ds, base)
    ensures Accumulate(n, ds, base) >= n
    decreases |ds|
  {
    if |ds| > 0 {
      var d := DigitValue(ds[0]).value;
      AccumulateGrows(n * base + d, ds[1..], base);
      assert IsDigit(ds[0], base);
      MulGrows(n, base);
    }
  }

  lemma MulGrows(n: nat, k: nat)
    requires k >= 1
    ensures n * k >= n
  {
    assert n * (k - 1) >= 0;
    assert n * k == n * (k - 1) + n;
  }

  /** The scan succeeds exactly on digit runs whose value fits 64 bits, and then yields that value. */
  lemma {:induction false} ScanDigitsSpec(ds: string, base: nat, n: nat)
    requires n <= Uint64Max
    ensures ScanDigits(ds, base, n).Ok? <==> AllDigits(ds, base) && Accumulate(n, ds, base) <= Uint64Max
    ensures ScanDigits(ds, base, n).Ok? ==> ScanDigits(ds, base, n).value == Accumulate(n, ds, base)
    decreases |ds|
  {
    if |ds| > 0 {
      var rest := ds[1..];
      assert AllDigits(ds, base) <==> IsDigit(ds[0], base) && AllDigits(rest, base) by {
        if IsDigit(ds[0], base) && AllDigits(rest, base) {
          forall i | 0 <= i < |ds| ensures IsDigit(ds[i], base) {
            if i > 0 { assert ds[i] == rest[i - 1]; }
          }
        }
      }
      if IsDigit(ds[0], base) {
        var m := n * base + DigitValue(ds[0]).value;
        if m <= Uint64Max {
          ScanDigitsSpec(rest, base, m);
        } else if AllDigits(rest, base) {
          AccumulateGrows(m, rest, base);
        }
      }
    }
  }

  lemma {:induction false} AccumulateSnoc(n: nat, ds: string, c: char, base: nat)
    requires AllDigits(ds, base) && IsDigit(c, base)
    ensures AllDigits(ds + [c], base)
    ensures Accumulate(n, ds + [c], base) == Accumulate(n, ds, base) * base + DigitValue(c).value
    decreases |ds|
  {
    assert AllDigits(ds + [c], base) by {
      forall i | 0 <= i < |ds| + 1 ensures IsDigit((ds + [c])[i], base) {
        if i < |ds| { assert (ds + [c])[i] == ds[i]; }
      }
    }
    if |ds| > 0 {
      assert (ds + [c])[1..] == ds[1..] + [c];
      AccumulateSnoc(n * base + DigitValue(ds[0]).value, ds[1..], c, base);
    }
  }

  /** Scanning from zero computes the reference value of the digits. */
  lemma {:induction false} AccumulateIsValue(ds: string, base: nat)
    requires AllDigits(ds, base)
    ensures Accumulate(0, ds, base) == DigitsValue(ds, base)
    decreases |ds|
  {
    if |ds| > 0 {
      var init, last := ds[..|ds| - 1], ds[|ds| - 1];
      assert ds == init + [last];
      assert AllDigits(init, base);
      AccumulateIsValue(init, base);
      AccumulateSnoc(0, init, last, base);
    }
  }

  /**
    strconv.ParseInt accepts exactly the numerals whose value is an int64, and
    returns that value.
  */
  lemma StrconvParseIntSpec(s: string, base: nat)
    requires 2 <= base <= 36
    ensures StrconvParseInt(s, base).Ok? <==> IsNumeral(s, base) && IsInt64(NumeralValue(s, base))
    ensures StrconvParseInt(s, base).Ok? ==> StrconvParseInt(s, base).value == NumeralValue(s, base)
  {
    var body := Unsigned(s);
    if |s| > 0 && |body| > 0 {
      ScanDigitsSpec(body, base, 0);
      if AllDigits(body, base) {
        AccumulateIsValue(body, base);
      }
    }
  }

  // ----- formatting, the inverse of parsing -----

  function DigitChar(d: nat): char
    requires d < 36
  {
    if d < 10 then ('0' as int + d) as char else ('a' as int + d - 10) as char
  }

  /** Go's `strconv.FormatUint(m, base)`: the digits of `m`, most significant first. */
  function FormatNat(m: nat, base: nat): (ds: string)
    requires 2 <= base <= 36
    ensures |ds| > 0 && AllDigits(ds, base)
    decreases m
  {
    DivMod(m, base);
    DigitCharValue(m % base);
    var last := DigitChar(m % base);
    if m < base then [last]
    else
      var init := FormatNat(m / base, base);
      DigitsSnoc(init, last, base);
      init + [last]
  }

  /** The digits FormatNat prints denote the number printed. */
  lemma {:induction false} FormatNatValue(m: nat, base: nat)
    requires 2 <= base <= 36
    ensures DigitsValue(FormatNat(m, base), base) == m
    decreases m
  {
    DivMod(m, base);
    DigitCharValue(m % base);
    var last := DigitChar(m % base);
    if m < base {
      assert FormatNat(m, base)[..0] == [];
    } else {
      var init := FormatNat(m / base, base);
      FormatNatValue(m / base, base);
      DigitsSnoc(init, last, base);
    }
  }

  lemma DivMod(m: nat, base: nat)
    requires base >= 2
    ensures m == (m / base) * base + m % base && m % base < base
    ensures m >= base ==> m / base < m
    ensures m < base ==> m % base == m
  {
  }

  lemma DigitCharValue(d: nat)
    requires d < 36
    ensures DigitValue(DigitChar(d)) == Some(d)
  {
  }

  lemma DigitsSnoc(ds: string, c: char, base: nat)
    requires AllDigits(ds, base) && IsDigit(c, base)
    ensures AllDigits(ds + [c], base)
    ensures DigitsValue(ds + [c], base) == DigitsValue(ds, base) * base + DigitValue(c).value
  {
    var e := ds + [c];
    assert forall i :: 0 <= i < |ds| ==> e[i] == ds[i];
    assert e[..|e| - 1] == ds;
  }

  /** Go's `strconv.FormatInt(n, base)`. */
  function FormatInt(n: int, base: nat): string
    requires 2 <= base <= 36
  {
    if n < 0 then "-" + FormatNat(-n, base) else FormatNat(n, base)
  }

  /** Parsing what FormatInt prints gives back the number, for every int64 and every base. */
  lemma ParseFormatRoundTrip(n: int, base: nat)
    requires 2 <= base <= 36 && IsInt64(n)
    ensures StrconvParseInt(FormatInt(n, base), base) == Ok(n)
  {
    var s := FormatInt(n, base);
    var ds := FormatNat(if n < 0 then -n else n, base);
    FormatNatValue(if n < 0 then -n else n, base);
    assert !IsDigit('+', base) && !IsDigit('-', base);
    assert IsDigit(ds[0], base);
    assert Unsigned(s) == ds by {
      if n < 0 { assert s[1..] == ds; }
    }
    StrconvParseIntSpec(s, base);
  }

  // ----- parseInt -----

  function HasPrefix(s: string, p: string): bool {
    |p| <= |s| && s[..|p|] == p
  }

  /** The base `parseInt` chooses; the three prefixes exclude each other, so their order does not matter. */
  function PrefixBase(s: string): (base: nat)
    ensures base == 16 <==> HasPrefix(s, "0x")
    ensures base == 8 <==> HasPrefix(s, "0o")
    ensures base == 2 <==> HasPrefix(s, "0b")
    ensures base == 10 <==> !IsPrefixed(s)
  {
    if HasPrefix(s, "0x") then 16
    else if HasPrefix(s, "0o") then 8
    else if HasPrefix(s, "0b") then 2
    else 10
  }

  /**
    `parseInt`. Because the prefix stays in the string handed to
    `strconv.ParseInt`, and its letter is no digit of the base it selects, every
    prefixed literal is refused: the result is always that of a plain base-10
    parse.
  */
  function ParseInt(s: string): (r: Result<int, NumError>)
    ensures r == StrconvParseInt(s, 10)
  {
    var base := PrefixBase(s);
    if base != 10 then
      ScanPrefixed(s, base);
      ScanPrefixed(s, 10);
      StrconvParseInt(s, base)
    else StrconvParseInt(s, base)
  }

  /** The scan stops at the prefix letter of a `0x`, `0o` or `0b` literal, for the bases involved. */
  lemma ScanPrefixed(s: string, base: nat)
    requires IsPrefixed(s)
    requires base == 10 || base == PrefixBase(s)
    ensures Unsigned(s) == s
    ensures ScanDigits(s, base, 0) == Err(SyntaxError)
  {
    assert s[0] == '0' && s[1..][0] == s[1];
    assert s[1] == 'x' || s[1] == 'o' || s[1] == 'b';
  }

  /** `s` carries one of the prefixes `parseInt` looks for. */
  predicate IsPrefixed(s: string) {
    HasPrefix(s, "0x") || HasPrefix(s, "0o") || HasPrefix(s, "0b")
  }

  /** A literal carrying a `0x`, `0o` or `0b` prefix is always a syntax error. */
  lemma PrefixedLiteralRejected(s: string)
    requires IsPrefixed(s)
    ensures ParseInt(s) == Err(NumError(s, SyntaxError))
  {
    ScanPrefixed(s, 10);
  }

  /** Every int64 written in decimal parses back to itself. */
  lemma DecimalRoundTrip(n: int)
    requires IsInt64(n)
    ensures ParseInt(FormatInt(n, 10)) == Ok(n)
  {
    ParseFormatRoundTrip(n, 10);
  }
}
