/**
  * Rust's integer formatting, as the renderer uses it: `to_string()` on an `i64`,
  * the zero-padded `{:010}` and `{:05}` of the cross-reference rows, and the
  * lower-case hexadecimal `{:02x}` of name escapes. Integers are unbounded here.
  */
module Numerals {
  import opened Options

  /** The two radixes the renderer prints in. */
  predicate IsBase(base: nat) { base == 10 || base == 16 }

  function Pow(base: nat, k: nat): nat
  {
    if k == 0 then 1 else base * Pow(base, k - 1)
  }

  /** Lower-case digit, as Rust's `{:x}` writes it. */
  function DigitChar(d: nat): char
    requires d < 16
  {
    if d < 10 then ('0' as int + d) as char else ('a' as int + d - 10) as char
  }

  /** A decimal digit `0`..`9`, a digit in every base. */
  predicate IsDigit(c: char) { '0' <= c <= '9' }

  /** The value of one digit character in `base`, or `None` for any other character. */
  function DigitValue(c: char, base: nat): (r: Option<nat>)
    requires IsBase(base)
    ensures r.Some? ==> r.value < base && DigitChar(r.value) == c
  {
    if IsDigit(c) then Some(c as int - '0' as int)
    else if base == 16 && 'a' <= c <= 'f' then Some(c as int - 'a' as int + 10)
    else None
  }

  lemma DigitValueOfDigitChar(d: nat, base: nat)
    requires IsBase(base) && d < base
    ensures DigitValue(DigitChar(d), base) == Some(d)
  {
  }

  /** All characters of `s` are digits of `base`. */
  predicate AllDigits(s: string, base: nat)
    requires IsBase(base)
  {
    forall i :: 0 <= i < |s| ==> DigitValue(s[i], base).Some?
  }

  /** The shortest representation of `n` in `base`, most significant digit first. */
  function Digits(n: nat, base: nat): (s: string)
    requires IsBase(base)
    ensures 1 <= |s|
  {
    if n < base then [DigitChar(n)] else Digits(n / base, base) + [DigitChar(n % base)]
  }

  /** Every character is a digit of `base`, and there is no leading zero. */
  lemma {:induction false} DigitsShape(n: nat, base: nat)
    requires IsBase(base)
    ensures AllDigits(Digits(n, base), base)
    ensures |Digits(n, base)| > 1 ==> Digits(n, base)[0] != '0'
  {
    if n >= base {
      var p := Digits(n / base, base);
      DigitsShape(n / base, base);
      DigitValueOfDigitChar(n % base, base);
      AllDigitsSnoc(p, DigitChar(n % base), base);
      if |p| == 1 {
        DigitValueOfDigitChar(n / base, base);
      }
      assert Digits(n, base)[0] == p[0];
    } else {
      DigitValueOfDigitChar(n, base);
    }
  }

  lemma AllDigitsSnoc(p: string, c: char, base: nat)
    requires IsBase(base) && AllDigits(p, base) && DigitValue(c, base).Some?
    ensures AllDigits(p + [c], base)
  {
    forall i | 0 <= i < |p| + 1
      ensures DigitValue((p + [c])[i], base).Some?
    {
      if i < |p| {
        assert (p + [c])[i] == p[i];
      }
    }
  }

  /** The number a string of digits denotes; `None` if it is empty or holds a non-digit. */
  function ValueOf(s: string, base: nat): (r: Option<nat>)
    requires IsBase(base)
    ensures r.Some? <==> |s| > 0 && AllDigits(s, base)
  {
    if |s| == 0 then None
    else match DigitValue(s[|s| - 1], base)
      case None => None
      case Some(d) =>
        if |s| == 1 then Some(d)
        else match ValueOf(s[..|s| - 1], base)
          case None => None
          case Some(v) => Some(v * base + d)
  }

  lemma {:induction false} ValueOfDigits(n: nat, base: nat)
    requires IsBase(base)
    ensures ValueOf(Digits(n, base), base) == Some(n)
  {
    var s := Digits(n, base);
    if n >= base {
      var q, r := n / base, n % base;
      assert n == q * base + r by {
        if base == 10 { assert n == n / 10 * 10 + n % 10; } else { assert n == n / 16 * 16 + n % 16; }
      }
      var p := Digits(q, base);
      assert s == p + [DigitChar(r)];
      ValueOfDigits(q, base);
      assert s[..|s| - 1] == p;
      DigitValueOfDigitChar(r, base);
      assert s[|s| - 1] == DigitChar(r);
      assert ValueOf(s, base) == Some(q * base + r);
    } else {
      DigitValueOfDigitChar(n, base);
    }
  }

  /** The number of digits of `n` is at most `k` exactly when `n < base^k`. */
  lemma {:induction false} DigitsLength(n: nat, base: nat, k: nat)
    requires IsBase(base) && k >= 1
    ensures |Digits(n, base)| <= k <==> n < Pow(base, k)
  {
    if n >= base {
      if k == 1 {
        assert Pow(base, 1) == base;
      } else {
        DigitsLength(n / base, base, k - 1);
        assert n / base < Pow(base, k - 1) <==> n < base * Pow(base, k - 1);
      }
    } else {
      PowAtLeastBase(base, k);
    }
  }

  lemma {:induction false} PowAtLeastBase(base: nat, k: nat)
    requires IsBase(base) && k >= 1
    ensures Pow(base, k) >= base
  {
    if k > 1 { PowAtLeastBase(base, k - 1); }
  }

  function Zeros(k: nat): (s: string)
    ensures |s| == k && forall i :: 0 <= i < k ==> s[i] == '0'
  {
    if k == 0 then [] else Zeros(k - 1) + ['0']
  }

  /** `s` right-aligned in a field of `width` characters filled with `0`. */
  function PadLeft(s: string, width: nat): (r: string)
    ensures |r| == if |s| >= width then |s| else width
  {
    if |s| >= width then s else Zeros(width - |s|) + s
  }

  /** Leading zeros do not change the value of a digit string. */
  lemma {:induction false} ValueOfLeadingZeros(k: nat, s: string, base: nat)
    requires IsBase(base) && |s| > 0
    ensures ValueOf(Zeros(k) + s, base) == ValueOf(s, base)
    decreases |s|
  {
    var z := Zeros(k) + s;
    if |s| == 1 {
      if k > 0 {
        assert z[..|z| - 1] == Zeros(k);
        ValueOfZeros(k, base);
      } else {
        assert z == s;
      }
    } else {
      assert z[..|z| - 1] == Zeros(k) + s[..|s| - 1];
      ValueOfLeadingZeros(k, s[..|s| - 1], base);
    }
  }

  lemma {:induction false} ValueOfZeros(k: nat, base: nat)
    requires IsBase(base) && k > 0
    ensures ValueOf(Zeros(k), base) == Some(0)
  {
    if k > 1 {
      assert Zeros(k)[..k - 1] == Zeros(k - 1);
      ValueOfZeros(k - 1, base);
    }
  }

  /** Rust's `Display` of an integer (`i64::to_string`): an optional `-`, then the decimal digits. */
  function IntToDecimal(i: int): string
  {
    if i < 0 then "-" + Digits(-i, 10) else Digits(i, 10)
  }

  /**
    * Rust's `{:0w}` on an integer: sign-aware zero padding to at least `width`
    * characters, the sign counting toward the width; never truncated.
    */
  function ZeroPadded(i: int, width: nat): string
  {
    if i < 0 then "-" + PadLeft(Digits(-i, 10), if width > 0 then width - 1 else 0)
    else PadLeft(Digits(i, 10), width)
  }

  /** Rust's `{:0wx}` on an unsigned integer: lower-case hexadecimal, zero padded to `width`. */
  function LowerHex(n: nat, width: nat): string
  {
    PadLeft(Digits(n, 16), width)
  }

  /** Reads back what `IntToDecimal` writes. */
  function ParseInt(s: string): Option<int>
  {
    if |s| > 0 && s[0] == '-' then
      match ValueOf(s[1..], 10)
      case None => None
      case Some(v) => Some(-(v as int))
    else
      match ValueOf(s, 10)
      case None => None
      case Some(v) => Some(v)
  }

  lemma IntToDecimalRoundTrip(i: int)
    ensures ParseInt(IntToDecimal(i)) == Some(i)
    ensures |IntToDecimal(i)| > 0 && (IntToDecimal(i)[0] == '-' <==> i < 0)
    ensures IntToDecimal(i)[0] == '0' ==> i == 0 && IntToDecimal(i) == "0"
  {
    if i < 0 {
      NegativeRoundTrip(-i);
    } else {
      NonNegativeRoundTrip(i);
    }
  }

  lemma NegativeRoundTrip(n: nat)
    requires n > 0
    ensures ParseInt("-" + Digits(n, 10)) == Some(-(n as int))
  {
    var s := "-" + Digits(n, 10);
    ValueOfDigits(n, 10);
    assert s[1..] == Digits(n, 10);
  }

  lemma NonNegativeRoundTrip(n: nat)
    ensures ParseInt(Digits(n, 10)) == Some(n)
    ensures Digits(n, 10)[0] != '-'
    ensures Digits(n, 10)[0] == '0' ==> n == 0 && Digits(n, 10) == "0"
  {
    var s := Digits(n, 10);
    ValueOfDigits(n, 10);
    DigitsShape(n, 10);
    assert DigitValue(s[0], 10).Some?;
    if s[0] == '0' {
      assert s == [s[0]];
      assert ValueOf(s, 10) == Some(0);
    }
  }

  /**
    * A non-negative value below `10^width` fills its zero-padded field exactly,
    * and the field reads back as the value.
    */
  lemma ZeroPaddedField(i: int, width: nat)
    requires width >= 1 && 0 <= i < Pow(10, width)
    ensures |ZeroPadded(i, width)| == width
    ensures AllDigits(ZeroPadded(i, width), 10)
    ensures ValueOf(ZeroPadded(i, width), 10) == Some(i)
  {
    var d := Digits(i, 10);
    DigitsLength(i, 10, width);
    ValueOfDigits(i, 10);
    if |d| < width {
      ValueOfLeadingZeros(width - |d|, d, 10);
    }
  }

  /**
    * The hexadecimal field of `{:02x}` holds exactly two digits precisely for
    * values below 256, and always reads back as the value.
    */
  lemma LowerHexTwoDigits(n: nat)
    ensures |LowerHex(n, 2)| >= 2
    ensures |LowerHex(n, 2)| == 2 <==> n < 256
    ensures ValueOf(LowerHex(n, 2), 16) == Some(n)
  {
    var d := Digits(n, 16);
    DigitsLength(n, 16, 2);
    ValueOfDigits(n, 16);
    if |d| < 2 {
      ValueOfLeadingZeros(2 - |d|, d, 16);
    }
  }
}
