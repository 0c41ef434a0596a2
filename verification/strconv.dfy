/** Base-10 integer conversion as Go's `strconv` performs it for the call
    `strconv.ParseInt(s, 10, 32)`, together with a decimal rendering used to
    state the round trip. */
module Strconv {

  const MaxUint32: nat := 0xFFFF_FFFF
  const MaxInt32: int := 0x7FFF_FFFF
  const MinInt32: int := -0x8000_0000

  predicate IsDigit(c: char) {
    '0' <= c <= '9'
  }

  function DigitValue(c: char): (d: nat)
    requires IsDigit(c)
    ensures d < 10
  {
    (c as int) - ('0' as int)
  }

  predicate AllDigits(s: string) {
    forall i :: 0 <= i < |s| ==> IsDigit(s[i])
  }

  /** The value of the digit string `s` read after the digits already folded
      into `acc`. */
  function DecimalFrom(acc: nat, s: string): nat
    requires AllDigits(s)
    decreases |s|
  {
    if |s| == 0 then acc
    else DecimalFrom(acc * 10 + DigitValue(s[0]), s[1..])
  }

  /** The unbounded value of a digit string. */
  function DecimalValue(s: string): nat
    requires AllDigits(s)
  {
    DecimalFrom(0, s)
  }

  function Clamp32(n: int): int {
    if n > MaxInt32 then MaxInt32 else if n < MinInt32 then MinInt32 else n
  }

  datatype UintResult = Uint(n: nat) | SyntaxError | RangeError

  /** `strconv.ParseUint(s, 10, 32)`. The scan stops at the first digit that
      takes the value past 2^32 - 1 with a range error, before it looks at
      the characters that follow. */
  function ParseUint32(s: string): (r: UintResult)
    ensures r.Uint? ==> r.n <= MaxUint32
  {
    if |s| == 0 then SyntaxError else ScanDigits(s, 0)
  }

  function ScanDigits(s: string, acc: nat): (r: UintResult)
    requires acc <= MaxUint32
    ensures r.Uint? ==> acc <= r.n <= MaxUint32
    decreases |s|
  {
    if |s| == 0 then Uint(acc)
    else if !IsDigit(s[0]) then SyntaxError
    else
      var n := acc * 10 + DigitValue(s[0]);
      if n > MaxUint32 then RangeError else ScanDigits(s[1..], n)
  }

  /** The sign-stripped part of `s` that `strconv.ParseInt` hands on to
      `ParseUint`. */
  function Unsigned(s: string): string
    requires |s| > 0
  {
    if s[0] == '+' || s[0] == '-' then s[1..] else s
  }

  /** The value `strconv.ParseInt(s, 10, 32)` returns; the client discards
      the accompanying error, so a syntax error reads as 0 and an
      out-of-range number as the nearest 32-bit bound. */
  function ParseInt32(s: string): (r: int)
    ensures MinInt32 <= r <= MaxInt32
  {
    if |s| == 0 then 0
    else
      var neg := s[0] == '-';
      match ParseUint32(Unsigned(s))
      case SyntaxError => 0
      case RangeError => if neg then MinInt32 else MaxInt32
      case Uint(un) =>
        if !neg && un > MaxInt32 then MaxInt32
        else if neg && un > -MinInt32 then MinInt32
        else if neg then -(un as int)
        else un
  }

  function DigitChar(d: nat): (c: char)
    requires d < 10
    ensures IsDigit(c) && DigitValue(c) == d
  {
    ('0' as int + d) as char
  }

  /** Decimal digits of `n`, most significant first, without leading zeros. */
  function FormatNat(n: nat): (s: string)
    decreases n
  {
    if n < 10 then [DigitChar(n)] else FormatNat(n / 10) + [DigitChar(n % 10)]
  }

  /** `strconv.FormatInt(n, 10)`. */
  function FormatInt(n: int): string {
    if n < 0 then "-" + FormatNat(-n) else FormatNat(n)
  }

  lemma {:induction false} FormatNatDigits(n: nat)
    ensures |FormatNat(n)| > 0 && AllDigits(FormatNat(n))
    decreases n
  {
    if n >= 10 {
      FormatNatDigits(n / 10);
    }
  }

  /** Rendering `10 n + d` appends the digit `d` to the rendering of `n`. */
  lemma FormatNatStep(n: nat, d: nat)
    requires n >= 1 && d < 10
    ensures FormatNat(n * 10 + d) == FormatNat(n) + [DigitChar(d)]
  {
    assert (n * 10 + d) / 10 == n && (n * 10 + d) % 10 == d;
  }

  /** A rendered number consists of digits and at most a leading minus. */
  lemma FormatIntChars(n: int)
    ensures forall i :: 0 <= i < |FormatInt(n)| ==> IsDigit(FormatInt(n)[i]) || FormatInt(n)[i] == '-'
  {
    FormatNatDigits(if n < 0 then -n else n);
  }

  lemma {:induction false} DecimalFromGrows(acc: nat, s: string)
    requires AllDigits(s)
    ensures DecimalFrom(acc, s) >= acc
    decreases |s|
  {
    if |s| > 0 {
      DecimalFromGrows(acc * 10 + DigitValue(s[0]), s[1..]);
    }
  }

  /** Appending a digit multiplies the value read so far by ten and adds it. */
  lemma {:induction false} DecimalFromSnoc(acc: nat, s: string, c: char)
    requires AllDigits(s) && IsDigit(c)
    ensures AllDigits(s + [c])
    ensures DecimalFrom(acc, s + [c]) == DecimalFrom(acc, s) * 10 + DigitValue(c)
    decreases |s|
  {
    if |s| > 0 {
      assert (s + [c])[1..] == s[1..] + [c];
      DecimalFromSnoc(acc * 10 + DigitValue(s[0]), s[1..], c);
    }
  }

  /** Reading back the digits of `n` gives `n`. */
  lemma {:induction false} DecimalFormatNat(n: nat)
    ensures AllDigits(FormatNat(n)) && DecimalValue(FormatNat(n)) == n
    decreases n
  {
    FormatNatDigits(n);
    if n >= 10 {
      DecimalFormatNat(n / 10);
      DecimalFromSnoc(0, FormatNat(n / 10), DigitChar(n % 10));
      assert FormatNat(n) == FormatNat(n / 10) + [DigitChar(n % 10)];
      assert DecimalValue(FormatNat(n)) == (n / 10) * 10 + n % 10;
    } else {
      var s := FormatNat(n);
      assert s == [DigitChar(n)];
      assert DecimalFrom(0, s) == DecimalFrom(DigitValue(s[0]), s[1..]);
      assert s[1..] == [];
    }
  }

  /** On a string of digits the scan either returns the full value or, when
      that exceeds 2^32 - 1, a range error. */
  lemma {:induction false} ScanAllDigits(s: string, acc: nat)
    requires acc <= MaxUint32 && AllDigits(s)
    ensures ScanDigits(s, acc) ==
      if DecimalFrom(acc, s) <= MaxUint32 then Uint(DecimalFrom(acc, s)) else RangeError
    decreases |s|
  {
    if |s| > 0 {
      var n := acc * 10 + DigitValue(s[0]);
      DecimalFromGrows(n, s[1..]);
      if n <= MaxUint32 {
        ScanAllDigits(s[1..], n);
      }
    }
  }

  /** A non-digit met before the value overflows makes the scan a syntax
      error. */
  lemma {:induction false} ScanStopsAtNonDigit(s: string, acc: nat, j: nat)
    requires acc <= MaxUint32
    requires j < |s| && AllDigits(s[..j]) && !IsDigit(s[j])
    requires DecimalFrom(acc, s[..j]) <= MaxUint32
    ensures ScanDigits(s, acc) == SyntaxError
    decreases j
  {
    if j > 0 {
      var n := acc * 10 + DigitValue(s[0]);
      assert s[..j][1..] == s[1..][..j - 1];
      DecimalFromGrows(n, s[1..][..j - 1]);
      ScanStopsAtNonDigit(s[1..], n, j - 1);
    }
  }

  /** Digits whose value already exceeds 2^32 - 1 make the scan a range
      error, whatever characters follow them. */
  lemma {:induction false} ScanOverflowsFirst(s: string, acc: nat, j: nat)
    requires acc <= MaxUint32
    requires 0 < j <= |s| && AllDigits(s[..j])
    requires DecimalFrom(acc, s[..j]) > MaxUint32
    ensures ScanDigits(s, acc) == RangeError
    decreases j
  {
    var n := acc * 10 + DigitValue(s[0]);
    assert s[..j][1..] == s[1..][..j - 1];
    if n <= MaxUint32 {
      assert j > 1;
      ScanOverflowsFirst(s[1..], n, j - 1);
    }
  }

  /** An optional sign followed by digits parses to the signed value,
      clamped to the 32-bit range. */
  lemma ParseIntOfDigits(sign: string, digits: string)
    requires sign == "" || sign == "+" || sign == "-"
    requires |digits| > 0 && AllDigits(digits)
    ensures ParseInt32(sign + digits) ==
      Clamp32(if sign == "-" then -(DecimalValue(digits) as int) else DecimalValue(digits))
  {
    var s := sign + digits;
    assert Unsigned(s) == digits by {
      if sign == "" {
        assert s == digits;
      } else {
        assert s[1..] == digits;
      }
    }
    ScanAllDigits(digits, 0);
  }

  /** A character that is not a digit, reached before the digits in front
      of it overflow, makes the whole field read as 0. */
  lemma ParseIntOfNonDigit(sign: string, body: string, j: nat)
    requires sign == "" || sign == "+" || sign == "-"
    requires j < |body| && AllDigits(body[..j]) && !IsDigit(body[j])
    requires body[0] != '+' && body[0] != '-'
    requires DecimalValue(body[..j]) <= MaxUint32
    ensures ParseInt32(sign + body) == 0
  {
    var s := sign + body;
    assert Unsigned(s) == body by {
      if sign == "" {
        assert s == body;
      } else {
        assert s[1..] == body;
      }
    }
    ScanStopsAtNonDigit(body, 0, j);
  }

  /** A field whose leading digits already exceed 2^32 - 1 reads as the
      32-bit bound of its sign, even when non-digits follow. */
  lemma ParseIntOverflowsFirst(sign: string, body: string, j: nat)
    requires sign == "" || sign == "+" || sign == "-"
    requires 0 < j <= |body| && AllDigits(body[..j])
    requires DecimalValue(body[..j]) > MaxUint32
    ensures ParseInt32(sign + body) == if sign == "-" then MinInt32 else MaxInt32
  {
    var s := sign + body;
    assert Unsigned(s) == body by {
      if sign == "" {
        assert s == body;
      } else {
        assert s[1..] == body;
      }
    }
    ScanOverflowsFirst(body, 0, j);
  }

  /** A field with no digits after its sign, or with a second sign (the
      empty field, "+", "-", "++5", "-+5"), reads as 0. */
  lemma ParseIntOfNoDigits(sign: string, body: string)
    requires sign == "" || sign == "+" || sign == "-"
    requires sign == "" ==> body == ""
    requires body == "" || body[0] == '+' || body[0] == '-'
    ensures ParseInt32(sign + body) == 0
  {
    var s := sign + body;
    if sign != "" {
      assert s[0] == sign[0] && s[1..] == body;
      if body != "" {
        assert !IsDigit(body[0]);
      }
    } else {
      assert s == "";
    }
  }

  /** Every 32-bit value survives rendering and parsing. */
  lemma ParseFormatInt(n: int)
    requires MinInt32 <= n <= MaxInt32
    ensures ParseInt32(FormatInt(n)) == n
  {
    if n < 0 {
      DecimalFormatNat(-n);
      ParseIntOfDigits("-", FormatNat(-n));
    } else {
      DecimalFormatNat(n);
      ParseIntOfDigits("", FormatNat(n));
      assert "" + FormatNat(n) == FormatNat(n);
    }
  }
}
