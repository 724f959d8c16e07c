/** The parts of Go's strconv package that Lesson2 uses: FormatInt in base 2, and
    ParseInt in bases 2 and 10 (Atoi is ParseInt in base 10 at 64 bits). The returned
    error is not modelled because every caller discards it; the value returned alongside
    it is, including the clamping on out-of-range input. */
module StrConv {

  const MaxUint64: int := 0xFFFF_FFFF_FFFF_FFFF
  const MaxInt64: int := 0x7FFF_FFFF_FFFF_FFFF
  const MinInt64: int := -0x8000_0000_0000_0000

  predicate IsInt64(v: int) {
    MinInt64 <= v <= MaxInt64
  }

  /** Go's int64 addition: the mathematical sum, wrapped into 64 bits. */
  function AddInt64(a: int, b: int): (r: int)
    requires IsInt64(a) && IsInt64(b)
    ensures IsInt64(r)
    ensures (r - (a + b)) % 0x1_0000_0000_0000_0000 == 0
  {
    var sum := a + b;
    if sum > MaxInt64 then sum - 0x1_0000_0000_0000_0000
    else if sum < MinInt64 then sum + 0x1_0000_0000_0000_0000
    else sum
  }

  /** The saturating conversion ParseInt performs on an out-of-range value. */
  function ClampInt64(v: int): (r: int)
    ensures IsInt64(r)
    ensures IsInt64(v) ==> r == v
    ensures v > MaxInt64 ==> r == MaxInt64
    ensures v < MinInt64 ==> r == MinInt64
  {
    if v > MaxInt64 then MaxInt64 else if v < MinInt64 then MinInt64 else v
  }

  // ---------------------------------------------------------------- digits

  predicate IsDigitIn(c: char, base: nat) {
    '0' <= c <= '9' && (c as int) - ('0' as int) < base
  }

  function DigitValue(c: char): nat {
    if '0' <= c <= '9' then (c as int) - ('0' as int) else 0
  }

  predicate AllDigitsIn(s: seq<char>, base: nat) {
    forall i :: 0 <= i < |s| ==> IsDigitIn(s[i], base)
  }

  /** The value of the numeral `s` in `base`, read left to right after `acc`. */
  function Numeral(s: seq<char>, base: nat, acc: nat): nat
    decreases |s|
  {
    if |s| == 0 then acc else Numeral(s[1..], base, acc * base + DigitValue(s[0]))
  }

  lemma {:induction false} NumeralAtLeast(s: seq<char>, base: nat, acc: nat)
    requires base >= 1
    ensures Numeral(s, base, acc) >= acc
    ensures |s| > 0 ==> Numeral(s, base, acc) >= acc * base + DigitValue(s[0])
    decreases |s|
  {
    if |s| > 0 {
      var next := acc * base + DigitValue(s[0]);
      NumeralAtLeast(s[1..], base, next);
      assert Numeral(s, base, acc) == Numeral(s[1..], base, next);
      MulAtLeast(acc, base);
    }
  }

  lemma {:induction false} MulAtLeast(a: nat, b: nat)
    requires b >= 1
    ensures a * b >= a
    decreases b
  {
    if b > 1 {
      MulAtLeast(a, b - 1);
      assert a * b == a * (b - 1) + a;
    }
  }

  lemma {:induction false} NumeralSnoc(s: seq<char>, c: char, base: nat, acc: nat)
    ensures Numeral(s + [c], base, acc) == Numeral(s, base, acc) * base + DigitValue(c)
    decreases |s|
  {
    if |s| == 0 {
      assert (s + [c])[1..] == [];
    } else {
      assert (s + [c])[1..] == s[1..] + [c];
      NumeralSnoc(s[1..], c, base, acc * base + DigitValue(s[0]));
    }
  }

  // ---------------------------------------------------------------- FormatInt

  function BinaryDigit(b: nat): char
    requires b < 2
  {
    if b == 0 then '0' else '1'
  }

  /** The base-2 numeral of `n`: no leading zero, "0" for zero. */
  function Bits(n: nat): (r: seq<char>)
    ensures |r| >= 1
    ensures AllDigitsIn(r, 2)
    ensures n > 0 ==> r[0] == '1'
    ensures n == 0 ==> r == "0"
  {
    if n < 2 then [BinaryDigit(n)] else Bits(n / 2) + [BinaryDigit(n % 2)]
  }

  /** `Bits` is a numeral for `n`: read back in base 2 it gives `n`. */
  lemma {:induction false} BitsValue(n: nat)
    ensures Numeral(Bits(n), 2, 0) == n
  {
    if n >= 2 {
      BitsValue(n / 2);
      NumeralSnoc(Bits(n / 2), BinaryDigit(n % 2), 2, 0);
    }
  }

  /** The same digits read in base 10 give at least `n`, and more once `n` has two
      binary digits. */
  lemma {:induction false} BitsAsDecimalExceeds(n: nat)
    ensures Numeral(Bits(n), 10, 0) >= n
    ensures n >= 2 ==> Numeral(Bits(n), 10, 0) > n
  {
    if n >= 2 {
      BitsAsDecimalExceeds(n / 2);
      NumeralSnoc(Bits(n / 2), BinaryDigit(n % 2), 10, 0);
    }
  }

  /** FormatInt(v, 2): a '-' sign for a negative value, then the base-2 numeral of its
      magnitude. */
  function FormatInt(v: int): (r: seq<char>)
    ensures |r| >= 1
    ensures v < 0 <==> r[0] == '-'
    ensures v < 0 ==> r[1..] == Bits(-v)
    ensures v >= 0 ==> r == Bits(v)
  {
    if v < 0 then "-" + Bits(-v) else Bits(v)
  }

  // ---------------------------------------------------------------- ParseInt

  /** What ParseUint reports: a value, a syntax error or a range error. */
  datatype Scanned = Value(n: nat) | SyntaxError | RangeError

  /** ParseUint's digit loop at 64 bits: each character is checked as a digit first, and
      the scan stops with a range error as soon as the next step would overflow. */
  function ScanDigits(s: seq<char>, base: nat, acc: nat): Scanned
    requires base == 2 || base == 10
    decreases |s|
  {
    if |s| == 0 then Value(acc)
    else if !IsDigitIn(s[0], base) then SyntaxError
    else if acc >= MaxUint64 / base + 1 then RangeError
    else if acc * base + DigitValue(s[0]) > MaxUint64 then RangeError
    else ScanDigits(s[1..], base, acc * base + DigitValue(s[0]))
  }

  /** On a string of digits the scan yields the numeral's value when it fits in 64 bits
      and a range error otherwise. */
  lemma {:induction false} ScanDigitsValue(s: seq<char>, base: nat, acc: nat)
    requires base == 2 || base == 10
    requires AllDigitsIn(s, base)
    requires acc <= MaxUint64
    ensures Numeral(s, base, acc) <= MaxUint64 ==> ScanDigits(s, base, acc) == Value(Numeral(s, base, acc))
    ensures Numeral(s, base, acc) > MaxUint64 ==> ScanDigits(s, base, acc) == RangeError
    decreases |s|
  {
    if |s| > 0 {
      var next := acc * base + DigitValue(s[0]);
      NumeralAtLeast(s, base, acc);
      if acc >= MaxUint64 / base + 1 {
        assert acc * base > MaxUint64;
      } else if next <= MaxUint64 {
        ScanDigitsValue(s[1..], base, next);
      }
    }
  }

  lemma ScanNumeral(s: seq<char>, base: nat)
    requires base == 2 || base == 10
    ensures AllDigitsIn(s, base) && Numeral(s, base, 0) <= MaxUint64 ==> ScanDigits(s, base, 0) == Value(Numeral(s, base, 0))
    ensures AllDigitsIn(s, base) && Numeral(s, base, 0) > MaxUint64 ==> ScanDigits(s, base, 0) == RangeError
  {
    if AllDigitsIn(s, base) {
      ScanDigitsValue(s, base, 0);
    }
  }

  /** A non-digit met while the digits before it still fit in 64 bits stops the scan with
      a syntax error. */
  lemma {:induction false} ScanStopsAtNonDigit(s: seq<char>, base: nat, acc: nat, i: nat)
    requires base == 2 || base == 10
    requires acc <= MaxUint64
    requires i < |s| && AllDigitsIn(s[..i], base) && !IsDigitIn(s[i], base)
    requires Numeral(s[..i], base, acc) <= MaxUint64
    ensures ScanDigits(s, base, acc) == SyntaxError
    decreases i
  {
    if i > 0 {
      var next := acc * base + DigitValue(s[0]);
      assert IsDigitIn(s[..i][0], base);
      NumeralAtLeast(s[..i], base, acc);
      assert s[1..][..i - 1] == s[..i][1..];
      ScanStopsAtNonDigit(s[1..], base, next, i - 1);
    }
  }

  /** Digits whose value passes 64 bits stop the scan with a range error, whatever
      follows them. */
  lemma {:induction false} ScanOverflowsInPrefix(s: seq<char>, base: nat, acc: nat, i: nat)
    requires base == 2 || base == 10
    requires acc <= MaxUint64
    requires i <= |s| && AllDigitsIn(s[..i], base)
    requires Numeral(s[..i], base, acc) > MaxUint64
    ensures ScanDigits(s, base, acc) == RangeError
    decreases i
  {
    var next := acc * base + DigitValue(s[0]);
    assert IsDigitIn(s[..i][0], base);
    if acc < MaxUint64 / base + 1 && next <= MaxUint64 {
      assert s[1..][..i - 1] == s[..i][1..];
      ScanOverflowsInPrefix(s[1..], base, next, i - 1);
    }
  }

  /** How the scan of `s` ends, by the first non-digit and the value of the digits before it. */
  lemma ScanPrefixes(s: seq<char>, base: nat)
    requires base == 2 || base == 10
    ensures forall i ::
              0 <= i < |s| && AllDigitsIn(s[..i], base) && !IsDigitIn(s[i], base) && Numeral(s[..i], base, 0) <= MaxUint64
              ==> ScanDigits(s, base, 0) == SyntaxError
    ensures forall i ::
              0 <= i <= |s| && AllDigitsIn(s[..i], base) && Numeral(s[..i], base, 0) > MaxUint64
              ==> ScanDigits(s, base, 0) == RangeError
  {
    forall i | 0 <= i < |s| && AllDigitsIn(s[..i], base) && !IsDigitIn(s[i], base) && Numeral(s[..i], base, 0) <= MaxUint64
      ensures ScanDigits(s, base, 0) == SyntaxError
    {
      ScanStopsAtNonDigit(s, base, 0, i);
    }
    forall i | 0 <= i <= |s| && AllDigitsIn(s[..i], base) && Numeral(s[..i], base, 0) > MaxUint64
      ensures ScanDigits(s, base, 0) == RangeError
    {
      ScanOverflowsInPrefix(s, base, 0, i);
    }
  }

  /** The text ParseInt hands to ParseUint: `s` without one leading sign. */
  function Unsigned(s: seq<char>): (r: seq<char>)
    ensures |s| > 0 && (s[0] == '+' || s[0] == '-') ==> r == s[1..]
    ensures !(|s| > 0 && (s[0] == '+' || s[0] == '-')) ==> r == s
  {
    if |s| > 0 && (s[0] == '+' || s[0] == '-') then s[1..] else s
  }

  /** ParseInt(s, base, 64), keeping only the value: 0 on a syntax error, the nearest
      int64 on a range error. A numeral, signed or not, gives its value saturated to
      64 bits; an empty string, a lone sign or a leading non-digit gives 0. After the
      sign, a non-digit gives 0 when the digits before it still fit in 64 bits, and
      digits that pass 64 bits give the bound on the side of the sign. */
  function ParseInt(s: seq<char>, base: nat): (r: int)
    requires base == 2 || base == 10
    ensures IsInt64(r)
    ensures |s| == 0 ==> r == 0
    ensures |s| == 1 && (s[0] == '+' || s[0] == '-') ==> r == 0
    ensures |s| >= 1 && s[0] != '+' && s[0] != '-' && !IsDigitIn(s[0], base) ==> r == 0
    ensures |s| >= 1 && AllDigitsIn(s, base) ==> r == ClampInt64(Numeral(s, base, 0))
    ensures |s| >= 2 && s[0] == '+' && AllDigitsIn(s[1..], base) ==> r == ClampInt64(Numeral(s[1..], base, 0))
    ensures |s| >= 2 && s[0] == '-' && AllDigitsIn(s[1..], base) ==> r == ClampInt64(-(Numeral(s[1..], base, 0) as int))
    ensures forall i ::
              && 0 <= i < |Unsigned(s)| && AllDigitsIn(Unsigned(s)[..i], base) && !IsDigitIn(Unsigned(s)[i], base)
              && Numeral(Unsigned(s)[..i], base, 0) <= MaxUint64
              ==> r == 0
    ensures forall i ::
              && 0 <= i <= |Unsigned(s)| && AllDigitsIn(Unsigned(s)[..i], base)
              && Numeral(Unsigned(s)[..i], base, 0) > MaxUint64
              ==> r == (if s[0] == '-' then MinInt64 else MaxInt64)
  {
    if |s| == 0 then 0
    else
      var neg := s[0] == '-';
      var body := Unsigned(s);
      ScanNumeral(body, base);
      ScanPrefixes(body, base);
      var scanned := if |body| == 0 then SyntaxError else ScanDigits(body, base, 0);
      match scanned
      case SyntaxError => 0
      case RangeError => if neg then MinInt64 else MaxInt64
      case Value(n) => if neg then ClampInt64(-(n as int)) else ClampInt64(n)
  }

  /** ParseInt in base 2 inverts FormatInt on every int64. */
  lemma ParseFormatRoundTrip(v: int)
    requires IsInt64(v)
    ensures ParseInt(FormatInt(v), 2) == v
  {
    var s := FormatInt(v);
    if v < 0 {
      BitsValue(-v);
      assert s[0] == '-' && AllDigitsIn(s[1..], 2);
    } else {
      BitsValue(v);
    }
  }

  /** Atoi applied to FormatInt's output: the binary digits read as a decimal numeral,
      with the sign, saturated to 64 bits. */
  lemma AtoiOfFormatInt(v: int)
    ensures v < 0 ==> ParseInt(FormatInt(v), 10) == ClampInt64(-(Numeral(Bits(-v), 10, 0) as int))
    ensures v >= 0 ==> ParseInt(FormatInt(v), 10) == ClampInt64(Numeral(Bits(v), 10, 0))
  {
    var s := FormatInt(v);
    if v < 0 {
      assert AllDigitsIn(s[1..], 10);
    } else {
      assert AllDigitsIn(s, 10);
    }
  }
}
