/** Lesson2 Increment: parse a binary string (errors discarded), add one in int64,
    format the sum in base 2, and read that string back with Atoi, that is, as a
    decimal numeral. The file's own table of expected values instead lists the parsed
    value plus one; `IncrementCorrected` is that reading. */
module Increment {
  import opened StrConv

  /** Increment as the source computes it: the base-2 digits of the int64 successor,
      read back as a decimal numeral with the sign kept, saturated to int64. */
  function Increment(num: seq<char>): (r: int)
    ensures IsInt64(r)
    ensures Successor(num) >= 0 ==> r == ClampInt64(Numeral(Bits(Successor(num)), 10, 0))
    ensures Successor(num) < 0 ==> r <= Successor(num)
  {
    DecimalReadBack(Successor(num))
  }

  /** The parsed value plus one, in int64 arithmetic. */
  function Successor(num: seq<char>): int {
    AddInt64(ParseInt(num, 2), 1)
  }

  /** strconv.Atoi(strconv.FormatInt(v, 2)): the base-2 digits of `v` read back as a
      decimal numeral, with the sign kept, saturated to int64. */
  function DecimalReadBack(v: int): (r: int)
    ensures IsInt64(r)
    ensures v >= 0 ==> r == ClampInt64(Numeral(Bits(v), 10, 0))
    ensures v < 0 ==> r == ClampInt64(-(Numeral(Bits(-v), 10, 0) as int))
    ensures IsInt64(v) && v < 0 ==> r <= v
    ensures IsInt64(v) && v >= 0 ==> r >= v
  {
    AtoiOfFormatInt(v);
    BitsAsDecimalExceeds(if v < 0 then -v else v);
    ParseInt(FormatInt(v), 10)
  }

  /** The value the table expects: the parsed value plus one, as int64 arithmetic. */
  function IncrementCorrected(num: seq<char>): (r: int)
    ensures IsInt64(r)
    ensures ParseInt(num, 2) < MaxInt64 ==> r == ParseInt(num, 2) + 1
    ensures ParseInt(num, 2) == MaxInt64 ==> r == MinInt64
  {
    AddInt64(ParseInt(num, 2), 1)
  }

  /** The table of inputs and expected results in the source's main function. */
  const TestCases: seq<(string, int)> := [
    ("0", 1), ("1", 2), ("10", 3), ("11", 4), ("100", 5), ("101", 6),
    ("110", 7), ("111", 8), ("1000", 9), ("1111", 16), ("101010", 43), ("111111", 64)
  ]

  /** For a parsed value below the int64 maximum, the result is the base-2 numeral of
      the value plus one, read in base 10 and saturated: a number whose decimal digits
      are all 0 or 1. */
  lemma IncrementReadsBinaryAsDecimal(num: seq<char>)
    requires ParseInt(num, 2) < MaxInt64
    ensures var next := ParseInt(num, 2) + 1;
            next >= 0 ==> Increment(num) == ClampInt64(Numeral(Bits(next), 10, 0)) && AllDigitsIn(Bits(next), 2)
  {
    var next := ParseInt(num, 2) + 1;
    AtoiOfFormatInt(next);
  }

  /** Input that is not a binary numeral parses as 0, so the result is 1. */
  lemma InvalidInputCountsAsZero()
    ensures Increment("") == 1
    ensures Increment("2") == 1
    ensures Increment("1a") == 1
    ensures Increment("-") == 1
  {
    assert Increment("") == 1 by {
      assert ParseInt("", 2) == 0;
      OneRoundTrip();
    }
    assert Increment("2") == 1 by {
      assert ParseInt("2", 2) == 0;
      OneRoundTrip();
    }
    assert Increment("1a") == 1 by {
      assert ParseInt("1a", 2) == 0;
      OneRoundTrip();
    }
    assert ParseInt("-", 2) == 0;
    OneRoundTrip();
  }

  /** One formats as "1", which Atoi reads back as 1. */
  lemma OneRoundTrip()
    ensures ParseInt(FormatInt(1), 10) == 1
  {
    assert FormatInt(1) == "1";
  }

  /** Incrementing the int64 maximum wraps to the minimum, whose numeral "-1000…0" is far
      below the int64 range as a decimal, so Atoi saturates. */
  lemma IncrementAtMaximumWraps()
    ensures Increment(FormatInt(MaxInt64)) == MinInt64
  {
    ParseFormatRoundTrip(MaxInt64);
    AtoiOfFormatInt(MinInt64);
    BitsAsDecimalExceeds(-MinInt64);
  }

  /** Whenever the successor has at least two binary digits and fits, the source's result
      is larger than the successor: it never equals the value the table asks for. */
  lemma IncrementExceedsSuccessor(num: seq<char>)
    requires 1 <= ParseInt(num, 2) && ParseInt(num, 2) + 1 < MaxInt64
    ensures Increment(num) > ParseInt(num, 2) + 1
  {
    var next := ParseInt(num, 2) + 1;
    IncrementReadsBinaryAsDecimal(num);
    BitsAsDecimalExceeds(next);
  }

  /** The three values the source gives for the first rows of its table. */
  lemma IncrementSmallValues()
    ensures Increment("0") == 1
    ensures Increment("1") == 10
    ensures Increment("10") == 11
  {
    ParseFormatRoundTrip(0);
    ParseFormatRoundTrip(1);
    ParseFormatRoundTrip(2);
    assert FormatInt(2) == "10";
    AtoiOfFormatInt(1);
    AtoiOfFormatInt(2);
    AtoiOfFormatInt(3);
    assert FormatInt(3) == "11";
  }

  lemma CorrectedMatchesFirstRows(i: nat)
    requires i < 4
    ensures IncrementCorrected(TestCases[i].0) == TestCases[i].1
  {
    if i == 0 {
      assert Bits(0) == "0";
      CorrectedIncrementsNumeral(0);
    } else if i == 1 {
      assert Bits(1) == "1";
      CorrectedIncrementsNumeral(1);
    } else if i == 2 {
      assert Bits(2) == "10";
      CorrectedIncrementsNumeral(2);
    } else {
      assert Bits(3) == "11";
      CorrectedIncrementsNumeral(3);
    }
  }

  lemma CorrectedMatchesMiddleRows(i: nat)
    requires 4 <= i < 8
    ensures IncrementCorrected(TestCases[i].0) == TestCases[i].1
  {
    if i == 4 {
      assert Bits(4) == "100";
      CorrectedIncrementsNumeral(4);
    } else if i == 5 {
      assert Bits(5) == "101";
      CorrectedIncrementsNumeral(5);
    } else if i == 6 {
      assert Bits(6) == "110";
      CorrectedIncrementsNumeral(6);
    } else {
      assert Bits(7) == "111";
      CorrectedIncrementsNumeral(7);
    }
  }

  lemma CorrectedMatchesLastRows(i: nat)
    requires 8 <= i < 12
    ensures IncrementCorrected(TestCases[i].0) == TestCases[i].1
  {
    if i == 8 {
      assert Bits(8) == "1000";
      CorrectedIncrementsNumeral(8);
    } else if i == 9 {
      assert Bits(15) == "1111";
      CorrectedIncrementsNumeral(15);
    } else if i == 10 {
      assert Bits(42) == "101010" by {
        assert Bits(21) == "10101";
      }
      CorrectedIncrementsNumeral(42);
    } else {
      assert Bits(63) == "111111" by {
        assert Bits(31) == "11111";
      }
      CorrectedIncrementsNumeral(63);
    }
  }

  lemma CorrectedMatchesTableRow(i: nat)
    requires i < |TestCases|
    ensures IncrementCorrected(TestCases[i].0) == TestCases[i].1
  {
    if i < 4 {
      CorrectedMatchesFirstRows(i);
    } else if i < 8 {
      CorrectedMatchesMiddleRows(i);
    } else {
      CorrectedMatchesLastRows(i);
    }
  }

  /** The corrected increment meets every row of the table. */
  lemma CorrectedMatchesTable()
    ensures forall i :: 0 <= i < |TestCases| ==> IncrementCorrected(TestCases[i].0) == TestCases[i].1
  {
    forall i | 0 <= i < |TestCases| {
      CorrectedMatchesTableRow(i);
    }
  }

  lemma IncrementMissesTableRow(i: nat)
    requires 1 <= i < |TestCases|
    ensures Increment(TestCases[i].0) != TestCases[i].1
  {
    CorrectedMatchesTableRow(i);
    IncrementExceedsSuccessor(TestCases[i].0);
  }

  /** The source's Increment meets the first row of its table and misses every other. */
  lemma IncrementMissesTable()
    ensures Increment(TestCases[0].0) == TestCases[0].1
    ensures forall i :: 1 <= i < |TestCases| ==> Increment(TestCases[i].0) != TestCases[i].1
  {
    IncrementSmallValues();
    forall i | 1 <= i < |TestCases| {
      IncrementMissesTableRow(i);
    }
  }

  /** The corrected increment inverts on the binary numeral of every value below the
      maximum: it returns that value plus one. */
  lemma CorrectedIncrementsNumeral(n: int)
    requires 0 <= n < MaxInt64
    ensures IncrementCorrected(FormatInt(n)) == n + 1
  {
    ParseFormatRoundTrip(n);
  }
}
