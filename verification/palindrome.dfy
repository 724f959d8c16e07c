/** Lesson2 isBinaryPalindrome: format `n` in base 2 and compare characters from both
    ends. A mismatch clears the result and the loop runs on; nothing sets it back. */
module BinaryPalindrome {
  import opened StrConv
  import opened Sequences

  method IsBinaryPalindrome(n: int) returns (r: bool, s: seq<char>)
    ensures s == FormatInt(n)
    ensures r <==> s == Reverse(s)
  {
    r := true;
    s := FormatInt(n);
    var i, j := 0, |s| - 1;
    while i < j
      invariant 0 <= i <= |s| && j == |s| - 1 - i
      invariant r <==> forall k :: 0 <= k < i ==> s[k] == s[|s| - 1 - k]
    {
      if s[i] != s[j] {
        r := false;
      }
      i, j := i + 1, j - 1;
    }
    assert r <==> forall k :: 0 <= k < |s| ==> s[k] == s[|s| - 1 - k] by {
      if r {
        forall k | 0 <= k < |s|
          ensures s[k] == s[|s| - 1 - k]
        {
          if k >= i {
            var m := |s| - 1 - k;
            assert m <= i;
            if m < i {
              assert s[m] == s[|s| - 1 - m];
            }
          }
        }
      }
    }
    var rev := Reverse(s);
    assert s == rev <==> forall k :: 0 <= k < |s| ==> s[k] == rev[k];
  }

  /** A negative number starts with '-' and ends with a binary digit. */
  lemma NegativeIsNotPalindrome(n: int)
    requires n < 0
    ensures FormatInt(n) != Reverse(FormatInt(n))
  {
    var s := FormatInt(n);
    assert s[|s| - 1] == Bits(-n)[|Bits(-n)| - 1];
    assert Reverse(s)[0] == s[|s| - 1];
  }

  /** Numbers from the sample list in the source file. */
  lemma Examples()
    ensures FormatInt(9) == "1001" && FormatInt(9) == Reverse(FormatInt(9))
    ensures FormatInt(34) == "100010" && FormatInt(34) != Reverse(FormatInt(34))
    ensures FormatInt(0) == "0" && FormatInt(0) == Reverse(FormatInt(0))
  {
    var s := FormatInt(34);
    assert Reverse(s)[0] == s[5];
  }
}
