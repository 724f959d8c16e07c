/** Lesson2 ValidParentheses: a stack matcher for the three bracket pairs that ignores
    every other character. It accepts exactly the strings whose bracket subsequence is
    well nested, where "well nested" is defined independently of any stack: the string
    reduces to nothing by repeatedly cancelling an adjacent matching pair. */
module Parentheses {
  import opened Results

  predicate IsOpen(c: char) {
    c == '(' || c == '[' || c == '{'
  }

  /** The `brackets` map of the source: closing bracket to its opening partner. */
  function Opener(c: char): Option<char> {
    if c == ')' then Some('(')
    else if c == ']' then Some('[')
    else if c == '}' then Some('{')
    else None
  }

  predicate IsBracket(c: char) {
    IsOpen(c) || Opener(c).Some?
  }

  /** `o` followed by `c` is a matching pair such as "()". */
  predicate MatchingPair(o: char, c: char) {
    Opener(c) == Some(o)
  }

  /** The bracket characters of `s`, in order. */
  function Brackets(s: seq<char>): (r: seq<char>)
    ensures forall i :: 0 <= i < |r| ==> IsBracket(r[i])
    ensures |r| <= |s|
  {
    if |s| == 0 then []
    else if IsBracket(s[0]) then [s[0]] + Brackets(s[1..])
    else Brackets(s[1..])
  }

  /** The reference definition: `t` cancels down to the empty string, one adjacent
      matching pair at a time. */
  ghost predicate Reduces(t: seq<char>)
    decreases |t|
  {
    |t| == 0 ||
    exists i :: 0 <= i < |t| - 1 && MatchingPair(t[i], t[i + 1]) && Reduces(t[..i] + t[i + 2..])
  }

  ghost predicate WellNested(s: seq<char>) {
    Reduces(Brackets(s))
  }

  /** One iteration of the source loop: push an opener, pop a matching closer, fail on a
      closer with an empty stack or a wrong top, skip anything else. */
  function Step(stack: seq<char>, c: char): Option<seq<char>> {
    if IsOpen(c) then Some(stack + [c])
    else if Opener(c).Some? then
      if |stack| == 0 || stack[|stack| - 1] != Opener(c).value then None
      else Some(stack[..|stack| - 1])
    else Some(stack)
  }

  /** The whole loop from a given stack: None when it returns false early. */
  function Run(stack: seq<char>, s: seq<char>): Option<seq<char>>
    decreases |s|
  {
    if |s| == 0 then Some(stack)
    else match Step(stack, s[0])
      case None => None
      case Some(next) => Run(next, s[1..])
  }

  // ---------------------------------------------------------------- the matcher

  lemma {:induction false} RunConcat(stack: seq<char>, a: seq<char>, b: seq<char>)
    ensures Run(stack, a + b) == match Run(stack, a) case None => None case Some(x) => Run(x, b)
    decreases |a|
  {
    if |a| == 0 {
      assert a + b == b;
    } else {
      assert (a + b)[0] == a[0];
      assert (a + b)[1..] == a[1..] + b;
      match Step(stack, a[0])
      case None =>
      case Some(next) => RunConcat(next, a[1..], b);
    }
  }

  /** Skipping non-bracket characters is the same as running on the bracket subsequence. */
  lemma {:induction false} RunBrackets(stack: seq<char>, s: seq<char>)
    ensures Run(stack, s) == Run(stack, Brackets(s))
    decreases |s|
  {
    if |s| > 0 {
      if IsBracket(s[0]) {
        var t := Brackets(s);
        assert t[0] == s[0] && t[1..] == Brackets(s[1..]);
        match Step(stack, s[0])
        case None =>
        case Some(next) => RunBrackets(next, s[1..]);
      } else {
        RunBrackets(stack, s[1..]);
      }
    }
  }

  /** Completeness: when the loop, started on `stack`, ends with an empty stack, the
      stack's contents followed by the input cancel down to nothing. */
  lemma {:induction false} RunEmptiesReduces(stack: seq<char>, t: seq<char>)
    requires forall i :: 0 <= i < |t| ==> IsBracket(t[i])
    requires Run(stack, t) == Some([])
    ensures Reduces(stack + t)
    decreases |t|
  {
    if |t| == 0 {
      assert stack + t == [];
    } else if IsOpen(t[0]) {
      RunEmptiesReduces(stack + [t[0]], t[1..]);
      assert (stack + [t[0]]) + t[1..] == stack + t;
    } else {
      var n := |stack|;
      assert Step(stack, t[0]).Some?;
      var below := stack[..n - 1];
      assert Step(stack, t[0]) == Some(below);
      RunEmptiesReduces(below, t[1..]);
      var u := stack + t;
      assert u[n - 1] == stack[n - 1] && u[n] == t[0];
      assert MatchingPair(u[n - 1], u[n]);
      assert u[..n - 1] + u[n + 1..] == below + t[1..] by {
        assert u[..n - 1] == below;
        assert u[n + 1..] == t[1..];
      }
    }
  }

  /** A matching pair leaves any stack as it was. */
  lemma RunPair(stack: seq<char>, o: char, c: char)
    requires MatchingPair(o, c)
    ensures Run(stack, [o, c]) == Some(stack)
  {
    assert IsOpen(o);
    assert Step(stack, o) == Some(stack + [o]);
    assert Step(stack + [o], c) == Some(stack) by {
      assert (stack + [o])[..|stack|] == stack;
    }
    assert [o, c][1..] == [c];
    assert Run(stack + [o], [c]) == Run(stack, []) by {
      assert [c][1..] == [];
    }
  }

  lemma Around(t: seq<char>, i: nat)
    requires i < |t| - 1
    ensures t == t[..i] + ([t[i], t[i + 1]] + t[i + 2..])
  {
  }

  /** Soundness: a string that cancels down to nothing runs to an empty stack. */
  lemma {:induction false} ReducesRunsEmpty(t: seq<char>)
    requires Reduces(t)
    ensures Run([], t) == Some([])
    decreases |t|
  {
    if |t| > 0 {
      var i :| 0 <= i < |t| - 1 && MatchingPair(t[i], t[i + 1]) && Reduces(t[..i] + t[i + 2..]);
      var a, p, b := t[..i], [t[i], t[i + 1]], t[i + 2..];
      ReducesRunsEmpty(a + b);
      RunConcat([], a, b);
      var x := Run([], a).value;
      RunPair(x, t[i], t[i + 1]);
      RunConcat(x, p, b);
      assert Run(x, p + b) == Some([]);
      Around(t, i);
      RunConcat([], a, p + b);
    }
  }

  /** The stack matcher accepts exactly the well-nested strings. */
  lemma RunIffWellNested(s: seq<char>)
    ensures Run([], s) == Some([]) <==> WellNested(s)
  {
    RunBrackets([], s);
    if Run([], s) == Some([]) {
      RunEmptiesReduces([], Brackets(s));
      assert [] + Brackets(s) == Brackets(s);
    }
    if WellNested(s) {
      ReducesRunsEmpty(Brackets(s));
    }
  }

  /** ValidParentheses, with the source's loop and early return. */
  method ValidParentheses(s: seq<char>) returns (r: bool)
    ensures r <==> WellNested(s)
  {
    var stack: seq<char> := [];
    var i := 0;
    while i < |s|
      invariant 0 <= i <= |s|
      invariant Run([], s[..i]) == Some(stack)
    {
      var c := s[i];
      assert s[..i + 1] == s[..i] + [c];
      RunConcat([], s[..i], [c]);
      if IsOpen(c) {
        stack := stack + [c];
      } else if Opener(c).Some? {
        if |stack| == 0 || stack[|stack| - 1] != Opener(c).value {
          assert s == s[..i + 1] + s[i + 1..];
          RunConcat([], s[..i + 1], s[i + 1..]);
          RunIffWellNested(s);
          return false;
        }
        stack := stack[..|stack| - 1];
      }
      i := i + 1;
    }
    assert s[..i] == s;
    RunIffWellNested(s);
    r := |stack| == 0;
  }

  lemma AcceptsPair()
    ensures WellNested("()")
  {
    RunIffWellNested("()");
  }

  lemma AcceptsSideBySide()
    ensures WellNested("()[]{}")
  {
    var s := "()[]{}";
    assert s == "()" + ("[]" + "{}");
    RunPair([], '(', ')');
    RunPair([], '[', ']');
    RunPair([], '{', '}');
    RunConcat([], "[]", "{}");
    RunConcat([], "()", "[]" + "{}");
    RunIffWellNested(s);
  }

  /** A matching pair directly inside another cancels to nothing. */
  lemma ReducesNested(o1: char, c1: char, o2: char, c2: char)
    requires MatchingPair(o1, c1) && MatchingPair(o2, c2)
    ensures Reduces([o1, o2, c2, c1])
  {
    var t := [o1, o2, c2, c1];
    var u := [o1, c1];
    assert u[..0] + u[2..] == [];
    assert Reduces(u[..0] + u[2..]);
    assert MatchingPair(u[0], u[1]);
    assert Reduces(u);
    assert t[..1] + t[3..] == u;
    assert MatchingPair(t[1], t[2]);
  }

  lemma AcceptsSquareInCurly()
    ensures WellNested("{[]}")
  {
    assert Brackets("{[]}") == "{[]}";
    ReducesNested('{', '}', '[', ']');
  }

  lemma AcceptsCurlyInSquare()
    ensures WellNested("[{}]")
  {
    assert Brackets("[{}]") == "[{}]";
    ReducesNested('[', ']', '{', '}');
  }

  /** The sample calls at the top of the source file that return true. */
  lemma AcceptedExamples()
    ensures WellNested("()") && WellNested("()[]{}") && WellNested("{[]}") && WellNested("[{}]")
  {
    AcceptsPair();
    AcceptsSideBySide();
    AcceptsSquareInCurly();
    AcceptsCurlyInSquare();
  }

  lemma RejectsMismatch()
    ensures !WellNested("(]")
  {
    var s := "(]";
    assert Run([], s) != Some([]);
    RunIffWellNested(s);
  }

  lemma RejectsCrossed()
    ensures !WellNested("([)]")
  {
    var s := "([)]";
    assert Run([], s) != Some([]);
    RunIffWellNested(s);
  }

  lemma RejectsCrossedNested()
    ensures !WellNested("[{]}")
  {
    var s := "[{]}";
    assert Run([], s) != Some([]);
    RunIffWellNested(s);
  }

  /** Openers only are pushed, in order: the run ends with all of them on the stack. */
  lemma {:induction false} RunPushesOpeners(stack: seq<char>, s: seq<char>)
    requires forall i :: 0 <= i < |s| ==> IsOpen(s[i])
    ensures Run(stack, s) == Some(stack + s)
    decreases |s|
  {
    if |s| == 0 {
      assert stack + s == stack;
    } else {
      assert Step(stack, s[0]) == Some(stack + [s[0]]);
      RunPushesOpeners(stack + [s[0]], s[1..]);
      assert stack + [s[0]] + s[1..] == stack + s;
    }
  }

  /** `n` copies of '('. */
  function Openers(n: nat): (r: seq<char>)
    ensures |r| == n && forall i :: 0 <= i < n ==> r[i] == '('
  {
    if n == 0 then [] else "(" + Openers(n - 1)
  }

  lemma {:induction false} OpenersAppend(m: nat, n: nat)
    ensures Openers(m + n) == Openers(m) + Openers(n)
    decreases m
  {
    if m > 0 {
      OpenersAppend(m - 1, n);
      assert "(" + (Openers(m - 1) + Openers(n)) == ("(" + Openers(m - 1)) + Openers(n);
    }
  }

  /** The run in the last sample call is 49 openers. */
  lemma SampleRunIsOpeners()
    ensures Openers(49) == "((((((((((((((((((((((((((((((((((((((((((((((((("
  {
    var e := "((((((((";
    assert Openers(8) == e;
    OpenersAppend(8, 1);
    OpenersAppend(8, 9);
    OpenersAppend(8, 17);
    OpenersAppend(8, 25);
    OpenersAppend(8, 33);
    OpenersAppend(8, 41);
    assert Openers(49) == e + e + e + e + e + e + "(";
  }

  /** A run of one or more '(', of any length, is never well nested. */
  lemma RejectsUnclosed(n: nat)
    requires n >= 1
    ensures !WellNested(Openers(n))
  {
    var s := Openers(n);
    RunPushesOpeners([], s);
    assert [] + s == s;
    RunIffWellNested(s);
  }

  /** The sample calls at the top of the source file that return false, the run of 49
      openers among them. */
  lemma RejectedExamples()
    ensures !WellNested("(]") && !WellNested("([)]") && !WellNested("[{]}")
    ensures !WellNested("(((((((((((((((((((((((((((((((((((((((((((((((((")
  {
    RejectsMismatch();
    RejectsCrossed();
    RejectsCrossedNested();
    RejectsUnclosed(49);
    SampleRunIsOpeners();
  }
}
