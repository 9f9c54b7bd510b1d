/** Decimal numbers and strings with separators, as keys are built from and parsed into. */
module Text {
  import opened Wrappers

  // ---- decimal numbers ----

  function Digit(d: nat): char
    requires d < 10
  {
    ('0' as int + d) as char
  }

  predicate IsDigit(c: char) {
    '0' <= c <= '9'
  }

  function Digits(n: nat): (s: string)
    ensures s != "" && forall c | c in s :: IsDigit(c)
  {
    if n < 10 then [Digit(n)] else Digits(n / 10) + [Digit(n % 10)]
  }

  function FromDigits(s: string): Option<nat> {
    if s == "" then Some(0)
    else
      var last, front := s[|s| - 1], FromDigits(s[..|s| - 1]);
      if front.Some? && IsDigit(last) then Some(10 * front.value + (last as int - '0' as int)) else None
  }

  function Print(x: int): string {
    if x < 0 then "-" + Digits(-x) else Digits(x)
  }

  /** An optional sign and at least one digit. */
  function ParseInt(s: string): Option<int> {
    if s == "" then None
    else
      var signed := s[0] == '-' || s[0] == '+';
      var n := FromDigits(if signed then s[1..] else s);
      if n.None? || (signed && |s| == 1) then None
      else
        var value: int := n.value;
        Some(if s[0] == '-' then -value else value)
  }

  /** The number, or 0 for what is not one. */
  function Atoi(s: string): int {
    var n := ParseInt(s);
    if n.Some? then n.value else 0
  }

  lemma {:induction false} DigitsRoundTrip(n: nat)
    ensures FromDigits(Digits(n)) == Some(n)
  {
    if n < 10 {
      assert [Digit(n)][..0] == "";
    } else {
      DigitsRoundTrip(n / 10);
      assert Digits(n)[..|Digits(n)| - 1] == Digits(n / 10);
    }
  }

  lemma PrintRoundTrip(x: int)
    ensures ParseInt(Print(x)) == Some(x) && Atoi(Print(x)) == x
  {
    DigitsRoundTrip(if x < 0 then -x else x);
    assert IsDigit(Digits(if x < 0 then -x else x)[0]);
    if x < 0 {
      assert Print(x)[1..] == Digits(-x);
    }
  }

  lemma PrintInjective(x: int, y: int)
    requires Print(x) == Print(y)
    ensures x == y
  {
    PrintRoundTrip(x);
    PrintRoundTrip(y);
  }

  lemma PrintPlain(x: int, c: char)
    requires !IsDigit(c) && c != '-'
    ensures c !in Print(x)
  {
  }

  // ---- separators ----

  function Join(a: string, c: char, b: string): string {
    a + [c] + b
  }

  /** The parts between the separators; always at least one. */
  function Split(s: string, c: char): (parts: seq<string>)
    ensures parts != []
  {
    if s == "" then [""]
    else if s[0] == c then [""] + Split(s[1..], c)
    else
      var rest := Split(s[1..], c);
      [[s[0]] + rest[0]] + rest[1..]
  }

  lemma {:induction false} SplitJoin(a: string, c: char, b: string)
    requires c !in a
    ensures Split(Join(a, c, b), c) == [a] + Split(b, c)
  {
    if a == "" {
      assert Join(a, c, b)[1..] == b;
    } else {
      assert a[0] in a && Join(a, c, b)[1..] == Join(a[1..], c, b);
      SplitJoin(a[1..], c, b);
      assert [a[0]] + a[1..] == a;
    }
  }

  lemma {:induction false} SplitPlain(a: string, c: char)
    requires c !in a
    ensures Split(a, c) == [a]
  {
    if a != "" {
      assert a[0] in a;
      SplitPlain(a[1..], c);
      assert [a[0]] + a[1..] == a;
    }
  }

  /** A string with the separator in it is some part without it, the separator, and the rest. */
  lemma {:induction false} FirstSeparator(s: string, c: char) returns (a: string, b: string)
    requires c in s
    ensures s == Join(a, c, b) && c !in a
  {
    if s[0] == c {
      a, b := "", s[1..];
    } else {
      a, b := FirstSeparator(s[1..], c);
      a := [s[0]] + a;
    }
  }

  /** Two joins are equal exactly when their parts are, or one first part continues the other across a separator. */
  lemma JoinEqualIff(a1: string, a2: string, c: char, b1: string, b2: string)
    ensures Join(a1, c, b1) == Join(a2, c, b2) <==>
              || (a1 == a2 && b1 == b2)
              || (exists t :: a1 == Join(a2, c, t) && b2 == Join(t, c, b1))
              || (exists t :: a2 == Join(a1, c, t) && b1 == Join(t, c, b2))
  {
    if Join(a1, c, b1) == Join(a2, c, b2) {
      if |a1| == |a2| {
        assert a1 == Join(a1, c, b1)[..|a1|] == a2;
        assert b1 == Join(a1, c, b1)[|a1| + 1..] == b2;
      } else if |a1| > |a2| {
        JoinOverlap(a1, a2, c, b1, b2);
      } else {
        JoinOverlap(a2, a1, c, b2, b1);
      }
    }
    forall t
      ensures a1 == Join(a2, c, t) && b2 == Join(t, c, b1) ==> Join(a1, c, b1) == Join(a2, c, b2)
      ensures a2 == Join(a1, c, t) && b1 == Join(t, c, b2) ==> Join(a1, c, b1) == Join(a2, c, b2)
    {
      assert Join(Join(a2, c, t), c, b1) == Join(a2, c, Join(t, c, b1));
      assert Join(Join(a1, c, t), c, b2) == Join(a1, c, Join(t, c, b2));
    }
  }

  lemma JoinOverlap(a1: string, a2: string, c: char, b1: string, b2: string)
    requires Join(a1, c, b1) == Join(a2, c, b2) && |a1| > |a2|
    ensures exists t :: a1 == Join(a2, c, t) && b2 == Join(t, c, b1)
  {
    var s := Join(a1, c, b1);
    assert s[..|a1|] == a1 && s[..|a2|] == a2 && s[|a2|] == c;
    var t := a1[|a2| + 1..];
    assert a1[..|a2|] == s[..|a1|][..|a2|] == a2;
    assert a1 == Join(a2, c, t);
    assert b2 == Join(a2, c, b2)[|a2| + 1..] == s[|a2| + 1..] == Join(t, c, b1);
  }

  /** First parts without the separator are told apart. */
  lemma JoinInjective(a1: string, a2: string, c: char, b1: string, b2: string)
    requires c !in a1 && c !in a2 && Join(a1, c, b1) == Join(a2, c, b2)
    ensures a1 == a2 && b1 == b2
  {
    SplitJoin(a1, c, b1);
    SplitJoin(a2, c, b2);
    assert a1 == Split(Join(a1, c, b1), c)[0] == a2;
    assert b1 == Join(a1, c, b1)[|a1| + 1..] == b2;
  }

  /** So are last parts without it, whatever the first parts hold. */
  lemma JoinInjectiveLast(a1: string, a2: string, c: char, b1: string, b2: string)
    requires c !in b1 && c !in b2 && Join(a1, c, b1) == Join(a2, c, b2)
    ensures a1 == a2 && b1 == b2
  {
    JoinEqualIff(a1, a2, c, b1, b2);
    assert forall t, b: string :: c in Join(t, c, b) by {
      forall t, b: string
        ensures c in Join(t, c, b)
      {
        assert Join(t, c, b)[|t|] == c;
      }
    }
  }
}
