/** Numbers written out in file names: no two are written alike, and a name can be told apart where the digits stop. */
module Decimal {
  predicate IsDigit(c: char) {
    '0' <= c <= '9'
  }

  function Digit(d: nat): char
    requires d < 10
  {
    ['0', '1', '2', '3', '4', '5', '6', '7', '8', '9'][d]
  }

  function Dec(n: nat): (s: string)
    ensures s != [] && forall c <- s :: IsDigit(c)
  {
    if n < 10 then [Digit(n)] else Dec(n / 10) + [Digit(n % 10)]
  }

  /** What a string of digits stands for. */
  function ValueOf(s: string): int {
    if s == [] then 0 else 10 * ValueOf(s[..|s| - 1]) + (s[|s| - 1] as int - '0' as int)
  }

  lemma {:induction false} DecReadsBack(n: nat)
    ensures ValueOf(Dec(n)) == n
  {
    if n < 10 {
      assert Dec(n)[..0] == [];
    } else {
      DecReadsBack(n / 10);
      assert Dec(n)[..|Dec(n)| - 1] == Dec(n / 10);
    }
  }

  lemma DigitInjective(a: nat, b: nat)
    requires a < 10 && b < 10 && Digit(a) == Digit(b)
    ensures a == b
  {}

  lemma {:induction false} DecInjective(a: nat, b: nat)
    requires Dec(a) == Dec(b)
    ensures a == b
  {
    var s, t := Dec(a), Dec(b);
    LastDigit(a);
    LastDigit(b);
    DigitInjective(a % 10, b % 10);
    if a >= 10 && b >= 10 {
      assert s[..|s| - 1] == Dec(a / 10) && t[..|t| - 1] == Dec(b / 10);
      DecInjective(a / 10, b / 10);
    }
  }

  lemma LastDigit(n: nat)
    ensures Dec(n)[|Dec(n)| - 1] == Digit(n % 10)
    ensures |Dec(n)| == 1 <==> n < 10
  {}

  /** Whether digits end here: nothing left, or something that is not a digit. */
  predicate Stops(rest: string) {
    rest == [] || !IsDigit(rest[0])
  }

  lemma LongerRunOfDigits(s: string, x: string, t: string, y: string)
    requires (forall c <- t :: IsDigit(c)) && |s| < |t| && s + x == t + y
    ensures !Stops(x)
  {
    assert x[0] == (s + x)[|s|] == (t + y)[|s|] == t[|s|];
    assert t[|s|] in t;
  }

  lemma SameDigits(s: string, x: string, t: string, y: string)
    requires (forall c <- s :: IsDigit(c)) && (forall c <- t :: IsDigit(c)) && Stops(x) && Stops(y) && s + x == t + y
    ensures s == t && x == y
  {
    if |s| < |t| {
      LongerRunOfDigits(s, x, t, y);
    } else if |t| < |s| {
      LongerRunOfDigits(t, y, s, x);
    } else {
      assert s == (s + x)[..|s|] == (t + y)[..|t|] == t;
      assert x == (s + x)[|s|..] == (t + y)[|t|..] == y;
    }
  }

  /** A number followed by something that is not a digit can be read back. */
  lemma SameNumber(a: nat, x: string, b: nat, y: string)
    requires Stops(x) && Stops(y) && Dec(a) + x == Dec(b) + y
    ensures a == b && x == y
  {
    SameDigits(Dec(a), x, Dec(b), y);
    DecInjective(a, b);
  }
}
