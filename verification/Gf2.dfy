/**
 16-bit words as vectors over GF(2): exclusive or is addition, and parity is a linear form.
 Proofs elsewhere hide `Xor` and use only the laws here, so the solver never splits a word into bits.
 */
module Gf2 {

  function Xor(a: bv16, b: bv16): bv16 {
    a ^ b
  }

  lemma Comm(a: bv16, b: bv16)
    ensures Xor(a, b) == Xor(b, a)
  {}

  lemma Assoc(a: bv16, b: bv16, c: bv16)
    ensures Xor(Xor(a, b), c) == Xor(a, Xor(b, c))
  {}

  lemma Zero(a: bv16)
    ensures Xor(a, 0) == a && Xor(0, a) == a && Xor(a, a) == 0
  {}

  lemma Cancel(a: bv16, b: bv16)
    ensures Xor(Xor(a, b), b) == a
    ensures Xor(a, Xor(a, b)) == b
  {}

  /** Solving a + x == b. */
  lemma Solve(a: bv16, x: bv16, b: bv16)
    ensures Xor(a, x) == b <==> x == Xor(a, b)
  {
    hide Xor;
    Cancel(a, x);
    Cancel(a, b);
  }

  lemma Interchange(a: bv16, b: bv16, c: bv16, d: bv16)
    ensures Xor(Xor(a, b), Xor(c, d)) == Xor(Xor(a, c), Xor(b, d))
  {
    hide Xor;
    Assoc(a, b, Xor(c, d));
    Assoc(b, c, d);
    Comm(b, c);
    Assoc(c, b, d);
    Assoc(a, c, Xor(b, d));
  }

  lemma Halve(a: bv16, b: bv16)
    ensures Xor(a, b) >> 1 == Xor(a >> 1, b >> 1)
    ensures (Xor(a, b) & 1 == 1) <==> ((a & 1 == 1) != (b & 1 == 1))
  {
    assert (a ^ b) >> 1 == (a >> 1) ^ (b >> 1);
    assert (a ^ b) & 1 == (a & 1) ^ (b & 1);
    assert a & 1 == 0 || a & 1 == 1;
    assert b & 1 == 0 || b & 1 == 1;
  }

  /** How many ones the binary form of a word has. */
  function Ones(s: bv16): nat
    decreases s
  {
    if s == 0 then 0 else (if s & 1 == 1 then 1 else 0) + Ones(s >> 1)
  }

  predicate Odd(s: bv16) {
    Ones(s) % 2 == 1
  }

  lemma ZeroIsEven()
    ensures !Odd(0)
  {}

  lemma OddStep(s: bv16)
    ensures Odd(s) <==> ((s & 1 == 1) != Odd(s >> 1))
  {}

  /** Parity is linear: adding two words adds their parities. */
  lemma {:induction false} OddLinear(a: bv16, b: bv16)
    ensures Odd(Xor(a, b)) <==> (Odd(a) != Odd(b))
    decreases a, b
  {
    hide Odd, Xor;
    if a == 0 || b == 0 {
      Zero(a);
      Zero(b);
      ZeroIsEven();
    } else {
      assert a >> 1 < a;
      Halve(a, b);
      OddStep(a);
      OddStep(b);
      OddStep(Xor(a, b));
      OddLinear(a >> 1, b >> 1);
    }
  }
}
