/** Exclusive or and doubling on machine words, as arithmetic on the binary digits. */
module Bits {

  const WORD64 := 0x1_0000_0000_0000_0000
  const WORD63 := 0x8000_0000_0000_0000

  /** Digit by digit, the lowest first. */
  function Xor(a: nat, b: nat): nat
    decreases a + b
  {
    if a == 0 && b == 0 then 0 else 2 * Xor(a / 2, b / 2) + (a + b) % 2
  }

  /** A 64-bit word shifted left by one. */
  function Doubled(a: nat): nat {
    (2 * a) % WORD64
  }

  lemma XorParts(a: nat, b: nat)
    ensures Xor(a, b) / 2 == Xor(a / 2, b / 2) && Xor(a, b) % 2 == (a + b) % 2
  {
  }

  lemma SameParts(x: nat, y: nat)
    requires x / 2 == y / 2 && x % 2 == y % 2
    ensures x == y
  {
  }

  lemma SumParity(x: nat, y: nat, c: nat)
    requires x % 2 == y % 2
    ensures (x + c) % 2 == (y + c) % 2
  {
  }

  lemma XorPartsFrom(x: nat, c: nat, half: nat, parity: nat)
    requires x / 2 == half && x % 2 == parity % 2
    ensures Xor(x, c) / 2 == Xor(half, c / 2) && Xor(x, c) % 2 == (parity + c) % 2
  {
    XorParts(x, c);
    SumParity(x, parity, c);
  }

  lemma {:induction false} XorExchanges(a: nat, b: nat, c: nat)
    ensures Xor(Xor(a, b), c) == Xor(Xor(a, c), b)
    decreases a + b + c
  {
    if a + b + c > 0 {
      var ab, ac := Xor(a, b), Xor(a, c);
      var abHalf, acHalf := Xor(a / 2, b / 2), Xor(a / 2, c / 2);
      XorParts(a, b);
      XorParts(a, c);
      XorPartsFrom(ab, c, abHalf, a + b);
      XorPartsFrom(ac, b, acHalf, a + c);
      XorExchanges(a / 2, b / 2, c / 2);
      SameParts(Xor(ab, c), Xor(ac, b));
    }
  }

  lemma {:induction false} XorCommutes(a: nat, b: nat)
    ensures Xor(a, b) == Xor(b, a)
    decreases a + b
  {
    if a + b > 0 { XorCommutes(a / 2, b / 2); }
  }

  lemma ParityCancels(a: nat, b: nat, c: nat)
    requires (a + c) % 2 == (b + c) % 2
    ensures a % 2 == b % 2
  {
  }

  /** Nothing else changes a word in the same way. */
  lemma {:induction false} XorCancels(a: nat, b: nat, c: nat)
    requires Xor(a, c) == Xor(b, c)
    ensures a == b
    decreases a + b + c
  {
    if a + b + c > 0 {
      XorParts(a, c);
      XorParts(b, c);
      XorCancels(a / 2, b / 2, c / 2);
      ParityCancels(a, b, c);
      SameParts(a, b);
    }
  }

  function PowerOfTwo(n: nat): nat {
    if n == 0 then 1 else 2 * PowerOfTwo(n - 1)
  }

  /** The exclusive or of two words is a word. */
  lemma {:induction false} XorFits(a: nat, b: nat, n: nat)
    requires a < PowerOfTwo(n) && b < PowerOfTwo(n)
    ensures Xor(a, b) < PowerOfTwo(n)
  {
    if n > 0 {
      XorFits(a / 2, b / 2, n - 1);
      XorParts(a, b);
    }
  }

  lemma EightMore(n: nat)
    ensures PowerOfTwo(n + 8) == 0x100 * PowerOfTwo(n)
  {
    assert PowerOfTwo(n + 4) == 0x10 * PowerOfTwo(n) by {
      assert PowerOfTwo(n + 2) == 4 * PowerOfTwo(n);
    }
    assert PowerOfTwo(n + 6) == 4 * PowerOfTwo(n + 4);
  }

  lemma MachineWords()
    ensures PowerOfTwo(64) == WORD64
  {
    assert PowerOfTwo(0) == 1;
    EightMore(0);
    EightMore(8);
    EightMore(16);
    EightMore(24);
    EightMore(32);
    EightMore(40);
    EightMore(48);
    EightMore(56);
  }

  /** The exclusive or of two machine words is a machine word. */
  lemma XorIsAWord(a: nat, b: nat)
    requires a < WORD64 && b < WORD64
    ensures Xor(a, b) < WORD64
  {
    MachineWords();
    XorFits(a, b, 64);
  }

  lemma DoubledDigits(x: int)
    ensures Doubled(x % WORD64) == 2 * (x % WORD63)
  {
  }

  lemma SameRemainder(x: int, y: int)
    ensures x % WORD63 == y % WORD63 <==> (x - y) % WORD63 == 0
  {
  }

  /** Doubling forgets the highest digit and nothing else. */
  lemma DoubledTellsApart(x: int, y: int)
    ensures Doubled(x % WORD64) == Doubled(y % WORD64) <==> (x - y) % WORD63 == 0
  {
    DoubledDigits(x);
    DoubledDigits(y);
    SameRemainder(x, y);
  }
}
