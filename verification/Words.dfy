/**
 Bytes, and the bit operations that the bulk protocol uses to put two 16-bit numbers into one
 32-bit word, on natural numbers.
 */
module Words {

  type byte = bv8

  function Zeros(size: nat): (buf: seq<byte>)
    ensures |buf| == size
  {
    seq(size, _ => 0)
  }

  const HALF: nat := 0x1_0000
  const WORD: nat := 0x1_0000_0000

  /** Bitwise or. */
  function Or(a: nat, b: nat): (r: nat) {
    if a == 0 then b
    else if b == 0 then a
    else 2 * Or(a / 2, b / 2) + if a % 2 == 1 || b % 2 == 1 then 1 else 0
  }

  /** b shifted left by k bits. */
  function Shift(b: nat, k: nat): (r: nat) {
    if k == 0 then b else 2 * Shift(b, k - 1)
  }

  /** Numbers whose bits do not meet are added. */
  lemma {:induction false} OrAdds(a: nat, b: nat, k: nat)
    requires a < Shift(1, k)
    ensures Or(a, Shift(b, k)) == a + Shift(b, k)
  {
    if k > 0 && a > 0 && Shift(b, k) > 0 {
      OrAdds(a / 2, b, k - 1);
    }
  }

  lemma {:induction false} ShiftIs(b: nat, k: nat)
    ensures Shift(b, k) == b * Shift(1, k)
  {
    if k > 0 {
      ShiftIs(b, k - 1);
    }
  }

  /** `args | total << 16` on 32-bit words. */
  function WithTotal(args: nat, total: nat): (word: nat) {
    Or(args, Shift(total, 16) % WORD)
  }

  function Low(word: nat): (half: nat)
    ensures half < HALF
  {
    word % HALF
  }

  function High(word: nat): (half: nat) {
    word % WORD / HALF
  }

  lemma {:induction false} ShiftHalf(total: nat)
    ensures Shift(total, 16) == total * HALF
  {
    assert Shift(1, 4) == 16 by {
      assert Shift(1, 2) == 4;
    }
    assert Shift(1, 8) == 0x100 by {
      assert Shift(1, 6) == 0x40;
    }
    assert Shift(1, 12) == 0x1000 by {
      assert Shift(1, 10) == 0x400;
    }
    assert Shift(1, 16) == HALF by {
      assert Shift(1, 14) == 0x4000;
    }
    ShiftIs(total, 16);
  }

  lemma {:induction false} WithTotalAdds(args: nat, total: nat)
    requires args < HALF && total < HALF
    ensures WithTotal(args, total) == args + total * HALF
  {
    ShiftHalf(1);
    ShiftHalf(total);
    OrAdds(args, total, 16);
  }

  /** Both halves survive. */
  lemma {:induction false} WithTotalHalves(args: nat, total: nat)
    requires args < HALF && total < HALF
    ensures Low(WithTotal(args, total)) == args
    ensures High(WithTotal(args, total)) == total
  {
    WithTotalAdds(args, total);
  }
}
