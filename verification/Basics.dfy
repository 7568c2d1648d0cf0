/** Types and word arithmetic that several models share. */
module Basics {
  import Arith

  const TWO16: nat := 0x1_0000
  const TWO32: nat := 0x1_0000_0000

  datatype Option<+T> = None | Some(value: T)

  /** What a 32-bit unsigned variable holds after an assignment of `x`. */
  function Wrap32(x: int): (r: nat)
    ensures r < TWO32 && (0 <= x < TWO32 ==> r == x)
  {
    x % TWO32
  }

  lemma Wrap32Adds(a: int, b: int)
    ensures Wrap32(Wrap32(a) + b) == Wrap32(a + b)
  {
    var x := Wrap32(a) + b;
    Arith.RemainderUnique(a + b, TWO32, x / TWO32 + a / TWO32, x % TWO32);
  }

  function Pow2(k: nat): (p: nat)
    ensures p > 0
  {
    if k == 0 then 1 else 2 * Pow2(k - 1)
  }

  lemma {:induction false} Pow2Adds(a: nat, b: nat)
    ensures Pow2(a) * Pow2(b) == Pow2(a + b)
  {
    if a != 0 {
      Pow2Adds(a - 1, b);
      assert 2 * Pow2(a - 1) * Pow2(b) == 2 * (Pow2(a - 1) * Pow2(b));
    }
  }

  lemma Pow2Of8()
    ensures Pow2(8) == 256
  {
  }

  lemma Pow2Of32()
    ensures Pow2(32) == TWO32
  {
    hide Pow2;
    Pow2Of8();
    Pow2Adds(8, 8);
    Pow2Adds(16, 16);
  }
}
