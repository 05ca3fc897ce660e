/** Unsigned bit operations on natural numbers, and the arithmetic they stand for. */
module Bits {
  import opened Common

  function Pow2(k: nat): (p: nat)
    ensures p > 0
  {
    if k == 0 then 1 else 2 * Pow2(k - 1)
  }

  function And(a: nat, b: nat): nat {
    if a == 0 || b == 0 then 0 else 2 * And(a / 2, b / 2) + if a % 2 == 1 && b % 2 == 1 then 1 else 0
  }

  function Or(a: nat, b: nat): nat
    decreases a + b
  {
    if a == 0 && b == 0 then 0 else 2 * Or(a / 2, b / 2) + if a % 2 == 1 || b % 2 == 1 then 1 else 0
  }

  /** `x << k` on u64. */
  function Shl64(x: nat, k: nat): nat {
    x * Pow2(k) % U64_RANGE
  }

  lemma Shl64Exact(x: nat, k: nat)
    requires x * Pow2(k) < U64_RANGE
    ensures Shl64(x, k) == x * Pow2(k)
  {
  }

  /** `x >> k`. */
  function Shr(x: nat, k: nat): nat {
    if k == 0 then x else Shr(x / 2, k - 1)
  }

  lemma ShrSmall(x: nat)
    ensures Shr(x, 3) == x / 8 && Shr(x, 6) == x / 64
  {
    var h := x / 2 / 2 / 2;
    assert Shr(x, 3) == Shr(x / 2 / 2, 1) == h;
    assert Shr(x, 6) == Shr(x / 2 / 2, 4) == Shr(h, 3);
    assert Shr(h, 3) == Shr(h / 2 / 2, 1) == h / 2 / 2 / 2;
    assert h == x / 8;
  }

  lemma {:induction false} Pow2Adds(j: nat, k: nat)
    ensures Pow2(j + k) == Pow2(j) * Pow2(k)
  {
    if j > 0 {
      Pow2Adds(j - 1, k);
      assert Pow2(j) * Pow2(k) == 2 * (Pow2(j - 1) * Pow2(k));
    }
  }

  lemma {:induction false} Pow2Monotone(j: nat, k: nat)
    requires j <= k
    ensures Pow2(j) <= Pow2(k)
  {
    if j < k {
      Pow2Monotone(j, k - 1);
    }
  }

  lemma Pow2Small()
    ensures Pow2(3) == 8 && Pow2(6) == 64 && Pow2(8) == 256
  {
    assert Pow2(3) == 8;
    assert Pow2(6) == 64;
  }

  lemma Pow2Large()
    ensures Pow2(41) == 0x200_0000_0000 && Pow2(64) == U64_RANGE
  {
    Pow2Small();
    Pow2Adds(8, 8);
    Pow2Adds(16, 16);
    Pow2Adds(32, 32);
    Pow2Adds(32, 8);
    assert Pow2(16) == 65536 && Pow2(32) == 0x1_0000_0000;
    assert Pow2(41) == 2 * Pow2(40);
  }

  lemma {:induction false} OrZero(b: nat)
    ensures Or(0, b) == b
  {
    if b > 0 {
      OrZero(b / 2);
    }
  }

  /** Bits placed above all the bits of `a` are simply added. */
  lemma {:induction false} OrAbove(a: nat, b: nat, k: nat)
    requires a < Pow2(k)
    ensures Or(a, b * Pow2(k)) == a + b * Pow2(k)
  {
    if k == 0 {
      OrZero(b);
    } else {
      var high := b * Pow2(k - 1);
      assert b * Pow2(k) == 2 * high;
      OrAbove(a / 2, b, k - 1);
      OrHalves(a, 2 * high);
    }
  }

  lemma OrHalves(a: nat, b: nat)
    ensures Or(a, b) == 2 * Or(a / 2, b / 2) + if a % 2 == 1 || b % 2 == 1 then 1 else 0
  {
  }

  lemma AndHalves(a: nat, b: nat)
    ensures And(a, b) == 2 * And(a / 2, b / 2) + if a % 2 == 1 && b % 2 == 1 then 1 else 0
  {
  }

  /** The mask 0x1b selects bits 0, 1, 3 and 4. */
  lemma MaskReserved(d: byte)
    ensures And(d, 0x1b) != 0 <==> d % 4 != 0 || d / 8 % 2 == 1 || d / 16 % 2 == 1
  {
    var n: nat := d;
    var n1, n2, n3, n4 := n / 2, n / 2 / 2, n / 2 / 2 / 2, n / 2 / 2 / 2 / 2;
    AndHalves(n, 0x1b);
    AndHalves(n1, 0xd);
    AndHalves(n2, 6);
    AndHalves(n3, 3);
    AndHalves(n4, 1);
    assert n2 == n / 4 && n3 == n / 8 && n4 == n / 16;
    assert n % 4 == 2 * (n1 % 2) + n % 2;
  }

  /** The mask 0x20 selects bit 5. */
  lemma MaskSingle(d: byte)
    ensures And(d, 0x20) != 0 <==> d / 32 % 2 == 1
  {
    var n: nat := d;
    var n1, n2, n3, n4 := n / 2, n / 2 / 2, n / 2 / 2 / 2, n / 2 / 2 / 2 / 2;
    AndHalves(n, 0x20);
    AndHalves(n1, 0x10);
    AndHalves(n2, 8);
    AndHalves(n3, 4);
    AndHalves(n4, 2);
    AndHalves(n4 / 2, 1);
    assert n4 / 2 == n / 32;
  }

  /** The mask 7 selects the low three bits. */
  lemma MaskLow3(d: byte)
    ensures And(d, 7) == d % 8
  {
    var n: nat := d;
    AndHalves(n, 7);
    AndHalves(n / 2, 3);
    AndHalves(n / 2 / 2, 1);
    assert n / 2 / 2 == n / 4;
    assert n % 8 == 4 * (n / 4 % 2) + 2 * (n / 2 % 2) + n % 2;
  }
}
