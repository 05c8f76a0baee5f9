/** Powers of two. */
module Powers {
  function Pow2(n: nat): nat
    ensures Pow2(n) >= 1
  {
    if n == 0 then 1 else 2 * Pow2(n - 1)
  }

  lemma {:induction false} Pow2Monotone(a: nat, b: nat)
    requires a <= b
    ensures Pow2(a) <= Pow2(b)
  {
    if a < b {
      Pow2Monotone(a, b - 1);
    }
  }

  lemma {:induction false} Pow2Double(a: nat)
    ensures Pow2(2 * a) == Pow2(a) * Pow2(a)
  {
    if a > 0 {
      Pow2Double(a - 1);
      calc {
        Pow2(2 * a);
        4 * Pow2(2 * (a - 1));
        4 * (Pow2(a - 1) * Pow2(a - 1));
        (2 * Pow2(a - 1)) * (2 * Pow2(a - 1));
      }
    }
  }

  lemma Pow2At63()
    ensures Pow2(63) == 0x8000_0000_0000_0000
  {
    Pow2At16();
    Pow2Double(16);
    Pow2Double(32);
    assert Pow2(64) == 2 * Pow2(63);
  }

  lemma Pow2At16()
    ensures Pow2(16) == 0x10000
  {
    assert Pow2(4) == 16;
    Pow2Double(4);
    Pow2Double(8);
  }
}
