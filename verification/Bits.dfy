/** Fixed-width words as numbers, their bits, and the C operators on them. */
module Bits {
  import opened MachineIntegers
  import opened Arithmetic

  function Pow2(k: nat): (p: nat)
    ensures p > 0
  {
    if k == 0 then 1 else 2 * Pow2(k - 1)
  }

  function Bit(n: nat, k: nat): (isSet: bool) {
    if k == 0 then n % 2 == 1 else Bit(n / 2, k - 1)
  }

  /** A bitwise operator on words of `w` bits. */
  function Bitwise(f: (bool, bool) -> bool, a: nat, b: nat, w: nat): (r: nat)
    ensures r < Pow2(w)
  {
    if w == 0 then 0
    else (if f(a % 2 == 1, b % 2 == 1) then 1 else 0) + 2 * Bitwise(f, a / 2, b / 2, w - 1)
  }

  const OR := (x: bool, y: bool) => x || y
  const AND := (x: bool, y: bool) => x && y
  const XOR := (x: bool, y: bool) => x != y

  lemma {:induction false} BitwiseBit(f: (bool, bool) -> bool, a: nat, b: nat, w: nat, k: nat)
    requires k < w
    ensures Bit(Bitwise(f, a, b, w), k) == f(Bit(a, k), Bit(b, k))
  {
    if k > 0 {
      assert Bitwise(f, a, b, w) / 2 == Bitwise(f, a / 2, b / 2, w - 1);
      BitwiseBit(f, a / 2, b / 2, w - 1, k - 1);
    }
  }

  lemma {:induction false} OrZero(a: nat, w: nat)
    requires a < Pow2(w)
    ensures Bitwise(OR, a, 0, w) == a
    decreases w
  {
    if w > 0 {
      OrZero(a / 2, w - 1);
    }
  }

  lemma HalfShifted(high: nat, p: nat)
    ensures high * (2 * p) % 2 == 0 && high * (2 * p) / 2 == high * p
  {
    assert high * (2 * p) == 2 * (high * p);
  }

  /** `|` adds when no bit is set on both sides. */
  lemma {:induction false} OrAdds(high: nat, low: nat, m: nat, w: nat)
    requires low < Pow2(m) && high * Pow2(m) + low < Pow2(w)
    ensures Bitwise(OR, high * Pow2(m), low, w) == high * Pow2(m) + low
    decreases w
  {
    if m == 0 {
      OrZero(high, w);
    } else if w > 0 {
      HalfShifted(high, Pow2(m - 1));
      OrAdds(high, low / 2, m - 1, w - 1);
    }
  }

  lemma {:induction false} Pow2Add(a: nat, b: nat)
    ensures Pow2(a + b) == Pow2(a) * Pow2(b)
  {
    if a > 0 {
      Pow2Add(a - 1, b);
    }
  }

  lemma Pow2Of32()
    ensures Pow2(8) == 0x100 && Pow2(16) == 0x1_0000 && Pow2(32) == U32
  {
    assert Pow2(4) == 16;
    Pow2Add(4, 4);
    Pow2Add(8, 8);
    Pow2Add(16, 16);
  }

  lemma {:induction false} BitSplit(a: nat, b: nat, w: nat, q: nat)
    requires a < Pow2(w)
    ensures Bit(a + Pow2(w) * b, q) == if q < w then Bit(a, q) else Bit(b, q - w)
    decreases w
  {
    var n := a + Pow2(w) * b;
    if w > 0 {
      assert Pow2(w) * b == 2 * (Pow2(w - 1) * b);
      assert n / 2 == a / 2 + Pow2(w - 1) * b && n % 2 == a % 2;
      if q > 0 {
        BitSplit(a / 2, b, w - 1, q - 1);
      }
    } else {
      assert n == b;
    }
  }

  /** `|` on 32-bit words. */
  function Or(a: nat, b: nat): (r: uint32) {
    Pow2Of32();
    Bitwise(OR, a, b, 32)
  }

  /** `&` on 32-bit words. */
  function And(a: nat, b: nat): (r: uint32) {
    Pow2Of32();
    Bitwise(AND, a, b, 32)
  }

  lemma {:induction false} Pow2Bit(j: nat, k: nat)
    ensures Bit(Pow2(j), k) <==> j == k
  {
    if j > 0 {
      assert Pow2(j) / 2 == Pow2(j - 1);
      if k > 0 {
        Pow2Bit(j - 1, k - 1);
      }
    } else if k > 0 {
      ZeroBit(k - 1);
    }
  }

  lemma {:induction false} ZeroBit(k: nat)
    ensures !Bit(0, k)
  {
    if k > 0 {
      ZeroBit(k - 1);
    }
  }

  lemma {:induction false} HighBit(n: nat, w: nat, k: nat)
    requires n < Pow2(w) && k >= w
    ensures !Bit(n, k)
    decreases w
  {
    if w == 0 {
      ZeroBit(k);
    } else {
      HighBit(n / 2, w - 1, k - 1);
    }
  }

  lemma {:induction false} SomeBit(n: nat, w: nat) returns (k: nat)
    requires 0 < n < Pow2(w)
    ensures k < w && Bit(n, k)
    decreases w
  {
    if n % 2 == 1 {
      k := 0;
    } else {
      k := SomeBit(n / 2, w - 1);
      k := k + 1;
    }
  }

  lemma OrBit(a: nat, b: nat, k: nat)
    requires k < 32
    ensures Bit(Or(a, b), k) == (Bit(a, k) || Bit(b, k))
  {
    BitwiseBit(OR, a, b, 32, k);
  }

  /** Testing a word against a single flag. */
  lemma AndTest(a: nat, j: nat)
    requires j < 32
    ensures And(a, Pow2(j)) != 0 <==> Bit(a, j)
  {
    BitwiseBit(AND, a, Pow2(j), 32, j);
    Pow2Bit(j, j);
    if And(a, Pow2(j)) != 0 {
      var k := SomeBit(And(a, Pow2(j)), 32);
      BitwiseBit(AND, a, Pow2(j), 32, k);
      Pow2Bit(j, k);
    } else {
      ZeroBit(j);
    }
  }
}
