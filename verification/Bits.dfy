/**
 Bit arithmetic on page frame numbers.

 Page frame numbers are natural numbers; C's `>>` and `^` are written out on
 their binary digits, so that the buddy computation is the XOR of the source
 and not an arithmetic stand-in for it.
 */
module Bits {

  /** `1 << k`. */
  function Pow2(k: nat): (r: nat)
    ensures r >= 1
  {
    if k == 0 then 1 else 2 * Pow2(k - 1)
  }

  /** `p >> k`. */
  function Shr(p: nat, k: nat): nat {
    if k == 0 then p else Shr(p / 2, k - 1)
  }

  /** `p << k`. */
  function Shl(p: nat, k: nat): nat {
    if k == 0 then p else 2 * Shl(p, k - 1)
  }

  /** `a ^ b`, digit by digit. */
  function Xor(a: nat, b: nat): nat
    decreases a + b
  {
    if a == 0 && b == 0 then 0 else 2 * Xor(a / 2, b / 2) + (a % 2 + b % 2) % 2
  }

  /** A block of order `o` may start at `p`. */
  predicate Aligned(p: nat, o: nat) {
    if o == 0 then true else p % 2 == 0 && Aligned(p / 2, o - 1)
  }

  /** `base_pfn(p, o)`: the first page of the order-`o` block that holds `p`. */
  function Base(p: nat, o: nat): nat {
    Shl(Shr(p, o), o)
  }

  lemma {:induction false} ShrSucc(p: nat, k: nat)
    ensures Shr(p, k + 1) == Shr(p, k) / 2
  {
    if k == 0 {
      assert Shr(p, 1) == Shr(p / 2, 0);
    } else {
      ShrSucc(p / 2, k - 1);
    }
  }

  lemma {:induction false} ShrMono(p: nat, q: nat, a: nat, b: nat)
    requires a <= b && Shr(p, a) == Shr(q, a)
    ensures Shr(p, b) == Shr(q, b)
    decreases b - a
  {
    if a < b {
      ShrMono(p, q, a, b - 1);
      ShrSucc(p, b - 1);
      ShrSucc(q, b - 1);
    }
  }

  lemma {:induction false} ShlAdd(k: nat, j: nat, o: nat)
    ensures Shl(k + j, o) == Shl(k, o) + Shl(j, o)
  {
    if o == 0 {
    } else {
      ShlAdd(k, j, o - 1);
    }
  }

  lemma {:induction false} ShlOne(o: nat)
    ensures Shl(1, o) == Pow2(o)
  {
    if o == 0 {
    } else {
      ShlOne(o - 1);
    }
  }

  lemma ShlSucc(k: nat, o: nat)
    ensures Shl(k + 1, o) == Shl(k, o) + Pow2(o)
  {
    ShlAdd(k, 1, o);
    ShlOne(o);
  }

  lemma {:induction false} ShrShl(k: nat, o: nat)
    ensures Shr(Shl(k, o), o) == k && Aligned(Shl(k, o), o)
  {
    if o == 0 {
    } else {
      ShrShl(k, o - 1);
    }
  }

  /** The pages whose `>> o` is `k` are an interval of `1 << o` pages. */
  lemma {:induction false} ShrInterval(q: nat, k: nat, o: nat)
    ensures Shr(q, o) == k <==> Shl(k, o) <= q < Shl(k, o) + Pow2(o)
  {
    if o == 0 {
    } else {
      ShrInterval(q / 2, k, o - 1);
    }
  }

  lemma {:induction false} ShrAdd(p: nat, a: nat, b: nat)
    ensures Shr(p, a + b) == Shr(Shr(p, a), b)
  {
    if a == 0 {
    } else {
      ShrAdd(p / 2, a - 1, b);
    }
  }

  lemma Shr4(p: nat)
    ensures Shr(p, 4) == p / 16
  {
    assert Shr(p, 4) == Shr(p / 2, 3) == Shr(p / 4, 2) == Shr(p / 8, 1) == Shr(p / 16, 0);
  }

  lemma Shr8(p: nat)
    ensures Shr(p, 8) == p / 256
  {
    ShrAdd(p, 4, 4);
    Shr4(p);
    Shr4(p / 16);
  }

  lemma Below32(p: nat)
    ensures Shr(p, 32) == 0 <==> p < 0x1_0000_0000
  {
    ShrAdd(p, 8, 24);
    ShrAdd(p / 256, 8, 16);
    ShrAdd(p / 256 / 256, 8, 8);
    Shr8(p);
    Shr8(p / 256);
    Shr8(p / 256 / 256);
    Shr8(p / 256 / 256 / 256);
  }

  lemma {:induction false} AlignedBase(p: nat, o: nat)
    ensures Aligned(p, o) <==> p == Base(p, o)
    ensures Aligned(Base(p, o), o)
    ensures Shr(Base(p, o), o) == Shr(p, o)
  {
    ShrShl(Shr(p, o), o);
    if o == 0 {
    } else {
      AlignedBase(p / 2, o - 1);
    }
  }

  lemma {:induction false} AlignedDown(p: nat, o: nat)
    requires Aligned(p, o + 1)
    ensures Aligned(p, o) && Shr(p, o) % 2 == 0
  {
    if o > 0 {
      AlignedDown(p / 2, o - 1);
    } else {
      assert Shr(p, 0) == p;
    }
  }

  lemma {:induction false} AlignedUp(p: nat, o: nat)
    requires Aligned(p, o) && Shr(p, o) % 2 == 0
    ensures Aligned(p, o + 1)
  {
    if o > 0 {
      AlignedUp(p / 2, o - 1);
    } else {
      assert Aligned(p / 2, 0);
    }
  }

  lemma {:induction false} XorZero(a: nat)
    ensures Xor(a, 0) == a
  {
    if a == 0 {
    } else {
      XorZero(a / 2);
    }
  }

  /** `GET_BUDDY`: XOR with one bit adds or removes exactly that bit. */
  lemma {:induction false} XorBit(p: nat, o: nat)
    ensures Xor(p, Pow2(o)) == if Shr(p, o) % 2 == 0 then p + Pow2(o) else p - Pow2(o)
  {
    if o == 0 {
      XorZero(p / 2);
    } else {
      XorBit(p / 2, o - 1);
    }
  }
}
