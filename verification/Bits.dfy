/** Unsigned 32-bit words as numbers, with C's bitwise operators defined bit by bit. */
module Bits {
  import opened Machine

  const ALL_ONES := 0xFFFF_FFFF

  function Parity(b: bool): nat {
    if b then 1 else 0
  }

  /** Bit k of w. */
  predicate Bit(w: nat, k: nat) {
    if k == 0 then w % 2 == 1 else Bit(w / 2, k - 1)
  }

  /** a | b */
  function Or(a: nat, b: nat): nat {
    if a == 0 then b else Parity(a % 2 == 1 || b % 2 == 1) + 2 * Or(a / 2, b / 2)
  }

  /** a & b */
  function And(a: nat, b: nat): nat {
    if a == 0 then 0 else Parity(a % 2 == 1 && b % 2 == 1) + 2 * And(a / 2, b / 2)
  }

  /** ~a */
  function Not(a: nat): nat
    requires a < WORD_LIMIT
  {
    ALL_ONES - a
  }

  /** 1 << k */
  function Power(k: nat): (p: nat)
    ensures 0 < p
  {
    if k == 0 then 1 else 2 * Power(k - 1)
  }

  lemma {:induction false} OrBit(a: nat, b: nat, k: nat)
    ensures Bit(Or(a, b), k) <==> Bit(a, k) || Bit(b, k)
    decreases a
  {
    if a == 0 {
      ZeroBit(k);
    } else if k != 0 {
      OrBit(a / 2, b / 2, k - 1);
    }
  }

  lemma {:induction false} AndBit(a: nat, b: nat, k: nat)
    ensures Bit(And(a, b), k) <==> Bit(a, k) && Bit(b, k)
    decreases a
  {
    if a == 0 {
      ZeroBit(k);
    } else if k != 0 {
      AndBit(a / 2, b / 2, k - 1);
    }
  }

  lemma {:induction false} ZeroBit(k: nat)
    ensures !Bit(0, k)
  {
    if k != 0 {
      ZeroBit(k - 1);
    }
  }

  lemma {:induction false} PowerBit(j: nat, k: nat)
    ensures Bit(Power(j), k) <==> j == k
  {
    if j != 0 && k != 0 {
      PowerBit(j - 1, k - 1);
    } else if k != 0 {
      ZeroBit(k - 1);
    }
  }

  /** Among n-bit numbers, Power(n) - 1 - a is the complement. */
  lemma {:induction false} ComplementBit(a: nat, n: nat, k: nat)
    requires a < Power(n) && k < n
    ensures Bit(Power(n) - 1 - a, k) <==> !Bit(a, k)
  {
    if k != 0 {
      ComplementBit(a / 2, n - 1, k - 1);
      assert (Power(n) - 1 - a) / 2 == Power(n - 1) - 1 - a / 2;
    }
  }

  lemma {:induction false} PowerSplit(m: nat, n: nat)
    ensures Power(m + n) == Power(m) * Power(n)
  {
    if m != 0 {
      PowerSplit(m - 1, n);
    }
  }

  lemma Power32()
    ensures Power(32) == WORD_LIMIT
  {
    assert Power(8) == 256;
    assert Power(16) == 65536 by { PowerSplit(8, 8); }
    PowerSplit(16, 16);
  }

  lemma NotBit(a: nat, k: nat)
    requires a < WORD_LIMIT && k < 32
    ensures Bit(Not(a), k) <==> !Bit(a, k)
  {
    Power32();
    ComplementBit(a, 32, k);
  }

  lemma {:induction false} OrBelow(a: nat, b: nat, n: nat)
    requires a < Power(n) && b < Power(n)
    ensures Or(a, b) < Power(n)
    decreases a
  {
    if a != 0 {
      if n == 0 {
        assert false;
      }
      OrBelow(a / 2, b / 2, n - 1);
    }
  }

  lemma {:induction false} AndBelow(a: nat, b: nat)
    ensures And(a, b) <= a
    decreases a
  {
    if a != 0 {
      AndBelow(a / 2, b / 2);
    }
  }

  lemma {:induction false} PowerMonotone(j: nat, n: nat)
    requires j < n
    ensures Power(j) < Power(n)
    decreases n
  {
    if j < n - 1 {
      PowerMonotone(j, n - 1);
    }
  }

  /** Setting and clearing one bit of a word. */
  lemma SetBit(w: nat, j: nat)
    requires w < WORD_LIMIT && j < 32
    ensures Or(w, Power(j)) < WORD_LIMIT
    ensures forall k :: 0 <= k < 32 ==> (Bit(Or(w, Power(j)), k) <==> k == j || Bit(w, k))
  {
    Power32();
    PowerMonotone(j, 32);
    OrBelow(w, Power(j), 32);
    forall k | 0 <= k < 32
      ensures Bit(Or(w, Power(j)), k) <==> k == j || Bit(w, k)
    {
      OrBit(w, Power(j), k);
      PowerBit(j, k);
    }
  }

  lemma ClearBit(w: nat, j: nat)
    requires w < WORD_LIMIT && j < 32
    ensures Power(j) < WORD_LIMIT && And(w, Not(Power(j))) < WORD_LIMIT
    ensures forall k :: 0 <= k < 32 ==> (Bit(And(w, Not(Power(j))), k) <==> k != j && Bit(w, k))
  {
    Power32();
    PowerMonotone(j, 32);
    AndBelow(w, Not(Power(j)));
    forall k | 0 <= k < 32
      ensures Bit(And(w, Not(Power(j))), k) <==> k != j && Bit(w, k)
    {
      AndBit(w, Not(Power(j)), k);
      NotBit(Power(j), k);
      PowerBit(j, k);
    }
  }

  lemma {:induction false} OnesBit(n: nat, k: nat)
    requires k < n
    ensures Bit(Power(n) - 1, k)
  {
    if k != 0 {
      OnesBit(n - 1, k - 1);
      assert (Power(n) - 1) / 2 == Power(n - 1) - 1;
    }
  }

  lemma AllOnesBit(k: nat)
    requires k < 32
    ensures Bit(ALL_ONES, k)
  {
    Power32();
    OnesBit(32, k);
  }

  /** w & (1 << k) is zero exactly when bit k is clear. */
  lemma {:induction false} TestBit(w: nat, k: nat)
    ensures And(w, Power(k)) == if Bit(w, k) then Power(k) else 0
  {
    if w == 0 {
      ZeroBit(k);
    } else if k != 0 {
      TestBit(w / 2, k - 1);
    } else {
      AndZero(w / 2);
    }
  }

  /** Masking with n low ones is the remainder modulo 2^n. */
  lemma {:induction false} AndOnes(w: nat, n: nat)
    ensures And(w, Power(n) - 1) == w % Power(n)
  {
    if n == 0 {
      AndZero(w);
      RemainderUnique(w, Power(0), w, 0);
    } else if w != 0 {
      AndOnes(w / 2, n - 1);
      HalfRemainder(w, Power(n - 1));
      assert (Power(n) - 1) / 2 == Power(n - 1) - 1;
    } else {
      RemainderUnique(0, Power(n), 0, 0);
    }
  }

  lemma {:induction false} AndZero(w: nat)
    ensures And(w, 0) == 0
  {
    if w != 0 {
      AndZero(w / 2);
    }
  }

  lemma HalfRemainder(w: nat, p: nat)
    requires 0 < p
    ensures w % (2 * p) == 2 * (w / 2 % p) + w % 2
  {
    var q, r := w / 2 / p, w / 2 % p;
    assert w / 2 == q * p + r;
    assert w == q * (2 * p) + (2 * r + w % 2);
    RemainderUnique(w, 2 * p, q, 2 * r + w % 2);
  }

  lemma RemainderUnique(w: nat, d: nat, q: nat, r: nat)
    requires w == q * d + r && r < d
    ensures w % d == r
  {
    var e := w / d - q;
    assert w == w / d * d + w % d;
    assert e * d == r - w % d;
    assert 1 <= e ==> d <= e * d;
    assert e <= -1 ==> e * d <= -(d as int);
  }

  /** Masking with the complement of n low ones clears them. */
  lemma {:induction false} AndHigh(w: nat, n: nat, ones: nat)
    requires w <= ones && Power(n) - 1 <= ones && ones % Power(n) == Power(n) - 1 && forall k: nat :: Bit(w, k) ==> Bit(ones, k)
    ensures And(w, ones - (Power(n) - 1)) == w - w % Power(n)
  {
    if n == 0 {
      AndSelf(w, ones);
      assert w % 1 == 0;
    } else if w == 0 {
      RemainderUnique(0, Power(n), 0, 0);
    } else {
      HalfRemainder(w, Power(n - 1));
      HalfRemainder(ones, Power(n - 1));
      forall k: nat | Bit(w / 2, k)
        ensures Bit(ones / 2, k)
      {
        assert Bit(w, k + 1);
        assert Bit(ones, k + 1);
      }
      AndHigh(w / 2, n - 1, ones / 2);
      assert (ones - (Power(n) - 1)) / 2 == ones / 2 - (Power(n - 1) - 1);
    }
  }

  lemma {:induction false} AndSelf(w: nat, ones: nat)
    requires forall k: nat :: Bit(w, k) ==> Bit(ones, k)
    ensures And(w, ones) == w
  {
    if w != 0 {
      assert Bit(w, 0) ==> Bit(ones, 0);
      forall k: nat | Bit(w / 2, k)
        ensures Bit(ones / 2, k)
      {
        assert Bit(w, k + 1);
        assert Bit(ones, k + 1);
      }
      AndSelf(w / 2, ones / 2);
    }
  }

  lemma {:induction false} HighBitsClear(w: nat, n: nat, k: nat)
    requires w < Power(n) && n <= k
    ensures !Bit(w, k)
  {
    if k == 0 {
    } else if n == 0 {
      ZeroBit(k);
    } else {
      HighBitsClear(w / 2, n - 1, k - 1);
    }
  }

  lemma Power12()
    ensures Power(12) == 4096
  {
  }

  /** x & 0xFFFFF000: the page of an address. */
  lemma PageMask(w: nat)
    requires w < WORD_LIMIT
    ensures And(w, 0xFFFF_F000) == w - w % 4096
  {
    Power12();
    Power32();
    forall k: nat | Bit(w, k)
      ensures Bit(ALL_ONES, k)
    {
      if 32 <= k {
        HighBitsClear(w, 32, k);
      } else {
        AllOnesBit(k);
      }
    }
    AndHigh(w, 12, ALL_ONES);
  }

  /** x & 0x3FF. */
  lemma IndexMask(w: nat)
    ensures And(w, 0x3FF) == w % 1024
  {
    AndOnes(w, 10);
    assert Power(10) == 1024;
  }

  /** Or, one bit at a time. */
  lemma OrStep(a: nat, x: nat, b: nat, y: nat)
    requires x < 2 && y < 2
    ensures Or(2 * a + x, 2 * b + y) == Parity(x == 1 || y == 1) + 2 * Or(a, b)
  {
    assert (2 * a + x) / 2 == a && (2 * b + y) / 2 == b;
    assert (2 * a + x) % 2 == x && (2 * b + y) % 2 == y;
  }

  /** page | PRESENT | WRITABLE for a page-aligned address. */
  lemma EntryFlags(page: nat)
    requires page % 4096 == 0
    ensures Or(Or(page, 1), 2) == page + 3
  {
    hide Or;
    var q := 1024 * (page / 4096);
    assert page == 2 * (2 * q);
    FlagsOf(q);
  }

  lemma FlagsOf(q: nat)
    ensures Or(Or(2 * (2 * q), 1), 2) == 2 * (2 * q) + 3
  {
    hide Or;
    OrZero(2 * q);
    OrZero(q);
    OrStep(2 * q, 0, 0, 1);
    OrStep(2 * q, 1, 1, 0);
    OrStep(q, 0, 0, 1);
  }

  lemma {:induction false} OrZero(w: nat)
    ensures Or(w, 0) == w
  {
    if w != 0 {
      OrZero(w / 2);
    }
  }
}
