/**
 * `next_power_of_two`: the bit-smearing computation on 32-bit unsigned integers.
 * Words are natural numbers below 2^32; shifting, or-ing and wrapping around are spelled out.
 */
module PowerOfTwo {
  import opened Powers

  const WORD := 0x1_0000_0000

  function Shr(x: nat, n: nat): nat
    decreases n
  {
    if n == 0 then x else Shr(x / 2, n - 1)
  }

  function Or(x: nat, y: nat): nat {
    if x == 0 && y == 0 then 0
    else 2 * Or(x / 2, y / 2) + if x % 2 == 1 || y % 2 == 1 then 1 else 0
  }

  /** `x` has at most `k` bits, of which the top `r` are all set (all of them, if `r` exceeds `k`). */
  ghost predicate TopOnes(x: nat, k: nat, r: nat)
    decreases k
  {
    if k <= r then x == Pow2(k) - 1 else TopOnes(x / 2, k - 1, r)
  }

  lemma {:induction false} ShrHalf(x: nat, n: nat)
    ensures Shr(x / 2, n) == Shr(x, n) / 2
    decreases n
  {
    if n > 0 { ShrHalf(x / 2, n - 1); }
  }

  lemma {:induction false} ShrOnes(k: nat, n: nat)
    ensures k <= n ==> Shr(Pow2(k) - 1, n) == 0
    ensures n < k ==> Shr(Pow2(k) - 1, n) % 2 == 1
    decreases n
  {
    if n > 0 {
      if k == 0 {
        ShrOnes(0, n - 1);
      } else {
        assert (Pow2(k) - 1) / 2 == Pow2(k - 1) - 1;
        ShrOnes(k - 1, n - 1);
      }
    }
  }

  /** One of the top bits of such a word. */
  lemma {:induction false} TopBit(x: nat, k: nat, r: nat, j: nat)
    requires TopOnes(x, k, r) && k <= j + r && j < k
    ensures Shr(x, j) % 2 == 1
    decreases k
  {
    if k <= r {
      ShrOnes(k, j);
    } else {
      TopBit(x / 2, k - 1, r, j - 1);
    }
  }

  lemma {:induction false} OrZero(x: nat)
    ensures Or(x, 0) == x
  {
    if x > 0 { OrZero(x / 2); }
  }

  /** Or-ing a word with itself shifted by `r` doubles the number of ones at its top. */
  lemma {:induction false} Smear(x: nat, k: nat, r: nat)
    requires r > 0 && TopOnes(x, k, r)
    ensures TopOnes(Or(x, Shr(x, r)), k, 2 * r)
    decreases k
  {
    if k <= r {
      ShrOnes(k, r);
      OrZero(x);
    } else {
      Smear(x / 2, k - 1, r);
      ShrHalf(x, r);
      var y := Shr(x, r);
      assert Or(x, y) / 2 == Or(x / 2, y / 2);
      if k <= 2 * r {
        TopBit(x, k, r, r);
        assert Or(x, y) % 2 == 1;
      }
    }
  }

  ghost predicate IsBitLength(x: nat, k: nat) {
    x < Pow2(k) && if x == 0 then k == 0 else k > 0 && Pow2(k - 1) <= x
  }

  /** The bit length of a word, found by halving. */
  lemma {:induction false} BitLength(x: nat) returns (k: nat)
    ensures IsBitLength(x, k) && TopOnes(x, k, 1)
  {
    if x == 0 {
      k := 0;
    } else {
      k := BitLength(x / 2);
      if x == 1 {
        k := 1;
        assert Pow2(1) == 2 * Pow2(0);
      } else {
        k := k + 1;
        assert k > 1;
      }
    }
  }

  /** `val - 1` and `val + 1` on words. */
  function Before(val: nat): nat {
    if val == 0 then WORD - 1 else val - 1
  }

  function After(val: nat): nat {
    if val == WORD - 1 then 0 else val + 1
  }

  ghost predicate IsPow2(n: int) { exists k: nat :: n == Pow2(k) }

  /**
   * `r` is the least power of two that is at least `val`, wherever a 32-bit word can hold it; otherwise
   * (for 0 and above 2^31) it is 0.
   */
  ghost predicate IsNextPower(val: nat, r: nat) {
    && (1 <= val <= 0x8000_0000 <==> r != 0)
    && (r != 0 ==> IsPow2(r) && val <= r <= 0x8000_0000)
    && (r != 0 ==> forall p :: IsPow2(p) && val <= p ==> r <= p)
  }

  method NextPowerOfTwo(val0: nat) returns (val: nat)
    requires val0 < WORD
    ensures IsNextPower(val0, val)
  {
    val := Before(val0);
    ghost var x := val;
    ghost var k := BitLength(x);
    val := OrShift(val, 1, k);
    val := OrShift(val, 2, k);
    val := OrShift(val, 4, k);
    val := OrShift(val, 8, k);
    val := OrShift(val, 16, k);
    AllOnes(x, k, val);
    val := After(val);
    Answer(val0, x, k, val);
  }

  lemma Answer(val0: nat, x: nat, k: nat, val: nat)
    requires val0 < WORD && x == Before(val0) && IsBitLength(x, k) && val == After(Pow2(k) - 1)
    ensures IsNextPower(val0, val)
  {
    WordBits(x, k);
    if val != 0 {
      LeastPower(x, k);
      assert val == Pow2(k);
    }
  }

  /** `val |= val >> n`. */
  method OrShift(val: nat, n: nat, ghost k: nat) returns (r: nat)
    requires n > 0 && TopOnes(val, k, n)
    ensures TopOnes(r, k, 2 * n)
  {
    Smear(val, k, n);
    r := Or(val, Shr(val, n));
  }

  lemma AllOnes(x: nat, k: nat, v: nat)
    requires x < WORD && IsBitLength(x, k)
    requires TopOnes(v, k, 32)
    ensures v == Pow2(k) - 1
  {
    WordBits(x, k);
  }

  lemma Pow2Of32()
    ensures Pow2(31) == 0x8000_0000 && Pow2(32) == WORD
  {
    assert Pow2(10) == 0x400;
    assert Pow2(20) == 0x10_0000;
    assert Pow2(30) == 0x4000_0000;
  }

  lemma WordBits(x: nat, k: nat)
    requires x < WORD && IsBitLength(x, k)
    ensures k <= 32 && Pow2(k) <= WORD
    ensures x < 0x8000_0000 <==> k <= 31
    ensures k <= 31 ==> Pow2(k) <= 0x8000_0000
    ensures k == 32 ==> Pow2(k) == WORD
  {
    Pow2Of32();
    if k > 32 { Pow2Mono(32, k - 1); }
    if k <= 32 { Pow2Mono(k, 32); }
    if k <= 31 { Pow2Mono(k, 31); }
    if k == 32 { assert Pow2(k - 1) == 0x8000_0000; }
  }

  /** No power of two lies strictly between `x` and `2^k` when `k` is the bit length of `x`. */
  lemma LeastPower(x: nat, k: nat)
    requires IsBitLength(x, k)
    ensures forall p :: IsPow2(p) && x < p ==> Pow2(k) <= p
  {
    forall p | IsPow2(p) && x < p ensures Pow2(k) <= p {
      var j: nat :| p == Pow2(j);
      if j < k { Pow2Mono(j, k - 1); }
      if j >= k { Pow2Mono(k, j); }
    }
  }
}
