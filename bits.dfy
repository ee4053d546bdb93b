/**
 * Bit patterns as natural numbers.
 *
 * A Java `short` or `long` bitmap is modelled by the unsigned reading of its
 * bit pattern (a `nat` below 2^16 or 2^64).  The bitwise operators the Java
 * code applies to such scalars are defined here bit by bit, and every
 * operator comes with a lemma that says what it does to each bit.
 */
module Bits {

  /** 2 to the power n. */
  function Pow2(n: nat): (r: nat)
    ensures r >= 1
  {
    if n == 0 then 1 else 2 * Pow2(n - 1)
  }

  /** Bit i of the pattern x is set. */
  predicate Bit(x: nat, i: nat)
  {
    if i == 0 then x % 2 == 1 else Bit(x / 2, i - 1)
  }

  /** `a | b` */
  function Or(a: nat, b: nat): nat
    decreases a + b
  {
    if a == 0 && b == 0 then 0
    else 2 * Or(a / 2, b / 2) + (if a % 2 == 1 || b % 2 == 1 then 1 else 0)
  }

  /** `a & b` */
  function And(a: nat, b: nat): nat
    decreases a
  {
    if a == 0 then 0
    else 2 * And(a / 2, b / 2) + (if a % 2 == 1 && b % 2 == 1 then 1 else 0)
  }

  /** `a ^ b` */
  function Xor(a: nat, b: nat): nat
    decreases a + b
  {
    if a == 0 && b == 0 then 0
    else 2 * Xor(a / 2, b / 2) + (if (a % 2 == 1) != (b % 2 == 1) then 1 else 0)
  }

  /** `a & ~b` */
  function AndNot(a: nat, b: nat): nat
    decreases a
  {
    if a == 0 then 0
    else 2 * AndNot(a / 2, b / 2) + (if a % 2 == 1 && b % 2 == 0 then 1 else 0)
  }

  /** The pattern whose n lowest bits are set, `(1 << n) - 1`. */
  function Ones(n: nat): nat
  {
    if n == 0 then 0 else 2 * Ones(n - 1) + 1
  }

  /** The bits of x below n, in ascending order. */
  function Indices(x: nat, n: nat): (r: seq<nat>)
    ensures forall k :: 0 <= k < |r| ==> r[k] < n
  {
    if n == 0 then [] else Indices(x, n - 1) + (if Bit(x, n - 1) then [n - 1] else [])
  }

  /** The positions below n whose bit is set. */
  function Members(x: nat, n: nat): set<nat>
  {
    set i: nat | i < n && Bit(x, i)
  }

  /** The number of set bits below n (`Long.bitCount` is `BitCount(x, 64)`). */
  function BitCount(x: nat, n: nat): nat
  {
    |Indices(x, n)|
  }

  /** The pattern made of the bits of x below n. */
  function Low(x: nat, n: nat): nat
  {
    if n == 0 then 0 else Or(Low(x, n - 1), if Bit(x, n - 1) then Pow2(n - 1) else 0)
  }

  // ---------------------------------------------------------------------
  // What each operator does to a single bit
  // ---------------------------------------------------------------------

  /** The last binary digit of 2x + c is c, and the rest is x. */
  lemma Digit(x: nat, c: nat)
    requires c < 2
    ensures (2 * x + c) / 2 == x && (2 * x + c) % 2 == c
  {
  }

  /** Bit i + 1 of x is bit i of x / 2. */
  lemma BitHalf(x: nat, i: nat)
    ensures Bit(x, i + 1) == Bit(x / 2, i)
  {
  }

  lemma {:induction false} BitZero(i: nat)
    ensures !Bit(0, i)
  {
    if i > 0 { BitZero(i - 1); }
  }

  lemma {:induction false} BitPow2(k: nat, i: nat)
    ensures Bit(Pow2(k), i) <==> i == k
  {
    if i == 0 {
      if k > 0 { assert Pow2(k) == 2 * Pow2(k - 1); }
    } else if k == 0 {
      assert Pow2(0) / 2 == 0;
      BitZero(i - 1);
    } else {
      assert Pow2(k) / 2 == Pow2(k - 1);
      BitPow2(k - 1, i - 1);
    }
  }

  lemma {:induction false} BitOr(a: nat, b: nat, i: nat)
    ensures Bit(Or(a, b), i) <==> Bit(a, i) || Bit(b, i)
    decreases i
  {
    if a == 0 && b == 0 {
      BitZero(i);
    } else {
      Digit(Or(a / 2, b / 2), if a % 2 == 1 || b % 2 == 1 then 1 else 0);
      if i > 0 {
        BitHalf(Or(a, b), i - 1);
        BitHalf(a, i - 1);
        BitHalf(b, i - 1);
        BitOr(a / 2, b / 2, i - 1);
      }
    }
  }

  lemma {:induction false} BitAnd(a: nat, b: nat, i: nat)
    ensures Bit(And(a, b), i) <==> Bit(a, i) && Bit(b, i)
    decreases i
  {
    if a == 0 {
      BitZero(i);
    } else {
      Digit(And(a / 2, b / 2), if a % 2 == 1 && b % 2 == 1 then 1 else 0);
      if i > 0 {
        BitHalf(And(a, b), i - 1);
        BitHalf(a, i - 1);
        BitHalf(b, i - 1);
        BitAnd(a / 2, b / 2, i - 1);
      }
    }
  }

  lemma {:induction false} BitXor(a: nat, b: nat, i: nat)
    ensures Bit(Xor(a, b), i) <==> Bit(a, i) != Bit(b, i)
    decreases i
  {
    if a == 0 && b == 0 {
      BitZero(i);
    } else {
      Digit(Xor(a / 2, b / 2), if (a % 2 == 1) != (b % 2 == 1) then 1 else 0);
      if i > 0 {
        BitHalf(Xor(a, b), i - 1);
        BitHalf(a, i - 1);
        BitHalf(b, i - 1);
        BitXor(a / 2, b / 2, i - 1);
      }
    }
  }

  lemma {:induction false} BitAndNot(a: nat, b: nat, i: nat)
    ensures Bit(AndNot(a, b), i) <==> Bit(a, i) && !Bit(b, i)
    decreases i
  {
    if a == 0 {
      BitZero(i);
    } else {
      Digit(AndNot(a / 2, b / 2), if a % 2 == 1 && b % 2 == 0 then 1 else 0);
      if i > 0 {
        BitHalf(AndNot(a, b), i - 1);
        BitHalf(a, i - 1);
        BitHalf(b, i - 1);
        BitAndNot(a / 2, b / 2, i - 1);
      }
    }
  }

  lemma {:induction false} BitOnes(n: nat, i: nat)
    ensures Bit(Ones(n), i) <==> i < n
  {
    if n == 0 {
      BitZero(i);
    } else if i > 0 {
      assert Ones(n) / 2 == Ones(n - 1);
      BitOnes(n - 1, i - 1);
    }
  }

  lemma {:induction false} BitLow(x: nat, n: nat, i: nat)
    ensures Bit(Low(x, n), i) <==> i < n && Bit(x, i)
  {
    if n == 0 {
      BitZero(i);
    } else {
      BitLow(x, n - 1, i);
      BitOr(Low(x, n - 1), if Bit(x, n - 1) then Pow2(n - 1) else 0, i);
      if Bit(x, n - 1) { BitPow2(n - 1, i); } else { BitZero(i); }
    }
  }

  // ---------------------------------------------------------------------
  // Patterns are determined by their bits; bounds from bits
  // ---------------------------------------------------------------------

  /** Two patterns with the same bits are equal. */
  lemma {:induction false} BitsEqual(a: nat, b: nat)
    requires forall i: nat :: Bit(a, i) <==> Bit(b, i)
    ensures a == b
    decreases a + b
  {
    assert Bit(a, 0) <==> Bit(b, 0);
    if a != 0 || b != 0 {
      forall i: nat ensures Bit(a / 2, i) <==> Bit(b / 2, i) {
        assert Bit(a, i + 1) <==> Bit(b, i + 1);
      }
      BitsEqual(a / 2, b / 2);
    }
  }

  /** A pattern below 2^n has no bit at n or above. */
  lemma {:induction false} BitAbove(x: nat, n: nat, i: nat)
    requires x < Pow2(n) && n <= i
    ensures !Bit(x, i)
  {
    if n == 0 {
      assert x == 0;
      BitZero(i);
    } else if i > 0 {
      BitAbove(x / 2, n - 1, i - 1);
    }
  }

  /** A pattern with no bit at n or above is below 2^n. */
  lemma {:induction false} BoundFromBits(x: nat, n: nat)
    requires forall i: nat :: n <= i ==> !Bit(x, i)
    ensures x < Pow2(n)
  {
    if n == 0 {
      forall i: nat ensures Bit(x, i) <==> Bit(0, i) { BitZero(i); }
      BitsEqual(x, 0);
    } else {
      forall i: nat | n - 1 <= i ensures !Bit(x / 2, i) {
        assert !Bit(x, i + 1);
      }
      BoundFromBits(x / 2, n - 1);
    }
  }

  /** A pattern below 2^n whose bits below n are all clear is zero. */
  lemma ZeroFromLowBits(x: nat, n: nat)
    requires x < Pow2(n)
    requires forall i: nat :: i < n ==> !Bit(x, i)
    ensures x == 0
  {
    forall i: nat ensures Bit(x, i) <==> Bit(0, i) {
      BitZero(i);
      if n <= i { BitAbove(x, n, i); }
    }
    BitsEqual(x, 0);
  }

  lemma OrBound(a: nat, b: nat, n: nat)
    requires a < Pow2(n) && b < Pow2(n)
    ensures Or(a, b) < Pow2(n)
  {
    forall i: nat | n <= i ensures !Bit(Or(a, b), i) {
      BitOr(a, b, i); BitAbove(a, n, i); BitAbove(b, n, i);
    }
    BoundFromBits(Or(a, b), n);
  }

  lemma AndBound(a: nat, b: nat, n: nat)
    requires a < Pow2(n)
    ensures And(a, b) < Pow2(n)
  {
    forall i: nat | n <= i ensures !Bit(And(a, b), i) {
      BitAnd(a, b, i); BitAbove(a, n, i);
    }
    BoundFromBits(And(a, b), n);
  }

  lemma XorBound(a: nat, b: nat, n: nat)
    requires a < Pow2(n) && b < Pow2(n)
    ensures Xor(a, b) < Pow2(n)
  {
    forall i: nat | n <= i ensures !Bit(Xor(a, b), i) {
      BitXor(a, b, i); BitAbove(a, n, i); BitAbove(b, n, i);
    }
    BoundFromBits(Xor(a, b), n);
  }

  lemma AndNotBound(a: nat, b: nat, n: nat)
    requires a < Pow2(n)
    ensures AndNot(a, b) < Pow2(n)
  {
    forall i: nat | n <= i ensures !Bit(AndNot(a, b), i) {
      BitAndNot(a, b, i); BitAbove(a, n, i);
    }
    BoundFromBits(AndNot(a, b), n);
  }

  /** `(1 << n) - 1` has exactly the bits below n and lies below 2^m for m >= n. */
  lemma OnesBelow(n: nat, m: nat)
    requires n <= m
    ensures Ones(n) < Pow2(m)
    ensures forall i: nat :: Bit(Ones(n), i) <==> i < n
  {
    OnesValue(n);
    Pow2Monotone(n, m);
    forall i: nat ensures Bit(Ones(n), i) <==> i < n { BitOnes(n, i); }
  }

  lemma {:induction false} OnesValue(n: nat)
    ensures Ones(n) + 1 == Pow2(n)
  {
    if n > 0 { OnesValue(n - 1); }
  }

  lemma {:induction false} Pow2Monotone(m: nat, n: nat)
    requires m <= n
    ensures Pow2(m) <= Pow2(n)
  {
    if m < n { Pow2Monotone(m, n - 1); }
  }

  /** A pattern whose bits all lie below n is its own low part. */
  lemma LowId(x: nat, n: nat)
    requires x < Pow2(n)
    ensures Low(x, n) == x
  {
    forall i: nat ensures Bit(Low(x, n), i) <==> Bit(x, i) {
      BitLow(x, n, i);
      if n <= i { BitAbove(x, n, i); }
    }
    BitsEqual(Low(x, n), x);
  }

  lemma LowBound(x: nat, n: nat)
    ensures Low(x, n) < Pow2(n)
  {
    forall i: nat | n <= i ensures !Bit(Low(x, n), i) { BitLow(x, n, i); }
    BoundFromBits(Low(x, n), n);
  }

  // ---------------------------------------------------------------------
  // Disjoint fields: OR is addition
  // ---------------------------------------------------------------------

  /** Bit i of c * 2^k is bit i - k of c. */
  lemma {:induction false} BitShifted(c: nat, k: nat, i: nat)
    ensures Bit(c * Pow2(k), i) <==> k <= i && Bit(c, i - k)
  {
    if k == 0 {
    } else {
      assert c * Pow2(k) == 2 * (c * Pow2(k - 1));
      if i == 0 {
      } else {
        BitShifted(c, k - 1, i - 1);
      }
    }
  }

  /** When no bit is set in both a and b, `a | b == a + b`. */
  lemma {:induction false} OrDisjoint(a: nat, b: nat)
    requires forall i: nat :: !(Bit(a, i) && Bit(b, i))
    ensures Or(a, b) == a + b
    decreases a + b
  {
    if a != 0 || b != 0 {
      assert !(Bit(a, 0) && Bit(b, 0));
      forall i: nat ensures !(Bit(a / 2, i) && Bit(b / 2, i)) {
        assert !(Bit(a, i + 1) && Bit(b, i + 1));
      }
      OrDisjoint(a / 2, b / 2);
    }
  }

  /** `a | (c << k)` is `a + c * 2^k` when a lies below 2^k. */
  lemma OrShifted(a: nat, c: nat, k: nat)
    requires a < Pow2(k)
    ensures Or(a, c * Pow2(k)) == a + c * Pow2(k)
  {
    forall i: nat ensures !(Bit(a, i) && Bit(c * Pow2(k), i)) {
      BitShifted(c, k, i);
      if k <= i { BitAbove(a, k, i); }
    }
    OrDisjoint(a, c * Pow2(k));
  }

  // ---------------------------------------------------------------------
  // Indices, Members and BitCount
  // ---------------------------------------------------------------------

  /** Indices(x, n) lists every set bit below n once, in strictly ascending order. */
  lemma {:induction false} IndicesSpec(x: nat, n: nat)
    ensures forall k :: 0 <= k < |Indices(x, n)| ==> Bit(x, Indices(x, n)[k])
    ensures forall k, l :: 0 <= k < l < |Indices(x, n)| ==> Indices(x, n)[k] < Indices(x, n)[l]
    ensures forall i: nat :: i < n && Bit(x, i) ==> i in Indices(x, n)
  {
    if n > 0 {
      IndicesSpec(x, n - 1);
      var p := Indices(x, n - 1);
      var s := Indices(x, n);
      assert s == p + (if Bit(x, n - 1) then [n - 1] else []);
      assert forall k :: 0 <= k < |p| ==> s[k] == p[k];
      assert forall k :: 0 <= k < |p| ==> p[k] < n - 1;
    }
  }

  /** Indices depends on the bits below n only. */
  lemma {:induction false} IndicesSameBits(x: nat, y: nat, n: nat)
    requires forall i: nat :: i < n ==> (Bit(x, i) <==> Bit(y, i))
    ensures Indices(x, n) == Indices(y, n)
  {
    if n > 0 { IndicesSameBits(x, y, n - 1); }
  }

  /** With no set bit in [m, n), Indices does not grow from m to n. */
  lemma {:induction false} IndicesGap(x: nat, m: nat, n: nat)
    requires m <= n
    requires forall i: nat :: m <= i < n ==> !Bit(x, i)
    ensures Indices(x, n) == Indices(x, m)
  {
    if m < n { IndicesGap(x, m, n - 1); }
  }

  /** Indices(x, m) is a prefix of Indices(x, n); it is all of it iff no bit is set in [m, n). */
  lemma {:induction false} IndicesPrefix(x: nat, m: nat, n: nat)
    requires m <= n
    ensures Indices(x, m) <= Indices(x, n)
    ensures |Indices(x, m)| == |Indices(x, n)| <==> forall i: nat :: m <= i < n ==> !Bit(x, i)
  {
    if m < n {
      IndicesPrefix(x, m, n - 1);
      assert |Indices(x, n)| == |Indices(x, n - 1)| + (if Bit(x, n - 1) then 1 else 0);
      if forall i: nat :: m <= i < n ==> !Bit(x, i) {
        assert !Bit(x, n - 1);
      }
    }
  }

  lemma {:induction false} MembersCount(x: nat, n: nat)
    ensures |Members(x, n)| == BitCount(x, n)
  {
    if n == 0 {
      assert Members(x, 0) == {};
    } else {
      MembersCount(x, n - 1);
      if Bit(x, n - 1) {
        assert Members(x, n) == Members(x, n - 1) + {n - 1};
      } else {
        assert Members(x, n) == Members(x, n - 1);
      }
    }
  }

  /** BitCount over [0, n) when every bit in [m, n) equals b. */
  lemma {:induction false} BitCountUniformTop(x: nat, m: nat, n: nat, b: bool)
    requires m <= n
    requires forall i: nat :: m <= i < n ==> (Bit(x, i) <==> b)
    ensures BitCount(x, n) == BitCount(x, m) + (if b then n - m else 0)
  {
    if m < n { BitCountUniformTop(x, m, n - 1, b); }
  }

  /** Equal members below n and no bits at n or above: equal patterns. */
  lemma MembersDetermine(a: nat, b: nat, n: nat)
    requires a < Pow2(n) && b < Pow2(n)
    requires Members(a, n) == Members(b, n)
    ensures a == b
  {
    forall i: nat ensures Bit(a, i) <==> Bit(b, i) {
      if i < n {
        assert Bit(a, i) <==> i in Members(a, n);
        assert Bit(b, i) <==> i in Members(b, n);
      } else {
        BitAbove(a, n, i); BitAbove(b, n, i);
      }
    }
    BitsEqual(a, b);
  }
  // ---------------------------------------------------------------------
  // Members of the bitwise operators
  // ---------------------------------------------------------------------

  lemma MembersOr(a: nat, b: nat, n: nat)
    ensures Members(Or(a, b), n) == Members(a, n) + Members(b, n)
  {
    forall i: nat ensures Bit(Or(a, b), i) <==> Bit(a, i) || Bit(b, i) { BitOr(a, b, i); }
  }

  lemma MembersAnd(a: nat, b: nat, n: nat)
    ensures Members(And(a, b), n) == Members(a, n) * Members(b, n)
  {
    forall i: nat ensures Bit(And(a, b), i) <==> Bit(a, i) && Bit(b, i) { BitAnd(a, b, i); }
  }

  lemma MembersAndNot(a: nat, b: nat, n: nat)
    ensures Members(AndNot(a, b), n) == Members(a, n) - Members(b, n)
  {
    forall i: nat ensures Bit(AndNot(a, b), i) <==> Bit(a, i) && !Bit(b, i) { BitAndNot(a, b, i); }
  }

  lemma MembersXor(a: nat, b: nat, n: nat)
    ensures Members(Xor(a, b), n) == (Members(a, n) - Members(b, n)) + (Members(b, n) - Members(a, n))
  {
    forall i: nat ensures Bit(Xor(a, b), i) <==> Bit(a, i) != Bit(b, i) { BitXor(a, b, i); }
  }

  /** Setting bit q (q below n) adds q to the members below n and keeps bit n. */
  lemma MembersSetBit(x: nat, q: nat, n: nat)
    requires q < n
    ensures Members(Or(x, Pow2(q)), n) == Members(x, n) + {q}
    ensures Bit(Or(x, Pow2(q)), n) == Bit(x, n)
  {
    forall i: nat ensures Bit(Or(x, Pow2(q)), i) <==> Bit(x, i) || i == q {
      BitOr(x, Pow2(q), i); BitPow2(q, i);
    }
  }

  /** Clearing bit q (q below n) removes q from the members below n and keeps bit n. */
  lemma MembersClearBit(x: nat, q: nat, n: nat)
    requires q < n
    ensures Members(AndNot(x, Pow2(q)), n) == Members(x, n) - {q}
    ensures Bit(AndNot(x, Pow2(q)), n) == Bit(x, n)
  {
    forall i: nat ensures Bit(AndNot(x, Pow2(q)), i) <==> Bit(x, i) && i != q {
      BitAndNot(x, Pow2(q), i); BitPow2(q, i);
    }
  }

  /** `m & ~(m & ~x)` is x when every bit of x is a bit of m. */
  lemma AndNotTwice(m: nat, x: nat)
    requires forall i: nat :: Bit(x, i) ==> Bit(m, i)
    ensures AndNot(m, AndNot(m, x)) == x
  {
    forall i: nat ensures Bit(AndNot(m, AndNot(m, x)), i) <==> Bit(x, i) {
      BitAndNot(m, AndNot(m, x), i); BitAndNot(m, x, i);
    }
    BitsEqual(AndNot(m, AndNot(m, x)), x);
  }

  // ---------------------------------------------------------------------
  // Unsigned shifts and truncation
  // ---------------------------------------------------------------------

  /** `x >>> k` on a non-negative pattern. */
  function Shr(x: nat, k: nat): nat
  {
    if k == 0 then x else Shr(x / 2, k - 1)
  }

  /** The k low bits of x: a narrowing cast to a k-bit type, read unsigned. */
  function Trunc(x: nat, k: nat): nat
  {
    if k == 0 then 0 else 2 * Trunc(x / 2, k - 1) + x % 2
  }

  lemma {:induction false} BitShr(x: nat, k: nat, i: nat)
    ensures Bit(Shr(x, k), i) <==> Bit(x, i + k)
  {
    if k > 0 { BitShr(x / 2, k - 1, i); }
  }

  lemma {:induction false} BitTrunc(x: nat, k: nat, i: nat)
    ensures Bit(Trunc(x, k), i) <==> i < k && Bit(x, i)
  {
    if k == 0 {
      BitZero(i);
    } else if i > 0 {
      BitTrunc(x / 2, k - 1, i - 1);
    }
  }

  lemma {:induction false} TruncBound(x: nat, k: nat)
    ensures Trunc(x, k) < Pow2(k)
  {
    if k > 0 { TruncBound(x / 2, k - 1); }
  }

  // ---------------------------------------------------------------------
  // The lowest set bit
  // ---------------------------------------------------------------------

  /** The position of the lowest set bit of a non-zero pattern. */
  ghost function LowestBit(x: nat): (r: nat)
    requires x > 0
    ensures Bit(x, r) && forall i: nat :: i < r ==> !Bit(x, i)
  {
    if x % 2 == 1 then 0 else 1 + LowestBit(x / 2)
  }

  /** A non-zero pattern below 2^n has its lowest set bit below n. */
  lemma {:induction false} LowestBitBelow(x: nat, n: nat)
    requires 0 < x < Pow2(n)
    ensures LowestBit(x) < n
  {
    if x % 2 == 0 { LowestBitBelow(x / 2, n - 1); }
  }
  // ---------------------------------------------------------------------
  // Two's complement
  // ---------------------------------------------------------------------

  /** The value of the n-bit two's-complement pattern x. */
  function Signed(x: nat, n: nat): int
    requires 0 < n && x < Pow2(n)
  {
    if x < Pow2(n - 1) then x else x - Pow2(n)
  }

  /** The n-bit two's-complement pattern of v. */
  function Unsigned(v: int, n: nat): nat
    requires 0 < n && 0 <= v + Pow2(n - 1) && v < Pow2(n - 1)
  {
    if v >= 0 then v else v + Pow2(n)
  }

  /** The top bit of an (n + 1)-bit pattern is set iff the pattern is at least 2^n. */
  lemma {:induction false} TopBit(x: nat, n: nat)
    requires x < Pow2(n + 1)
    ensures Bit(x, n) <==> x >= Pow2(n)
  {
    if n > 0 { TopBit(x / 2, n - 1); }
  }

  /** Reading a pattern as signed and back is the identity, and the sign is the top bit. */
  lemma SignedUnsigned(x: nat, n: nat)
    requires 0 < n && x < Pow2(n)
    ensures 0 <= Signed(x, n) + Pow2(n - 1) && Signed(x, n) < Pow2(n - 1)
    ensures Unsigned(Signed(x, n), n) == x
    ensures Signed(x, n) < 0 <==> Bit(x, n - 1)
  {
    TopBit(x, n - 1);
  }

  /** v is a value of the n-bit two's-complement type. */
  predicate InSigned(v: int, n: nat)
  {
    0 < n && 0 <= v + Pow2(n - 1) && v < Pow2(n - 1)
  }

  /** A value of a narrower two's-complement type is a value of every wider one. */
  lemma SignedWiden(v: int, m: nat, n: nat)
    requires InSigned(v, m) && m <= n
    ensures InSigned(v, n)
  {
    Pow2Monotone(m - 1, n - 1);
  }

  lemma UnsignedSigned(v: int, n: nat)
    requires 0 < n && 0 <= v + Pow2(n - 1) && v < Pow2(n - 1)
    ensures Unsigned(v, n) < Pow2(n) && Signed(Unsigned(v, n), n) == v
  {
  }
}
