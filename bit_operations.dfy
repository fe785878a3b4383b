/**
 * 64-bit occupancy masks and the least-significant-bit search of
 * src/headers/BitOperations.hpp.
 *
 * A mask is a `bv64` (the source's `U64`); bit `p` stands for square `p`.
 * A square is held as a `bv8` below 64 so that `1ULL << p` stays a
 * bit-vector term; the program's `int` positions enter through `SquareOf`.
 */
module BitOperations {

  /** The source's `U64`. */
  type U64 = bv64

  /** A square index `rank * 8 + file`; shifting by anything else is undefined in C++. */
  type Square = p: bv8 | p < 64

  /** The square of an `int` position the program shifts by. */
  function SquareOf(position: int): (p: Square)
    requires 0 <= position < 64
    ensures p as int == position
  {
    position as bv8
  }

  /** `1ULL << p`: the mask holding square `p` only. */
  function Bit(p: Square): U64
  {
    1 << p
  }

  /** Square `p` is set in mask `v` (`v & (1ULL << p)` is nonzero). */
  predicate HasBit(v: U64, p: Square)
  {
    v & Bit(p) != 0
  }

  // ---------------------------------------------------------------------
  // Single-bit masks

  /** Every square has a nonzero mask. */
  lemma BitNonzero(p: Square)
    ensures Bit(p) != 0
  {
  }

  /** Two squares' masks share a bit exactly when the squares are equal. */
  lemma BitsDisjoint(p: Square, q: Square)
    ensures p != q <==> Bit(p) & Bit(q) == 0
  {
  }

  /** A mask meets a single-bit mask in nothing or in that whole bit. */
  lemma BitIsSingle(x: U64, p: Square)
    ensures x & Bit(p) == 0 || x & Bit(p) == Bit(p)
  {
  }

  /** A single-bit mask holds its own square and no other. */
  lemma BitHolds(p: Square, q: Square)
    ensures HasBit(Bit(p), q) <==> p == q
  {
    BitsDisjoint(p, q);
  }

  /** Two masks with no common bit never hold the same square. */
  lemma DisjointMasks(a: U64, b: U64, p: Square)
    ensures a & b == 0 ==> !(HasBit(a, p) && HasBit(b, p))
  {
    BitIsSingle(a, p);
    BitIsSingle(b, p);
    BitNonzero(p);
  }

  // ---------------------------------------------------------------------
  // findLSBIndex

  /** No square below `r` is set in `v`. */
  ghost predicate NoneBelow(v: U64, r: Square)
  {
    forall i: Square :: i < r ==> !HasBit(v, i)
  }

  /** `r` is the index of the least significant set bit of `v`. */
  ghost predicate IsLeastSetBit(v: U64, r: Square)
  {
    HasBit(v, r) && NoneBelow(v, r)
  }

  /** One more clear square extends the clear run below it. */
  lemma NoneBelowStep(v: U64, r: Square)
    requires r < 63 && NoneBelow(v, r) && !HasBit(v, r)
    ensures NoneBelow(v, r + 1)
  {
  }

  /** A square survives the trip through the program's `int` positions. */
  lemma SquareRoundTrip(s: Square)
    ensures 0 <= s as int < 64 && SquareOf(s as int) == s
  {
  }

  /**
   * `x >> n` taken one place at a time, as the loop of `findLSBIndex` does;
   * keeping the shift amounts literal keeps the loop's proof small.
   */
  function ShiftRight(x: U64, n: bv8): U64
    decreases n
  {
    if n == 0 then x else ShiftRight(x >> 1, n - 1)
  }

  /** Shifting once more after `n` shifts is shifting `n` times a halved mask. */
  lemma {:induction false} ShiftRightOuter(x: U64, n: bv8)
    ensures ShiftRight(x, n) >> 1 == ShiftRight(x >> 1, n)
    decreases n
  {
    if n > 0 {
      ShiftRightOuter(x >> 1, n - 1);
    }
  }

  /** The loop's `v >> 1` is the mask shifted one square further. */
  lemma ShiftRightSucc(x: U64, n: Square)
    requires n < 63
    ensures ShiftRight(x, n) >> 1 == ShiftRight(x, n + 1)
  {
    ShiftRightOuter(x, n);
  }

  /** Square `p` of `v` is square `p - 1` of `v >> 1`. */
  lemma StepBit(v: U64, p: Square)
    requires p > 0
    ensures (v >> 1) & (1 << (p - 1)) != 0 <==> v & (1 << p) != 0
  {
  }

  /** Bit 0 of `v` shifted right `p` times is square `p` of `v`. */
  lemma {:induction false} LowBitAfterShift(v: U64, p: Square)
    ensures ShiftRight(v, p) & 1 != 0 <==> HasBit(v, p)
    decreases p
  {
    if p > 0 {
      LowBitAfterShift(v >> 1, p - 1);
      StepBit(v, p);
    }
  }

  /** A mask holding none of the 64 squares is the empty mask. */
  lemma NoSetBitIsZero(v: U64)
    requires NoneBelow(v, 63) && !HasBit(v, 63)
    ensures v == 0
  {
    assert v & 0x0000_0000_0000_00FF == 0 by {
      assert !HasBit(v, 0) && !HasBit(v, 1) && !HasBit(v, 2) && !HasBit(v, 3) && !HasBit(v, 4) && !HasBit(v, 5) && !HasBit(v, 6) && !HasBit(v, 7);
    }
    assert v & 0x0000_0000_0000_FF00 == 0 by {
      assert !HasBit(v, 8) && !HasBit(v, 9) && !HasBit(v, 10) && !HasBit(v, 11) && !HasBit(v, 12) && !HasBit(v, 13) && !HasBit(v, 14) && !HasBit(v, 15);
    }
    assert v & 0x0000_0000_00FF_0000 == 0 by {
      assert !HasBit(v, 16) && !HasBit(v, 17) && !HasBit(v, 18) && !HasBit(v, 19) && !HasBit(v, 20) && !HasBit(v, 21) && !HasBit(v, 22) && !HasBit(v, 23);
    }
    assert v & 0x0000_0000_FF00_0000 == 0 by {
      assert !HasBit(v, 24) && !HasBit(v, 25) && !HasBit(v, 26) && !HasBit(v, 27) && !HasBit(v, 28) && !HasBit(v, 29) && !HasBit(v, 30) && !HasBit(v, 31);
    }
    assert v & 0x0000_00FF_0000_0000 == 0 by {
      assert !HasBit(v, 32) && !HasBit(v, 33) && !HasBit(v, 34) && !HasBit(v, 35) && !HasBit(v, 36) && !HasBit(v, 37) && !HasBit(v, 38) && !HasBit(v, 39);
    }
    assert v & 0x0000_FF00_0000_0000 == 0 by {
      assert !HasBit(v, 40) && !HasBit(v, 41) && !HasBit(v, 42) && !HasBit(v, 43) && !HasBit(v, 44) && !HasBit(v, 45) && !HasBit(v, 46) && !HasBit(v, 47);
    }
    assert v & 0x00FF_0000_0000_0000 == 0 by {
      assert !HasBit(v, 48) && !HasBit(v, 49) && !HasBit(v, 50) && !HasBit(v, 51) && !HasBit(v, 52) && !HasBit(v, 53) && !HasBit(v, 54) && !HasBit(v, 55);
    }
    assert v & 0xFF00_0000_0000_0000 == 0 by {
      assert !HasBit(v, 56) && !HasBit(v, 57) && !HasBit(v, 58) && !HasBit(v, 59) && !HasBit(v, 60) && !HasBit(v, 61) && !HasBit(v, 62) && !HasBit(v, 63);
    }
  }

  /**
   * `findLSBIndex`: -1 for the empty mask, otherwise the index of the lowest
   * set bit, found by shifting right until bit 0 is set.
   */
  method FindLSBIndex(value: U64) returns (r: int)
    ensures value == 0 <==> r == -1
    ensures value != 0 ==> 0 <= r < 64 && IsLeastSetBit(value, SquareOf(r))
  {
    if value == 0 {
      return -1;
    }
    var v := value;
    var pos: Square := 0;
    while v & 1 == 0
      invariant v == ShiftRight(value, pos)
      invariant NoneBelow(value, pos)
      decreases 64 - pos as int
    {
      LowBitAfterShift(value, pos);
      if pos == 63 {
        NoSetBitIsZero(value);
        assert false;
      }
      ShiftRightSucc(value, pos);
      NoneBelowStep(value, pos);
      v := v >> 1;
      pos := pos + 1;
    }
    LowBitAfterShift(value, pos);
    SquareRoundTrip(pos);
    return pos as int;
  }

  // ---------------------------------------------------------------------
  // Moving one square within a mask: `(v & ~(1 << a)) | (1 << b)`

  /** After the move the mask holds `b`. */
  lemma RelocateHoldsTarget(v: U64, a: Square, b: Square)
    ensures HasBit((v & !Bit(a)) | Bit(b), b)
  {
  }

  /** After a real move the mask no longer holds `a`. */
  lemma RelocateLeavesSource(v: U64, a: Square, b: Square)
    requires a != b
    ensures !HasBit((v & !Bit(a)) | Bit(b), a)
  {
  }

  lemma ZeroMask(x: U64)
    ensures x & 0 == 0 && 0 & x == 0
  {
  }

  lemma AndCommutes(x: U64, y: U64)
    ensures x & y == y & x
  {
  }

  /** Clearing a bit keeps a mask disjoint from another. */
  lemma ClearDisjoint(x: U64, y: U64, p: Square)
    requires x & y == 0
    ensures (x & !Bit(p)) & y == 0
    ensures y & (x & !Bit(p)) == 0
  {
  }

  /** A cleared square is no longer held. */
  lemma ClearedAway(v: U64, p: Square)
    ensures !HasBit(v & !Bit(p), p)
  {
  }

  /** Moving into a square the other mask lacks keeps the two disjoint. */
  lemma RelocateDisjoint(x: U64, y: U64, a: Square, b: Square)
    requires x & y == 0 && !HasBit(y, b)
    ensures ((x & !Bit(a)) | Bit(b)) & y == 0
    ensures y & ((x & !Bit(a)) | Bit(b)) == 0
  {
  }

  /** Clearing one square in one of two disjoint masks keeps them disjoint. */
  lemma ClearKeepsApart(x: U64, y: U64, p: Square, clearX: bool, clearY: bool)
    requires x & y == 0 && !(clearX && clearY)
    ensures (if clearX then x & !Bit(p) else x) & (if clearY then y & !Bit(p) else y) == 0
  {
    if clearX {
      ClearDisjoint(x, y, p);
    } else if clearY {
      AndCommutes(x, y);
      ClearDisjoint(y, x, p);
    }
  }

  /**
   * Moving one of two disjoint masks onto a square the other lacks keeps
   * them disjoint.
   */
  lemma RelocateKeepsApart(x: U64, y: U64, a: Square, b: Square, moveX: bool, moveY: bool, x': U64, y': U64)
    requires x & y == 0 && !(moveX && moveY)
    requires moveX ==> !HasBit(y, b)
    requires moveY ==> !HasBit(x, b)
    requires x' == if moveX then (x & !Bit(a)) | Bit(b) else x
    requires y' == if moveY then (y & !Bit(a)) | Bit(b) else y
    ensures x' & y' == 0
  {
    if moveX {
      RelocateDisjoint(x, y, a, b);
    } else if moveY {
      AndCommutes(x, y);
      RelocateDisjoint(y, x, a, b);
    }
  }

  /** Moving from a held square onto itself changes nothing. */
  lemma RelocateInPlace(v: U64, a: Square)
    requires HasBit(v, a)
    ensures (v & !Bit(a)) | Bit(a) == v
  {
    BitIsSingle(v, a);
    ClearSetSame(v, Bit(a));
  }

  /** Moving from `a` to a free `b` and back restores the mask. */
  lemma RelocateUndo(v: U64, a: Square, b: Square)
    requires HasBit(v, a) && !HasBit(v, b)
    ensures (((v & !Bit(a)) | Bit(b)) & !Bit(b)) | Bit(a) == v
  {
    BitIsSingle(v, a);
    BitIsSingle(v, b);
    BitNonzero(a);
    BitsDisjoint(a, b);
    ClearSetUndo(v, Bit(a), Bit(b));
  }

  /** Moving onto a square the mask already holds only clears the source. */
  lemma RelocateOntoHeld(v: U64, a: Square, b: Square)
    requires HasBit(v, b) && a != b
    ensures (v & !Bit(a)) | Bit(b) == v & !Bit(a)
  {
    BitIsSingle(v, b);
    BitsDisjoint(a, b);
    ClearKeepsOther(v, Bit(a), Bit(b));
    SetHeld(v & !Bit(a), Bit(b));
  }

  /** Clearing bits `ma` keeps a submask `mb` disjoint from them. */
  lemma ClearKeepsOther(v: U64, ma: U64, mb: U64)
    requires v & mb == mb && ma & mb == 0
    ensures (v & !ma) & mb == mb
  {
  }

  /** Setting bits the mask already holds changes nothing. */
  lemma SetHeld(w: U64, mb: U64)
    requires w & mb == mb
    ensures w | mb == w
  {
  }

  /** Clearing the bits of a submask and setting them again gives the mask back. */
  lemma ClearSetSame(v: U64, m: U64)
    requires v & m == m
    ensures (v & !m) | m == v
  {
  }

  /** The same, with a detour through bits `mb` the mask lacks. */
  lemma ClearSetUndo(v: U64, ma: U64, mb: U64)
    requires v & ma == ma && v & mb == 0 && ma & mb == 0
    ensures (((v & !ma) | mb) & !mb) | ma == v
  {
  }

  /** A mask has at most one least significant set bit. */
  lemma LeastSetBitUnique(v: U64, r: Square, s: Square)
    requires IsLeastSetBit(v, r) && IsLeastSetBit(v, s)
    ensures r == s
  {
  }

  /**
   * A mask with one square set yields that square, which is how the king's
   * square is recovered from the king's mask (main.cpp:221-222).
   */
  lemma SingleBitIndex(i: Square, r: Square)
    requires IsLeastSetBit(Bit(i), r)
    ensures r == i
  {
    BitHolds(i, r);
  }
}
