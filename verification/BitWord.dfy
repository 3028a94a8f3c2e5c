/** Single 64-bit occupancy words: shifting, bit tests, the two scan masks and the
    count-leading/trailing-zeros instructions. */
module BitWord {

  /** `1ULL << n`: a shift past bit 63 loses the bit. */
  function One(n: nat): bv64 {
    if n == 0 then 1 else One(n - 1) << 1
  }

  predicate Has(w: bv64, m: bv64) { w & m != 0 }

  function Set(w: bv64, m: bv64): bv64 { w | m }

  function Clear(w: bv64, m: bv64): bv64 { w & !m }

  /** With `m == 1 << j`, masks `w` by `(2 << j) - 1`. */
  function KeepUpTo(w: bv64, m: bv64): bv64 { w & ((m << 1) - 1) }

  /** With `m == 1 << j`, masks `w` by `~((1 << j) - 1)`. */
  function KeepFrom(w: bv64, m: bv64): bv64 { w & !(m - 1) }

  /** Bit `i` of `w`. */
  predicate Bit(w: bv64, i: nat) {
    Has(w, One(i))
  }

  /** Index of the highest set bit of `w` not above `i`, or -1. */
  function HighBit(w: bv64, i: int): (r: int)
    requires i < 64
    ensures -1 <= r && (r <= i || r == -1)
    ensures r >= 0 ==> Bit(w, r)
    ensures forall k :: r < k <= i && 0 <= k ==> !Bit(w, k)
    decreases i + 1
  {
    if i < 0 then -1 else if Bit(w, i) then i else HighBit(w, i - 1)
  }

  /** Index of the lowest set bit of `w` not below `i`, or 64. */
  function LowBit(w: bv64, i: nat): (r: int)
    requires i <= 64
    ensures i <= r <= 64
    ensures r < 64 ==> Bit(w, r)
    ensures forall k :: i <= k < r ==> !Bit(w, k)
    decreases 64 - i
  {
    if i == 64 then 64 else if Bit(w, i) then i else LowBit(w, i + 1)
  }

  /** `__builtin_clzll`: number of zero bits above the highest set bit. */
  function CountLeadingZeros(w: bv64): int { 63 - HighBit(w, 63) }

  /** `__builtin_ctzll`: number of zero bits below the lowest set bit. */
  function CountTrailingZeros(w: bv64): int { LowBit(w, 0) }

  /** `m` has exactly one bit set. */
  predicate Single(m: bv64) { m != 0 && m & (m - 1) == 0 }

  lemma {:induction false} OneZeroStays(i: nat, k: nat)
    requires i <= k && One(i) == 0
    ensures One(k) == 0
    decreases k
  {
    if i < k { OneZeroStays(i, k - 1); }
  }

  lemma TopBit()
    ensures One(63) == 0x8000_0000_0000_0000
  {
    assert One(8) == 0x100;
    assert One(16) == 0x1_0000;
    assert One(24) == 0x100_0000;
    assert One(32) == 0x1_0000_0000;
    assert One(40) == 0x100_0000_0000;
    assert One(48) == 0x1_0000_0000_0000;
    assert One(56) == 0x100_0000_0000_0000;
  }

  /** `1 << i` is one single bit for every `i < 64`, and higher `i` give larger words. */
  lemma {:induction false} OneSingle(i: nat)
    requires i < 64
    ensures Single(One(i))
    ensures i > 0 ==> One(i) == One(i - 1) << 1
  {
    if i > 0 {
      OneSingle(i - 1);
      if One(i) == 0 {
        OneZeroStays(i, 63);
        TopBit();
        assert false;
      }
      DoubleSingle(One(i - 1));
    }
  }

  lemma DoubleSingle(m: bv64)
    requires Single(m) && m << 1 != 0
    ensures Single(m << 1) && m < m << 1
  {}

  lemma {:induction false} OneMonotone(i: nat, j: nat)
    requires i < j < 64
    ensures One(i) < One(j)
    decreases j
  {
    OneSingle(j);
    OneSingle(j - 1);
    DoubleSingle(One(j - 1));
    if i < j - 1 { OneMonotone(i, j - 1); }
  }

  // Word-level facts about single-bit words; the solver decides them by bit-blasting.
  lemma SingleOrWord(w: bv64, m: bv64, n: bv64)
    requires Single(m) && Single(n)
    ensures ((w | n) & m != 0) == (m == n || w & m != 0)
  {}

  lemma SingleOrHas(w: bv64, m: bv64, n: bv64)
    requires Single(m) && Single(n)
    ensures Has(w | n, m) == (m == n || Has(w, m))
  {
    hide Single;
    SingleOrWord(w, m, n);
  }

  lemma SingleOr(w: bv64, m: bv64, n: bv64)
    requires Single(m) && Single(n)
    ensures Has(Set(w, n), m) == (m == n || Has(w, m))
  {
    hide Single, Has;
    SingleOrHas(w, m, n);
  }

  lemma SingleAndNotWord(w: bv64, m: bv64, n: bv64)
    requires Single(m) && Single(n)
    ensures ((w & !n) & m != 0) == (m != n && w & m != 0)
  {}

  lemma SingleAndNotHas(w: bv64, m: bv64, n: bv64)
    requires Single(m) && Single(n)
    ensures Has(w & !n, m) == (m != n && Has(w, m))
  {
    hide Single;
    SingleAndNotWord(w, m, n);
  }

  lemma SingleAndNot(w: bv64, m: bv64, n: bv64)
    requires Single(m) && Single(n)
    ensures Has(Clear(w, n), m) == (m != n && Has(w, m))
  {
    hide Single, Has;
    SingleAndNotHas(w, m, n);
  }

  lemma SingleUpToWord(w: bv64, m: bv64, n: bv64)
    requires Single(m) && Single(n)
    ensures ((w & ((n << 1) - 1)) & m != 0) == (m <= n && w & m != 0)
  {}

  lemma SingleUpToHas(w: bv64, m: bv64, n: bv64)
    requires Single(m) && Single(n)
    ensures Has(w & ((n << 1) - 1), m) == (m <= n && Has(w, m))
  {
    hide Single;
    SingleUpToWord(w, m, n);
  }

  lemma SingleUpTo(w: bv64, m: bv64, n: bv64)
    requires Single(m) && Single(n)
    ensures Has(KeepUpTo(w, n), m) == (m <= n && Has(w, m))
  {
    hide Single, Has;
    SingleUpToHas(w, m, n);
  }

  lemma SingleFromWord(w: bv64, m: bv64, n: bv64)
    requires Single(m) && Single(n)
    ensures ((w & !(n - 1)) & m != 0) == (n <= m && w & m != 0)
  {}

  lemma SingleFromHas(w: bv64, m: bv64, n: bv64)
    requires Single(m) && Single(n)
    ensures Has(w & !(n - 1), m) == (n <= m && Has(w, m))
  {
    hide Single;
    SingleFromWord(w, m, n);
  }

  lemma SingleFrom(w: bv64, m: bv64, n: bv64)
    requires Single(m) && Single(n)
    ensures Has(KeepFrom(w, n), m) == (n <= m && Has(w, m))
  {
    hide Single, Has;
    SingleFromHas(w, m, n);
  }

  lemma SameOrder(i: nat, j: nat)
    requires i < 64 && j < 64
    ensures One(i) == One(j) <==> i == j
    ensures One(i) <= One(j) <==> i <= j
  {
    hide One;
    if i < j { OneMonotone(i, j); } else if j < i { OneMonotone(j, i); }
  }

  lemma SameBit(i: nat, j: nat)
    requires i < 64 && j < 64
    ensures Single(One(i)) && Single(One(j))
    ensures One(i) == One(j) <==> i == j
    ensures One(i) <= One(j) <==> i <= j
  {
    OneSingle(i); OneSingle(j);
    SameOrder(i, j);
  }

  /** Setting bit `j` changes bit `j` only. */
  lemma SetBit(w: bv64, j: nat, i: nat)
    requires i < 64 && j < 64
    ensures Bit(Set(w, One(j)), i) == (i == j || Bit(w, i))
  {
    hide Has, Single, One, Set, Clear, KeepUpTo, KeepFrom;
    SameBit(i, j);
    SingleOr(w, One(i), One(j));
  }

  /** Clearing bit `j` changes bit `j` only. */
  lemma ClearBit(w: bv64, j: nat, i: nat)
    requires i < 64 && j < 64
    ensures Bit(Clear(w, One(j)), i) == (i != j && Bit(w, i))
  {
    hide Has, Single, One, Set, Clear, KeepUpTo, KeepFrom;
    SameBit(i, j);
    SingleAndNot(w, One(i), One(j));
  }

  /** The mask `(2 << j) - 1` keeps exactly bits 0..j, also for j = 63 where `2 << 63` wraps to 0. */
  lemma MaskUpTo(w: bv64, j: nat, i: nat)
    requires i < 64 && j < 64
    ensures Bit(KeepUpTo(w, One(j)), i) == (i <= j && Bit(w, i))
  {
    hide Has, Single, One, Set, Clear, KeepUpTo, KeepFrom;
    SameBit(i, j);
    SingleUpTo(w, One(i), One(j));
  }

  /** The mask `~((1 << j) - 1)` keeps exactly bits j..63. */
  lemma MaskFrom(w: bv64, j: nat, i: nat)
    requires i < 64 && j < 64
    ensures Bit(KeepFrom(w, One(j)), i) == (i >= j && Bit(w, i))
  {
    hide Has, Single, One, Set, Clear, KeepUpTo, KeepFrom;
    SameBit(j, i);
    SingleFrom(w, One(i), One(j));
  }

  lemma {:induction false} ClearPrefix(w: bv64, i: nat)
    requires i < 64
    requires forall k :: 0 <= k <= i ==> !Bit(w, k)
    ensures !Has(w, (One(i) << 1) - 1)
  {
    hide Has, Single, One;
    OneSingle(i);
    assert !Bit(w, i);
    if i > 0 {
      ClearPrefix(w, i - 1);
      ExtendPrefix(w, One(i));
    } else {
      ClearFirst(w);
    }
  }

  lemma ClearFirst(w: bv64)
    requires !Bit(w, 0)
    ensures !Has(w, (One(0) << 1) - 1)
  {}

  lemma ExtendPrefix(w: bv64, m: bv64)
    requires Single(m) && !Has(w, m) && !Has(w, m - 1)
    ensures !Has(w, (m << 1) - 1)
  {}

  /** A word is zero exactly when none of its 64 bits is set. */
  lemma ZeroIffNoBit(w: bv64)
    ensures w == 0 <==> forall i :: 0 <= i < 64 ==> !Bit(w, i)
  {
    if forall i :: 0 <= i < 64 ==> !Bit(w, i) {
      ClearPrefix(w, 63);
      TopBit();
    }
  }
}
