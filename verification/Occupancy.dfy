/** The occupancy bitset of one book side: one bit per tick, in 64-bit words. */
module Occupancy {
  import opened BitWord

  predicate TickBit(bits: seq<bv64>, t: nat)
    requires t < 64 * |bits|
  {
    Bit(bits[t / 64], t % 64)
  }

  function SetTick(bits: seq<bv64>, t: nat): seq<bv64>
    requires t < 64 * |bits|
  {
    bits[t / 64 := Set(bits[t / 64], One(t % 64))]
  }

  function ClearTick(bits: seq<bv64>, t: nat): seq<bv64>
    requires t < 64 * |bits|
  {
    bits[t / 64 := Clear(bits[t / 64], One(t % 64))]
  }

  /** Setting or clearing tick `t` changes no other tick. */
  lemma SetTickBit(bits: seq<bv64>, t: nat, u: nat)
    requires t < 64 * |bits| && u < 64 * |bits|
    ensures TickBit(SetTick(bits, t), u) == (u == t || TickBit(bits, u))
  {
    hide Bit, Set, One;
    if u / 64 == t / 64 { SetBit(bits[t / 64], t % 64, u % 64); }
  }

  lemma ClearTickBit(bits: seq<bv64>, t: nat, u: nat)
    requires t < 64 * |bits| && u < 64 * |bits|
    ensures TickBit(ClearTick(bits, t), u) == (u != t && TickBit(bits, u))
  {
    hide Bit, Clear, One;
    if u / 64 == t / 64 { ClearBit(bits[t / 64], t % 64, u % 64); }
  }

  /** Linear scan downwards: the highest set tick not above `t`, or -1. */
  function ScanDown(bits: seq<bv64>, t: int): (r: int)
    requires t < 64 * |bits|
    ensures -1 <= r && (r <= t || r == -1)
    ensures r >= 0 ==> TickBit(bits, r)
    ensures forall u :: r < u <= t && 0 <= u ==> !TickBit(bits, u)
    decreases t + 1
  {
    if t < 0 then -1 else if TickBit(bits, t) then t else ScanDown(bits, t - 1)
  }

  /** Linear scan upwards: the lowest set tick not below `t`, or `none`. */
  function ScanUp(bits: seq<bv64>, t: nat, none: int): (r: int)
    ensures r == none || (t <= r < 64 * |bits| && TickBit(bits, r))
    ensures (r == none && forall u :: t <= u < 64 * |bits| ==> !TickBit(bits, u))
         || (t <= r < 64 * |bits| && TickBit(bits, r) && forall u :: t <= u < r ==> !TickBit(bits, u))
    decreases 64 * |bits| - t
  {
    if t >= 64 * |bits| then none else if TickBit(bits, t) then t else ScanUp(bits, t + 1, none)
  }

  lemma {:induction false} ScanDownFound(bits: seq<bv64>, t: int, r: int)
    requires -1 <= r <= t < 64 * |bits|
    requires r >= 0 ==> TickBit(bits, r)
    requires forall u :: r < u <= t && 0 <= u ==> !TickBit(bits, u)
    ensures ScanDown(bits, t) == r
  {
    hide Bit;
  }

  lemma {:induction false} ScanUpFound(bits: seq<bv64>, t: nat, r: int, none: int)
    requires t <= r < 64 * |bits| && TickBit(bits, r)
    requires forall u :: t <= u < r ==> !TickBit(bits, u)
    ensures ScanUp(bits, t, none) == r
    decreases 64 * |bits| - t
  {
    hide Bit;
    if t < r { ScanUpFound(bits, t + 1, r, none); }
  }

  lemma {:induction false} ScanUpNone(bits: seq<bv64>, t: nat, none: int)
    requires forall u :: t <= u < 64 * |bits| ==> !TickBit(bits, u)
    ensures ScanUp(bits, t, none) == none
    decreases 64 * |bits| - t
  {
    hide Bit;
    if t < 64 * |bits| { ScanUpNone(bits, t + 1, none); }
  }

  /** The bits of `word` are the ticks `64 * w ..` of `bits`, restricted to ticks in `lo..hi`. */
  ghost predicate Window(bits: seq<bv64>, w: nat, word: bv64, lo: int, hi: int)
    requires w < |bits|
  {
    forall i :: 0 <= i < 64 ==> Bit(word, i) == (lo <= 64 * w + i <= hi && TickBit(bits, 64 * w + i))
  }

  lemma TickBitAt(bits: seq<bv64>, w: nat, i: nat)
    requires w < |bits| && i < 64
    ensures TickBit(bits, 64 * w + i) == Bit(bits[w], i)
  {
    hide Bit;
    assert (64 * w + i) / 64 == w && (64 * w + i) % 64 == i;
  }

  lemma WindowWhole(bits: seq<bv64>, w: nat, lo: int, hi: int)
    requires w < |bits| && lo <= 64 * w && 64 * w + 63 <= hi
    ensures Window(bits, w, bits[w], lo, hi)
  {
    hide Bit, TickBit;
    forall i | 0 <= i < 64
      ensures Bit(bits[w], i) == (lo <= 64 * w + i <= hi && TickBit(bits, 64 * w + i))
    {
      TickBitAt(bits, w, i);
    }
  }

  lemma WindowUpTo(bits: seq<bv64>, from: nat)
    requires from < 64 * |bits|
    ensures Window(bits, from / 64, KeepUpTo(bits[from / 64], One(from % 64)), 0, from)
  {
    hide Bit, KeepUpTo, One, TickBit;
    var w, j := from / 64, from % 64;
    assert from == 64 * w + j;
    forall i | 0 <= i < 64
      ensures Bit(KeepUpTo(bits[w], One(j)), i) == (0 <= 64 * w + i <= from && TickBit(bits, 64 * w + i))
    {
      TickBitAt(bits, w, i);
      MaskUpTo(bits[w], j, i);
    }
  }

  lemma WindowFrom(bits: seq<bv64>, from: nat)
    requires from < 64 * |bits|
    ensures Window(bits, from / 64, KeepFrom(bits[from / 64], One(from % 64)), from, 64 * |bits|)
  {
    hide Bit, KeepFrom, One, TickBit;
    var w, j := from / 64, from % 64;
    assert from == 64 * w + j;
    forall i | 0 <= i < 64
      ensures Bit(KeepFrom(bits[w], One(j)), i) == (from <= 64 * w + i <= 64 * |bits| && TickBit(bits, 64 * w + i))
    {
      TickBitAt(bits, w, i);
      MaskFrom(bits[w], j, i);
    }
  }

  /** An all-zero word means that its window holds no set tick. */
  lemma WindowEmpty(bits: seq<bv64>, w: nat, word: bv64, lo: int, hi: int)
    requires w < |bits| && Window(bits, w, word, lo, hi) && word == 0
    ensures forall t :: lo <= t <= hi && 64 * w <= t < 64 * w + 64 ==> !TickBit(bits, t)
  {
    hide Bit;
    ZeroIffNoBit(word);
    forall t | lo <= t <= hi && 64 * w <= t < 64 * w + 64 ensures !TickBit(bits, t) {
      assert !Bit(word, t - 64 * w);
    }
  }

  /** `highest_bid`: the word-by-word scan finds what the linear scan would. */
  method HighestBid(bits: array<bv64>, from: int) returns (r: int)
    requires from < 64 * bits.Length
    ensures r == ScanDown(bits[..], from)
  {
    hide Bit, KeepUpTo, One, Window, TickBit, CountLeadingZeros;
    if from < 0 { return -1; }
    ghost var b := bits[..];
    var w := from / 64;
    var mask := KeepUpTo(bits[w], One(from % 64));
    WindowUpTo(b, from);
    while mask == 0 && w > 0
      invariant 0 <= w < bits.Length && 64 * w <= from
      invariant Window(b, w, mask, 0, from)
      invariant forall t :: 64 * w + 64 <= t <= from ==> !TickBit(b, t)
    {
      WindowEmpty(b, w, mask, 0, from);
      w := w - 1;
      mask := bits[w];
      WindowWhole(b, w, 0, from);
    }
    if mask == 0 {
      WindowEmpty(b, w, mask, 0, from);
      r := -1;
    } else {
      ZeroIffNoBit(mask);
      r := w * 64 + 63 - CountLeadingZeros(mask);
      HighBitInWindow(b, w, mask, from);
    }
    ScanDownFound(b, from, r);
  }

  lemma HighBitInWindow(b: seq<bv64>, w: nat, mask: bv64, from: nat)
    requires w < |b| && 64 * w <= from < 64 * |b|
    requires Window(b, w, mask, 0, from)
    requires exists i :: 0 <= i < 64 && Bit(mask, i)
    ensures var r := w * 64 + 63 - CountLeadingZeros(mask);
      && 64 * w <= r <= from && TickBit(b, r)
      && forall t :: r < t <= from && t < 64 * w + 64 ==> !TickBit(b, t)
  {
    hide Bit, TickBit;
    var h := HighBit(mask, 63);
    var i :| 0 <= i < 64 && Bit(mask, i);
    assert i <= h;
    assert w * 64 + 63 - CountLeadingZeros(mask) == 64 * w + h;
    assert Bit(mask, h);
    forall t | 64 * w + h < t <= from && t < 64 * w + 64 ensures !TickBit(b, t) {
      assert !Bit(mask, t - 64 * w);
    }
  }

  lemma LowBitInWindow(b: seq<bv64>, w: nat, mask: bv64, from: nat)
    requires w < |b|
    requires Window(b, w, mask, from, 64 * |b|)
    requires exists i :: 0 <= i < 64 && Bit(mask, i)
    ensures var r := w * 64 + CountTrailingZeros(mask);
      && from <= r < 64 * w + 64 && TickBit(b, r)
      && forall t :: from <= t < r && 64 * w <= t ==> !TickBit(b, t)
  {
    hide Bit, TickBit;
    var l := LowBit(mask, 0);
    assert l < 64 && Bit(mask, l);
    forall t | from <= t < 64 * w + l && 64 * w <= t ensures !TickBit(b, t) {
      assert !Bit(mask, t - 64 * w);
    }
  }

  /** `lowest_ask`, for a bitset of `(maxTicks + 63) / 64` words. */
  method LowestAsk(bits: array<bv64>, maxTicks: nat, from: nat) returns (r: int)
    requires bits.Length == (maxTicks + 63) / 64
    ensures from < maxTicks ==> r == ScanUp(bits[..], from, maxTicks)
    ensures from >= maxTicks ==> r == maxTicks
  {
    hide Bit, KeepFrom, One, Window, TickBit, CountTrailingZeros;
    if from >= maxTicks { return maxTicks; }
    ghost var b := bits[..];
    var w := from / 64;
    var maxW := (maxTicks - 1) / 64;
    var mask := KeepFrom(bits[w], One(from % 64));
    WindowFrom(b, from);
    while mask == 0 && w < maxW
      invariant 0 <= w <= maxW && from < 64 * w + 64
      invariant Window(b, w, mask, from, 64 * |b|)
      invariant forall t :: from <= t < 64 * w ==> !TickBit(b, t)
    {
      WindowEmpty(b, w, mask, from, 64 * |b|);
      w := w + 1;
      mask := bits[w];
      WindowWhole(b, w, from, 64 * |b|);
    }
    if mask == 0 {
      WindowEmpty(b, w, mask, from, 64 * |b|);
      ScanUpNone(b, from, maxTicks);
      r := maxTicks;
    } else {
      ZeroIffNoBit(mask);
      r := w * 64 + CountTrailingZeros(mask);
      LowBitInWindow(b, w, mask, from);
      ScanUpFound(b, from, r, maxTicks);
    }
  }
}
