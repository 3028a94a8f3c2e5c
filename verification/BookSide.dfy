/** One side of a symbol's book: levels, occupancy bits and cached best tick, kept in step. */
module BookSides {
  import opened Trading
  import opened Reference
  import opened SideState
  import opened BitWord
  import opened Occupancy
  import opened ObjectPools

  /** Bit `t` is set exactly when level `t` has orders; bits past the last level are clear. */
  ghost predicate BitsOk(bits: seq<bv64>, q: seq<seq<int>>) {
    && |bits| == (|q| + 63) / 64
    && forall t :: 0 <= t < 64 * |bits| ==> TickBit(bits, t) == (t < |q| && q[t] != [])
  }

  lemma PushKeepsBits(bits: seq<bv64>, q: seq<seq<int>>, t: nat, slot: int)
    requires BitsOk(bits, q) && t < |q|
    ensures BitsOk(SetTick(bits, t), q[t := q[t] + [slot]])
  {
    hide TickBit, SetTick;
    var bits', q' := SetTick(bits, t), q[t := q[t] + [slot]];
    SetTickLength(bits, t);
    forall u | 0 <= u < 64 * |bits'| ensures TickBit(bits', u) == (u < |q'| && q'[u] != []) {
      SetTickBit(bits, t, u);
    }
  }

  lemma SetTickLength(bits: seq<bv64>, t: nat)
    requires t < 64 * |bits|
    ensures |SetTick(bits, t)| == |ClearTick(bits, t)| == |bits|
  {}

  /** After a pop the bit of the level is cleared exactly when the level has become empty. */
  lemma PopKeepsBits(bits: seq<bv64>, q: seq<seq<int>>, t: nat)
    requires BitsOk(bits, q) && t < |q| && q[t] != []
    ensures BitsOk(if |q[t]| == 1 then ClearTick(bits, t) else bits, q[t := q[t][1..]])
  {
    hide TickBit, ClearTick;
    var bits', q' := if |q[t]| == 1 then ClearTick(bits, t) else bits, q[t := q[t][1..]];
    SetTickLength(bits, t);
    forall u | 0 <= u < 64 * |bits'| ensures TickBit(bits', u) == (u < |q'| && q'[u] != []) {
      if |q[t]| == 1 { ClearTickBit(bits, t, u); }
    }
  }

  /** Rescanning from the emptied best level finds the new best tick. */
  lemma ScanFindsBest(side: Side, bits: seq<bv64>, q: seq<seq<int>>, best: nat)
    requires BitsOk(bits, q) && best < |q|
    requires side.Buy? ==> forall t :: best < t < |q| ==> q[t] == []
    requires side.Sell? ==> forall t :: 0 <= t < best ==> q[t] == []
    ensures BestOk(side, q, if side.Buy? then ScanDown(bits, best) else ScanUp(bits, best, |q|))
  {
    hide TickBit;
  }

  lemma PoppedEmpty(key: nat, side: Side, nodes: seq<Node>, owner: seq<Owner>,
                    levels: seq<PriceLevel>, q: seq<seq<int>>, t: nat)
    requires ListsOk(key, side, nodes, owner, levels, q) && t < |q|
    ensures levels[t].head == NIL <==> q[t] == []
  {
    hide Fits;
    assert LevelOk(key, side, t, nodes, owner, levels[t], q[t]);
  }

  class BookSide {
    const side: Side
    const levels: array<PriceLevel>
    const bits: array<bv64>
    var best: int
    ghost var q: seq<seq<int>>

    /** The three structures agree with the slot lists `q`. */
    ghost predicate Ok(key: nat, nodes: seq<Node>, owner: seq<Owner>)
      reads this, levels, bits
    {
      && levels.Length == |q| && bits.Length == (|q| + 63) / 64
      && ListsOk(key, side, nodes, owner, levels[..], q)
      && BitsOk(bits[..], q)
      && BestOk(side, q, best)
    }

    /** The bit words share no memory with the other arrays. */
    ghost predicate Apart(pool: ObjectPool) {
      var words: object := bits;
      words != levels && words != pool.slab && words != pool.freeStack
    }

    /** The orders of the side in priority order. */
    ghost function Queue(nodes: seq<Node>): seq<Order>
      reads this
    {
      Flat(side, nodes, q, 0)
    }

    constructor (s: Side, maxTicks: nat)
      ensures side == s && levels.Length == maxTicks && fresh(levels) && fresh(bits)
      ensures (bits as object) != levels
      ensures Blank()
    {
      side := s;
      levels := new PriceLevel[maxTicks](_ => NO_ORDERS);
      bits := new bv64[(maxTicks + 63) / 64](_ => 0);
      best := if s.Buy? then -1 else maxTicks;
      q := seq(maxTicks, _ => []);
    }

    /** No level has orders. */
    ghost predicate Blank()
      reads this, levels, bits
    {
      && levels.Length == |q| && bits.Length == (|q| + 63) / 64
      && best == (if side.Buy? then -1 else |q|)
      && (forall t :: 0 <= t < |q| ==> levels[t] == NO_ORDERS && q[t] == [])
      && (forall w :: 0 <= w < bits.Length ==> bits[w] == 0)
    }

    lemma BlankOk(key: nat, nodes: seq<Node>, owner: seq<Owner>)
      requires Blank() && |nodes| == |owner|
      requires forall s :: 0 <= s < |owner| ==> !HeldBy(owner[s], key, side)
      ensures Ok(key, nodes, owner) && Queue(nodes) == []
    {
      hide Bit;
      FlatSkip(side, nodes, q, 0, |q|);
      forall t | 0 <= t < 64 * bits.Length ensures !TickBit(bits[..], t) {
        ZeroIffNoBit(bits[t / 64]);
      }
    }

    /** The side does not notice changes to slots it does not own. */
    lemma Frame(key: nat, nodes: seq<Node>, owner: seq<Owner>, nodes': seq<Node>, owner': seq<Owner>)
      requires Ok(key, nodes, owner) && SameFor(key, side, nodes, owner, nodes', owner')
      ensures Ok(key, nodes', owner') && Queue(nodes') == Queue(nodes)
    {
      hide ListsOk, SameFor;
      FrameLists(key, side, nodes, owner, nodes', owner', levels[..], q);
    }

    /** The front order of the cached best level is the front of the queue. */
    lemma Front(key: nat, nodes: seq<Node>, owner: seq<Owner>)
      requires Ok(key, nodes, owner)
      ensures |q| == levels.Length && if side.Buy? then -1 <= best < |q| else 0 <= best <= |q|
      ensures Queue(nodes) == [] <==> !(0 <= best < |q|)
      ensures 0 <= best < |q| ==>
        && q[best] != [] && levels[best].head == q[best][0]
        && 0 <= q[best][0] < |nodes| == |owner| && owner[q[best][0]] == Held(key, side, best)
        && Queue(nodes)[0] == nodes[q[best][0]].order
        && Tick(Queue(nodes)[0]) == best
        && Queue(nodes)[0].side == side
    {
      hide Flat, PriceToTick;
      FlatFront(side, nodes, q, best);
      if 0 <= best < |q| {
        assert LevelOk(key, side, best, nodes, owner, levels[..][best], q[best]);
        assert owner[q[best][0]] == Held(key, side, best);
      }
    }

    /** Bit `t` says whether the queue has an order at tick `t`; bits off the grid are clear. */
    lemma BitsShowTicks(key: nat, nodes: seq<Node>, owner: seq<Owner>, t: nat)
      requires Ok(key, nodes, owner) && t < 64 * bits.Length
      ensures TickBit(bits[..], t) <==> exists o :: o in Queue(nodes) && Tick(o) == t
    {
      hide PriceToTick, TickBit, ListsOk, BestOk;
      if t < |q| {
        FlatOccupied(key, side, nodes, owner, levels[..], q, 0, t);
      } else {
        FlatTicks(key, side, nodes, owner, levels[..], q, 0);
      }
    }

    /** `PriceLevel::push` on level `t`. */
    method Push(pool: ObjectPool, t: nat, slot: int)
      requires t < levels.Length && 0 <= slot < pool.slab.Length
      requires levels[t].head == NIL || 0 <= levels[t].tail < pool.slab.Length
      modifies levels, pool.slab
      ensures pool.slab[..] == PushedNodes(old(pool.slab[..]), old(levels[t]), slot)
      ensures levels[..] == old(levels[..])[t := PushedLevel(old(levels[t]), slot)]
    {
      pool.slab[slot] := pool.slab[slot].(next := NIL);
      var head := levels[t].head;
      if head == NIL {
        head := slot;
      } else {
        pool.slab[levels[t].tail] := pool.slab[levels[t].tail].(next := slot);
      }
      levels[t] := PriceLevel(head, slot, levels[t].count + 1);
    }

    /** `PriceLevel::pop_front` on a level that has orders. */
    method PopFront(pool: ObjectPool, t: nat)
      requires t < levels.Length && levels[t].count > 0 && 0 <= levels[t].head < pool.slab.Length
      modifies levels
      ensures levels[..] == old(levels[..])[t := PoppedLevel(old(levels[t]), pool.slab[old(levels[t].head)].next)]
    {
      var head := pool.slab[levels[t].head].next;
      levels[t] := PriceLevel(head, if head == NIL then NIL else levels[t].tail, levels[t].count - 1);
    }

    /** `bid_set` / `ask_set`. */
    method MarkOccupied(t: nat)
      requires t < 64 * bits.Length
      modifies bits
      ensures bits[..] == SetTick(old(bits[..]), t)
    {
      hide Set, One;
      bits[t / 64] := Set(bits[t / 64], One(t % 64));
    }

    /** `bid_clear` / `ask_clear`. */
    method MarkEmpty(t: nat)
      requires t < 64 * bits.Length
      modifies bits
      ensures bits[..] == ClearTick(old(bits[..]), t)
    {
      hide Clear, One;
      bits[t / 64] := Clear(bits[t / 64], One(t % 64));
    }

    /** A new order comes to rest: push on its level, set the occupancy bit, improve the cached tick. */
    method Rest(pool: ObjectPool, key: nat, t: nat, slot: int)
      requires Apart(pool) && pool.Valid() && Ok(key, pool.slab[..], pool.owner)
      requires t < levels.Length && 0 <= slot < pool.slab.Length && pool.owner[slot].Loose?
      requires Fits(pool.slab[slot].order, key, side, t)
      modifies this, levels, bits, pool`owner, pool.slab
      ensures pool.Valid() && Ok(key, pool.slab[..], pool.owner)
      ensures Queue(pool.slab[..]) == Insert(old(Queue(pool.slab[..])), old(pool.slab[slot].order))
      ensures pool.owner == old(pool.owner)[slot := Held(key, side, t)]
      ensures forall s :: 0 <= s < pool.slab.Length ==> pool.slab[s].order == old(pool.slab[s].order)
      ensures forall s :: 0 <= s < pool.slab.Length && s != slot && !HeldBy(old(pool.owner[s]), key, side) ==>
        pool.slab[s] == old(pool.slab[s])
    {
      hide ListsOk, BitsOk, Flat, Fits, StackOk, Set, One, PushedLevel, Insert, SetTick;
      ghost var nodes, owner, free := pool.slab[..], pool.owner, pool.freeStack[..pool.top];
      ghost var lv, b := levels[..], bits[..];
      PushKeepsLists(key, side, nodes, owner, lv, q, t, slot);
      PushKeepsBits(b, q, t, slot);
      FlatPush(key, side, nodes, owner, lv, q, PushedNodes(nodes, lv[t], slot), t, slot, 0);
      StackKept(free, owner, slot, Held(key, side, t));

      Push(pool, t, slot);
      assert bits[..] == b;
      MarkOccupied(t);
      if Better(side, t, best) { best := t; }
      assert pool.slab[..] == PushedNodes(nodes, lv[t], slot);
      assert levels[..] == lv[t := PushedLevel(lv[t], slot)];
      assert pool.freeStack[..pool.top] == free;

      pool.owner := owner[slot := Held(key, side, t)];
      q := q[t := q[t] + [slot]];
    }

    /** Takes `traded` off the quantity of the best level's front order. */
    method ReduceFront(pool: ObjectPool, key: nat, slot: int, traded: int)
      requires Apart(pool) && Ok(key, pool.slab[..], pool.owner)
      requires 0 <= best < levels.Length && slot == levels[best].head && 0 <= slot < pool.slab.Length
      modifies pool.slab
      ensures Ok(key, pool.slab[..], pool.owner)
      ensures pool.slab[..] == ReducedNodes(old(pool.slab[..]), slot, traded)
      ensures var was := old(Queue(pool.slab[..]));
        was != [] && Queue(pool.slab[..]) == [Reduce(was[0], traded)] + was[1..]
    {
      hide ListsOk, BitsOk, Flat, StackOk, LevelOk;
      ghost var nodes, owner, lv := pool.slab[..], pool.owner, levels[..];
      Front(key, nodes, owner);
      ReduceKeepsLists(key, side, nodes, owner, lv, q, slot, traded);
      FlatReduce(key, side, nodes, owner, lv, q, best, traded);
      pool.slab[slot] := pool.slab[slot].(order := Reduce(pool.slab[slot].order, traded));
      assert pool.slab[..] == ReducedNodes(nodes, slot, traded);
      assert levels[..] == lv;
    }

    /** The front order of the best level is filled: pop it, give its slot back, and when its level is
        empty clear the occupancy bit and rescan for the best tick. */
    method RemoveFront(pool: ObjectPool, key: nat, slot: int)
      requires Apart(pool) && pool.Valid() && Ok(key, pool.slab[..], pool.owner)
      requires 0 <= best < levels.Length && slot == levels[best].head
      modifies this, levels, bits, pool, pool.freeStack
      ensures pool.Valid() && Ok(key, pool.slab[..], pool.owner)
      ensures 0 <= slot < pool.slab.Length && HeldBy(old(pool.owner[slot]), key, side)
      ensures old(Queue(pool.slab[..])) != []
      ensures Queue(pool.slab[..]) == old(Queue(pool.slab[..]))[1..]
      ensures pool.owner == old(pool.owner)[slot := Free] && pool.top == old(pool.top) + 1
    {
      hide ListsOk, BitsOk, Flat, StackOk, ClearTick, PoppedLevel, LevelOk;
      ghost var nodes, owner, free := pool.slab[..], pool.owner, pool.freeStack[..pool.top];
      ghost var lv, b, t := levels[..], bits[..], best;
      Front(key, nodes, owner);
      PopKeepsLists(key, side, nodes, owner, lv, q, t);
      PopKeepsBits(b, q, t);
      FlatPop(side, nodes, q, t);
      StackKept(free, owner, slot, Loose);
      ghost var q' := q[t := q[t][1..]];
      FrameLists(key, side, nodes, owner[slot := Loose], nodes, owner[slot := Free],
                 lv[t := PoppedLevel(lv[t], nodes[slot].next)], q');

      PopFront(pool, best);
      assert pool.freeStack[..pool.top] == free;
      pool.owner := owner[slot := Loose];
      pool.Release(slot);
      assert levels[..] == lv[t := PoppedLevel(lv[t], nodes[slot].next)] && bits[..] == b;
      assert pool.owner == owner[slot := Free];
      PoppedEmpty(key, side, nodes, pool.owner, levels[..], q', t);
      if levels[best].head == NIL {
        MarkEmpty(best);
        assert levels[..] == lv[t := PoppedLevel(lv[t], nodes[slot].next)];
        ScanFindsBest(side, bits[..], q', best);
        if side.Buy? {
          best := HighestBid(bits, best);
        } else {
          best := LowestAsk(bits, levels.Length, best);
        }
      }
      q := q';
    }
  }
}
