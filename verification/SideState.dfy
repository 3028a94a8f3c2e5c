/** The value of one book side: price levels threaded as intrusive lists through pool slots, and the
    priority sequence they stand for. `owner` says for every slot which list it is on. */
module SideState {
  import opened Trading
  import opened Reference

  /** The null pointer. Any other pointer into the slab is the index of its slot. */
  const NIL: int := -1

  /** One slot of the slab: an order and its intrusive `next` link. */
  datatype Node = Node(order: Order, next: int)

  datatype PriceLevel = PriceLevel(head: int, tail: int, count: nat)

  const NO_ORDERS := PriceLevel(NIL, NIL, 0)

  /** Where a slot is: on the free stack, handed out but on no list, or on one price level's list. */
  datatype Owner = Free | Loose | Held(key: nat, side: Side, tick: int)

  predicate HeldBy(w: Owner, key: nat, side: Side) {
    w.Held? && w.key == key && w.side == side
  }

  function NextIn(q: seq<int>, i: nat): int {
    if i + 1 < |q| then q[i + 1] else NIL
  }

  /** The level's pointers thread exactly the slots of `q`, in this order, and end there. */
  ghost predicate Linked(nodes: seq<Node>, level: PriceLevel, q: seq<int>) {
    && level.count == |q|
    && level.head == (if q == [] then NIL else q[0])
    && level.tail == (if q == [] then NIL else q[|q| - 1])
    && (forall i :: 0 <= i < |q| ==> 0 <= q[i] < |nodes|)
    && (forall i :: 0 <= i < |q| ==> nodes[q[i]].next == NextIn(q, i))
    && (forall i, j :: 0 <= i < j < |q| ==> q[i] != q[j])
  }

  /** `o` belongs on this symbol, side and tick. */
  predicate Fits(o: Order, key: nat, side: Side, tick: int) {
    Tick(o) == tick && o.side == side && SymKey(o.symbol) == key
  }

  /** Every slot of `q` is owned by this level and holds an order of it. */
  ghost predicate Owned(key: nat, side: Side, tick: int, nodes: seq<Node>, owner: seq<Owner>, q: seq<int>)
    requires |nodes| == |owner|
    requires forall i :: 0 <= i < |q| ==> 0 <= q[i] < |nodes|
  {
    forall i :: 0 <= i < |q| ==>
      owner[q[i]] == Held(key, side, tick) && Fits(nodes[q[i]].order, key, side, tick)
  }

  ghost predicate LevelOk(key: nat, side: Side, tick: int, nodes: seq<Node>, owner: seq<Owner>,
                          level: PriceLevel, q: seq<int>)
  {
    |nodes| == |owner| && Linked(nodes, level, q) && Owned(key, side, tick, nodes, owner, q)
  }

  /** All levels of one side are well-formed lists, and every slot the side owns is on its list. */
  ghost predicate ListsOk(key: nat, side: Side, nodes: seq<Node>, owner: seq<Owner>,
                          levels: seq<PriceLevel>, q: seq<seq<int>>)
  {
    && |nodes| == |owner| && |levels| == |q|
    && (forall t :: 0 <= t < |q| ==> LevelOk(key, side, t, nodes, owner, levels[t], q[t]))
    && (forall s :: 0 <= s < |owner| && HeldBy(owner[s], key, side) ==>
          0 <= owner[s].tick < |q| && s in q[owner[s].tick])
  }

  /** The cached tick is the best occupied one, or the side's sentinel (-1 or the number of ticks). */
  ghost predicate BestOk(side: Side, q: seq<seq<int>>, best: int) {
    if side.Buy? then
      && -1 <= best < |q| && (best >= 0 ==> q[best] != [])
      && (forall t :: best < t < |q| ==> q[t] == [])
    else
      && 0 <= best <= |q| && (best < |q| ==> q[best] != [])
      && (forall t :: 0 <= t < best ==> q[t] == [])
  }

  // ---------------------------------------------------------------------------------------------
  // Pushing and popping

  function PushedLevel(level: PriceLevel, slot: int): PriceLevel {
    PriceLevel(if level.head == NIL then slot else level.head, slot, level.count + 1)
  }

  function PushedNodes(nodes: seq<Node>, level: PriceLevel, slot: int): (r: seq<Node>)
    requires 0 <= slot < |nodes| && (level.head == NIL || 0 <= level.tail < |nodes|)
    ensures |r| == |nodes|
    ensures forall s :: 0 <= s < |nodes| ==> r[s].order == nodes[s].order
  {
    var n := nodes[slot := nodes[slot].(next := NIL)];
    if level.head == NIL then n else n[level.tail := n[level.tail].(next := slot)]
  }

  function PoppedLevel(level: PriceLevel, next: int): PriceLevel
    requires level.count > 0
  {
    PriceLevel(next, if next == NIL then NIL else level.tail, level.count - 1)
  }

  lemma PushLinks(nodes: seq<Node>, level: PriceLevel, q: seq<int>, slot: int)
    requires Linked(nodes, level, q) && 0 <= slot < |nodes| && slot !in q
    ensures level.head == NIL || 0 <= level.tail < |nodes|
    ensures Linked(PushedNodes(nodes, level, slot), PushedLevel(level, slot), q + [slot])
  {
    var r, q' := PushedNodes(nodes, level, slot), q + [slot];
    forall i | 0 <= i < |q'| ensures r[q'[i]].next == NextIn(q', i) {
      if i < |q| - 1 { assert q[i] != q[|q| - 1]; }
    }
  }

  lemma PopLinks(nodes: seq<Node>, level: PriceLevel, q: seq<int>)
    requires Linked(nodes, level, q) && q != []
    ensures Linked(nodes, PoppedLevel(level, nodes[q[0]].next), q[1..])
  {
    var q' := q[1..];
    forall i | 0 <= i < |q'| ensures nodes[q'[i]].next == NextIn(q', i) {
      assert nodes[q[i + 1]].next == NextIn(q, i + 1);
    }
    assert nodes[q[0]].next == NextIn(q, 0);
  }

  /** A level does not notice changes to slots it does not own, nor changes within an order that keep
      the order's symbol, side and tick. */
  lemma LevelFrame(key: nat, side: Side, tick: int, nodes: seq<Node>, owner: seq<Owner>,
                   nodes': seq<Node>, owner': seq<Owner>, level: PriceLevel, q: seq<int>)
    requires LevelOk(key, side, tick, nodes, owner, level, q)
    requires |nodes'| == |owner'| == |nodes|
    requires forall s :: 0 <= s < |owner| && owner[s] == Held(key, side, tick) ==>
      && owner'[s] == owner[s] && nodes'[s].next == nodes[s].next
      && (Fits(nodes[s].order, key, side, tick) ==> Fits(nodes'[s].order, key, side, tick))
    ensures LevelOk(key, side, tick, nodes', owner', level, q)
  {
    hide Fits;
    forall i | 0 <= i < |q|
      ensures nodes'[q[i]].next == NextIn(q, i)
      ensures owner'[q[i]] == Held(key, side, tick) && Fits(nodes'[q[i]].order, key, side, tick)
    {
      assert owner[q[i]] == Held(key, side, tick);
    }
  }

  lemma PushLevelOk(key: nat, side: Side, nodes: seq<Node>, owner: seq<Owner>,
                    t: nat, level: PriceLevel, q: seq<int>, slot: int)
    requires LevelOk(key, side, t, nodes, owner, level, q)
    requires 0 <= slot < |nodes| && owner[slot] == Loose && Fits(nodes[slot].order, key, side, t)
    ensures level.head == NIL || (0 <= level.tail < |nodes| && owner[level.tail] == Held(key, side, t))
    ensures LevelOk(key, side, t, PushedNodes(nodes, level, slot), owner[slot := Held(key, side, t)],
                    PushedLevel(level, slot), q + [slot])
  {
    hide Fits, PushedLevel;
    assert slot !in q;
    PushLinks(nodes, level, q, slot);
    assert level.head != NIL ==> owner[q[|q| - 1]] == Held(key, side, t);
    var nodes', owner', q' := PushedNodes(nodes, level, slot), owner[slot := Held(key, side, t)], q + [slot];
    forall i | 0 <= i < |q'| ensures owner'[q'[i]] == Held(key, side, t) && Fits(nodes'[q'[i]].order, key, side, t) {
      if i < |q| { assert owner[q[i]] == Held(key, side, t); }
    }
  }

  /** Appending a loose slot to tick `t` keeps all lists of the side well formed. */
  lemma PushKeepsLists(key: nat, side: Side, nodes: seq<Node>, owner: seq<Owner>,
                       levels: seq<PriceLevel>, q: seq<seq<int>>, t: nat, slot: int)
    requires ListsOk(key, side, nodes, owner, levels, q)
    requires t < |q| && 0 <= slot < |nodes| && owner[slot] == Loose
    requires Fits(nodes[slot].order, key, side, t)
    ensures levels[t].head == NIL || (0 <= levels[t].tail < |nodes| && HeldBy(owner[levels[t].tail], key, side))
    ensures ListsOk(key, side, PushedNodes(nodes, levels[t], slot), owner[slot := Held(key, side, t)],
                    levels[t := PushedLevel(levels[t], slot)], q[t := q[t] + [slot]])
  {
    hide Fits, PushedLevel, LevelOk;
    PushLevelOk(key, side, nodes, owner, t, levels[t], q[t], slot);
    var nodes', owner' := PushedNodes(nodes, levels[t], slot), owner[slot := Held(key, side, t)];
    var levels', q' := levels[t := PushedLevel(levels[t], slot)], q[t := q[t] + [slot]];
    forall u | 0 <= u < |q| ensures LevelOk(key, side, u, nodes', owner', levels'[u], q'[u]) {
      if u != t { LevelFrame(key, side, u, nodes, owner, nodes', owner', levels[u], q[u]); }
    }
    assert q'[t][|q[t]|] == slot;
    assert forall x :: x in q[t] ==> x in q'[t];
  }

  lemma PopLevelOk(key: nat, side: Side, nodes: seq<Node>, owner: seq<Owner>,
                   t: nat, level: PriceLevel, q: seq<int>)
    requires LevelOk(key, side, t, nodes, owner, level, q) && q != []
    ensures 0 <= q[0] < |nodes| && level.head == q[0] && level.count > 0
    ensures owner[q[0]] == Held(key, side, t)
    ensures LevelOk(key, side, t, nodes, owner[q[0] := Loose], PoppedLevel(level, nodes[q[0]].next), q[1..])
  {
    hide Fits, PoppedLevel;
    PopLinks(nodes, level, q);
    var owner', q' := owner[q[0] := Loose], q[1..];
    forall i | 0 <= i < |q'| ensures owner'[q'[i]] == Held(key, side, t) && Fits(nodes[q'[i]].order, key, side, t) {
      assert owner[q[i + 1]] == Held(key, side, t);
    }
  }

  /** Taking the front slot off tick `t` keeps all lists of the side well formed; the slot is loose. */
  lemma PopKeepsLists(key: nat, side: Side, nodes: seq<Node>, owner: seq<Owner>,
                      levels: seq<PriceLevel>, q: seq<seq<int>>, t: nat)
    requires ListsOk(key, side, nodes, owner, levels, q)
    requires t < |q| && q[t] != []
    ensures 0 <= q[t][0] < |nodes| && levels[t].head == q[t][0] && levels[t].count > 0
    ensures owner[q[t][0]] == Held(key, side, t)
    ensures ListsOk(key, side, nodes, owner[q[t][0] := Loose],
                    levels[t := PoppedLevel(levels[t], nodes[q[t][0]].next)], q[t := q[t][1..]])
  {
    hide Fits, PoppedLevel, LevelOk;
    PopLevelOk(key, side, nodes, owner, t, levels[t], q[t]);
    var slot := q[t][0];
    var owner' := owner[slot := Loose];
    var levels', q' := levels[t := PoppedLevel(levels[t], nodes[slot].next)], q[t := q[t][1..]];
    forall u | 0 <= u < |q| ensures LevelOk(key, side, u, nodes, owner', levels'[u], q'[u]) {
      if u != t { LevelFrame(key, side, u, nodes, owner, nodes, owner', levels[u], q[u]); }
    }
    assert forall x :: x in q[t] && x != slot ==> x in q'[t];
  }

  /** The change from (nodes, owner) to (nodes', owner') leaves alone every slot owned by this side
      before or after. */
  ghost predicate SameFor(key: nat, side: Side, nodes: seq<Node>, owner: seq<Owner>,
                          nodes': seq<Node>, owner': seq<Owner>)
  {
    && |nodes| == |owner| == |nodes'| == |owner'|
    && forall s :: 0 <= s < |owner| && (HeldBy(owner[s], key, side) || HeldBy(owner'[s], key, side)) ==>
         owner'[s] == owner[s] && nodes'[s] == nodes[s]
  }

  lemma FrameLevel(key: nat, side: Side, nodes: seq<Node>, owner: seq<Owner>,
                   nodes': seq<Node>, owner': seq<Owner>, t: nat, level: PriceLevel, slots: seq<int>)
    requires LevelOk(key, side, t, nodes, owner, level, slots)
    requires SameFor(key, side, nodes, owner, nodes', owner')
    ensures LevelOk(key, side, t, nodes', owner', level, slots)
    ensures Orders(nodes', slots) == Orders(nodes, slots)
  {
    hide Fits, Orders;
    assert forall s :: 0 <= s < |owner| && owner[s] == Held(key, side, t) ==> HeldBy(owner[s], key, side);
    LevelFrame(key, side, t, nodes, owner, nodes', owner', level, slots);
  }

  /** A side does not notice changes to slots it does not own. */
  lemma FrameLists(key: nat, side: Side, nodes: seq<Node>, owner: seq<Owner>,
                   nodes': seq<Node>, owner': seq<Owner>, levels: seq<PriceLevel>, q: seq<seq<int>>)
    requires ListsOk(key, side, nodes, owner, levels, q)
    requires SameFor(key, side, nodes, owner, nodes', owner')
    ensures ListsOk(key, side, nodes', owner', levels, q)
    ensures Flat(side, nodes', q, 0) == Flat(side, nodes, q, 0)
  {
    hide LevelOk, Orders, Flat;
    forall t | 0 <= t < |q|
      ensures LevelOk(key, side, t, nodes', owner', levels[t], q[t])
      ensures Orders(nodes', q[t]) == Orders(nodes, q[t])
    {
      FrameLevel(key, side, nodes, owner, nodes', owner', t, levels[t], q[t]);
    }
    FlatSame(side, nodes, q, nodes', q, 0);
  }

  /** Changing the quantity of an order on the side keeps the lists. */
  lemma ReduceKeepsLists(key: nat, side: Side, nodes: seq<Node>, owner: seq<Owner>,
                         levels: seq<PriceLevel>, q: seq<seq<int>>, slot: int, traded: int)
    requires ListsOk(key, side, nodes, owner, levels, q) && 0 <= slot < |nodes|
    ensures ListsOk(key, side, ReducedNodes(nodes, slot, traded), owner, levels, q)
  {
    hide PriceToTick;
    var nodes' := ReducedNodes(nodes, slot, traded);
    forall t | 0 <= t < |q| ensures LevelOk(key, side, t, nodes', owner, levels[t], q[t]) {
      assert LevelOk(key, side, t, nodes, owner, levels[t], q[t]);
      LevelFrame(key, side, t, nodes, owner, nodes', owner, levels[t], q[t]);
    }
  }

  function ReducedNodes(nodes: seq<Node>, slot: int, traded: int): seq<Node>
    requires 0 <= slot < |nodes|
  {
    nodes[slot := nodes[slot].(order := Reduce(nodes[slot].order, traded))]
  }

  // ---------------------------------------------------------------------------------------------
  // The priority sequence

  function OrderAt(nodes: seq<Node>, s: int): Order {
    if 0 <= s < |nodes| then nodes[s].order else ZEROED
  }

  function Orders(nodes: seq<Node>, slots: seq<int>): (r: seq<Order>)
    ensures |r| == |slots|
    ensures forall i :: 0 <= i < |r| ==> r[i] == OrderAt(nodes, slots[i])
  {
    seq(|slots|, i requires 0 <= i < |slots| => OrderAt(nodes, slots[i]))
  }

  /** The p-th best tick of `n`: bids from the highest down, asks from the lowest up. */
  function TickAt(side: Side, n: nat, p: int): int {
    if side.Buy? then n - 1 - p else p
  }

  /** The orders of all levels from the p-th best tick on, best tick first and first come first. */
  function Flat(side: Side, nodes: seq<Node>, q: seq<seq<int>>, p: nat): seq<Order>
    requires p <= |q|
    decreases |q| - p
  {
    if p == |q| then [] else Orders(nodes, q[TickAt(side, |q|, p)]) + Flat(side, nodes, q, p + 1)
  }

  /** The p-th best level holds the same orders in both. */
  predicate SameLevel(side: Side, nodes: seq<Node>, q: seq<seq<int>>, nodes': seq<Node>, q': seq<seq<int>>, p: nat)
    requires p < |q| == |q'|
  {
    Orders(nodes', q'[TickAt(side, |q|, p)]) == Orders(nodes, q[TickAt(side, |q|, p)])
  }

  lemma {:induction false} FlatSame(side: Side, nodes: seq<Node>, q: seq<seq<int>>,
                                    nodes': seq<Node>, q': seq<seq<int>>, p: nat)
    requires p <= |q| == |q'|
    requires forall i :: p <= i < |q| ==> SameLevel(side, nodes, q, nodes', q', i)
    ensures Flat(side, nodes', q', p) == Flat(side, nodes, q, p)
    decreases |q| - p
  {
    hide Orders, SameLevel;
    if p < |q| {
      FlatSame(side, nodes, q, nodes', q', p + 1);
      LevelIsSame(side, nodes, q, nodes', q', p);
    }
  }

  lemma LevelIsSame(side: Side, nodes: seq<Node>, q: seq<seq<int>>, nodes': seq<Node>, q': seq<seq<int>>, p: nat)
    requires p < |q| == |q'| && SameLevel(side, nodes, q, nodes', q', p)
    ensures Orders(nodes', q'[TickAt(side, |q|, p)]) == Orders(nodes, q[TickAt(side, |q|, p)])
  {}

  lemma {:induction false} FlatSkip(side: Side, nodes: seq<Node>, q: seq<seq<int>>, p: nat, stop: nat)
    requires p <= stop <= |q|
    requires forall i :: p <= i < stop ==> q[TickAt(side, |q|, i)] == []
    ensures Flat(side, nodes, q, p) == Flat(side, nodes, q, stop)
    decreases stop - p
  {
    if p < stop {
      FlatSkip(side, nodes, q, p + 1, stop);
      assert Orders(nodes, q[TickAt(side, |q|, p)]) == [];
    }
  }

  /** The priority sequence starts with the front order of the cached best level, and is empty exactly
      when the cached tick is the sentinel. */
  lemma FlatFront(side: Side, nodes: seq<Node>, q: seq<seq<int>>, best: int)
    requires BestOk(side, q, best)
    ensures var p := if side.Buy? then |q| - 1 - best else best;
      && 0 <= p <= |q|
      && (0 <= best < |q| ==>
            && q[best] != []
            && Flat(side, nodes, q, 0) == Orders(nodes, q[best]) + Flat(side, nodes, q, p + 1))
      && (!(0 <= best < |q|) ==> Flat(side, nodes, q, 0) == [])
  {
    var p := if side.Buy? then |q| - 1 - best else best;
    FlatSkip(side, nodes, q, 0, p);
  }

  /** With nothing before level `t`, the p-th best, the sequence starts with that level. */
  lemma FlatFrom(side: Side, nodes: seq<Node>, q: seq<seq<int>>, t: nat, p: nat)
    requires p < |q| && t == TickAt(side, |q|, p)
    requires forall i :: 0 <= i < p ==> q[TickAt(side, |q|, i)] == []
    ensures Flat(side, nodes, q, 0) == Orders(nodes, q[t]) + Flat(side, nodes, q, p + 1)
  {
    hide Orders;
    FlatSkip(side, nodes, q, 0, p);
  }

  /** Dropping the best level's front slot drops the front of the priority sequence. */
  lemma FlatPop(side: Side, nodes: seq<Node>, q: seq<seq<int>>, best: int)
    requires BestOk(side, q, best) && 0 <= best < |q|
    ensures Flat(side, nodes, q, 0) != []
    ensures Flat(side, nodes, q[best := q[best][1..]], 0) == Flat(side, nodes, q, 0)[1..]
  {
    hide Flat;
    var q' := q[best := q[best][1..]];
    var p := if side.Buy? then |q| - 1 - best else best;
    FlatFrom(side, nodes, q, best, p);
    FlatFrom(side, nodes, q', best, p);
    FlatSame(side, nodes, q, nodes, q', p + 1);
    assert Orders(nodes, q'[best]) == Orders(nodes, q[best])[1..];
  }

  /** The slots of a level are in range, different, and owned by the level. */
  lemma LevelSlots(key: nat, side: Side, nodes: seq<Node>, owner: seq<Owner>,
                   levels: seq<PriceLevel>, q: seq<seq<int>>, t: nat)
    requires ListsOk(key, side, nodes, owner, levels, q) && t < |q|
    ensures forall i :: 0 <= i < |q[t]| ==> 0 <= q[t][i] < |nodes| == |owner| && owner[q[t][i]] == Held(key, side, t)
    ensures forall i, j :: 0 <= i < j < |q[t]| ==> q[t][i] != q[t][j]
  {
    hide Fits;
    assert LevelOk(key, side, t, nodes, owner, levels[t], q[t]);
  }

  lemma ReduceOrders(key: nat, side: Side, nodes: seq<Node>, owner: seq<Owner>,
                     levels: seq<PriceLevel>, q: seq<seq<int>>, best: nat, traded: int)
    requires ListsOk(key, side, nodes, owner, levels, q) && best < |q| && q[best] != []
    ensures 0 <= q[best][0] < |nodes|
    ensures var nodes' := ReducedNodes(nodes, q[best][0], traded);
      && Orders(nodes', q[best]) == [Reduce(nodes[q[best][0]].order, traded)] + Orders(nodes, q[best])[1..]
      && (forall t :: 0 <= t < |q| && t != best ==> Orders(nodes', q[t]) == Orders(nodes, q[t]))
  {
    hide ListsOk, Reduce;
    LevelSlots(key, side, nodes, owner, levels, q, best);
    var slot := q[best][0];
    var nodes' := ReducedNodes(nodes, slot, traded);
    assert Orders(nodes', q[best]) == [Reduce(nodes[slot].order, traded)] + Orders(nodes, q[best])[1..];
    forall t | 0 <= t < |q| && t != best ensures Orders(nodes', q[t]) == Orders(nodes, q[t]) {
      LevelSlots(key, side, nodes, owner, levels, q, t);
    }
  }

  lemma ReplaceFirst(a: seq<Order>, rest: seq<Order>, x: Order)
    requires a != []
    ensures [x] + a[1..] + rest == [x] + (a + rest)[1..] && (a + rest)[0] == a[0]
  {}

  /** Reducing the best level's front order reduces the front of the priority sequence, and no other
      order. */
  lemma FlatReduce(key: nat, side: Side, nodes: seq<Node>, owner: seq<Owner>,
                   levels: seq<PriceLevel>, q: seq<seq<int>>, best: int, traded: int)
    requires ListsOk(key, side, nodes, owner, levels, q)
    requires BestOk(side, q, best) && 0 <= best < |q|
    ensures 0 <= q[best][0] < |nodes| && Flat(side, nodes, q, 0) != []
    ensures var f := Flat(side, nodes, q, 0);
      Flat(side, ReducedNodes(nodes, q[best][0], traded), q, 0) == [Reduce(f[0], traded)] + f[1..]
  {
    hide Flat, BestOk, ListsOk, ReducedNodes, Reduce, Orders;
    FlatFront(side, nodes, q, best);
    ReduceOrders(key, side, nodes, owner, levels, q, best, traded);
    var slot, nodes' := q[best][0], ReducedNodes(nodes, q[best][0], traded);
    var p := if side.Buy? then |q| - 1 - best else best;
    FlatFront(side, nodes', q, best);
    FlatSame(side, nodes, q, nodes', q, p + 1);
    var front, rest := Orders(nodes, q[best]), Flat(side, nodes, q, p + 1);
    assert front[0] == nodes[slot].order;
    ReplaceFirst(front, rest, Reduce(nodes[slot].order, traded));
  }

  /** `x` keeps its place in front of a newcomer `o`. */
  predicate Ahead(x: Order, o: Order) { !Better(o.side, Tick(o), Tick(x)) }

  lemma {:induction false} InsertBehind(front: seq<Order>, rest: seq<Order>, o: Order)
    requires forall x :: x in front ==> Ahead(x, o)
    ensures Insert(front + rest, o) == front + Insert(rest, o)
  {
    hide PriceToTick, Better;
    if front == [] {
      assert front + rest == rest;
    } else {
      var whole := front + rest;
      assert front[0] in front && forall x :: x in front[1..] ==> x in front;
      assert whole[0] == front[0] && whole[1..] == front[1..] + rest;
      assert Ahead(front[0], o);
      InsertBehind(front[1..], rest, o);
      assert Insert(whole, o) == [front[0]] + (front[1..] + Insert(rest, o));
    }
  }

  lemma LevelFits(key: nat, side: Side, nodes: seq<Node>, owner: seq<Owner>,
                  levels: seq<PriceLevel>, q: seq<seq<int>>, t: nat)
    requires ListsOk(key, side, nodes, owner, levels, q) && t < |q|
    ensures forall x :: x in Orders(nodes, q[t]) ==> Fits(x, key, side, t)
  {
    hide Fits;
    assert LevelOk(key, side, t, nodes, owner, levels[t], q[t]);
  }

  /** `x` belongs to this symbol and side, on the grid and not better than the p-th best tick. */
  predicate FromLevel(x: Order, key: nat, side: Side, n: nat, p: int) {
    !Better(side, Tick(x), TickAt(side, n, p)) && x.side == side && SymKey(x.symbol) == key && 0 <= Tick(x) < n
  }

  /** From the p-th best tick on, every order has the tick of its level. */
  lemma {:induction false} FlatTicks(key: nat, side: Side, nodes: seq<Node>, owner: seq<Owner>,
                                     levels: seq<PriceLevel>, q: seq<seq<int>>, p: nat)
    requires ListsOk(key, side, nodes, owner, levels, q) && p <= |q|
    ensures forall x :: x in Flat(side, nodes, q, p) ==> FromLevel(x, key, side, |q|, p)
    decreases |q| - p
  {
    hide ListsOk, Orders, Fits, FromLevel;
    if p < |q| {
      FlatTicks(key, side, nodes, owner, levels, q, p + 1);
      var t := TickAt(side, |q|, p);
      LevelFits(key, side, nodes, owner, levels, q, t);
      forall x | x in Flat(side, nodes, q, p) ensures FromLevel(x, key, side, |q|, p) {
        if x in Orders(nodes, q[t]) { FitsLevel(x, key, side, |q|, p); } else { LaterLevel(x, key, side, |q|, p); }
      }
    }
  }

  lemma FitsLevel(x: Order, key: nat, side: Side, n: nat, p: nat)
    requires p < n && Fits(x, key, side, TickAt(side, n, p))
    ensures FromLevel(x, key, side, n, p)
  {
    hide PriceToTick, SymKey;
  }

  lemma LaterLevel(x: Order, key: nat, side: Side, n: nat, p: int)
    requires FromLevel(x, key, side, n, p + 1)
    ensures FromLevel(x, key, side, n, p)
  {
    hide PriceToTick, SymKey;
  }

  /** The sequence has an order at tick `t` exactly when level `t` has one. */
  lemma {:induction false} FlatOccupied(key: nat, side: Side, nodes: seq<Node>, owner: seq<Owner>,
                                        levels: seq<PriceLevel>, q: seq<seq<int>>, p: nat, t: nat)
    requires ListsOk(key, side, nodes, owner, levels, q) && p <= |q| && t < |q|
    ensures (exists x :: x in Flat(side, nodes, q, p) && Tick(x) == t)
        <==> (TickAt(side, |q|, t) >= p && q[t] != [])
    decreases |q| - p
  {
    hide PriceToTick, ListsOk, Orders;
    if p < |q| {
      var u := TickAt(side, |q|, p);
      var front, rest := Orders(nodes, q[u]), Flat(side, nodes, q, p + 1);
      FlatOccupied(key, side, nodes, owner, levels, q, p + 1, t);
      LevelFits(key, side, nodes, owner, levels, q, u);
      if x :| x in front + rest && Tick(x) == t {
        if x in front { assert Fits(x, key, side, u); } else { assert x in rest; }
      }
      if TickAt(side, |q|, t) >= p && q[t] != [] {
        if u == t {
          assert front[0] in front && Fits(front[0], key, side, u);
          assert front[0] in front + rest;
        } else {
          var x :| x in rest && Tick(x) == t;
          assert x in front + rest;
        }
      }
    }
  }

  /** Appending to the list of the order's tick is insertion behind its equals in priority order. */
  lemma {:induction false} FlatPush(key: nat, side: Side, nodes: seq<Node>, owner: seq<Owner>,
                                    levels: seq<PriceLevel>, q: seq<seq<int>>,
                                    nodes': seq<Node>, t: nat, slot: int, p: nat)
    requires ListsOk(key, side, nodes, owner, levels, q)
    requires t < |q| && 0 <= slot < |nodes| == |nodes'| && Fits(nodes[slot].order, key, side, t)
    requires forall s :: 0 <= s < |nodes| ==> nodes'[s].order == nodes[s].order
    requires p <= TickAt(side, |q|, t)
    ensures Flat(side, nodes', q[t := q[t] + [slot]], p) == Insert(Flat(side, nodes, q, p), nodes[slot].order)
    decreases |q| - p
  {
    hide PriceToTick, Insert, ListsOk, Orders, Ahead, SymKey;
    var o, q' := nodes[slot].order, q[t := q[t] + [slot]];
    var u := TickAt(side, |q|, p);
    var front, rest := Orders(nodes, q[u]), Flat(side, nodes, q, p + 1);
    LevelBefore(key, side, nodes, owner, levels, q, u, o);
    InsertBehind(front, rest, o);
    if u == t {
      InsertAhead(key, side, nodes, owner, levels, q, p + 1, o);
      RestAfterPush(side, nodes, q, nodes', t, slot, p + 1);
      OrdersPush(nodes, nodes', q[t], slot);
      assert front + [o] + rest == front + ([o] + rest);
    } else {
      FlatPush(key, side, nodes, owner, levels, q, nodes', t, slot, p + 1);
      OrdersSame(nodes, nodes', q[u]);
    }
  }

  lemma OrdersSame(nodes: seq<Node>, nodes': seq<Node>, slots: seq<int>)
    requires |nodes| == |nodes'| && forall s :: 0 <= s < |nodes| ==> nodes'[s].order == nodes[s].order
    ensures Orders(nodes', slots) == Orders(nodes, slots)
  {
    hide Orders;
  }

  lemma OrdersPush(nodes: seq<Node>, nodes': seq<Node>, slots: seq<int>, slot: int)
    requires 0 <= slot < |nodes| == |nodes'| && forall s :: 0 <= s < |nodes| ==> nodes'[s].order == nodes[s].order
    ensures Orders(nodes', slots + [slot]) == Orders(nodes, slots) + [nodes[slot].order]
  {
    hide Orders;
  }

  /** A push to level `t` leaves the levels behind it. */
  lemma RestAfterPush(side: Side, nodes: seq<Node>, q: seq<seq<int>>, nodes': seq<Node>, t: nat, slot: int, p: nat)
    requires t < |q| && |nodes| == |nodes'| && forall s :: 0 <= s < |nodes| ==> nodes'[s].order == nodes[s].order
    requires TickAt(side, |q|, t) < p <= |q|
    ensures Flat(side, nodes', q[t := q[t] + [slot]], p) == Flat(side, nodes, q, p)
  {
    hide Flat, Orders;
    var q' := q[t := q[t] + [slot]];
    forall i | p <= i < |q| ensures SameLevel(side, nodes, q, nodes', q', i) {
      OrdersSame(nodes, nodes', q[TickAt(side, |q|, i)]);
    }
    FlatSame(side, nodes, q, nodes', q', p);
  }

  lemma LevelBefore(key: nat, side: Side, nodes: seq<Node>, owner: seq<Owner>,
                    levels: seq<PriceLevel>, q: seq<seq<int>>, u: nat, o: Order)
    requires ListsOk(key, side, nodes, owner, levels, q) && u < |q|
    requires o.side == side && !Better(side, Tick(o), u)
    ensures forall x :: x in Orders(nodes, q[u]) ==> Ahead(x, o)
  {
    hide PriceToTick, ListsOk, Orders, SymKey;
    LevelFits(key, side, nodes, owner, levels, q, u);
  }

  lemma InsertAhead(key: nat, side: Side, nodes: seq<Node>, owner: seq<Owner>,
                    levels: seq<PriceLevel>, q: seq<seq<int>>, p: nat, o: Order)
    requires ListsOk(key, side, nodes, owner, levels, q) && 0 < p <= |q|
    requires o.side == side && Tick(o) == TickAt(side, |q|, p - 1)
    ensures Insert(Flat(side, nodes, q, p), o) == [o] + Flat(side, nodes, q, p)
  {
    hide PriceToTick, Flat;
    FlatTicks(key, side, nodes, owner, levels, q, p);
    var f := Flat(side, nodes, q, p);
    if f != [] { assert f[0] in f && FromLevel(f[0], key, side, |q|, p); }
  }
}
