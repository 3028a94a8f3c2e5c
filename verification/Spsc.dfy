/** The single-producer single-consumer ring as a transition system. Each step is one atomic load or
    store or one access to the buffer; producer, consumer and a monitoring thread interleave freely.
    Memory is sequentially consistent. */
module Spsc {

  /** Where the producer is inside `push`. `tail` is the value it loaded. */
  datatype Producer<T> =
    | Outside
    | TailLoaded(item: T, tail: nat)
    | RoomSeen(item: T, tail: nat)
    | SlotWritten(item: T, tail: nat)

  /** Where the consumer is inside `pop` or `size`. */
  datatype Consumer<T> =
    | Away
    | HeadLoaded(head: nat)
    | ItemSeen(head: nat)
    | SlotRead(head: nat, item: T)
    | Sizing(tail: nat)

  /** Where the monitoring thread is inside `size`; `seen` records how many items had been pushed when
      it loaded the tail. */
  datatype Monitor = Still | Watching(tail: nat, seen: nat)

  /** `pushed` and `popped` record the items of the calls that returned true, in order. */
  datatype Ring<T> = Ring(
    capacity: nat, buffer: seq<T>, head: nat, tail: nat,
    producer: Producer<T>, consumer: Consumer<T>, monitor: Monitor,
    pushed: seq<T>, popped: seq<T>)

  datatype Action<T> =
    | LoadTail(item: T) | LoadHead | WriteSlot | StoreTail
    | PopLoadHead | PopLoadTail | ReadSlot | StoreHead
    | SizeLoadTail | SizeLoadHead
    | WatchLoadTail | WatchLoadHead

  predicate Init<T>(r: Ring<T>) {
    && r.capacity > 0 && |r.buffer| == r.capacity && r.head == 0 && r.tail == 0
    && r.producer.Outside? && r.consumer.Away? && r.monitor.Still? && r.pushed == [] && r.popped == []
  }

  predicate Enabled<T>(r: Ring<T>, a: Action<T>) {
    r.capacity > 0 &&
    match a
    case LoadTail(_) => r.producer.Outside?
    case LoadHead => r.producer.TailLoaded?
    case WriteSlot => r.producer.RoomSeen? && r.producer.tail < |r.buffer|
    case StoreTail => r.producer.SlotWritten?
    case PopLoadHead => r.consumer.Away?
    case PopLoadTail => r.consumer.HeadLoaded?
    case ReadSlot => r.consumer.ItemSeen? && r.consumer.head < |r.buffer|
    case StoreHead => r.consumer.SlotRead?
    case SizeLoadTail => r.consumer.Away?
    case SizeLoadHead => r.consumer.Sizing?
    case WatchLoadTail => r.monitor.Still?
    case WatchLoadHead => r.monitor.Watching?
  }

  function Succ(i: nat, capacity: nat): nat
    requires capacity > 0
  {
    (i + 1) % capacity
  }

  /** The producer's second load saw a full ring: `push` returns false. */
  predicate Full<T>(r: Ring<T>)
    requires r.producer.TailLoaded? && r.capacity > 0
  {
    Succ(r.producer.tail, r.capacity) == r.head
  }

  function Do<T>(r: Ring<T>, a: Action<T>): Ring<T>
    requires Enabled(r, a)
  {
    match a
    case LoadTail(item) => r.(producer := TailLoaded(item, r.tail))
    case LoadHead =>
      if Full(r) then r.(producer := Outside) else r.(producer := RoomSeen(r.producer.item, r.producer.tail))
    case WriteSlot =>
      r.(buffer := r.buffer[r.producer.tail := r.producer.item],
         producer := SlotWritten(r.producer.item, r.producer.tail))
    case StoreTail =>
      r.(tail := Succ(r.producer.tail, r.capacity), producer := Outside, pushed := r.pushed + [r.producer.item])
    case PopLoadHead => r.(consumer := HeadLoaded(r.head))
    case PopLoadTail =>
      if r.consumer.head == r.tail then r.(consumer := Away) else r.(consumer := ItemSeen(r.consumer.head))
    case ReadSlot => r.(consumer := SlotRead(r.consumer.head, r.buffer[r.consumer.head]))
    case StoreHead =>
      r.(head := Succ(r.consumer.head, r.capacity), consumer := Away, popped := r.popped + [r.consumer.item])
    case SizeLoadTail => r.(consumer := Sizing(r.tail))
    case SizeLoadHead => r.(consumer := Away)
    case WatchLoadTail => r.(monitor := Watching(r.tail, |r.pushed|))
    case WatchLoadHead => r.(monitor := Still)
  }

  /** What `size` returns once both loads are done. */
  function SizeResult(tail: nat, head: nat, capacity: nat): int {
    if tail >= head then tail - head else capacity - head + tail
  }

  /** The threads can take these actions, in this order, from an initial ring. */
  predicate Possible<T>(start: Ring<T>, actions: seq<Action<T>>)
    decreases |actions|, 0
  {
    if actions == [] then Init(start)
    else
      && Possible(start, actions[..|actions| - 1])
      && Enabled(After(start, actions[..|actions| - 1]), actions[|actions| - 1])
  }

  /** The ring after these actions. */
  function After<T>(start: Ring<T>, actions: seq<Action<T>>): Ring<T>
    requires Possible(start, actions)
    decreases |actions|, 1
  {
    if actions == [] then start else Do(After(start, actions[..|actions| - 1]), actions[|actions| - 1])
  }

  // ---------------------------------------------------------------------------------------------
  // What every interleaving keeps

  /** Number of items in the ring. */
  function Count<T>(r: Ring<T>): int { SizeResult(r.tail, r.head, r.capacity) }

  /** Index of the i-th item from the head, around the end of the buffer. */
  function SlotAt<T>(r: Ring<T>, i: int): int {
    if r.head + i < r.capacity then r.head + i else r.head + i - r.capacity
  }

  predicate InBounds<T>(r: Ring<T>) {
    r.capacity > 0 && |r.buffer| == r.capacity && r.head < r.capacity && r.tail < r.capacity
  }

  /** The items from head to tail. */
  function Contents<T>(r: Ring<T>): (s: seq<T>)
    requires InBounds(r)
    ensures |s| == Count(r) && forall i :: 0 <= i < |s| ==> s[i] == r.buffer[SlotAt(r, i)]
  {
    seq(Count(r), i requires 0 <= i < Count(r) => r.buffer[SlotAt(r, i)])
  }

  /** The inductive invariant. */
  predicate Good<T(==)>(r: Ring<T>) {
    && InBounds(r)
    && r.pushed == r.popped + Contents(r)
    && (match r.producer
        case Outside => true
        case TailLoaded(_, t) => t == r.tail
        case RoomSeen(_, t) => t == r.tail && Count(r) < r.capacity - 1
        case SlotWritten(item, t) => t == r.tail && Count(r) < r.capacity - 1 && r.buffer[t] == item)
    && (match r.consumer
        case Away => true
        case HeadLoaded(h) => h == r.head
        case ItemSeen(h) => h == r.head && Count(r) > 0
        case SlotRead(h, item) => h == r.head && Count(r) > 0 && item == r.buffer[h]
        case Sizing(t) => t < r.capacity && SizeResult(t, r.head, r.capacity) <= Count(r))
    && r.head == |r.popped| % r.capacity
    && (r.monitor.Watching? ==>
          && r.monitor.seen <= |r.pushed| && r.monitor.tail < r.capacity
          && r.monitor.tail == r.monitor.seen % r.capacity)
  }

  lemma SuccWraps(i: nat, capacity: nat)
    requires i < capacity
    ensures Succ(i, capacity) == if i + 1 == capacity then 0 else i + 1
  {}

  /** The full test compares the ring with its largest filling, one below the capacity. */
  lemma FullMeansFull<T>(r: Ring<T>)
    requires Good(r) && r.producer.TailLoaded?
    ensures Full(r) <==> Count(r) == r.capacity - 1
  {
    SuccWraps(r.producer.tail, r.capacity);
  }

  lemma SuccMod(n: nat, capacity: nat)
    requires capacity > 0
    ensures Succ(n % capacity, capacity) == (n + 1) % capacity
  {
    SuccWraps(n % capacity, capacity);
    var d := n / capacity;
    assert n == capacity * d + n % capacity;
    if n % capacity + 1 == capacity {
      Remainder(n + 1, capacity, d + 1, 0);
    } else {
      Remainder(n + 1, capacity, d, n % capacity + 1);
    }
  }

  lemma Remainder(n: int, capacity: nat, d: int, rest: nat)
    requires n == capacity * d + rest && rest < capacity
    ensures n % capacity == rest
  {
    var k := n / capacity - d;
    assert capacity * k == rest - n % capacity;
    assert k >= 1 ==> capacity * k >= capacity;
    assert k <= -1 ==> capacity * k <= -1 * capacity;
  }

  /** With as many items pushed as popped plus those in the ring, the tail is the number pushed around
      the ring. */
  lemma TailIsPushed<T>(r: Ring<T>)
    requires Good(r)
    ensures r.tail == |r.pushed| % r.capacity
  {
    var d := |r.popped| / r.capacity;
    assert |r.pushed| == r.capacity * d + r.head + Count(r);
    if r.tail >= r.head {
      Remainder(|r.pushed|, r.capacity, d, r.tail);
    } else {
      assert r.capacity * (d + 1) == r.capacity * d + r.capacity;
      Remainder(|r.pushed|, r.capacity, d + 1, r.tail);
    }
  }

  lemma StoreTailGrows<T>(r: Ring<T>)
    requires Good(r) && r.producer.SlotWritten?
    ensures var n := Do(r, StoreTail); InBounds(n) && Contents(n) == Contents(r) + [r.producer.item]
  {
    SuccWraps(r.tail, r.capacity);
    var n := Do(r, StoreTail);
    assert Count(n) == Count(r) + 1;
    assert SlotAt(r, Count(r)) == r.tail;
  }

  lemma StoreHeadShrinks<T>(r: Ring<T>)
    requires Good(r) && r.consumer.SlotRead?
    ensures var n := Do(r, StoreHead);
      InBounds(n) && Contents(r) != [] && Contents(r)[0] == r.consumer.item && Contents(n) == Contents(r)[1..]
  {
    SuccWraps(r.head, r.capacity);
    var n := Do(r, StoreHead);
    assert Count(n) == Count(r) - 1;
    assert SlotAt(r, 0) == r.head;
    forall i | 0 <= i < Count(n) ensures Contents(n)[i] == Contents(r)[i + 1] {
      assert SlotAt(n, i) == SlotAt(r, i + 1);
    }
  }

  lemma WriteKeepsContents<T>(r: Ring<T>)
    requires Good(r) && r.producer.RoomSeen?
    ensures var n := Do(r, WriteSlot); InBounds(n) && Contents(n) == Contents(r)
  {
    var n := Do(r, WriteSlot);
    forall i | 0 <= i < Count(r) ensures Contents(n)[i] == Contents(r)[i] {
      assert SlotAt(r, i) != r.tail;
    }
  }

  predicate ByProducer<T>(a: Action<T>) { a.LoadTail? || a.LoadHead? || a.WriteSlot? || a.StoreTail? }

  lemma ProducerKeepsGood<T>(r: Ring<T>, a: Action<T>)
    requires Good(r) && Enabled(r, a) && ByProducer(a)
    ensures Good(Do(r, a))
  {
    match a
    case LoadTail(_) => assert Contents(Do(r, a)) == Contents(r);
    case LoadHead =>
      FullMeansFull(r);
      assert Contents(Do(r, a)) == Contents(r);
    case WriteSlot => WriteKeepsContents(r);
    case StoreTail =>
      StoreTailGrows(r);
      assert Count(Do(r, a)) == Count(r) + 1;
  }

  lemma StoreHeadKeepsGood<T>(r: Ring<T>)
    requires Good(r) && r.consumer.SlotRead?
    ensures Good(Do(r, StoreHead))
  {
    StoreHeadShrinks(r);
    SuccMod(|r.popped|, r.capacity);
    assert r.popped + Contents(r) == r.popped + [r.consumer.item] + Contents(r)[1..];
  }

  lemma OthersKeepGood<T>(r: Ring<T>, a: Action<T>)
    requires Good(r) && Enabled(r, a) && !ByProducer(a)
    ensures Good(Do(r, a))
  {
    if a.StoreHead? {
      StoreHeadKeepsGood(r);
    } else {
      if a.WatchLoadTail? { TailIsPushed(r); }
      assert Contents(Do(r, a)) == Contents(r);
    }
  }

  /** Every single step of every thread keeps the invariant. */
  lemma StepKeepsGood<T>(r: Ring<T>, a: Action<T>)
    requires Good(r) && Enabled(r, a)
    ensures Good(Do(r, a))
  {
    hide Good, Do, Enabled;
    if ByProducer(a) { ProducerKeepsGood(r, a); } else { OthersKeepGood(r, a); }
  }

  lemma {:induction false} AlwaysGood<T>(start: Ring<T>, actions: seq<Action<T>>)
    requires Possible(start, actions)
    ensures Good(After(start, actions))
    decreases |actions|
  {
    hide Good, Do;
    if actions == [] {
      InitGood(start);
    } else {
      AlwaysGood(start, actions[..|actions| - 1]);
      StepKeepsGood(After(start, actions[..|actions| - 1]), actions[|actions| - 1]);
    }
  }

  lemma InitGood<T>(r: Ring<T>)
    requires Init(r)
    ensures Good(r)
  {}

  /** The item of the push that began last, if any. */
  function LastItem<T>(actions: seq<Action<T>>): seq<T> {
    if actions == [] then []
    else if actions[|actions| - 1].LoadTail? then [actions[|actions| - 1].item]
    else LastItem(actions[..|actions| - 1])
  }

  /** The items of the pushes that got as far as storing the tail, in order. */
  function Sent<T>(actions: seq<Action<T>>): seq<T> {
    if actions == [] then []
    else
      var prefix := actions[..|actions| - 1];
      Sent(prefix) + (if actions[|actions| - 1].StoreTail? then LastItem(prefix) else [])
  }

  /** How many pops got as far as storing the head. */
  function Taken<T>(actions: seq<Action<T>>): nat {
    if actions == [] then 0
    else Taken(actions[..|actions| - 1]) + (if actions[|actions| - 1].StoreHead? then 1 else 0)
  }

  lemma StepRecords<T>(r: Ring<T>, a: Action<T>)
    requires Enabled(r, a)
    ensures a.StoreTail? ==> !r.producer.Outside?
    ensures var n := Do(r, a);
      && n.pushed == r.pushed + (if a.StoreTail? then [r.producer.item] else [])
      && |n.popped| == |r.popped| + (if a.StoreHead? then 1 else 0)
      && (!n.producer.Outside? ==>
            if a.LoadTail? then n.producer.item == a.item
            else !r.producer.Outside? && n.producer.item == r.producer.item)
  {}

  /** The records of the ring are those of the calls made: `pushed` are the arguments of the pushes that
      succeeded, and `popped` has one item for each pop that did. */
  lemma {:induction false} RecordsOfCalls<T>(start: Ring<T>, actions: seq<Action<T>>)
    requires Possible(start, actions)
    ensures var r := After(start, actions);
      && r.pushed == Sent(actions) && |r.popped| == Taken(actions)
      && (!r.producer.Outside? ==> LastItem(actions) == [r.producer.item])
    decreases |actions|
  {
    hide Do, Enabled;
    if actions != [] {
      RecordsOfCalls(start, actions[..|actions| - 1]);
      StepRecords(After(start, actions[..|actions| - 1]), actions[|actions| - 1]);
    }
  }

  /** A whole push by a producer that is left alone: it fails and changes nothing if the ring holds one item
      less than the capacity; otherwise it succeeds and the item is the last in the ring. */
  lemma PushAlone<T>(r: Ring<T>, item: T)
    requires Good(r) && r.producer.Outside?
    ensures var loaded := Do(r, LoadTail(item));
      var checked := Do(loaded, LoadHead);
      if |Contents(r)| == r.capacity - 1 then checked == r
      else
        && Enabled(checked, WriteSlot)
        && var n := Do(Do(checked, WriteSlot), StoreTail);
           && InBounds(n) && Contents(n) == Contents(r) + [item]
           && n.pushed == r.pushed + [item] && n.popped == r.popped && n.producer.Outside?
  {
    var loaded := Do(r, LoadTail(item));
    ProducerKeepsGood(r, LoadTail(item));
    FullMeansFull(loaded);
    if |Contents(r)| != r.capacity - 1 {
      var checked := Do(loaded, LoadHead);
      ProducerKeepsGood(loaded, LoadHead);
      assert Contents(checked) == Contents(r);
      PushEnds(checked);
    }
  }

  lemma PushEnds<T>(r: Ring<T>)
    requires Good(r) && r.producer.RoomSeen?
    ensures Enabled(r, WriteSlot)
    ensures var n := Do(Do(r, WriteSlot), StoreTail);
      && InBounds(n) && Contents(n) == Contents(r) + [r.producer.item]
      && n.pushed == r.pushed + [r.producer.item] && n.popped == r.popped && n.producer.Outside?
  {
    WriteKeepsContents(r);
    ProducerKeepsGood(r, WriteSlot);
    StoreTailGrows(Do(r, WriteSlot));
  }

  /** A whole pop by a consumer that is left alone: it fails and changes nothing if the ring is empty;
      otherwise it takes the first item. */
  lemma PopAlone<T>(r: Ring<T>)
    requires Good(r) && r.consumer.Away?
    ensures var checked := Do(Do(r, PopLoadHead), PopLoadTail);
      if Contents(r) == [] then checked == r
      else
        && Enabled(checked, ReadSlot)
        && var read := Do(checked, ReadSlot);
           var n := Do(read, StoreHead);
           && read.consumer.item == Contents(r)[0]
           && InBounds(n) && Contents(n) == Contents(r)[1..]
           && n.popped == r.popped + [Contents(r)[0]] && n.pushed == r.pushed && n.consumer.Away?
  {
    var loaded := Do(r, PopLoadHead);
    OthersKeepGood(r, PopLoadHead);
    if Contents(r) != [] {
      var checked := Do(loaded, PopLoadTail);
      OthersKeepGood(loaded, PopLoadTail);
      OthersKeepGood(checked, ReadSlot);
      var read := Do(checked, ReadSlot);
      assert Contents(read) == Contents(r);
      StoreHeadShrinks(read);
    }
  }

  /** FIFO safety of every interleaving: what was pushed is what was popped followed by what is in the
      ring, so nothing is lost, duplicated or reordered, also across the wrap-around. */
  lemma Fifo<T>(start: Ring<T>, actions: seq<Action<T>>)
    requires Possible(start, actions)
    ensures var r := After(start, actions);
      && InBounds(r) && |Contents(r)| <= r.capacity - 1
      && r.pushed == r.popped + Contents(r) && r.popped <= r.pushed
  {
    hide After, Possible;
    AlwaysGood(start, actions);
  }

  /** No interleaving lets the producer write a slot that holds an unread item, or the slot the
      consumer is about to read. */
  lemma NoClash<T>(start: Ring<T>, actions: seq<Action<T>>)
    requires Possible(start, actions)
    ensures var r := After(start, actions);
      Enabled(r, WriteSlot) ==>
        && (forall i :: 0 <= i < Count(r) ==> SlotAt(r, i) != r.producer.tail)
        && (Enabled(r, ReadSlot) ==> r.consumer.head != r.producer.tail)
  {
    hide After, Possible;
    AlwaysGood(start, actions);
  }

  /** Both buffer accesses are always inside the buffer, so neither thread is ever held up by them. */
  lemma AccessInBounds<T>(start: Ring<T>, actions: seq<Action<T>>)
    requires Possible(start, actions)
    ensures var r := After(start, actions);
      && (r.producer.RoomSeen? ==> Enabled(r, WriteSlot))
      && (r.consumer.ItemSeen? ==> Enabled(r, ReadSlot))
  {
    hide After, Possible;
    AlwaysGood(start, actions);
  }

  /** Any ring can be started. */
  lemma Starts<T>(capacity: nat, buffer: seq<T>)
    requires capacity > 0 && |buffer| == capacity
    ensures Possible(Ring(capacity, buffer, 0, 0, Outside, Away, Still, [], []), [])
  {}

  /** No thread ever waits: at every moment of every interleaving the producer can begin a push of any item
      or take the next step of the one it is in, and likewise the consumer with `pop` and `size` and the
      monitoring thread with `size`. */
  lemma NeverWaits<T>(start: Ring<T>, actions: seq<Action<T>>, item: T)
    requires Possible(start, actions)
    ensures var r := After(start, actions);
      && (match r.producer
          case Outside => Enabled(r, LoadTail(item))
          case TailLoaded(_, _) => Enabled(r, LoadHead)
          case RoomSeen(_, _) => Enabled(r, WriteSlot)
          case SlotWritten(_, _) => Enabled(r, StoreTail))
      && (match r.consumer
          case Away => Enabled(r, PopLoadHead) && Enabled(r, SizeLoadTail)
          case HeadLoaded(_) => Enabled(r, PopLoadTail)
          case ItemSeen(_) => Enabled(r, ReadSlot)
          case SlotRead(_, _) => Enabled(r, StoreHead)
          case Sizing(_) => Enabled(r, SizeLoadHead))
      && (if r.monitor.Still? then Enabled(r, WatchLoadTail) else Enabled(r, WatchLoadHead))
  {
    hide After, Possible;
    AlwaysGood(start, actions);
  }

  /** A call that returns false is right: `push` saw a ring with no room left, `pop` an empty one. */
  lemma FailedCalls<T>(start: Ring<T>, actions: seq<Action<T>>)
    requires Possible(start, actions)
    ensures var r := After(start, actions);
      && InBounds(r)
      && (r.producer.TailLoaded? ==>
            (Do(r, LoadHead).producer.Outside? <==> |Contents(r)| == r.capacity - 1))
      && (r.consumer.HeadLoaded? ==>
            (Do(r, PopLoadTail).consumer.Away? <==> Contents(r) == []))
  {
    hide After, Possible;
    AlwaysGood(start, actions);
    var r := After(start, actions);
    if r.producer.TailLoaded? { FullMeansFull(r); }
  }

  /** `size` is always below the capacity, whoever calls it. Called by the consumer, it never promises
      more items than are there when it returns. */
  lemma SizeIsSafe<T>(start: Ring<T>, actions: seq<Action<T>>)
    requires Possible(start, actions)
    ensures var r := After(start, actions);
      && InBounds(r)
      && (r.monitor.Watching? ==> 0 <= SizeResult(r.monitor.tail, r.head, r.capacity) < r.capacity)
      && (r.consumer.Sizing? ==> 0 <= SizeResult(r.consumer.tail, r.head, r.capacity) <= |Contents(r)|)
  {
    hide After, Possible;
    AlwaysGood(start, actions);
  }

  lemma PushedGrows<T>(r: Ring<T>, a: Action<T>)
    requires Enabled(r, a)
    ensures |r.pushed| <= |Do(r, a).pushed|
  {}

  lemma {:induction false} Earlier<T>(start: Ring<T>, actions: seq<Action<T>>, k: nat)
    requires Possible(start, actions) && k <= |actions|
    ensures Possible(start, actions[..k])
    ensures |After(start, actions[..k]).pushed| <= |After(start, actions).pushed|
    decreases |actions|
  {
    hide Do, Enabled;
    if k < |actions| {
      var prefix := actions[..|actions| - 1];
      Earlier(start, prefix, k);
      PushedGrows(After(start, prefix), actions[|actions| - 1]);
      assert prefix[..k] == actions[..k];
    } else {
      assert actions[..k] == actions;
    }
  }

  /** What the consumer may do with its `size`: if the call that ended with action `k` returned `n`, then
      until `n` more pops have succeeded no pop finds the ring empty, whatever the threads do. */
  lemma SizeIsKept<T>(start: Ring<T>, actions: seq<Action<T>>, k: nat)
    requires Possible(start, actions) && k < |actions| && actions[k].SizeLoadHead?
    ensures Possible(start, actions[..k])
    ensures var asked, now := After(start, actions[..k]), After(start, actions);
      && asked.consumer.Sizing? && InBounds(now)
      && (|now.popped| < |asked.popped| + SizeResult(asked.consumer.tail, asked.head, asked.capacity) ==>
            && Contents(now) != []
            && (now.consumer.HeadLoaded? ==> Do(now, PopLoadTail).consumer.ItemSeen?))
  {
    hide After, Contents, Do;
    Earlier(start, actions, k);
    Earlier(start, actions, k + 1);
    assert actions[..k + 1][..k] == actions[..k];
    SizeIsSafe(start, actions[..k]);
    Fifo(start, actions[..k]);
    Fifo(start, actions);
    var now := After(start, actions);
    if Contents(now) != [] && now.consumer.HeadLoaded? {
      FailedCalls(start, actions);
      PopGoesOn(now);
    }
  }

  lemma PopGoesOn<T>(r: Ring<T>)
    requires r.capacity > 0 && r.consumer.HeadLoaded?
    ensures Do(r, PopLoadTail).consumer.Away? || Do(r, PopLoadTail).consumer.ItemSeen?
  {}

  /** While the consumer is between the two loads of `size`, only a new first load changes what it will
      return. */
  lemma SizingStays<T>(r: Ring<T>, a: Action<T>)
    requires Enabled(r, a) && Do(r, a).consumer.Sizing? && !a.SizeLoadTail?
    ensures var n := Do(r, a);
      r.consumer == n.consumer && r.head == n.head && r.capacity == n.capacity
  {}

  lemma SizingBegins<T>(r: Ring<T>)
    requires Good(r) && Enabled(r, SizeLoadTail)
    ensures var n := Do(r, SizeLoadTail);
      n.consumer.Sizing? && SizeResult(n.consumer.tail, n.head, n.capacity) == |Contents(r)|
  {}

  /** What the consumer's `size` returns, in every interleaving: exactly the number of items that were in the
      ring when the call began, with the load of the tail that is action `j` of the run. */
  lemma {:induction false} ConsumerSize<T>(start: Ring<T>, actions: seq<Action<T>>) returns (j: nat)
    requires Possible(start, actions) && After(start, actions).consumer.Sizing?
    ensures j < |actions| && actions[j].SizeLoadTail? && forall i :: j < i < |actions| ==> !actions[i].SizeLoadTail?
    ensures Possible(start, actions[..j]) && InBounds(After(start, actions[..j]))
    ensures var r := After(start, actions);
      SizeResult(r.consumer.tail, r.head, r.capacity) == |Contents(After(start, actions[..j]))|
    decreases |actions|
  {
    hide Do, Enabled, Good, Contents;
    if actions == [] {
      assert false;
    } else {
      var prefix, a := actions[..|actions| - 1], actions[|actions| - 1];
      AlwaysGood(start, prefix);
      if a.SizeLoadTail? {
        j := |actions| - 1;
        GoodInBounds(After(start, prefix));
        SizingBegins(After(start, prefix));
      } else {
        SizingStays(After(start, prefix), a);
        j := ConsumerSize(start, prefix);
        assert prefix[..j] == actions[..j];
      }
    }
  }

  lemma GoodInBounds<T>(r: Ring<T>)
    requires Good(r)
    ensures InBounds(r)
  {}

  lemma WatchingStays<T>(r: Ring<T>, a: Action<T>)
    requires Enabled(r, a) && Do(r, a).monitor.Watching?
    ensures if a.WatchLoadTail? then Do(r, a).monitor.seen == |r.pushed| else r.monitor == Do(r, a).monitor
  {}

  /** What the monitoring thread recorded is how many items had been pushed when it loaded the tail, with
      action `j` of the run. */
  lemma {:induction false} MonitorSeen<T>(start: Ring<T>, actions: seq<Action<T>>) returns (j: nat)
    requires Possible(start, actions) && After(start, actions).monitor.Watching?
    ensures j < |actions| && actions[j].WatchLoadTail? && forall i :: j < i < |actions| ==> !actions[i].WatchLoadTail?
    ensures Possible(start, actions[..j])
    ensures After(start, actions).monitor.seen == |After(start, actions[..j]).pushed|
    decreases |actions|
  {
    hide Do, Enabled;
    if actions == [] {
      assert false;
    } else {
      var prefix, a := actions[..|actions| - 1], actions[|actions| - 1];
      WatchingStays(After(start, prefix), a);
      if a.WatchLoadTail? {
        j := |actions| - 1;
      } else {
        j := MonitorSeen(start, prefix);
        assert prefix[..j] == actions[..j];
      }
    }
  }

  lemma SizeModulo(seen: nat, popped: nat, capacity: nat)
    requires capacity > 0
    ensures SizeResult(seen % capacity, popped % capacity, capacity) == (seen - popped) % capacity
  {
    var a, b := seen / capacity, popped / capacity;
    var x, y := seen % capacity, popped % capacity;
    assert seen == capacity * a + x && popped == capacity * b + y;
    if x >= y {
      assert capacity * (a - b) == capacity * a - capacity * b;
      Remainder(seen - popped, capacity, a - b, x - y);
    } else {
      assert capacity * (a - b - 1) == capacity * a - capacity * b - capacity;
      Remainder(seen - popped, capacity, a - b - 1, capacity - y + x);
    }
  }

  /** What the monitoring thread's `size` says: the items pushed by its first load, which is action `j` of
      the run, that are not yet popped at its second, but only modulo the capacity. It is that number
      exactly when the consumer has not popped, in between, an item pushed after the first load. */
  lemma MonitorSize<T>(start: Ring<T>, actions: seq<Action<T>>) returns (j: nat)
    requires Possible(start, actions) && After(start, actions).monitor.Watching?
    ensures j < |actions| && actions[j].WatchLoadTail? && forall i :: j < i < |actions| ==> !actions[i].WatchLoadTail?
    ensures Possible(start, actions[..j])
    ensures var loaded, r := After(start, actions[..j]), After(start, actions);
      var size, waiting := SizeResult(r.monitor.tail, r.head, r.capacity), |loaded.pushed| - |r.popped|;
      && r.capacity > 0 && size == waiting % r.capacity
      && (size == waiting <==> |r.popped| <= |loaded.pushed|)
  {
    hide After, Possible;
    j := MonitorSeen(start, actions);
    AlwaysGood(start, actions);
    var r := After(start, actions);
    SizeModulo(r.monitor.seen, |r.popped|, r.capacity);
    var waiting := r.monitor.seen - |r.popped|;
    assert waiting <= Count(r) < r.capacity;
    if waiting >= 0 { Remainder(waiting, r.capacity, 0, waiting); }
  }

  lemma Extend<T>(start: Ring<T>, actions: seq<Action<T>>, a: Action<T>)
    requires Possible(start, actions) && Enabled(After(start, actions), a)
    ensures Possible(start, actions + [a]) && After(start, actions + [a]) == Do(After(start, actions), a)
  {
    assert (actions + [a])[..|actions|] == actions;
  }

  lemma FirstPush() returns (start: Ring<int>, actions: seq<Action<int>>)
    ensures Possible(start, actions)
    ensures After(start, actions) == Ring(3, [7, 0, 0], 0, 1, Outside, Away, Watching(0, 0), [7], [])
  {
    hide Possible, After;
    start, actions := Ring(3, [0, 0, 0], 0, 0, Outside, Away, Still, [], []), [];
    Begin(start);
    Extend(start, actions, WatchLoadTail);
    actions := actions + [WatchLoadTail];
    Extend(start, actions, LoadTail(7));
    actions := actions + [LoadTail(7)];
    Extend(start, actions, LoadHead);
    actions := actions + [LoadHead];
    assert After(start, actions) == Ring(3, [0, 0, 0], 0, 0, RoomSeen(7, 0), Away, Watching(0, 0), [], []);
    Extend(start, actions, WriteSlot);
    actions := actions + [WriteSlot];
    Extend(start, actions, StoreTail);
    actions := actions + [StoreTail];
  }

  /** A ring of three slots that never holds more than one item and is empty now, reported as full. */
  lemma MonitorSizeOvertaken() returns (start: Ring<int>, actions: seq<Action<int>>)
    ensures Possible(start, actions)
    ensures var r := After(start, actions);
      && InBounds(r) && Contents(r) == [] && r.pushed == [7]
      && r.monitor.Watching? && SizeResult(r.monitor.tail, r.head, r.capacity) == 2 == r.capacity - 1
  {
    hide Possible, After;
    start, actions := FirstPush();
    Extend(start, actions, PopLoadHead);
    actions := actions + [PopLoadHead];
    Extend(start, actions, PopLoadTail);
    actions := actions + [PopLoadTail];
    assert After(start, actions) == Ring(3, [7, 0, 0], 0, 1, Outside, ItemSeen(0), Watching(0, 0), [7], []);
    Extend(start, actions, ReadSlot);
    actions := actions + [ReadSlot];
    Extend(start, actions, StoreHead);
    actions := actions + [StoreHead];
    assert After(start, actions) == Ring(3, [7, 0, 0], 1, 1, Outside, Away, Watching(0, 0), [7], [7]);
  }

  lemma Begin<T>(start: Ring<T>)
    requires Init(start)
    ensures Possible(start, []) && After(start, []) == start
  {}
}
