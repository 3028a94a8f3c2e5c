/** The hot path and the cold path together: executions go through the ring into the ledger, and those
    that find it full are counted as dropped. */
module Pipeline {
  import opened Trading
  import opened Spsc
  import opened Ledger

  /** `kept` records, per finished callback, whether its execution got into the ring; `dropOwed` is set
      between a failed push and the increment of the counter; `inHand` is the execution popped and not
      yet applied. */
  datatype Pipe = Pipe(
    ring: Ring<Execution>, generated: seq<Execution>, kept: seq<bool>,
    dropOwed: bool, dropped: nat,
    inHand: Option<Execution>, positions: Symbols)

  datatype Event =
    | Generate(exec: Execution)
    | CountDrop
    | ApplyInHand
    | Move(action: Action<Execution>)

  predicate ByConsumer(a: Action<Execution>) {
    a.PopLoadHead? || a.PopLoadTail? || a.ReadSlot? || a.StoreHead? || a.SizeLoadTail? || a.SizeLoadHead?
  }

  predicate Started(p: Pipe) {
    Init(p.ring) && p.generated == [] && p.kept == [] && !p.dropOwed && p.dropped == 0
    && p.inHand.None? && p.positions == map[]
  }

  /** The execution callback runs to its end before the next one; the cold path applies what it popped
      before it pops again. */
  predicate CanHappen(p: Pipe, e: Event) {
    match e
    case Generate(x) => !p.dropOwed && Enabled(p.ring, LoadTail(x))
    case CountDrop => p.dropOwed
    case ApplyInHand => p.inHand.Some?
    case Move(a) => !a.LoadTail? && Enabled(p.ring, a) && (ByConsumer(a) ==> p.inHand.None?)
  }

  function Happen(p: Pipe, e: Event): Pipe
    requires CanHappen(p, e)
  {
    match e
    case Generate(x) => p.(ring := Do(p.ring, LoadTail(x)), generated := p.generated + [x])
    case CountDrop => p.(dropOwed := false, dropped := p.dropped + 1)
    case ApplyInHand =>
      var x := p.inHand.value;
      p.(inHand := None,
         positions := p.positions[CString(x.symbol) := Apply(At(p.positions, CString(x.symbol)), FillOf(x))])
    case Move(a) =>
      var ring := Do(p.ring, a);
      if a.LoadHead? && ring.producer.Outside? then p.(ring := ring, kept := p.kept + [false], dropOwed := true)
      else if a.StoreTail? then p.(ring := ring, kept := p.kept + [true])
      else if a.StoreHead? then p.(ring := ring, inHand := Some(p.ring.consumer.item))
      else p.(ring := ring)
  }

  predicate Unfolds(start: Pipe, events: seq<Event>)
    decreases |events|, 0
  {
    if events == [] then Started(start)
    else
      && Unfolds(start, events[..|events| - 1])
      && CanHappen(State(start, events[..|events| - 1]), events[|events| - 1])
  }

  function State(start: Pipe, events: seq<Event>): Pipe
    requires Unfolds(start, events)
    decreases |events|, 1
  {
    if events == [] then start else Happen(State(start, events[..|events| - 1]), events[|events| - 1])
  }

  // ---------------------------------------------------------------------------------------------
  // What every interleaving keeps

  /** The executions whose push succeeded, in order. */
  function Kept(execs: seq<Execution>, kept: seq<bool>): (r: seq<Execution>)
    requires |execs| == |kept|
    ensures |r| + Losses(kept) == |execs|
    ensures forall x :: x in r ==> x in execs
  {
    if kept == [] then []
    else
      var n := |kept| - 1;
      Kept(execs[..n], kept[..n]) + (if kept[n] then [execs[n]] else [])
  }

  function Losses(kept: seq<bool>): nat {
    if kept == [] then 0
    else Losses(kept[..|kept| - 1]) + (if kept[|kept| - 1] then 0 else 1)
  }

  /** The executions the ledger has seen: all popped but the one in hand. */
  function Applied(p: Pipe): seq<Execution> {
    if p.inHand.Some? && p.ring.popped != [] then p.ring.popped[..|p.ring.popped| - 1] else p.ring.popped
  }

  predicate Busy(p: Pipe) { !p.ring.producer.Outside? }

  predicate Counted(p: Pipe) {
    && |p.generated| == |p.kept| + (if Busy(p) then 1 else 0)
    && (Busy(p) ==> !p.dropOwed && p.ring.producer.item == p.generated[|p.generated| - 1])
    && p.ring.pushed == Kept(p.generated[..|p.kept|], p.kept)
    && p.dropped + (if p.dropOwed then 1 else 0) == Losses(p.kept)
  }

  ghost predicate Ledgered(p: Pipe) {
    && (p.inHand.Some? ==>
          && p.ring.consumer.Away? && p.ring.popped != []
          && p.inHand.value == p.ring.popped[|p.ring.popped| - 1])
    && p.positions == Book(Applied(p))
  }

  lemma KeptSnoc(execs: seq<Execution>, kept: seq<bool>, n: nat)
    requires |kept| == n + 1 <= |execs|
    ensures Kept(execs[..n + 1], kept) == Kept(execs[..n], kept[..n]) + (if kept[n] then [execs[n]] else [])
    ensures Losses(kept) == Losses(kept[..n]) + (if kept[n] then 0 else 1)
  {
    assert execs[..n + 1][..n] == execs[..n];
  }

  lemma MoveKeepsCounted(p: Pipe, a: Action<Execution>)
    requires Good(p.ring) && Counted(p) && CanHappen(p, Move(a))
    ensures Counted(Happen(p, Move(a)))
  {
    hide Good, Kept, Losses;
    var n := Happen(p, Move(a));
    if |n.kept| > |p.kept| {
      KeptSnoc(p.generated, n.kept, |p.kept|);
      assert n.kept[..|p.kept|] == p.kept;
      assert p.ring.producer.item == p.generated[|p.kept|];
    }
  }

  lemma StepKeepsCounted(p: Pipe, e: Event)
    requires Good(p.ring) && Counted(p) && CanHappen(p, e)
    ensures Counted(Happen(p, e))
  {
    hide Good, Apply, CString, Kept, Losses;
    match e
    case Generate(x) => assert Happen(p, e).generated[..|p.kept|] == p.generated[..|p.kept|];
    case CountDrop =>
    case ApplyInHand =>
    case Move(a) => MoveKeepsCounted(p, a);
  }

  lemma MoveKeepsLedgered(p: Pipe, a: Action<Execution>)
    requires Good(p.ring) && Counted(p) && Ledgered(p) && CanHappen(p, Move(a))
    ensures Ledgered(Happen(p, Move(a)))
  {
    hide Book, Counted;
    var n := Happen(p, Move(a));
    if a.StoreHead? {
      assert n.ring.popped == p.ring.popped + [p.ring.consumer.item];
    }
    assert Applied(n) == Applied(p);
  }

  lemma ApplyKeepsLedgered(p: Pipe)
    requires Good(p.ring) && Counted(p) && Ledgered(p) && CanHappen(p, ApplyInHand)
    ensures Ledgered(Happen(p, ApplyInHand))
  {
    hide Apply, CString;
    var n := Happen(p, ApplyInHand);
    assert Applied(n) == p.ring.popped && Applied(p) == p.ring.popped[..|p.ring.popped| - 1];
  }

  lemma {:induction false} AlwaysSound(start: Pipe, events: seq<Event>)
    requires Unfolds(start, events)
    ensures var p := State(start, events); Good(p.ring) && Counted(p) && Ledgered(p)
    decreases |events|
  {
    hide Good, Do, Counted, Ledgered;
    if events == [] {
      StartSound(start);
    } else {
      var prefix, e := events[..|events| - 1], events[|events| - 1];
      AlwaysSound(start, prefix);
      var p := State(start, prefix);
      StepKeepsCounted(p, e);
      match e
      case Generate(x) => StepKeepsGood(p.ring, LoadTail(x)); GenerateKeepsLedgered(p, x);
      case CountDrop => DropKeepsLedgered(p);
      case ApplyInHand => ApplyKeepsLedgered(p);
      case Move(a) => StepKeepsGood(p.ring, a); MoveKeepsLedgered(p, a);
    }
  }

  lemma StartSound(p: Pipe)
    requires Started(p)
    ensures Good(p.ring) && Counted(p) && Ledgered(p)
  {}

  lemma GenerateKeepsLedgered(p: Pipe, x: Execution)
    requires Ledgered(p) && CanHappen(p, Generate(x))
    ensures Ledgered(Happen(p, Generate(x)))
  {
    hide Good;
    assert Applied(Happen(p, Generate(x))) == Applied(p);
  }

  lemma DropKeepsLedgered(p: Pipe)
    requires Ledgered(p) && CanHappen(p, CountDrop)
    ensures Ledgered(Happen(p, CountDrop))
  {
    assert Applied(Happen(p, CountDrop)) == Applied(p);
  }

  /** The ring actions of a run. */
  function Moves(events: seq<Event>): seq<Action<Execution>> {
    if events == [] then []
    else
      var e := events[|events| - 1];
      Moves(events[..|events| - 1])
      + (if e.Generate? then [LoadTail(e.exec)] else if e.Move? then [e.action] else [])
  }

  /** The executions the engine emitted in a run. */
  function Emitted(events: seq<Event>): seq<Execution> {
    if events == [] then []
    else
      var e := events[|events| - 1];
      Emitted(events[..|events| - 1]) + (if e.Generate? then [e.exec] else [])
  }

  /** How often the drop counter was incremented, and how often `onExecution` was called. */
  function Drops(events: seq<Event>): nat {
    if events == [] then 0
    else Drops(events[..|events| - 1]) + (if events[|events| - 1].CountDrop? then 1 else 0)
  }

  function Applications(events: seq<Event>): nat {
    if events == [] then 0
    else Applications(events[..|events| - 1]) + (if events[|events| - 1].ApplyInHand? then 1 else 0)
  }

  /** The pipeline drives the ring as its two threads do: its ring is that of a run of the ring alone, so
      all that holds of every such run holds here. What it records is what happened: the executions
      emitted, the drops counted, and one ledger update for each execution applied. */
  lemma {:induction false} RunOfRing(start: Pipe, events: seq<Event>)
    requires Unfolds(start, events)
    ensures Possible(start.ring, Moves(events))
    ensures var p := State(start, events);
      && p.ring == After(start.ring, Moves(events))
      && p.generated == Emitted(events) && p.dropped == Drops(events) && |Applied(p)| == Applications(events)
    decreases |events|
  {
    hide Do, Enabled, Apply, CString, Init, After, Possible;
    if events == [] {
      NoMoves(start);
    } else {
      var prefix, e := events[..|events| - 1], events[|events| - 1];
      RunOfRing(start, prefix);
      AlwaysSound(start, prefix);
      var p := State(start, prefix);
      StepApplied(p, e);
      if e.Generate? { Spsc.Extend(start.ring, Moves(prefix), LoadTail(e.exec)); }
      if e.Move? { Spsc.Extend(start.ring, Moves(prefix), e.action); }
      assert Moves(prefix) + [] == Moves(prefix);
    }
  }

  lemma NoMoves(start: Pipe)
    requires Started(start)
    ensures Possible(start.ring, []) && After(start.ring, []) == start.ring && Applied(start) == []
  {}

  lemma StepApplied(p: Pipe, e: Event)
    requires Good(p.ring) && Ledgered(p) && CanHappen(p, e)
    ensures |Applied(Happen(p, e))| == |Applied(p)| + (if e.ApplyInHand? then 1 else 0)
  {
    hide Good, Book, Apply, CString;
  }

  /** Neither thread ever waits for the other. Between callbacks any execution can be emitted, and inside one
      the next step of the push or the count of a drop can be taken; the cold path can apply what it has
      in hand, or else take the next step of the pop or `size` it is in, or begin one. */
  lemma NeverBlocked(start: Pipe, events: seq<Event>, x: Execution)
    requires Unfolds(start, events)
    ensures var p := State(start, events);
      && (if p.dropOwed then CanHappen(p, CountDrop)
          else match p.ring.producer
            case Outside => CanHappen(p, Generate(x))
            case TailLoaded(_, _) => CanHappen(p, Move(LoadHead))
            case RoomSeen(_, _) => CanHappen(p, Move(WriteSlot))
            case SlotWritten(_, _) => CanHappen(p, Move(StoreTail)))
      && (if p.inHand.Some? then CanHappen(p, ApplyInHand)
          else match p.ring.consumer
            case Away => CanHappen(p, Move(PopLoadHead)) && CanHappen(p, Move(SizeLoadTail))
            case HeadLoaded(_) => CanHappen(p, Move(PopLoadTail))
            case ItemSeen(_) => CanHappen(p, Move(ReadSlot))
            case SlotRead(_, _) => CanHappen(p, Move(StoreHead))
            case Sizing(_) => CanHappen(p, Move(SizeLoadHead)))
  {
    hide State, Unfolds, Enabled, Moves, After;
    RunOfRing(start, events);
    NeverWaits(start.ring, Moves(events), x);
  }

  /** An execution is dropped exactly when its push finds the ring with one item less than its capacity. */
  lemma DropsWhenFull(start: Pipe, events: seq<Event>)
    requires Unfolds(start, events) && CanHappen(State(start, events), Move(LoadHead))
    ensures var p := State(start, events);
      && InBounds(p.ring)
      && (Happen(p, Move(LoadHead)).dropOwed <==> |Contents(p.ring)| == p.ring.capacity - 1)
      && (Happen(p, Move(LoadHead)).kept != p.kept <==> |Contents(p.ring)| == p.ring.capacity - 1)
  {
    hide State, Unfolds, Contents, Kept, Losses, Book;
    AlwaysSound(start, events);
    RunOfRing(start, events);
    FailedCalls(start.ring, Moves(events));
  }

  /** In every interleaving every execution is accounted for, once: applied, in hand, in the ring,
      dropped and counted, dropped and about to be counted, or still inside its push. */
  lemma Accounting(start: Pipe, events: seq<Event>)
    requires Unfolds(start, events)
    ensures var p := State(start, events);
      && InBounds(p.ring)
      && |p.generated| == |Applied(p)| + (if p.inHand.Some? then 1 else 0) + |Contents(p.ring)|
                          + p.dropped + (if p.dropOwed then 1 else 0) + (if Busy(p) then 1 else 0)
  {
    hide State, Unfolds;
    AlwaysSound(start, events);
  }

  /** In every interleaving the positions are the ledger of a prefix of the executions that got into
      the ring, in the order they were generated; the rest of them are in hand or in the ring. */
  lemma PositionsFollowOrder(start: Pipe, events: seq<Event>)
    requires Unfolds(start, events)
    ensures var p := State(start, events);
      && InBounds(p.ring) && |p.kept| <= |p.generated|
      && p.positions == Book(Applied(p))
      && Applied(p) + (if p.inHand.Some? then [p.inHand.value] else []) + Contents(p.ring)
         == Kept(p.generated[..|p.kept|], p.kept)
  {
    hide State, Unfolds, Book, Kept;
    AlwaysSound(start, events);
    var p := State(start, events);
    if p.inHand.Some? {
      assert p.ring.popped == Applied(p) + [p.inHand.value];
    }
  }

  /** As long as the engine emits only positive quantities, no position ever stops being a number. */
  lemma LedgerStaysFinite(start: Pipe, events: seq<Event>, symbol: seq<Byte>)
    requires Unfolds(start, events) && PositiveExecs(State(start, events).generated)
    ensures IsFinite(At(State(start, events).positions, symbol))
  {
    hide State, Unfolds, Book, Kept, FillsOf, Fold, IsFinite, AllDefined;
    PositionsFollowOrder(start, events);
    var p := State(start, events);
    var execs := Applied(p);
    forall e | e in execs ensures e.quantity > 0 {
      assert e in Kept(p.generated[..|p.kept|], p.kept);
    }
    FillsPositive(execs, symbol);
    BookBySymbol(execs, symbol);
    RunFinite(FillsOf(execs, symbol));
  }

  lemma {:induction false} KeptAll(execs: seq<Execution>, kept: seq<bool>)
    requires |execs| == |kept| && Losses(kept) == 0
    ensures Kept(execs, kept) == execs
  {
    if kept != [] {
      var n := |kept| - 1;
      KeptAll(execs[..n], kept[..n]);
      assert execs[..n] + [execs[n]] == execs;
    }
  }

  /** Both threads are between calls. */
  predicate Idle(p: Pipe) { !Busy(p) && !p.dropOwed && p.inHand.None? && p.ring.consumer.Away? }

  /** When both threads are idle, the ledger covers every execution that got into the ring exactly when
      the ring is empty, and every execution generated exactly when also none was dropped. Stopping
      the cold path earlier leaves the rest out of the final report. */
  lemma FinalReport(start: Pipe, events: seq<Event>)
    requires Unfolds(start, events) && Idle(State(start, events))
    ensures var p := State(start, events);
      && InBounds(p.ring)
      && (Applied(p) == p.ring.pushed <==> Contents(p.ring) == [])
      && (Applied(p) == p.generated <==> Contents(p.ring) == [] && p.dropped == 0)
  {
    hide State, Unfolds, Book;
    AlwaysSound(start, events);
    var p := State(start, events);
    assert p.generated[..|p.kept|] == p.generated;
    if p.dropped == 0 { KeptAll(p.generated, p.kept); }
  }

  lemma Extend(start: Pipe, events: seq<Event>, e: Event)
    requires Unfolds(start, events) && CanHappen(State(start, events), e)
    ensures Unfolds(start, events + [e]) && State(start, events + [e]) == Happen(State(start, events), e)
  {
    assert (events + [e])[..|events|] == events;
  }

  lemma Begin(start: Pipe)
    requires Started(start)
    ensures Unfolds(start, []) && State(start, []) == start
  {}

  lemma HoldsOne(ring: Ring<Execution>)
    requires InBounds(ring) && ring.head == 0 && ring.tail == 1
    ensures Contents(ring) == [ring.buffer[0]]
  {}

  /** A run in which the cold path drains until a pop fails, finding nothing. */
  lemma FailedPop(x: Execution) returns (start: Pipe, events: seq<Event>)
    ensures Unfolds(start, events) && State(start, events) == start
    ensures start == Pipe(Ring(2, [x, x], 0, 0, Outside, Away, Still, [], []), [], [], false, 0, None, map[])
    ensures events == [Move(PopLoadHead), Move(PopLoadTail)]
  {
    hide Unfolds, State, Apply, CString;
    start, events := Pipe(Ring(2, [x, x], 0, 0, Outside, Away, Still, [], []), [], [], false, 0, None, map[]), [];
    Begin(start);
    Extend(start, events, Move(PopLoadHead));
    events := events + [Move(PopLoadHead)];
    Extend(start, events, Move(PopLoadTail));
    events := events + [Move(PopLoadTail)];
  }

  /** It does happen that the report misses an execution: the cold path drains until a pop fails, then an
      execution is generated and pushed, and then the cold path stops. Both threads are idle, nothing was
      dropped, and the ledger is empty. */
  lemma ReportMissesExecution(x: Execution) returns (start: Pipe, events: seq<Event>)
    ensures Unfolds(start, events)
    ensures |events| > 2 && events[..2] == [Move(PopLoadHead), Move(PopLoadTail)]
    ensures var p := State(start, events);
      && Idle(p) && p.dropped == 0 && p.generated == [x] && p.positions == map[]
      && InBounds(p.ring) && Contents(p.ring) == [x]
  {
    hide Unfolds, State, Apply, CString, Contents;
    start, events := FailedPop(x);
    var ring := start.ring;
    Extend(start, events, Generate(x));
    events := events + [Generate(x)];
    Extend(start, events, Move(LoadHead));
    events := events + [Move(LoadHead)];
    assert State(start, events) == start.(ring := ring.(producer := RoomSeen(x, 0)), generated := [x]);
    Extend(start, events, Move(WriteSlot));
    events := events + [Move(WriteSlot)];
    Extend(start, events, Move(StoreTail));
    events := events + [Move(StoreTail)];
    assert State(start, events)
      == start.(ring := ring.(tail := 1, pushed := [x]), generated := [x], kept := [true]);
    HoldsOne(State(start, events).ring);
  }
}
