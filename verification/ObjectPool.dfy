/** The slab allocator: a fixed slab of slots and a stack of the free ones. */
module ObjectPools {
  import opened SideState

  /** The stack lists exactly the free slots, each once. */
  ghost predicate StackOk(free: seq<int>, owner: seq<Owner>) {
    && (forall i :: 0 <= i < |free| ==> 0 <= free[i] < |owner| && owner[free[i]].Free?)
    && (forall i, j :: 0 <= i < j < |free| ==> free[i] != free[j])
    && (forall s :: 0 <= s < |owner| && owner[s].Free? ==> s in free)
  }

  /** Moving a slot that is not free elsewhere, but not to the stack, leaves the stack right. */
  lemma StackKept(free: seq<int>, owner: seq<Owner>, slot: int, w: Owner)
    requires StackOk(free, owner) && 0 <= slot < |owner| && !owner[slot].Free? && !w.Free?
    ensures StackOk(free, owner[slot := w])
  {}

  lemma StackPop(free: seq<int>, owner: seq<Owner>)
    requires StackOk(free, owner) && free != []
    ensures var slot := free[|free| - 1];
      0 <= slot < |owner| && owner[slot].Free? && StackOk(free[..|free| - 1], owner[slot := Loose])
  {
    var n := |free| - 1;
    assert owner[free[n]].Free?;
    forall s | 0 <= s < |owner| && owner[free[n] := Loose][s].Free? ensures s in free[..n] {
      var i :| 0 <= i < |free| && free[i] == s;
      assert free[..n][i] == s;
    }
  }

  lemma StackPush(free: seq<int>, owner: seq<Owner>, slot: int)
    requires StackOk(free, owner) && 0 <= slot < |owner| && owner[slot].Loose?
    ensures |free| < |owner| && StackOk(free + [slot], owner[slot := Free])
  {
    Pigeonhole(free + [slot], |owner|);
    assert (free + [slot])[|free|] == slot;
    assert forall s :: s in free ==> s in free + [slot];
  }

  /** Different numbers below `n` are at most `n`. */
  lemma {:induction false} Pigeonhole(s: seq<int>, n: nat)
    requires forall i :: 0 <= i < |s| ==> 0 <= s[i] < n
    requires forall i, j :: 0 <= i < j < |s| ==> s[i] != s[j]
    ensures |s| <= n
    decreases n
  {
    assert s == [] || 0 <= s[0] < n;
    if i :| 0 <= i < |s| && s[i] == n - 1 {
      Pigeonhole(s[..i] + s[i + 1..], n - 1);
    } else if n > 0 {
      Pigeonhole(s, n - 1);
    }
  }

  class ObjectPool {
    const slab: array<Node>
    const freeStack: array<int>
    var top: nat
    ghost var owner: seq<Owner>

    ghost predicate Valid()
      reads this, freeStack
    {
      && freeStack.Length == slab.Length == |owner| && top <= freeStack.Length
      && StackOk(freeStack[..top], owner)
    }

    constructor (capacity: nat)
      ensures Valid() && fresh(slab) && fresh(freeStack)
      ensures slab.Length == capacity && top == capacity
      ensures forall s :: 0 <= s < capacity ==> owner[s].Free?
    {
      slab := new Node[capacity];
      freeStack := new int[capacity];
      top := capacity;
      owner := seq(capacity, _ => Free);
      new;
      var i := 0;
      while i < capacity
        modifies freeStack
        invariant 0 <= i <= capacity
        invariant forall j :: 0 <= j < i ==> freeStack[j] == j
      {
        freeStack[i] := i;
        i := i + 1;
      }
      forall s | 0 <= s < capacity ensures s in freeStack[..top] {
        assert freeStack[..top][s] == s;
      }
    }

    /** Hands out a free slot, or NIL when there is none. */
    method Alloc() returns (slot: int)
      requires Valid()
      modifies this
      ensures Valid()
      ensures slot == NIL <==> old(top) == 0
      ensures slot == NIL ==> top == 0 && owner == old(owner)
      ensures slot != NIL ==>
        && 0 <= slot < slab.Length && old(owner[slot]).Free?
        && owner == old(owner)[slot := Loose] && top == old(top) - 1
    {
      hide StackOk;
      if top == 0 { return NIL; }
      StackPop(freeStack[..top], owner);
      top := top - 1;
      slot := freeStack[top];
      assert freeStack[..top + 1][..top] == freeStack[..top];
      owner := owner[slot := Loose];
    }

    /** Takes a loose slot back. The stack has room for it. */
    method Release(slot: int)
      requires Valid() && 0 <= slot < slab.Length && owner[slot].Loose?
      modifies this, freeStack
      ensures Valid()
      ensures owner == old(owner)[slot := Free] && top == old(top) + 1
    {
      hide StackOk;
      ghost var was := freeStack[..top];
      StackPush(was, owner, slot);
      freeStack[top] := slot;
      top := top + 1;
      owner := owner[slot := Free];
      assert freeStack[..top] == was + [slot];
    }
  }
}
