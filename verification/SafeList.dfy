/**
 * The packet queue between the dispatcher and a session: a doubly linked list with a count
 * and pointers to both ends, which stands for a sequence of items.
 */
module SafeList {
  import opened Wrappers

  /** What a list element holds; `None` for the data stands for a NULL pointer. */
  datatype Item<T> = Item(data: Option<T>, size: int, dataFlag: bool)

  /** One call on the queue */
  datatype Operation<T> =
    | AddToHead(item: Item<T>)
    | AddToTail(item: Item<T>)
    | TakeHead
    | TakeTail

  /** What a call does to the sequence the queue stands for, and the item it hands out */
  function Apply<T>(q: seq<Item<T>>, op: Operation<T>): (seq<Item<T>>, Option<Item<T>>) {
    match op
    case AddToHead(item) => (if item.data.None? then q else [item] + q, None)
    case AddToTail(item) => (if item.data.None? then q else q + [item], None)
    case TakeHead => if q == [] then (q, None) else (q[1..], Some(q[0]))
    case TakeTail => if q == [] then (q, None) else (q[..|q| - 1], Some(q[|q| - 1]))
  }

  function Handed<T>(taken: Option<Item<T>>): seq<Item<T>> {
    if taken.Some? then [taken.value] else []
  }

  function Offered<T>(op: Operation<T>): seq<Item<T>> {
    if (op.AddToHead? || op.AddToTail?) && op.item.data.Some? then [op.item] else []
  }

  /** The queue after a run of calls, and the items handed out in the order they were */
  function Run<T>(q: seq<Item<T>>, ops: seq<Operation<T>>): (seq<Item<T>>, seq<Item<T>>)
    decreases |ops|
  {
    if ops == [] then (q, []) else
    var (next, taken) := Apply(q, ops[0]);
    var (last, more) := Run(next, ops[1..]);
    (last, Handed(taken) + more)
  }

  /** The items a run of calls puts into the queue */
  function Accepted<T>(ops: seq<Operation<T>>): seq<Item<T>> {
    if ops == [] then [] else Offered(ops[0]) + Accepted(ops[1..])
  }

  lemma BagOfJoined<X>(a: seq<X>, b: seq<X>, c: seq<X>)
    requires a + b == c
    ensures multiset(c) == multiset(a) + multiset(b)
  {
  }

  lemma StepConserves<T>(q: seq<Item<T>>, op: Operation<T>)
    ensures var (next, taken) := Apply(q, op);
            multiset(next) + multiset(Handed(taken)) == multiset(q) + multiset(Offered(op))
  {
    match op
    case AddToHead(_) => BagOfJoined(Offered(op), q, Apply(q, op).0);
    case AddToTail(_) => BagOfJoined(q, Offered(op), Apply(q, op).0);
    case _ => TakingConserves(q, op);
  }

  lemma TakingConserves<T>(q: seq<Item<T>>, op: Operation<T>)
    requires op.TakeHead? || op.TakeTail?
    ensures var (next, taken) := Apply(q, op);
            multiset(next) + multiset(Handed(taken)) == multiset(q)
  {
    var (next, taken) := Apply(q, op);
    if op.TakeHead? {
      BagOfJoined(Handed(taken), next, q);
    } else {
      BagOfJoined(next, Handed(taken), q);
    }
  }

  lemma BagsBalance<X>(q: multiset<X>, next: multiset<X>, last: multiset<X>,
      handed: multiset<X>, more: multiset<X>, offered: multiset<X>, rest: multiset<X>)
    requires next + handed == q + offered
    requires last + more == next + rest
    ensures last + (handed + more) == q + (offered + rest)
  {
    forall x: X ensures (last + (handed + more))[x] == (q + (offered + rest))[x]
    {
      assert (next + handed)[x] == (q + offered)[x] && (last + more)[x] == (next + rest)[x];
    }
  }

  lemma OrdersChain<X>(q: seq<X>, next: seq<X>, last: seq<X>,
      handed: seq<X>, more: seq<X>, offered: seq<X>, rest: seq<X>)
    requires handed + next == q + offered
    requires more + last == next + rest
    ensures (handed + more) + last == q + (offered + rest)
  {
    calc {
      (handed + more) + last;
      handed + (more + last);
      handed + (next + rest);
      (handed + next) + rest;
      (q + offered) + rest;
      q + (offered + rest);
    }
  }

  /** Whatever the mix of calls, nothing is lost and nothing handed out twice. */
  lemma {:induction false} RunConserves<T>(q: seq<Item<T>>, ops: seq<Operation<T>>)
    ensures multiset(Run(q, ops).0) + multiset(Run(q, ops).1) == multiset(q) + multiset(Accepted(ops))
    decreases |ops|
  {
    if ops == [] {
    } else {
      var (next, taken) := Apply(q, ops[0]);
      var (last, more) := Run(next, ops[1..]);
      StepConserves(q, ops[0]);
      RunConserves(next, ops[1..]);
      BagOfJoined(Handed(taken), more, Handed(taken) + more);
      BagOfJoined(Offered(ops[0]), Accepted(ops[1..]), Accepted(ops));
      BagsBalance(multiset(q), multiset(next), multiset(last), multiset(Handed(taken)), multiset(more),
                  multiset(Offered(ops[0])), multiset(Accepted(ops[1..])));
    }
  }

  /** Calls that add at the tail and take from the head hand items out in the order they went in. */
  lemma {:induction false} FirstInFirstOut<T>(q: seq<Item<T>>, ops: seq<Operation<T>>)
    requires forall i :: 0 <= i < |ops| ==> ops[i].AddToTail? || ops[i].TakeHead?
    ensures Run(q, ops).1 + Run(q, ops).0 == q + Accepted(ops)
    decreases |ops|
  {
    if ops == [] {
    } else {
      var (next, taken) := Apply(q, ops[0]);
      var (last, more) := Run(next, ops[1..]);
      assert Handed(taken) + next == q + Offered(ops[0]);
      FirstInFirstOut(next, ops[1..]);
      OrdersChain(q, next, last, Handed(taken), more, Offered(ops[0]), Accepted(ops[1..]));
    }
  }

  function Reversed<X>(s: seq<X>): seq<X> {
    if s == [] then [] else Reversed(s[1..]) + [s[0]]
  }

  lemma ReversedBehind<X>(front: seq<X>, rest: seq<X>)
    requires |front| <= 1
    ensures Reversed(front + rest) == Reversed(rest) + front
  {
    if front == [] {
      assert front + rest == rest;
    } else {
      assert (front + rest)[1..] == rest && front == [front[0]];
    }
  }

  lemma OrdersChainBack<X>(q: seq<X>, next: seq<X>, last: seq<X>,
      handed: seq<X>, more: seq<X>, offered: seq<X>, rest: seq<X>)
    requires next + handed == offered + q
    requires last + more == rest + next
    ensures last + (more + handed) == (rest + offered) + q
  {
    calc {
      last + (more + handed);
      (last + more) + handed;
      (rest + next) + handed;
      rest + (next + handed);
      rest + (offered + q);
      (rest + offered) + q;
    }
  }

  /** Calls that add at the head and take from the tail keep the order too, from back to front. */
  lemma {:induction false} FirstInFirstOutBackwards<T>(q: seq<Item<T>>, ops: seq<Operation<T>>)
    requires forall i :: 0 <= i < |ops| ==> ops[i].AddToHead? || ops[i].TakeTail?
    ensures Run(q, ops).0 + Reversed(Run(q, ops).1) == Reversed(Accepted(ops)) + q
    decreases |ops|
  {
    if ops == [] {
    } else {
      var (next, taken) := Apply(q, ops[0]);
      var (last, more) := Run(next, ops[1..]);
      assert next + Handed(taken) == Offered(ops[0]) + q;
      FirstInFirstOutBackwards(next, ops[1..]);
      ReversedBehind(Handed(taken), more);
      ReversedBehind(Offered(ops[0]), Accepted(ops[1..]));
      OrdersChainBack(q, next, last, Handed(taken), Reversed(more), Offered(ops[0]), Reversed(Accepted(ops[1..])));
    }
  }

  /** What was added at one end is what is taken from it next, and the rest is as before. */
  lemma LastInFirstOut<T>(q: seq<Item<T>>, item: Item<T>)
    requires item.data.Some?
    ensures Apply(Apply(q, AddToHead(item)).0, TakeHead) == (q, Some(item))
    ensures Apply(Apply(q, AddToTail(item)).0, TakeTail) == (q, Some(item))
  {
    assert ([item] + q)[1..] == q && (q + [item])[..|q|] == q;
  }

  lemma HeadAdded<T>(q: seq<Item<T>>, item: Item<T>)
    ensures Apply(q, AddToHead(item)) ==
            ((if item.data.Some? then [Item(item.data, item.size, item.dataFlag)] else []) + q, None)
  {
    assert [] + q == q;
  }

  lemma TailAdded<T>(q: seq<Item<T>>, item: Item<T>)
    ensures Apply(q, AddToTail(item)) ==
            (q + (if item.data.Some? then [Item(item.data, item.size, item.dataFlag)] else []), None)
  {
    assert q + [] == q;
  }

  class SafeElement<T> {
    const item: Item<T>
    var pPrev: SafeElement?<T>
    var pNext: SafeElement?<T>

    constructor (item: Item<T>, prev: SafeElement?<T>, next: SafeElement?<T>)
      ensures this.item == item && pPrev == prev && pNext == next
    {
      this.item := item;
      pPrev := prev;
      pNext := next;
    }
  }

  class SafeList<T> {
    var nCount: nat
    var pFirstElement: SafeElement?<T>
    var pLastElement: SafeElement?<T>
    ghost var elements: seq<SafeElement<T>>

    /** The element at a position, null outside the list */
    ghost function At(i: int): SafeElement?<T>
      reads this
    {
      if 0 <= i < |elements| then elements[i] else null
    }

    /**
     * The count is the length, the two ends are the first and the last element, forward and
     * backward links agree, and nothing in the list is NULL data.
     */
    ghost predicate Valid()
      reads this, elements
    {
      && nCount == |elements|
      && pFirstElement == At(0) && pLastElement == At(|elements| - 1)
      && Distinct(elements) && Linked(elements)
      && (forall i :: 0 <= i < |elements| ==> elements[i].item.data.Some?)
    }

    static ghost predicate Distinct(es: seq<SafeElement<T>>) {
      forall i, j :: 0 <= i < j < |es| ==> es[i] != es[j]
    }

    static ghost predicate Linked(es: seq<SafeElement<T>>)
      reads es
    {
      forall i :: 0 <= i < |es| ==> LinkedAt(es, i)
    }

    /** The links of the element at a position lead to its neighbours. */
    static ghost predicate LinkedAt(es: seq<SafeElement<T>>, i: nat)
      requires i < |es|
      reads es[i]
    {
      && es[i].pPrev == (if i == 0 then null else es[i - 1])
      && es[i].pNext == (if i == |es| - 1 then null else es[i + 1])
    }

    /** The items of the list from front to back */
    ghost function Contents(): (c: seq<Item<T>>)
      reads this
      ensures |c| == |elements|
    {
      Items(elements)
    }

    static ghost function Items(es: seq<SafeElement<T>>): (c: seq<Item<T>>)
      ensures |c| == |es| && forall i :: 0 <= i < |es| ==> c[i] == es[i].item
    {
      if es == [] then [] else [es[0].item] + Items(es[1..])
    }

    static lemma ItemsOfAppended(es: seq<SafeElement<T>>, e: SafeElement<T>)
      ensures Items(es + [e]) == Items(es) + [e.item]
    {
      assert (es + [e])[..|es|] == es && (es + [e])[|es|] == e;
    }

    /** CWCreateSafeList */
    constructor ()
      ensures Valid() && Contents() == [] && fresh(elements)
    {
      nCount := 0;
      pFirstElement := null;
      pLastElement := null;
      elements := [];
    }

    /** CWAddElementToSafeListHead: NULL data is refused; the flag is whatever the memory held. */
    method AddHead(pData: Option<T>, nSize: int, staleFlag: bool) returns (ok: bool)
      requires Valid()
      modifies this, elements
      ensures Valid() && (forall e <- elements :: e in old(elements) || fresh(e))
      ensures ok <==> pData.Some?
      ensures Contents() == (if ok then [Item(pData, nSize, staleFlag)] else []) + old(Contents())
    {
      if pData == None {
        return false;
      }
      ghost var was := elements;
      assert |was| > 0 ==> LinkedAt(was, 0);
      var e := new SafeElement(Item(pData, nSize, staleFlag), null, pFirstElement);
      if pFirstElement != null {
        pFirstElement.pPrev := e;
      }
      pFirstElement := e;
      if pLastElement == null {
        pLastElement := e;
      }
      nCount := nCount + 1;
      elements := [e] + was;
      forall i | 0 <= i < |elements| ensures LinkedAt(elements, i)
      {
        if i > 0 {
          assert elements[i] == was[i - 1] && old(LinkedAt(was, i - 1));
        } else if |was| > 0 {
          assert elements[1] == was[0];
        }
      }
      ok := true;
    }

    /** CWAddElementToSafeListTail and CWAddElementToSafeListTailwitDataFlag, which also sets the flag */
    method AddTail(pData: Option<T>, nSize: int, dataFlag: bool) returns (ok: bool)
      requires Valid()
      modifies this, elements
      ensures Valid() && (forall e <- elements :: e in old(elements) || fresh(e))
      ensures ok <==> pData.Some?
      ensures Contents() == old(Contents()) + if ok then [Item(pData, nSize, dataFlag)] else []
    {
      if pData == None {
        return false;
      }
      var e := new SafeElement(Item(pData, nSize, dataFlag), pLastElement, null);
      ItemsOfAppended(elements, e);
      AttachTail(e);
      ok := true;
    }

    /** The part of adding at the tail that follows filling in the new element */
    method AttachTail(e: SafeElement<T>)
      requires Valid() && e !in elements && e.item.data.Some?
      requires e.pPrev == pLastElement && e.pNext == null
      modifies this, elements
      ensures Valid() && elements == old(elements) + [e]
    {
      ghost var was := elements;
      assert |was| > 0 ==> LinkedAt(was, |was| - 1);
      if pLastElement != null {
        pLastElement.pNext := e;
      }
      pLastElement := e;
      if pFirstElement == null {
        pFirstElement := e;
      }
      nCount := nCount + 1;
      elements := was + [e];
      forall i | 0 <= i < |elements| ensures LinkedAt(elements, i)
      {
        if i < |was| {
          assert elements[i] == was[i] && old(LinkedAt(was, i));
        } else if |was| > 0 {
          assert elements[i - 1] == was[i - 1];
        }
      }
    }

    /** CWGetHeadElementFromSafeList */
    method GetHead() returns (head: Option<Item<T>>)
      requires Valid()
      ensures head == if Contents() == [] then None else Some(Contents()[0])
    {
      head := if pFirstElement == null then None else Some(pFirstElement.item);
    }

    /** CWRemoveHeadElementFromSafeList, and its variant that also returns the flag */
    method RemoveHead() returns (head: Option<Item<T>>)
      requires Valid()
      modifies this, elements
      ensures Valid() && elements == old(elements)[if old(elements) == [] then 0 else 1..]
      ensures head == if old(Contents()) == [] then None else Some(old(Contents())[0])
      ensures Contents() == if old(Contents()) == [] then [] else old(Contents())[1..]
    {
      if pFirstElement == null {
        return None;
      }
      ghost var was := elements;
      assert LinkedAt(was, 0) && (|was| > 1 ==> LinkedAt(was, 1));
      var e := pFirstElement;
      pFirstElement := pFirstElement.pNext;
      if pFirstElement == null {
        pLastElement := null;
      } else {
        pFirstElement.pPrev := null;
      }
      nCount := nCount - 1;
      elements := was[1..];
      forall i | 0 <= i < |elements| ensures LinkedAt(elements, i)
      {
        assert elements[i] == was[i + 1] && old(LinkedAt(was, i + 1));
      }
      head := Some(e.item);
    }

    /** CWRemoveTailElementFromSafeList */
    method RemoveTail() returns (tail: Option<Item<T>>)
      requires Valid()
      modifies this, elements
      ensures Valid() && (forall e <- elements :: e in old(elements))
      ensures var n := |old(Contents())|;
              && tail == (if n == 0 then None else Some(old(Contents())[n - 1]))
              && Contents() == if n == 0 then [] else old(Contents())[..n - 1]
    {
      if pLastElement == null {
        return None;
      }
      var e := pLastElement;
      DetachTail();
      ItemsOfAppended(elements, e);
      tail := Some(e.item);
    }

    /** The part of removing at the tail that unlinks the last element */
    method DetachTail()
      requires Valid() && pLastElement != null
      modifies this, elements
      ensures Valid() && old(elements) == elements + [old(pLastElement)]
    {
      ghost var was, n := elements, |elements| - 1;
      assert LinkedAt(was, n) && (n > 0 ==> LinkedAt(was, n - 1));
      pLastElement := pLastElement.pPrev;
      if pLastElement == null {
        pFirstElement := null;
      } else {
        pLastElement.pNext := null;
      }
      nCount := nCount - 1;
      elements := was[..n];
      forall i | 0 <= i < |elements| ensures LinkedAt(elements, i)
      {
        assert elements[i] == was[i] && old(LinkedAt(was, i));
      }
    }

    /** Any of the four calls does to the contents what it does to the sequence. */
    method Perform(op: Operation<T>) returns (taken: Option<Item<T>>)
      requires Valid()
      modifies this, elements
      ensures Valid()
      ensures (Contents(), taken) == Apply(old(Contents()), op)
    {
      taken := None;
      ghost var was := Contents();
      match op {
        case AddToHead(item) =>
          var _ := AddHead(item.data, item.size, item.dataFlag);
          HeadAdded(was, item);
        case AddToTail(item) =>
          var _ := AddTail(item.data, item.size, item.dataFlag);
          TailAdded(was, item);
        case TakeHead => taken := RemoveHead();
        case TakeTail => taken := RemoveTail();
      }
    }

    /** CWGetCountElementFromSafeList */
    method GetCount() returns (n: nat)
      requires Valid()
      ensures n == |Contents()|
    {
      n := nCount;
    }

    /** CWCleanSafeList: ends because no element can make a removal look like an empty list. */
    method Clean()
      requires Valid()
      modifies this, elements
      ensures Valid() && Contents() == []
    {
      ghost var all, k := elements, 0;
      while true
        invariant k <= |all| && elements == all[k..] && Valid()
        decreases |all| - k
      {
        var head := RemoveHead();
        if head == None || head.value.data == None {
          break;
        }
        k := k + 1;
      }
    }
  }
}
