/**
 * The test tool's queue of work: a fixed array read from the front, filled at the back, processed
 * until an item starts a load, and frozen while a test's items run.
 */
module WorkQueues {

  const QUEUE_LENGTH := 1024

  /** What invoking an item does: whether it starts a load, and the items it queues meanwhile. */
  datatype Effect = Effect(startsLoad: bool, queues: seq<nat>)

  datatype Outcome = Done | StartedLoad | AssertionFailed

  // ----- where the items are -----

  /** How often an item occurs. */
  function Times(s: seq<nat>, x: nat): nat {
    if s == [] then 0 else Times(s[..|s| - 1], x) + if s[|s| - 1] == x then 1 else 0
  }

  lemma {:induction false} TimesAppend(a: seq<nat>, b: seq<nat>, x: nat)
    ensures Times(a + b, x) == Times(a, x) + Times(b, x)
    decreases |b|
  {
    if b == [] {
      assert a + b == a;
    } else {
      assert (a + b)[..|a + b| - 1] == a + b[..|b| - 1];
      TimesAppend(a, b[..|b| - 1], x);
    }
  }

  /** Every item has been handed over as often as it was deleted, is running, and waits, together. */
  ghost predicate Balanced(offered: seq<nat>, deleted: seq<nat>, running: seq<nat>, pending: seq<nat>) {
    forall x :: Times(offered, x) == Times(deleted, x) + Times(running, x) + Times(pending, x)
  }

  lemma OfferKeepsBalance(offered: seq<nat>, deleted: seq<nat>, running: seq<nat>, pending: seq<nat>, item: nat)
    requires Balanced(offered, deleted, running, pending)
    ensures Balanced(offered + [item], deleted + [item], running, pending)
    ensures Balanced(offered + [item], deleted, running, pending + [item])
  {
    forall x ensures Times(offered + [item], x) == Times(offered, x) + Times([item], x)
      ensures Times(deleted + [item], x) == Times(deleted, x) + Times([item], x)
      ensures Times(pending + [item], x) == Times(pending, x) + Times([item], x)
    {
      TimesAppend(offered, [item], x);
      TimesAppend(deleted, [item], x);
      TimesAppend(pending, [item], x);
    }
  }

  /** Items may move from the front of those waiting to those running, and from there to the deleted. */
  lemma MoveKeepsBalance(offered: seq<nat>, deleted: seq<nat>, running: seq<nat>, items: seq<nat>, rest: seq<nat>)
    requires Balanced(offered, deleted, running, items + rest)
    ensures Balanced(offered, deleted, running + items, rest)
    ensures Balanced(offered, deleted + (running + items), [], rest)
  {
    forall x ensures Times(offered, x) == Times(deleted, x) + Times(running + items, x) + Times(rest, x)
      ensures Times(offered, x) == Times(deleted + (running + items), x) + Times([], x) + Times(rest, x)
    {
      TimesAppend(items, rest, x);
      TimesAppend(running, items, x);
      TimesAppend(deleted, running + items, x);
    }
  }

  /** Each item occurs as often in one list as in the other. */
  ghost predicate SameItems(a: seq<nat>, b: seq<nat>) {
    forall x :: Times(a, x) == Times(b, x)
  }

  lemma AllDeleted(offered: seq<nat>, deleted: seq<nat>)
    requires Balanced(offered, deleted, [], [])
    ensures SameItems(offered, deleted)
  {
  }

  // ----- what processing does -----

  /** Items invoked one after another, of which exactly the last started a load if one did. */
  predicate Processed(effect: nat -> Effect, items: seq<nat>, startedLoad: bool) {
    && (startedLoad ==> items != [])
    && (forall k | 0 <= k < |items| :: effect(items[k]).startsLoad == (startedLoad && k == |items| - 1))
  }

  /** What the items queue, in the order in which they run. */
  function QueuedBy(effect: nat -> Effect, items: seq<nat>): seq<nat> {
    if items == [] then []
    else QueuedBy(effect, items[..|items| - 1]) + effect(items[|items| - 1]).queues
  }

  /** The accepted items once more items have run: a frozen queue accepts none. */
  function AcceptedAfter(accepted: seq<nat>, frozen: bool, effect: nat -> Effect, items: seq<nat>): seq<nat> {
    accepted + if frozen then [] else QueuedBy(effect, items)
  }

  lemma AcceptedExtends(accepted: seq<nat>, frozen: bool, effect: nat -> Effect, items: seq<nat>, item: nat)
    ensures AcceptedAfter(accepted, frozen, effect, items + [item])
            == AcceptedAfter(accepted, frozen, effect, items) + if frozen then [] else effect(item).queues
  {
    assert (items + [item])[..|items|] == items;
  }

  lemma ProcessedExtends(effect: nat -> Effect, items: seq<nat>, item: nat)
    requires Processed(effect, items, false)
    ensures Processed(effect, items + [item], effect(item).startsLoad)
  {
  }

  class WorkQueue {
    var theQueue: array<nat>
    var startOfQueue: nat
    var endOfQueue: nat
    var frozen: bool

    // The items waiting, and the one being invoked; those accepted and invoked since the last clear;
    // all items handed over, and deleted.
    ghost var pending: seq<nat>
    ghost var running: seq<nat>
    ghost var accepted: seq<nat>
    ghost var invoked: seq<nat>
    ghost var offered: seq<nat>
    ghost var deleted: seq<nat>

    /** The items invoked are the first of the items accepted, and the rest wait in order. */
    ghost predicate Valid()
      reads this, theQueue
    {
      && InArray()
      && accepted == invoked + pending && |invoked| == startOfQueue
      && Balanced(offered, deleted, running, pending)
    }

    /** The waiting items stand in the array between the two indices. */
    ghost predicate InArray()
      reads this, theQueue
    {
      && theQueue.Length == QUEUE_LENGTH && startOfQueue <= endOfQueue <= QUEUE_LENGTH
      && |pending| == endOfQueue - startOfQueue
      && (forall k | 0 <= k < |pending| :: pending[k] == theQueue[startOfQueue + k])
    }

    constructor ()
      ensures Valid() && fresh(theQueue) && !frozen && accepted == [] && offered == [] && running == []
      ensures theQueue.Length == 1024
    {
      theQueue := new nat[QUEUE_LENGTH](_ => 0);
      startOfQueue, endOfQueue, frozen := 0, 0, false;
      pending, running, accepted, invoked, offered, deleted := [], [], [], [], [], [];
    }

    method SetFrozen(b: bool)
      requires Valid()
      modifies this`frozen
      ensures Valid() && frozen == b
    {
      frozen := b;
    }

    method Store(item: nat)
      requires InArray() && endOfQueue < QUEUE_LENGTH
      modifies this`endOfQueue, this`pending, theQueue
      ensures InArray() && pending == old(pending) + [item] && endOfQueue == old(endOfQueue) + 1
    {
      theQueue[endOfQueue] := item;
      endOfQueue := endOfQueue + 1;
      pending := pending + [item];
    }

    method Queue(item: nat)
      requires Valid() && endOfQueue < QUEUE_LENGTH
      modifies this`endOfQueue, this`pending, this`accepted, this`offered, this`deleted, theQueue
      ensures Valid() && offered == old(offered) + [item]
      ensures frozen ==> accepted == old(accepted) && pending == old(pending) && deleted == old(deleted) + [item]
      ensures !frozen ==>
                accepted == old(accepted) + [item] && pending == old(pending) + [item] && deleted == old(deleted)
    {
      OfferKeepsBalance(offered, deleted, running, pending, item);
      offered := offered + [item];
      if frozen {
        deleted := deleted + [item];
        return;
      }
      Store(item);
      accepted := accepted + [item];
    }

    /** Take the first waiting item, if there is one; the caller is to invoke and delete it. */
    method Dequeue() returns (item: nat, found: bool)
      requires InArray()
      modifies this`startOfQueue, this`pending
      ensures InArray() && found == (old(pending) != [])
      ensures !found ==> startOfQueue == old(startOfQueue) && pending == []
      ensures found ==> startOfQueue == old(startOfQueue) + 1 && old(pending) == [item] + pending
    {
      if startOfQueue == endOfQueue { return 0, false; }
      item, found := theQueue[startOfQueue], true;
      startOfQueue := startOfQueue + 1;
      pending := pending[1..];
    }

    function Count(): (n: nat)
      reads this, theQueue
      requires InArray()
      ensures n == |pending|
    {
      endOfQueue - startOfQueue
    }

    method DeletePending()
      requires InArray()
      modifies this`deleted, theQueue
      ensures deleted == old(deleted) + pending
    {
      for i := startOfQueue to endOfQueue
        invariant forall k | i <= k < endOfQueue :: theQueue[k] == old(theQueue[k])
        invariant deleted == old(deleted) + pending[..i - startOfQueue]
      {
        assert theQueue[i] == pending[i - startOfQueue];
        deleted := deleted + [theQueue[i]];
        theQueue[i] := 0;
      }
    }

    /** Delete the waiting items and start afresh. */
    method Clear()
      requires Valid() && running == []
      modifies this`startOfQueue, this`endOfQueue, this`pending, this`accepted, this`invoked, this`deleted, theQueue
      ensures Valid() && pending == [] && accepted == [] && startOfQueue == 0
      ensures SameItems(offered, deleted)
    {
      assert [] + pending == pending && pending + [] == pending;
      MoveKeepsBalance(offered, deleted, [], pending, []);
      AllDeleted(offered, deleted + pending);
      DeletePending();
      startOfQueue, endOfQueue := 0, 0;
      pending, accepted, invoked := [], [], [];
    }

    /** Queue items one after another; `false` when the array is full. */
    method QueueItems(items: seq<nat>) returns (fits: bool)
      requires Valid()
      modifies this`endOfQueue, this`pending, this`accepted, this`offered, this`deleted, theQueue
      ensures Valid() && old(accepted) <= accepted
      ensures frozen ==> accepted == old(accepted)
      ensures fits && !frozen ==> accepted == old(accepted) + items
    {
      for i := 0 to |items|
        invariant Valid()
        invariant accepted == old(accepted) + if frozen then [] else items[..i]
      {
        if endOfQueue == QUEUE_LENGTH { return false; }
        assert items[..i + 1] == items[..i] + [items[i]];
        Queue(items[i]);
      }
      assert items[..|items|] == items;
      return true;
    }

    method TakeFirst() returns (item: nat)
      requires Valid() && pending != [] && running == []
      modifies this`startOfQueue, this`pending, this`running, this`invoked
      ensures Valid() && startOfQueue == old(startOfQueue) + 1 && running == [item]
      ensures item == accepted[|old(invoked)|] && invoked == old(invoked) + [item]
    {
      ghost var waiting := pending;
      var found;
      item, found := Dequeue();
      assert accepted == invoked + waiting == (invoked + [item]) + pending;
      MoveKeepsBalance(offered, deleted, [], [item], pending);
      assert [] + [item] == [item];
      invoked := invoked + [item];
      running := [item];
    }

    ghost method Delete()
      requires Valid()
      modifies this`running, this`deleted
      ensures Valid() && running == [] && deleted == old(deleted) + old(running)
    {
      assert [] + pending == pending && running + [] == running;
      MoveKeepsBalance(offered, deleted, running, [], pending);
      deleted, running := deleted + running, [];
    }

    /** Take the first item, invoke it, and delete it afterwards. */
    method ProcessItem(effect: nat -> Effect) returns (startedLoad: bool, fits: bool)
      requires Valid() && pending != [] && running == []
      modifies this, theQueue
      ensures Valid() && theQueue == old(theQueue) && frozen == old(frozen) && (fits ==> running == [])
      ensures startOfQueue == old(startOfQueue) + 1 && old(accepted) <= accepted
      ensures frozen ==> accepted == old(accepted)
      ensures invoked == old(invoked) + [old(accepted)[|old(invoked)|]]
      ensures startedLoad == effect(old(accepted)[|old(invoked)|]).startsLoad
      ensures fits ==>
                accepted == old(accepted) + if frozen then [] else effect(old(accepted)[|old(invoked)|]).queues
    {
      var item := TakeFirst();
      fits := QueueItems(effect(item).queues);
      startedLoad := effect(item).startsLoad;
      if fits { Delete(); }
    }

    /**
     * Process items until one starts a load or none is left. It ends although items queue more,
     * because the front of the queue moves towards the end of the array.
     */
    method ProcessWork(effect: nat -> Effect) returns (outcome: Outcome)
      requires Valid() && running == []
      modifies this, theQueue
      ensures Valid() && theQueue == old(theQueue) && frozen == old(frozen)
      ensures old(accepted) <= accepted && old(invoked) <= invoked && invoked <= accepted
      ensures frozen ==> accepted == old(accepted)
      ensures outcome.Done? ==> pending == [] && SameItems(offered, deleted)
      ensures !outcome.AssertionFailed? ==> running == []
      ensures !outcome.AssertionFailed? ==> Processed(effect, invoked[|old(invoked)|..], outcome.StartedLoad?)
      ensures !outcome.AssertionFailed? ==>
                accepted == AcceptedAfter(old(accepted), frozen, effect, invoked[|old(invoked)|..])
    {
      var startedLoad := false;
      ghost var done: seq<nat> := [];
      while !startedLoad && Count() > 0
        invariant Valid() && theQueue == old(theQueue) && frozen == old(frozen) && running == []
        invariant invoked == old(invoked) + done && Processed(effect, done, startedLoad)
        invariant accepted == AcceptedAfter(old(accepted), frozen, effect, done)
        decreases QUEUE_LENGTH - startOfQueue
      {
        var fits: bool;
        ghost var item := accepted[|invoked|];
        startedLoad, fits := ProcessItem(effect);
        AcceptedExtends(old(accepted), frozen, effect, done, item);
        ProcessedExtends(effect, done, item);
        done := done + [item];
        if !fits { return AssertionFailed; }
      }
      if startedLoad { return StartedLoad; }
      AllDeleted(offered, deleted);
      return Done;
    }
  }
}
