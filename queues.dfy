/**
 * The FIFO queue of train ids of passenger_density/main/data.py: a singly
 * linked list of TrainNode objects with `head`, `tail` and a `size` counter.
 *
 * The ghost sequence `nodes` lists the nodes from head to tail; `Contents` is
 * the train ids they hold, in queue order.
 */
module Queues {
  import opened Wrappers

  /** One link of the list: a train id and the next node, if any. */
  class TrainNode {
    var trainId: int
    var next: TrainNode?

    /** `TrainNode(train_id, next)`; `push` passes no successor (null). */
    constructor (trainId: int, next: TrainNode?)
      ensures this.trainId == trainId && this.next == next
    {
      this.trainId := trainId;
      this.next := next;
    }
  }

  class Queue {
    var head: TrainNode?
    var tail: TrainNode?
    var size: int

    ghost var nodes: seq<TrainNode>
    ghost var Contents: seq<int>
    ghost var Repr: set<object>

    /**
     * The list starting at `head` runs through `nodes` in order and ends at
     * `tail`, whose `next` is null; so `size` is the number of nodes reachable
     * from `head`, and `head` is null exactly when the queue is empty.
     */
    ghost predicate Valid()
      reads this, Repr
    {
      && this in Repr
      && |nodes| == |Contents| == size
      && (forall i :: 0 <= i < |nodes| ==> nodes[i] in Repr && nodes[i].trainId == Contents[i])
      && (forall i, j :: 0 <= i < j < |nodes| ==> nodes[i] != nodes[j])
      && (forall i, j :: 0 <= i < |nodes| && j == i + 1 < |nodes| ==> nodes[i].next == nodes[j])
      && (nodes == [] ==> head == null && tail == null)
      && (nodes != [] ==> head == nodes[0] && tail == nodes[|nodes| - 1] && tail.next == null)
    }

    constructor ()
      ensures Valid() && fresh(Repr)
      ensures Contents == []
    {
      head := null;
      tail := null;
      size := 0;
      nodes := [];
      Contents := [];
      Repr := {this};
    }

    /** `is_empty`: decided by the size counter. */
    function IsEmpty(): (empty: bool)
      reads this, Repr
      requires Valid()
      ensures empty <==> Contents == []
    {
      size == 0
    }

    /** `get_size`. */
    function GetSize(): (n: int)
      reads this, Repr
      requires Valid()
      ensures n == |Contents|
    {
      size
    }

    /** The three ways of telling an empty queue agree. */
    lemma EmptyIffNoHead()
      requires Valid()
      ensures size == 0 <==> Contents == []
      ensures head == null <==> Contents == []
      ensures tail == null <==> Contents == []
    {
    }

    /** `push`: link a new node after the tail (or make it the head of an empty queue). */
    method Push(trainId: int)
      requires Valid()
      modifies Repr
      ensures Valid() && fresh(Repr - old(Repr))
      ensures Contents == old(Contents) + [trainId]
      ensures size == old(size) + 1
    {
      var node := new TrainNode(trainId, null);
      if tail == null {
        head := node;
        tail := node;
      } else {
        tail.next := node;
        tail := node;
      }
      size := size + 1;
      nodes := nodes + [node];
      Contents := Contents + [trainId];
      Repr := Repr + {node};
    }

    /**
     * `pop`: None on an empty queue, which is left as it was; otherwise the
     * head's id, with the head moved to the next node and the tail cleared when
     * the queue becomes empty.
     */
    method Pop() returns (trainId: Option<int>)
      requires Valid()
      modifies this
      ensures Valid() && Repr == old(Repr)
      ensures old(Contents) == [] ==> trainId == None && unchanged(this)
      ensures old(Contents) != [] ==>
        && trainId == Some(old(Contents)[0])
        && Contents == old(Contents)[1..]
        && size == old(size) - 1
        && (Contents == [] ==> tail == null)
    {
      if IsEmpty() {
        return None;
      }
      trainId := Some(head.trainId);
      head := head.next;
      if head == null {
        tail := null;
      }
      size := size - 1;
      nodes := nodes[1..];
      Contents := Contents[1..];
    }

    /** `get_all_items`: walk the list from the head, collecting the ids. */
    method GetAllItems() returns (items: seq<int>)
      requires Valid()
      ensures items == Contents
    {
      items := [];
      var current := head;
      ghost var k := 0;
      while current != null
        invariant 0 <= k <= |nodes|
        invariant current == if k < |nodes| then nodes[k] else null
        invariant items == Contents[..k]
        decreases |nodes| - k
      {
        items := items + [current.trainId];
        current := current.next;
        k := k + 1;
      }
    }
  }

  /** Pushes the ids, in order, into a new queue. */
  method FillQueue(ids: seq<int>) returns (q: Queue)
    ensures q.Valid() && fresh(q.Repr)
    ensures q.Contents == ids
  {
    q := new Queue();
    for i := 0 to |ids|
      invariant q.Valid() && fresh(q.Repr)
      invariant q.Contents == ids[..i]
    {
      q.Push(ids[i]);
    }
  }

  /** Moving the first remaining id to the end of the popped ids keeps their concatenation. */
  lemma MoveHead(popped: seq<int>, rest: seq<int>)
    requires rest != []
    ensures (popped + [rest[0]]) + rest[1..] == popped + rest
  {
    assert rest == [rest[0]] + rest[1..];
    assert (popped + [rest[0]]) + rest[1..] == popped + ([rest[0]] + rest[1..]);
  }

  /** Pops until the queue reports empty, then pops once more. */
  method Drain(q: Queue) returns (popped: seq<int>, last: Option<int>)
    requires q.Valid()
    modifies q
    ensures popped == old(q.Contents) && last == None
  {
    ghost var initial := q.Contents;
    popped := [];
    var empty := q.IsEmpty();
    while !empty
      invariant q.Valid()
      invariant popped + q.Contents == initial
      invariant empty <==> q.Contents == []
      decreases |q.Contents|
    {
      ghost var before := q.Contents;
      var x := q.Pop();
      assert x == Some(before[0]) && q.Contents == before[1..];
      MoveHead(popped, before);
      popped := popped + [x.value];
      empty := q.IsEmpty();
    }
    last := q.Pop();
  }

  /**
   * The FIFO law: pushing `ids` into a new queue and popping until it reports
   * empty yields `ids` in order, and the pop on the empty queue gives None.
   */
  method PushAllThenPopAll(ids: seq<int>) returns (popped: seq<int>, last: Option<int>)
    ensures popped == ids
    ensures last == None
  {
    var q := FillQueue(ids);
    popped, last := Drain(q);
  }
}
