/**
  The byte-bounded queue as the code keeps it: a singly linked list edited in place, with a tail
  pointer and running counts (stream_server/src/compressed_recorder.c, 861-875 and 1075-1111).
  Each method is the body of one critical section and makes the step of `QueueProtocol`.
 */
module EventQueue {
  import opened Bytes
  import opened SegmentSpec
  import opened QueueProtocol

  class EventNode {
    const item: Item
    var next: EventNode?

    constructor (item: Item)
      ensures this.item == item && next == null
    {
      this.item := item;
      next := null;
    }
  }

  class EventList {
    const limit: nat
    var head: EventNode?
    var tail: EventNode?
    var queuedBytes: nat
    var queuedEvents: nat
    var droppedPackets: nat
    var droppedBytes: nat
    var accepting: bool
    var running: bool

    ghost var nodes: seq<EventNode>

    /** `head` leads through all nodes in order, `tail` is the last, and the counts are right. */
    ghost predicate Valid()
      reads this, nodes
    {
      && (forall i, j :: 0 <= i < j < |nodes| ==> nodes[i] != nodes[j])
      && (forall i {:trigger nodes[i].next} :: 0 <= i < |nodes| - 1 ==> nodes[i].next == nodes[i + 1])
      && (nodes == [] ==> head == null && tail == null)
      && (nodes != [] ==> head == nodes[0] && tail == nodes[|nodes| - 1] && nodes[|nodes| - 1].next == null)
      && queuedEvents == |nodes|
      && queuedBytes == TotalSize(Items(nodes))
    }

    static ghost function Items(nodes: seq<EventNode>): seq<Item> {
      seq(|nodes|, i requires 0 <= i < |nodes| => nodes[i].item)
    }

    ghost function View(): Queue
      reads this
    {
      Queue(Items(nodes), accepting, running, droppedPackets, droppedBytes)
    }

    constructor (limit: nat)
      ensures Valid() && View() == START.q && this.limit == limit
    {
      this.limit := limit;
      head, tail := null, null;
      queuedBytes, queuedEvents, droppedPackets, droppedBytes := 0, 0, 0, 0;
      accepting, running := true, true;
      nodes := [];
    }

    /** `enqueue_event` under the lock. */
    method Enqueue(node: EventNode) returns (verdict: Verdict)
      requires Valid() && node !in nodes
      modifies this, node, nodes
      ensures Valid()
      ensures verdict == Judge(old(View()), limit, node.item)
      ensures View() == Enqueued(old(View()), limit, node.item)
      ensures nodes == if verdict == Accepted then old(nodes) + [node] else old(nodes)
    {
      if !accepting {
        return Refused;
      }
      var len := if node.item.ev.Video? then |node.item.ev.data| else 0;
      if node.item.ev.Video? && queuedBytes + len > limit {
        droppedPackets := droppedPackets + 1;
        droppedBytes := droppedBytes + len;
        return Dropped;
      }
      Link(node);
      return Accepted;
    }

    /** Hangs the node behind the tail. */
    method Link(node: EventNode)
      requires Valid() && node !in nodes
      modifies this`head, this`tail, this`queuedEvents, this`queuedBytes, this`nodes, node, nodes
      ensures Valid() && nodes == old(nodes) + [node]
      ensures Items(nodes) == old(Items(nodes)) + [node.item]
    {
      hide TotalSize;
      TotalSizeSnoc(Items(nodes), node.item);
      node.next := null;
      if tail != null {
        tail.next := node;
      } else {
        head := node;
      }
      tail := node;
      queuedEvents := queuedEvents + 1;
      if node.item.ev.Video? {
        queuedBytes := queuedBytes + |node.item.ev.data|;
      }
      nodes := nodes + [node];
      assert Items(nodes) == old(Items(nodes)) + [node.item];
    }

    /** The writer's critical section, for a queue that is not empty. */
    method Dequeue() returns (item: Item)
      requires Valid() && head != null
      modifies this
      ensures Valid()
      ensures old(View()).items != [] && item == old(View()).items[0]
      ensures View() == old(View()).(items := old(View()).items[1..])
    {
      var node := head;
      assert Items(nodes)[1..] == Items(nodes[1..]);
      assert Items(nodes)[0] == node.item;
      head := node.next;
      if head == null {
        tail := null;
      }
      queuedEvents := queuedEvents - 1;
      if node.item.ev.Video? {
        queuedBytes := queuedBytes - |node.item.ev.data|;
      }
      nodes := nodes[1..];
      item := node.item;
    }

    /** The writer's turn as a whole: an event, the end, or waiting for a signal. */
    method TakeTurn() returns (writer: Writer)
      requires Valid()
      modifies this
      ensures Valid()
      ensures forall s: System :: s.q == old(View()) && s.writer.Idle? ==>
                Next(s, limit, Turn).q == View() && Next(s, limit, Turn).writer == writer
    {
      if head != null {
        var item := Dequeue();
        return Busy(item);
      }
      return if running then Idle else Done;
    }

    method Stop()
      requires Valid()
      modifies this`accepting, this`running
      ensures Valid() && View() == old(View()).(accepting := false, running := false)
    {
      accepting := false;
      running := false;
    }
  }
}
