/**
  The append-only singly linked list of discovered entries (`PartitionList`
  with its `head` and `tail` pointers). The ghost sequence `Nodes` lists the
  nodes from head to tail, and `Contents` lists the entries they hold; `Valid()`
  ties both to the real `head`, `tail` and `next` fields.
 */
module Lists {
  import opened Layout

  class Node {
    var entry: PartitionEntry
    var next: Node?

    constructor (entry: PartitionEntry)
      ensures this.entry == entry && next == null
    {
      this.entry := entry;
      next := null;
    }
  }

  class PartitionList {
    var head: Node?
    var tail: Node?

    ghost var Nodes: seq<Node>
    ghost var Contents: seq<PartitionEntry>
    ghost var Repr: set<object>

    ghost predicate Valid()
      reads this, Repr
    {
      && this in Repr
      && (forall k :: 0 <= k < |Nodes| ==> Nodes[k] in Repr)
      && |Contents| == |Nodes|
      && (Nodes == [] ==> head == null && tail == null)
      && (Nodes != [] ==> head == Nodes[0] && tail == Nodes[|Nodes| - 1] && tail.next == null)
      && (forall k :: 0 <= k < |Nodes| - 1 ==> Nodes[k].next == Nodes[k + 1])
      && (forall k :: 0 <= k < |Nodes| ==> Nodes[k].entry == Contents[k])
      && (forall j, k :: 0 <= j < k < |Nodes| ==> Nodes[j] != Nodes[k])
    }

    /** The storage of `PartitionList list;` in `main`; `Init` gives it its contents. */
    constructor ()
    {
    }

    /** `init_partition_list`: both pointers null, so the list is empty. */
    method Init()
      modifies this
      ensures Valid() && Repr == {this}
      ensures head == null && tail == null && Contents == []
    {
      head := null;
      tail := null;
      Nodes := [];
      Contents := [];
      Repr := {this};
    }

    /**
      `append_partition`: a fresh node holding `e` is linked after the tail and
      becomes the new tail; the head moves only when the list was empty.
     */
    method Append(e: PartitionEntry)
      requires Valid()
      modifies Repr
      ensures Valid() && fresh(Repr - old(Repr))
      ensures Contents == old(Contents) + [e]
      ensures tail != null && fresh(tail) && tail.entry == e && tail.next == null
      ensures old(head) != null ==> head == old(head)
      ensures old(head) == null ==> head == tail
    {
      var node := new Node(e);
      if tail != null {
        tail.next := node;
      } else {
        head := node;
      }
      tail := node;
      Nodes := Nodes + [node];
      Contents := Contents + [e];
      Repr := Repr + {node};
    }

    /**
      `free_partition_list`: visits the nodes from head to tail (the C code
      frees each one), then clears both pointers, leaving the list empty.
     */
    method Free()
      requires Valid()
      modifies this
      ensures Valid() && Repr == {this}
      ensures head == null && tail == null && Contents == []
    {
      var current := head;
      ghost var visited := 0;
      while current != null
        invariant 0 <= visited <= |Nodes|
        invariant current == if visited < |Nodes| then Nodes[visited] else null
        decreases |Nodes| - visited
      {
        current := current.next;
        visited := visited + 1;
      }
      head := null;
      tail := null;
      Nodes := [];
      Contents := [];
      Repr := {this};
    }
  }
}
