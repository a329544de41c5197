// The message queue between the RPC thread and its consumers (queue.c).
module MessageQueue {

  // ---- The linked list behind head and tail ----

  class Node<T> {
    var ptr: Node?<T>
    var data: T

    constructor (data: T)
      ensures this.data == data && ptr == null
    {
      this.data := data;
      ptr := null;
    }
  }

  class Llq<T> {
    var head: Node?<T>
    var tail: Node?<T>
    var temp: Node?<T>
    ghost var nodes: seq<Node<T>>

    ghost predicate Valid()
      reads this, nodes
    {
      (forall i, j :: 0 <= i < j < |nodes| ==> nodes[i] != nodes[j]) &&
      (forall i {:trigger nodes[i].ptr} :: 0 <= i < |nodes| ==>
        nodes[i].ptr == if i + 1 < |nodes| then nodes[i + 1] else null) &&
      (if nodes == [] then head == null && tail == null else head == nodes[0] && tail == nodes[|nodes| - 1])
    }

    ghost function Contents(): (s: seq<T>)
      reads this, nodes
      ensures |s| == |nodes| && forall i :: 0 <= i < |s| ==> s[i] == nodes[i].data
    { var ns := nodes; seq(|ns|, i requires 0 <= i < |ns| reads (if 0 <= i < |ns| then {ns[i]} else {}) => ns[i].data) }

    // llq_open
    constructor ()
      ensures Valid() && Contents() == []
    {
      head, tail, temp, nodes := null, null, null, [];
    }

    method AddToHead(data: T)
      requires Valid()
      modifies this
      ensures Valid() && Contents() == [data] + old(Contents())
    {
      if head == null {
        head := new Node(data);
        tail := head;
        nodes := [head];
      } else {
        temp := new Node(data);
        temp.ptr := head;
        head := temp;
        nodes := [temp] + nodes;
      }
    }

    method AddToTail(data: T)
      requires Valid()
      modifies this, tail
      ensures Valid() && Contents() == old(Contents()) + [data]
    {
      if tail == null {
        tail := new Node(data);
        head := tail;
        nodes := [tail];
      } else {
        temp := new Node(data);
        tail.ptr := temp;
        tail := temp;
        nodes := nodes + [temp];
      }
    }

    // The critical section of llq_timedreceive.
    method TakeHead() returns (data: T)
      requires Valid() && head != null
      modifies this
      ensures Valid() && old(Contents()) == [data] + Contents()
    {
      assert nodes[0].ptr == head.ptr;
      temp := head.ptr;
      data := head.data;
      if temp != null {
        head := temp;
      } else {
        head := null;
        tail := null;
      }
      nodes := nodes[1..];
    }
  }
}
