/** The linked queue under the bounded queue (tamplon/lab25/thread_safe_queue.c): pushing at the tail and popping
    at the head refine a sequence, although `pop` leaves `tail` pointing at a freed node when it empties the list. */
module LinkedQueue {
  type Message = string

  /** What an operation does to the messages of a queue, in order from the head. */
  function Pushed(s: seq<Message>, elem: Message): seq<Message> {
    s + [elem]
  }

  /** `Nothing` is the NULL that an empty queue answers with. */
  datatype PopAnswer = Nothing | Just(value: Message)

  function PopResult(s: seq<Message>): PopAnswer {
    if s == [] then Nothing else Just(s[0])
  }

  function PopRest(s: seq<Message>): seq<Message> {
    if s == [] then [] else s[1..]
  }

  class Node {
    var next: Node?
    var value: Message

    constructor (value: Message)
      ensures this.value == value && next == null
    {
      this.value, next := value, null;
    }
  }

  class Queue {
    var head: Node?
    var tail: Node?
    /** The nodes from head to tail. */
    ghost var nodes: seq<Node>

    ghost function NodeAt(i: nat): Node?
      reads this
    {
      if i < |nodes| then nodes[i] else null
    }

    /** Nothing is said about `tail` while the queue is empty. */
    ghost predicate Valid()
      reads this, nodes
    {
      && (if nodes == [] then head == null else head == nodes[0] && tail == nodes[|nodes| - 1])
      && (forall i {:trigger nodes[i].next} :: 0 <= i < |nodes| ==> nodes[i].next == NodeAt(i + 1))
      && (forall i, j :: 0 <= i < j < |nodes| ==> nodes[i] != nodes[j])
    }

    ghost function Contents(): (s: seq<Message>)
      reads this, nodes
      ensures |s| == |nodes|
    {
      seq(|nodes|, i requires 0 <= i < |nodes| reads this, nodes => nodes[i].value)
    }

    constructor ()
      ensures Valid() && Contents() == []
    {
      head, tail, nodes := null, null, [];
    }

    method Push(elem: Message)
      requires Valid()
      modifies this, nodes
      ensures Valid() && fresh(set n | n in nodes && n !in old(nodes))
      ensures Contents() == Pushed(old(Contents()), elem)
    {
      var element := new Node(elem);
      if head == null {
        head := element;
        tail := element;
      } else {
        var oldTail := tail;
        oldTail.next := element;
        tail := element;
      }
      nodes := nodes + [element];
    }

    method Pop() returns (r: PopAnswer)
      requires Valid()
      modifies this
      ensures Valid() && nodes == (if old(nodes) == [] then [] else old(nodes)[1..])
      ensures r == PopResult(old(Contents())) && Contents() == PopRest(old(Contents()))
    {
      var first := head;
      if first == null {
        return Nothing;
      }
      assert nodes[0].next == NodeAt(1);
      head := first.next;
      r := Just(first.value);
      nodes := nodes[1..];
      assert forall i :: 0 <= i < |nodes| ==> nodes[i] == old(nodes)[i + 1];
      assert Contents() == old(Contents())[1..];
    }
  }
}
