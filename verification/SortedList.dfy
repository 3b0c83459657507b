/** `compare_str` and the in-place bubble sort of a linked list (arkhipov/17/LineListNode.h). */
module SortedList {
  import opened Texts

  /** A `char*`: which string it is, and what it reads. */
  datatype Line = Line(id: nat, text: Text)

  method CompareStr(first: Text, second: Text) returns (r: int)
    ensures r == if Less(first, second) then 1 else if Less(second, first) then -1 else 0
    ensures r == 0 <==> first == second
  {
    Trichotomy(first, second);
    var shorter := |first|;
    if shorter > |second| {
      shorter := |second|;
    }
    var i := 0;
    while i < shorter
      invariant 0 <= i <= shorter
      invariant first[..i] == second[..i]
      invariant Less(first, second) == Less(first[i..], second[i..])
      invariant Less(second, first) == Less(second[i..], first[i..])
    {
      if first[i] < second[i] {
        return 1;
      }
      if second[i] < first[i] {
        return -1;
      }
      assert first[i..][1..] == first[i + 1..] && second[i..][1..] == second[i + 1..];
      i := i + 1;
    }
    if |first| < |second| {
      return 1;
    }
    if |second| < |first| {
      return -1;
    }
    assert first == first[..i] && second == second[..i];
    return 0;
  }

  /** The texts of some lines. */
  function TextsOf(v: seq<Line>): (t: seq<Text>)
    ensures |t| == |v|
  {
    seq(|v|, i requires 0 <= i < |v| => v[i].text)
  }

  /** The lines that read `x`, in order. */
  function Reading(v: seq<Line>, x: Text): seq<Line> {
    if v == [] then [] else (if v[0].text == x then [v[0]] else []) + Reading(v[1..], x)
  }

  /** `w` holds the lines of `v`, those that read the same still in the same order. */
  ghost predicate StablePermutation(v: seq<Line>, w: seq<Line>) {
    forall x :: Reading(w, x) == Reading(v, x)
  }

  lemma {:induction false} SwapReading(v: seq<Line>, i: nat, x: Text)
    requires i + 1 < |v| && v[i].text != v[i + 1].text
    ensures Reading(Swap(v, i), x) == Reading(v, x)
  {
    var w := Swap(v, i);
    if i == 0 {
      assert w[1..][1..] == v[1..][1..];
    } else {
      assert w[1..] == Swap(v[1..], i - 1);
      SwapReading(v[1..], i - 1, x);
    }
  }

  lemma SwapIsStable(v0: seq<Line>, v: seq<Line>, i: nat)
    requires i + 1 < |v| && v[i].text != v[i + 1].text && StablePermutation(v0, v)
    ensures StablePermutation(v0, Swap(v, i))
  {
    forall x
      ensures Reading(Swap(v, i), x) == Reading(v0, x)
    {
      SwapReading(v, i, x);
    }
  }

  lemma {:induction false} ReadingCounts(v: seq<Line>, l: Line)
    ensures multiset(Reading(v, l.text))[l] == multiset(v)[l]
  {
    if v != [] {
      ReadingCounts(v[1..], l);
      assert v == [v[0]] + v[1..];
    }
  }

  /** A stable permutation is a permutation. */
  lemma StableIsPermutation(v: seq<Line>, w: seq<Line>)
    requires StablePermutation(v, w)
    ensures multiset(v) == multiset(w)
  {
    forall l: Line
      ensures multiset(v)[l] == multiset(w)[l]
    {
      ReadingCounts(v, l);
      ReadingCounts(w, l);
    }
  }

  lemma {:induction false} ReadingFinds(v: seq<Line>, x: Text) returns (k: nat)
    requires Reading(v, x) != []
    ensures k < |v| && v[k].text == x
  {
    if v[0].text == x {
      k := 0;
    } else {
      k := ReadingFinds(v[1..], x);
      k := k + 1;
    }
  }

  lemma LeastIsFirst(v: seq<Line>, w: seq<Line>)
    requires v != [] && Sorted(TextsOf(w)) && StablePermutation(v, w)
    ensures w != [] && !Less(v[0].text, w[0].text)
  {
    var k := ReadingFinds(w, v[0].text);
    Irreflexive(v[0].text);
    assert k > 0 ==> !Less(TextsOf(w)[k], TextsOf(w)[0]);
  }

  /** There is only one stable sort of some lines, so sorting stably says everything about the result. */
  lemma {:induction false} StableSortIsUnique(v: seq<Line>, w: seq<Line>)
    requires Sorted(TextsOf(v)) && Sorted(TextsOf(w)) && StablePermutation(v, w)
    ensures v == w
    decreases |v| + |w|
  {
    if v != [] {
      LeastIsFirst(v, w);
    }
    if w != [] {
      LeastIsFirst(w, v);
      Trichotomy(v[0].text, w[0].text);
      var x := v[0].text;
      assert Reading(v, x)[0] == v[0] && Reading(w, x)[0] == w[0];
      forall y
        ensures Reading(w[1..], y) == Reading(v[1..], y)
      {
        assert Reading(v, y) == Reading(w, y);
        assert y != x ==> Reading(v[1..], y) == Reading(v, y) && Reading(w[1..], y) == Reading(w, y);
        assert y == x ==> Reading(v[1..], y) == Reading(v, y)[1..] && Reading(w[1..], y) == Reading(w, y)[1..];
      }
      forall i, j | 0 <= i < j < |v| - 1
        ensures !Less(TextsOf(v[1..])[j], TextsOf(v[1..])[i])
      {
        assert !Less(TextsOf(v)[j + 1], TextsOf(v)[i + 1]);
      }
      forall i, j | 0 <= i < j < |w| - 1
        ensures !Less(TextsOf(w[1..])[j], TextsOf(w[1..])[i])
      {
        assert !Less(TextsOf(w)[j + 1], TextsOf(w)[i + 1]);
      }
      StableSortIsUnique(v[1..], w[1..]);
      assert v == [v[0]] + v[1..] && w == [w[0]] + w[1..];
    }
  }

  class Node {
    var value: Line
    var next: Node?
  }

  /** Named so that it is looked at only where a proof says so. */
  predicate Apart(nodes: seq<Node>, i: int, j: int) {
    0 <= i < j < |nodes| ==> nodes[i] != nodes[j]
  }

  /** `nodes` are the nodes of the list that starts at `node`, in order. */
  ghost predicate IsList(node: Node?, nodes: seq<Node>)
    reads nodes
  {
    && node == (if nodes == [] then null else nodes[0])
    && (forall i {:trigger nodes[i].next} :: 0 <= i < |nodes| ==>
          nodes[i].next == if i + 1 < |nodes| then nodes[i + 1] else null)
    && (forall i, j :: Apart(nodes, i, j))
  }

  ghost function Values(nodes: seq<Node>): (v: seq<Line>)
    reads nodes
    ensures |v| == |nodes|
  {
    seq(|nodes|, i requires 0 <= i < |nodes| reads nodes => nodes[i].value)
  }

  method SwapWithNext(node: Node?, ghost nodes: seq<Node>, ghost i: nat)
    requires node != null ==> i < |nodes| && node == nodes[i] && IsList(nodes[0], nodes)
    modifies nodes`value
    ensures node != null ==> IsList(nodes[0], nodes)
    ensures Values(nodes) ==
            if node != null && i + 1 < |nodes| then Swap(old(Values(nodes)), i) else old(Values(nodes))
  {
    if node == null { return; }
    var next := node.next;
    if next == null { return; }
    assert next == nodes[i + 1];
    forall j | 0 <= j < |nodes|
      ensures (j != i ==> nodes[j] != node) && (j != i + 1 ==> nodes[j] != next)
    {
      assert Apart(nodes, i, j) && Apart(nodes, j, i) && Apart(nodes, i + 1, j) && Apart(nodes, j, i + 1);
    }
    var tmp := next.value;
    next.value := node.value;
    node.value := tmp;
  }

  /** How far the sort has come: the lines from `e` on are in their final places, and of those before it that the
      running pass has met the greatest is at `c`. */
  ghost predicate Progress(v: seq<Line>, c: nat, e: nat) {
    && c < e <= |v|
    && (forall k :: 0 <= k < c ==> !Less(v[c].text, v[k].text))
    && Settled(v, e)
  }

  ghost predicate Settled(v: seq<Line>, e: nat) {
    forall k, l :: 0 <= k < l < |v| && e <= l ==> !Less(v[l].text, v[k].text)
  }

  /** One comparison of the pass, after which the greatest line met is one place further. */
  function Bubble(v: seq<Line>, c: nat): (w: seq<Line>)
    requires c + 1 < |v|
    ensures |w| == |v|
  {
    if Less(v[c + 1].text, v[c].text) then Swap(v, c) else v
  }

  lemma BubbleProgress(v: seq<Line>, c: nat, e: nat)
    requires Progress(v, c, e) && c + 1 < e
    ensures Progress(Bubble(v, c), c + 1, e)
  {
    var w := Bubble(v, c);
    Trichotomy(v[c].text, v[c + 1].text);
    Irreflexive(v[c].text);
    forall k | 0 <= k < c + 1
      ensures !Less(w[c + 1].text, w[k].text)
    {
      if k < c {
        Transitive(v[k].text, v[c].text, w[c + 1].text);
      }
    }
  }

  lemma PassSettles(v: seq<Line>, c: nat)
    requires Progress(v, c, c + 1)
    ensures Settled(v, c)
  {
  }

  lemma StableTransitive(u: seq<Line>, v: seq<Line>, w: seq<Line>)
    requires StablePermutation(u, v) && StablePermutation(v, w)
    ensures StablePermutation(u, w)
  {
    forall x
      ensures Reading(w, x) == Reading(u, x)
    {
      assert Reading(v, x) == Reading(u, x);
    }
  }

  /** Swaps the line at the cursor with the next if it is the greater of the two. */
  method BubbleNext(cursor: Node, ghost nodes: seq<Node>, ghost c: nat, ghost e: nat)
    requires c + 1 < e <= |nodes| && cursor == nodes[c] && IsList(nodes[0], nodes) && Progress(Values(nodes), c, e)
    modifies nodes`value
    ensures IsList(nodes[0], nodes)
    ensures StablePermutation(old(Values(nodes)), Values(nodes)) && Progress(Values(nodes), c + 1, e)
  {
    ghost var v := Values(nodes);
    assert cursor.next == nodes[c + 1];
    Trichotomy(v[c].text, v[c + 1].text);
    BubbleProgress(v, c, e);
    var r := CompareStr(cursor.value.text, cursor.next.value.text);
    if r == -1 {
      SwapWithNext(cursor, nodes, c);
      SwapIsStable(v, v, c);
    }
    assert Values(nodes) == Bubble(v, c);
  }

  /** The list is sorted in place: the nodes and their links stay, the lines are sorted stably. */
  method SortList(node: Node?, ghost nodes: seq<Node>)
    requires IsList(node, nodes)
    modifies nodes`value
    ensures IsList(node, nodes)
    ensures StablePermutation(old(Values(nodes)), Values(nodes))
    ensures Sorted(TextsOf(Values(nodes)))
  {
    if node == null {
      return;
    }
    var end: Node? := null;
    ghost var v0, e := Values(nodes), |nodes|;
    while end != node
      invariant IsList(node, nodes)
      invariant 0 <= e <= |nodes| && end == (if e < |nodes| then nodes[e] else null)
      invariant StablePermutation(v0, Values(nodes)) && Settled(Values(nodes), e)
      decreases e
    {
      var cursor := node;
      ghost var c := 0;
      while cursor.next != end
        invariant IsList(node, nodes) && 0 <= c < e && cursor == nodes[c]
        invariant StablePermutation(v0, Values(nodes)) && Progress(Values(nodes), c, e)
        decreases e - c
      {
        ghost var v := Values(nodes);
        BubbleNext(cursor, nodes, c, e);
        StableTransitive(v0, v, Values(nodes));
        cursor := cursor.next;
        c := c + 1;
      }
      assert Apart(nodes, c + 1, e);
      PassSettles(Values(nodes), c);
      end := cursor;
      e := c;
    }
    assert e == 0 by { assert Apart(nodes, 0, e); }
    SettledIsSorted(Values(nodes));
  }

  lemma SettledIsSorted(v: seq<Line>)
    requires Settled(v, 0)
    ensures Sorted(TextsOf(v))
  {
  }
}
