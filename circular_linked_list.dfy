/**
 * Lists::CircularLinkedList: a ring linked both ways, without an end. insert and insert_after
 * make the new node with :circle_after and insert_before with :circle_before; when the new node
 * becomes the head or the tail, the list closes the ring through it. Walks from the head stop on
 * coming back to the head, and nth stops on coming back to where it started. As in
 * DoublyLinkedList, LinkNode.new rewires only the anchor's link, so a node put in between two
 * nodes is not linked from the far one; the lemmas say when the result is again a ring linked
 * both ways (Ring), and what is left of the shape when it is not. The Mended definitions are the
 * inserts as evidently meant, linking such a node from both neighbours (MendedSpliced) and
 * appending when nothing matches; the lemmas about them prove that they keep the ring.
 */
module CircularLinkedLists {
  import opened Wrappers
  import opened LinkNodes
  import opened LinkedCommons

  // ---------------------------------------------------------------------------------------------
  // Rings under LinkNode.new(value, anchor, :circle_after) and (value, anchor, :circle_before)

  /** The next links make a ring of the nodes of order, from the head round to the head again;
   *  the prev links are not looked at. What to_a, clear and find_by_value walk. */
  ghost predicate Circle(nodes: map<nat, LinkNode>, order: seq<nat>, head: Link, tail: Link)
  {
    Chain(nodes, order, HeadLink(order)) && head == HeadLink(order) && tail == EndLink(order)
  }

  /** On a ring of next links find_by_value halts, coming back to the head at the latest, and
   *  never raises: it answers the first match of order. */
  lemma CircleFindReturns(nodes: map<nat, LinkNode>, key: int -> int, order: seq<nat>, head: Link, tail: Link,
                          size: int, v: Option<int>)
    requires Circle(nodes, order, head, tail)
    ensures Trail(nodes, order, head) && Beyond(nodes, order, head) == head
    ensures FindHalts(nodes, key, order, head, size, v) && !FindRaises(nodes, key, order, head, size, v)
  {
    if order != [] {
      assert nodes[order[|order| - 1]].next == Succ(order, |order| - 1, HeadLink(order));
      assert UniqueAt(order, 0);
    }
  }

  /** Without an anchor, :circle_before and :circle_after make a ring of one node. */
  lemma RingOfOne(nodes: map<nat, LinkNode>, id: nat, v: int, st: Strategy)
    requires id !in nodes && (st == CircleBefore || st == CircleAfter)
    ensures var m := Spliced(nodes, id, v, Nil, st);
            Ring(m, [id], Ref(id), Ref(id)) && Values(m, [id]) == [v]
  {
    SplicedAlone(nodes, id, v, st);
  }

  /** A node made after the tail of a ring, which insert then leads on to the head and the head
   *  back to, becomes the new tail of a ring linked both ways. */
  lemma RingAppended(nodes: map<nat, LinkNode>, order: seq<nat>, head: Link, tail: Link, id: nat, v: int)
    requires Ring(nodes, order, head, tail) && order != [] && id !in nodes
    ensures id in Spliced(nodes, id, v, tail, CircleAfter) && head.Ref? && head.id in Spliced(nodes, id, v, tail, CircleAfter)
    ensures var m := Relinked(Relinked(Spliced(nodes, id, v, tail, CircleAfter), id, head, Forth), head.id, Ref(id), Back);
            && Ring(m, order + [id], head, Ref(id))
            && Values(m, order + [id]) == Values(nodes, order) + [v]
  {
    var n := |order|;
    var m := Relinked(Relinked(Spliced(nodes, id, v, tail, CircleAfter), id, head, Forth), order[0], Ref(id), Back);
    assert UniqueAt(order, 0);
    assert UniqueAt(order, n - 1);
    assert id !in order;
    LinksRingAppended(nodes, order, id, v);
    ValuesAppended(nodes, m, order, id, v);
  }

  /** The values after a node holding v is put in after the last node of order. */
  lemma ValuesAppended(nodes: map<nat, LinkNode>, m: map<nat, LinkNode>, order: seq<nat>, id: nat, v: int)
    requires InArena(nodes, order) && Distinct(order) && Filled(nodes, order)
    requires id in m && id !in order && m[id].value == Some(v)
    requires forall k :: 0 <= k < |order| ==> order[k] in m && m[order[k]].value == nodes[order[k]].value
    ensures InArena(m, order + [id]) && Distinct(order + [id]) && Filled(m, order + [id])
    ensures Values(m, order + [id]) == Values(nodes, order) + [v]
  {
    var n := |order|;
    InsertedValues(nodes, m, order, n, id, v);
    InsertedAtEnd(order, id, Values(nodes, order), v);
  }

  /** The links of RingAppended: the new node sits at the end of the ring, both ways. */
  lemma LinksRingAppended(nodes: map<nat, LinkNode>, order: seq<nat>, id: nat, v: int)
    requires InArena(nodes, order) && Forward(nodes, order, HeadLink(order)) && Backward(nodes, order, EndLink(order))
    requires order != [] && id !in nodes && UniqueAt(order, 0) && UniqueAt(order, |order| - 1) && id !in order
    ensures Spliced(nodes, id, v, EndLink(order), CircleAfter).Keys == nodes.Keys + {id}
    ensures var m := Relinked(Relinked(Spliced(nodes, id, v, EndLink(order), CircleAfter), id, HeadLink(order), Forth), order[0], Ref(id), Back);
            && var o' := order + [id];
            && InArena(m, o') && Forward(m, o', HeadLink(o')) && Backward(m, o', EndLink(o'))
            && m[id].value == Some(v) && forall k :: 0 <= k < |order| ==> m[order[k]].value == nodes[order[k]].value
  {
    SplicedFrame(nodes, id, v, EndLink(order), CircleAfter);
    ForwardRingAppended(nodes, order, id, v);
    BackwardRingAppended(nodes, order, id, v);
  }

  lemma ForwardRingAppended(nodes: map<nat, LinkNode>, order: seq<nat>, id: nat, v: int)
    requires InArena(nodes, order) && Forward(nodes, order, HeadLink(order))
    requires order != [] && id !in nodes && UniqueAt(order, |order| - 1) && id !in order
    ensures Spliced(nodes, id, v, EndLink(order), CircleAfter).Keys == nodes.Keys + {id}
    ensures var m := Relinked(Relinked(Spliced(nodes, id, v, EndLink(order), CircleAfter), id, HeadLink(order), Forth), order[0], Ref(id), Back);
            InArena(m, order + [id]) && Forward(m, order + [id], HeadLink(order))
  {
    var n := |order|;
    SplicedBetween(nodes, id, v, order[n - 1], CircleAfter);
    SplicedFrame(nodes, id, v, EndLink(order), CircleAfter);
    var m := Relinked(Relinked(Spliced(nodes, id, v, EndLink(order), CircleAfter), id, HeadLink(order), Forth), order[0], Ref(id), Back);
    assert nodes[order[n - 1]].next == Succ(order, n - 1, HeadLink(order));
    assert Inserted(order, n, id) == order + [id];
    ForwardInserted(nodes, m, order, n, id, HeadLink(order), HeadLink(order));
  }

  lemma BackwardRingAppended(nodes: map<nat, LinkNode>, order: seq<nat>, id: nat, v: int)
    requires InArena(nodes, order) && Backward(nodes, order, EndLink(order))
    requires order != [] && id !in nodes && UniqueAt(order, 0) && id !in order
    ensures Spliced(nodes, id, v, EndLink(order), CircleAfter).Keys == nodes.Keys + {id}
    ensures var m := Relinked(Relinked(Spliced(nodes, id, v, EndLink(order), CircleAfter), id, HeadLink(order), Forth), order[0], Ref(id), Back);
            InArena(m, order + [id]) && Backward(m, order + [id], Ref(id))
  {
    var n := |order|;
    SplicedBetween(nodes, id, v, order[n - 1], CircleAfter);
    SplicedFrame(nodes, id, v, EndLink(order), CircleAfter);
    var m := Relinked(Relinked(Spliced(nodes, id, v, EndLink(order), CircleAfter), id, HeadLink(order), Forth), order[0], Ref(id), Back);
    assert nodes[order[0]].prev == Pred(order, 0, EndLink(order));
    assert Inserted(order, n, id) == order + [id];
    BackwardInserted(nodes, m, order, n, id, EndLink(order), Ref(id));
  }

  /** A node made after the p-th node of a ring, short of the tail, is on the ring of next links
   *  at p + 1, but the node after it still leads back to the p-th node: the ring is no longer
   *  linked both ways. */
  lemma SplicedAfterInteriorRing(nodes: map<nat, LinkNode>, order: seq<nat>, head: Link, tail: Link, p: nat, id: nat, v: int)
    requires Ring(nodes, order, head, tail) && p + 1 < |order| && id !in nodes
    ensures var m := Spliced(nodes, id, v, Ref(order[p]), CircleAfter); var o' := Inserted(order, p + 1, id);
            && Circle(m, o', head, tail)
            && Values(m, o') == Values(nodes, order)[..p + 1] + [v] + Values(nodes, order)[p + 1..]
            && m[o'[p + 2]].prev == Ref(o'[p]) && !Ring(m, o', head, tail)
  {
    var n := |order|;
    var m := Spliced(nodes, id, v, Ref(order[p]), CircleAfter);
    var o' := Inserted(order, p + 1, id);
    SplicedBetween(nodes, id, v, order[p], CircleAfter);
    SplicedFrame(nodes, id, v, Ref(order[p]), CircleAfter);
    assert UniqueAt(order, p);
    assert id !in order;
    assert nodes[order[p]].next == Succ(order, p, HeadLink(order));
    assert nodes[order[n - 1]].next == Succ(order, n - 1, HeadLink(order));
    ForwardInserted(nodes, m, order, p + 1, id, HeadLink(order), HeadLink(order));
    InsertedValues(nodes, m, order, p + 1, id, v);
    assert HeadLink(o') == HeadLink(order) && EndLink(o') == EndLink(order);
    DistinctAt(order, p + 1, p);
    assert nodes[order[p + 1]].prev == Pred(order, p + 1, EndLink(order));
    assert o'[p + 2] == order[p + 1];
    assert m[o'[p + 2]].prev != Pred(o', p + 2, EndLink(o'));
  }

  /** A node made in front of the head of a ring, which insert_before then leads back to the tail
   *  and the tail on to, becomes the new head of a ring linked both ways. */
  lemma SplicedBeforeHeadRing(nodes: map<nat, LinkNode>, order: seq<nat>, head: Link, tail: Link, id: nat, v: int)
    requires Ring(nodes, order, head, tail) && order != [] && id !in nodes
    ensures id in Spliced(nodes, id, v, head, CircleBefore) && tail.Ref? && tail.id in Spliced(nodes, id, v, head, CircleBefore)
    ensures var m := Relinked(Relinked(Spliced(nodes, id, v, head, CircleBefore), id, tail, Back), tail.id, Ref(id), Forth);
            && Ring(m, [id] + order, Ref(id), tail)
            && Values(m, [id] + order) == [v] + Values(nodes, order)
  {
    var n := |order|;
    var m := Relinked(Relinked(Spliced(nodes, id, v, head, CircleBefore), id, tail, Back), order[n - 1], Ref(id), Forth);
    assert UniqueAt(order, 0);
    assert UniqueAt(order, n - 1);
    assert id !in order;
    LinksRingBeforeHead(nodes, order, id, v);
    ValuesPrepended(nodes, m, order, id, v);
  }

  /** The values after a node holding v is put in front of the first node of order. */
  lemma ValuesPrepended(nodes: map<nat, LinkNode>, m: map<nat, LinkNode>, order: seq<nat>, id: nat, v: int)
    requires InArena(nodes, order) && Distinct(order) && Filled(nodes, order)
    requires id in m && id !in order && m[id].value == Some(v)
    requires forall k :: 0 <= k < |order| ==> order[k] in m && m[order[k]].value == nodes[order[k]].value
    ensures InArena(m, [id] + order) && Distinct([id] + order) && Filled(m, [id] + order)
    ensures Values(m, [id] + order) == [v] + Values(nodes, order)
  {
    InsertedValues(nodes, m, order, 0, id, v);
    assert Inserted(order, 0, id) == [id] + order;
  }

  /** The links of SplicedBeforeHeadRing: the new node sits at the start of the ring, both ways. */
  lemma LinksRingBeforeHead(nodes: map<nat, LinkNode>, order: seq<nat>, id: nat, v: int)
    requires InArena(nodes, order) && Forward(nodes, order, HeadLink(order)) && Backward(nodes, order, EndLink(order))
    requires order != [] && id !in nodes && UniqueAt(order, 0) && UniqueAt(order, |order| - 1) && id !in order
    ensures Spliced(nodes, id, v, HeadLink(order), CircleBefore).Keys == nodes.Keys + {id}
    ensures var m := Relinked(Relinked(Spliced(nodes, id, v, HeadLink(order), CircleBefore), id, EndLink(order), Back), order[|order| - 1], Ref(id), Forth);
            && var o' := [id] + order;
            && InArena(m, o') && Forward(m, o', HeadLink(o')) && Backward(m, o', EndLink(o'))
            && m[id].value == Some(v) && forall k :: 0 <= k < |order| ==> m[order[k]].value == nodes[order[k]].value
  {
    SplicedFrame(nodes, id, v, HeadLink(order), CircleBefore);
    ForwardRingBeforeHead(nodes, order, id, v);
    BackwardRingBeforeHead(nodes, order, id, v);
  }

  lemma ForwardRingBeforeHead(nodes: map<nat, LinkNode>, order: seq<nat>, id: nat, v: int)
    requires InArena(nodes, order) && Forward(nodes, order, HeadLink(order))
    requires order != [] && id !in nodes && UniqueAt(order, |order| - 1) && id !in order
    ensures Spliced(nodes, id, v, HeadLink(order), CircleBefore).Keys == nodes.Keys + {id}
    ensures var m := Relinked(Relinked(Spliced(nodes, id, v, HeadLink(order), CircleBefore), id, EndLink(order), Back), order[|order| - 1], Ref(id), Forth);
            InArena(m, [id] + order) && Forward(m, [id] + order, Ref(id))
  {
    var n := |order|;
    SplicedBetween(nodes, id, v, order[0], CircleBefore);
    SplicedFrame(nodes, id, v, HeadLink(order), CircleBefore);
    var m := Relinked(Relinked(Spliced(nodes, id, v, HeadLink(order), CircleBefore), id, EndLink(order), Back), order[n - 1], Ref(id), Forth);
    assert nodes[order[n - 1]].next == Succ(order, n - 1, HeadLink(order));
    assert Inserted(order, 0, id) == [id] + order;
    ForwardInserted(nodes, m, order, 0, id, HeadLink(order), Ref(id));
  }

  lemma BackwardRingBeforeHead(nodes: map<nat, LinkNode>, order: seq<nat>, id: nat, v: int)
    requires InArena(nodes, order) && Backward(nodes, order, EndLink(order))
    requires order != [] && id !in nodes && UniqueAt(order, 0) && id !in order
    ensures Spliced(nodes, id, v, HeadLink(order), CircleBefore).Keys == nodes.Keys + {id}
    ensures var m := Relinked(Relinked(Spliced(nodes, id, v, HeadLink(order), CircleBefore), id, EndLink(order), Back), order[|order| - 1], Ref(id), Forth);
            InArena(m, [id] + order) && Backward(m, [id] + order, EndLink(order))
  {
    var n := |order|;
    SplicedBetween(nodes, id, v, order[0], CircleBefore);
    SplicedFrame(nodes, id, v, HeadLink(order), CircleBefore);
    var m := Relinked(Relinked(Spliced(nodes, id, v, HeadLink(order), CircleBefore), id, EndLink(order), Back), order[n - 1], Ref(id), Forth);
    assert nodes[order[0]].prev == Pred(order, 0, EndLink(order));
    assert Inserted(order, 0, id) == [id] + order;
    BackwardInserted(nodes, m, order, 0, id, EndLink(order), EndLink(order));
  }

  /** A node made in front of the p-th node of a ring, past the head, leads on to it and back to
   *  the node before it, and the p-th node leads back to it; but the node before still leads on
   *  to the p-th node, so the new node is not on the ring of next links, which is no longer
   *  linked both ways. */
  lemma SplicedBeforeInteriorRing(nodes: map<nat, LinkNode>, order: seq<nat>, head: Link, tail: Link, p: nat, id: nat, v: int)
    requires Ring(nodes, order, head, tail) && 0 < p < |order| && id !in nodes
    ensures var m := Spliced(nodes, id, v, Ref(order[p]), CircleBefore);
            && Circle(m, order, head, tail) && Values(m, order) == Values(nodes, order)
            && m[order[p]].prev == Ref(id) && m[id].next == Ref(order[p]) && m[id].prev == Ref(order[p - 1])
            && !Ring(m, order, head, tail)
  {
    var m := Spliced(nodes, id, v, Ref(order[p]), CircleBefore);
    SplicedBetween(nodes, id, v, order[p], CircleBefore);
    SplicedBeforeKeepsNext(nodes, order, p, id, v, CircleBefore);
    assert Values(m, order) == Values(nodes, order);
    assert nodes[order[p]].prev == Pred(order, p, EndLink(order));
    assert m[order[p]].prev != Pred(order, p, EndLink(order));
  }

  // ---------------------------------------------------------------------------------------------
  // insert (append)

  /** insert with the cursor on the tail of a counted ring (or on nothing, in an empty list)
   *  appends v: the ring closes through the new node, which is the tail and the cursor. */
  lemma AppendKeepsRing(s: ListState, order: seq<nat>, v: int)
    requires Wired(s) && Ring(s.nodes, order, s.head, s.tail) && s.current == s.tail && s.size == |order|
    ensures var s' := Inserting(s, v, Circular); var o' := InsertingOrder(s, order);
            && Ring(s'.nodes, o', s'.head, s'.tail) && o' == order + [s.nextId] && s'.current == s'.tail
            && Values(s'.nodes, o') == Values(s.nodes, order) + [v] && s'.size == s.size + 1
            && InsertingAnswer(s, Circular) == Returned(s.size + 1)
  {
    Unused(s.nodes, s.nextId);
    var id := s.nextId;
    SplicedFrame(s.nodes, id, v, s.current, CircleAfter);
    if order == [] {
      var m := Spliced(s.nodes, id, v, Nil, CircleAfter);
      assert Inserting(s, v, Circular) == ListState(m, id + 1, Ref(id), Ref(id), Ref(id), s.size + 1);
      RingOfOne(s.nodes, id, v, CircleAfter);
    } else {
      AppendOnRing(s, order, v);
    }
  }

  /** AppendKeepsRing on a ring with nodes: insert closes the ring through the new tail. */
  lemma AppendOnRing(s: ListState, order: seq<nat>, v: int)
    requires Wired(s) && Ring(s.nodes, order, s.head, s.tail) && s.current == s.tail && s.size == |order| && order != []
    ensures var s' := Inserting(s, v, Circular); var o' := InsertingOrder(s, order);
            && Ring(s'.nodes, o', s'.head, s'.tail) && o' == order + [s.nextId] && s'.current == s'.tail
            && Values(s'.nodes, o') == Values(s.nodes, order) + [v] && s'.size == s.size + 1
  {
    Unused(s.nodes, s.nextId);
    var id := s.nextId;
    RingAppended(s.nodes, order, s.head, s.tail, id, v);
    var m := Relinked(Relinked(Spliced(s.nodes, id, v, s.tail, CircleAfter), id, s.head, Forth), s.head.id, Ref(id), Back);
    var s' := Inserting(s, v, Circular);
    assert s' == ListState(m, id + 1, s.head, Ref(id), Ref(id), s.size + 1);
    IndexOfAt(order, |order| - 1);
    assert s.current.id == order[|order| - 1] && s.current.id in order;
    assert InsertingOrder(s, order) == Inserted(order, |order|, id) == order + [id];
    assert s'.nodes == m;
  }

  /** insert with the cursor on a node of a list of size not 0 that is not its tail, unfolded:
   *  only LinkNode.new's own links change. */
  lemma InsertingInteriorIs(s: ListState, v: int)
    requires Wired(s) && s.current.Ref? && s.size != 0 && s.tail != s.current
    ensures s.nextId !in s.nodes && s.current.id in s.nodes
    ensures Inserting(s, v, Circular)
            == ListState(Spliced(s.nodes, s.nextId, v, s.current, CircleAfter), s.nextId + 1, s.head, s.tail, Ref(s.nextId), s.size + 1)
    ensures InsertingAnswer(s, Circular) == Returned(s.size + 1)
  {
    Unused(s.nodes, s.nextId);
  }

  /** insert with the cursor on a node short of the tail puts v after it on the ring of next
   *  links, but the node after the new one still leads back to the cursor's old node. */
  lemma InsertInteriorStaleRing(s: ListState, order: seq<nat>, v: int)
    requires Wired(s) && Ring(s.nodes, order, s.head, s.tail) && s.size == |order|
    requires s.current.Ref? && s.current.id in order && IndexOf(order, s.current.id) < |order| - 1
    ensures var s' := Inserting(s, v, Circular); var o' := InsertingOrder(s, order); var p := IndexOf(order, s.current.id);
            && Circle(s'.nodes, o', s'.head, s'.tail) && |o'| == |order| + 1 && s'.current == Ref(o'[p + 1])
            && Values(s'.nodes, o') == Values(s.nodes, order)[..p + 1] + [v] + Values(s.nodes, order)[p + 1..]
            && s'.nodes[o'[p + 2]].prev == Ref(o'[p]) && !Ring(s'.nodes, o', s'.head, s'.tail)
            && s'.size == s.size + 1 && InsertingAnswer(s, Circular) == Returned(s.size + 1)
  {
    var p, id := IndexOf(order, s.current.id), s.nextId;
    assert InsertingOrder(s, order) == Inserted(order, p + 1, id);
    DistinctAt(order, |order| - 1, p);
    InsertingInteriorIs(s, v);
    SplicedAfterInteriorRing(s.nodes, order, s.head, s.tail, p, id, v);
  }

  /** Inserting each of vs from the tail of a counted ring appends them all in order, on a
   *  counted ring linked both ways. */
  lemma {:induction false} AppendingAllRing(s: ListState, order: seq<nat>, vs: seq<int>)
    requires Wired(s) && Ring(s.nodes, order, s.head, s.tail) && s.current == s.tail && s.size == |order|
    ensures var s' := InsertingAll(s, vs, Circular); var o' := InsertingAllOrder(s, order, vs, Circular);
            && Ring(s'.nodes, o', s'.head, s'.tail) && s'.current == s'.tail && |o'| == |order| + |vs|
            && Values(s'.nodes, o') == Values(s.nodes, order) + vs && s'.size == |o'|
    decreases |vs|
  {
    if vs != [] {
      var init, last := vs[..|vs| - 1], vs[|vs| - 1];
      var s1, o1 := InsertingAll(s, init, Circular), InsertingAllOrder(s, order, init, Circular);
      AppendingAllRing(s, order, init);
      AppendKeepsRing(s1, o1, last);
      InsertingLast(s, order, vs, Circular);
      InitLast(Values(s.nodes, order), vs);
    }
  }

  /** A list made from vs is a counted ring of vs linked both ways, with the cursor on the head
   *  when there are more values than one. */
  lemma StartedRing(vs: seq<int>)
    ensures var s := Started(vs, Circular); var o := StartedOrder(vs, Circular);
            && Ring(s.nodes, o, s.head, s.tail) && Values(s.nodes, o) == vs && s.size == |vs| && |o| == |vs|
            && s.current == (if |vs| > 1 then s.head else s.tail)
  {
    AppendingAllRing(Initial, [], vs);
  }

  // ---------------------------------------------------------------------------------------------
  // insert_before (prepend)

  /** insert_before: nothing when find_by_value raises; otherwise a node made in front of the target with :circle_before (a ring of its own
   *  without one), which becomes the cursor. In a list of size 0 it is the head and the tail;
   *  when the target is the head it becomes the head, leading back to the tail, which leads on
   *  to it (with no tail, that last step raises before the size is counted). */
  ghost function InsertingBefore(s: ListState, key: int -> int, order: seq<nat>, at: Option<int>, v: int): ListState
    requires Wired(s) && InArena(s.nodes, order) && Filled(s.nodes, order)
  {
    if FindRaises(s.nodes, key, order, s.head, s.size, at) then s else InsertedBefore(s, Target(s, key, order, at), v)
  }

  /** insert_before once find_by_value has answered the target. */
  ghost function InsertedBefore(s: ListState, target: Link, v: int): ListState
    requires Wired(s) && LinkIn(s.nodes, target)
  {
    Unused(s.nodes, s.nextId);
    var id := s.nextId;
    SplicedFrame(s.nodes, id, v, target, CircleBefore);
    var m := Spliced(s.nodes, id, v, target, CircleBefore);
    if s.size == 0 then ListState(m, id + 1, Ref(id), Ref(id), Ref(id), s.size + 1)
    else if s.head != target then ListState(m, id + 1, s.head, s.tail, Ref(id), s.size + 1)
    else if s.tail.Nil? then ListState(Relinked(m, id, Nil, Back), id + 1, Ref(id), s.tail, Ref(id), s.size)
    else ListState(Relinked(Relinked(m, id, s.tail, Back), s.tail.id, Ref(id), Forth), id + 1, Ref(id), s.tail, Ref(id), s.size + 1)
  }

  /** insert_before's answer once find_by_value has answered the target: the new size, or
   *  NoMethodError when the target is the head of a list with no tail. */
  function InsertedBeforeAnswer(s: ListState, target: Link): Outcome<int>
  {
    if s.size != 0 && s.head == target && s.tail.Nil? then Raised(NoMethodError) else Returned(s.size + 1)
  }

  /** insert_before's answer: NoMethodError when find_by_value raises. */
  ghost function InsertingBeforeAnswer(s: ListState, key: int -> int, order: seq<nat>, at: Option<int>): Outcome<int>
    requires Wired(s) && InArena(s.nodes, order) && Filled(s.nodes, order)
  {
    if FindRaises(s.nodes, key, order, s.head, s.size, at) then Raised(NoMethodError) else InsertedBeforeAnswer(s, Target(s, key, order, at))
  }

  /** The nodes of the ring of next links after insert_before: the new node in front of the head
   *  when the head matched, and alone in a list that was empty; a node made in front of a later
   *  match, or without one, is not on it. */
  ghost function InsertingBeforeOrder(s: ListState, key: int -> int, order: seq<nat>, at: Option<int>): seq<nat>
    requires InArena(s.nodes, order) && Filled(s.nodes, order)
  {
    if order == [] then [s.nextId]
    else if Target(s, key, order, at) == HeadLink(order) then [s.nextId] + order
    else order
  }

  /** insert_before a node of a list of size not 0 that is not its head, unfolded: only
   *  LinkNode.new's own links change. */
  lemma InsertedBeforeInteriorIs(s: ListState, a: nat, v: int)
    requires Wired(s) && a in s.nodes && s.size != 0 && s.head != Ref(a)
    ensures s.nextId !in s.nodes
    ensures InsertedBefore(s, Ref(a), v)
            == ListState(Spliced(s.nodes, s.nextId, v, Ref(a), CircleBefore), s.nextId + 1, s.head, s.tail, Ref(s.nextId), s.size + 1)
    ensures InsertedBeforeAnswer(s, Ref(a)) == Returned(s.size + 1)
  {
    Unused(s.nodes, s.nextId);
  }

  /** insert_before the head of a counted ring puts v in front of it: the ring closes through the
   *  new node, which is the head and the cursor. */
  lemma InsertBeforeHeadRing(s: ListState, key: int -> int, order: seq<nat>, x: int, v: int)
    requires Wired(s) && Ring(s.nodes, order, s.head, s.tail) && s.size == |order|
    requires order != [] && MatchIndex(s.nodes, key, order, x) == 0
    ensures var s' := InsertingBefore(s, key, order, Some(x), v); var o' := InsertingBeforeOrder(s, key, order, Some(x));
            && Ring(s'.nodes, o', s'.head, s'.tail) && o' == [s.nextId] + order && s'.current == s'.head
            && Values(s'.nodes, o') == [v] + Values(s.nodes, order) && s'.size == s.size + 1
            && InsertingBeforeAnswer(s, key, order, Some(x)) == Returned(s.size + 1)
  {
    Unused(s.nodes, s.nextId);
    var id := s.nextId;
    assert Target(s, key, order, Some(x)) == s.head;
    SplicedBeforeHeadRing(s.nodes, order, s.head, s.tail, id, v);
    var m := Relinked(Relinked(Spliced(s.nodes, id, v, s.head, CircleBefore), id, s.tail, Back), s.tail.id, Ref(id), Forth);
    assert InsertingBefore(s, key, order, Some(x), v) == ListState(m, id + 1, Ref(id), s.tail, Ref(id), s.size + 1);
  }

  /** insert_before a node past the head leaves the ring of next links as it was, with the new
   *  node linked to the match and its predecessor but reached from neither's next: the match
   *  leads back to a node that is not on the ring. */
  lemma InsertBeforeInteriorHiddenRing(s: ListState, key: int -> int, order: seq<nat>, x: int, v: int)
    requires Wired(s) && Ring(s.nodes, order, s.head, s.tail) && s.size == |order|
    requires 0 < MatchIndex(s.nodes, key, order, x) < |order|
    ensures var s' := InsertingBefore(s, key, order, Some(x), v); var o' := InsertingBeforeOrder(s, key, order, Some(x));
            var i := MatchIndex(s.nodes, key, order, x);
            && Circle(s'.nodes, o', s'.head, s'.tail) && o' == order && Values(s'.nodes, o') == Values(s.nodes, order)
            && s'.current == Ref(s.nextId) && s.nextId !in order && s'.nodes[order[i]].prev == Ref(s.nextId)
            && !Ring(s'.nodes, o', s'.head, s'.tail) && s'.size == s.size + 1
            && InsertingBeforeAnswer(s, key, order, Some(x)) == Returned(s.size + 1)
  {
    var i, id := MatchIndex(s.nodes, key, order, x), s.nextId;
    assert Target(s, key, order, Some(x)) == Ref(order[i]);
    DistinctAt(order, 0, i);
    InsertedBeforeInteriorIs(s, order[i], v);
    assert id !in order;
    assert InsertingBeforeOrder(s, key, order, Some(x)) == order;
    SplicedBeforeInteriorRing(s.nodes, order, s.head, s.tail, i, id, v);
  }

  /** insert_before on a list of size 0 without nodes makes a ring of one, as head, tail and
   *  cursor. */
  lemma InsertBeforeIntoEmpty(s: ListState, key: int -> int, at: Option<int>, v: int)
    requires Wired(s) && Ring(s.nodes, [], s.head, s.tail) && s.size == 0
    ensures var s' := InsertingBefore(s, key, [], at, v); var o' := InsertingBeforeOrder(s, key, [], at);
            && Ring(s'.nodes, o', s'.head, s'.tail) && o' == [s.nextId] && Values(s'.nodes, o') == [v]
            && s'.current == s'.head && s'.size == 1 && InsertingBeforeAnswer(s, key, [], at) == Returned(1)
  {
    Unused(s.nodes, s.nextId);
    RingOfOne(s.nodes, s.nextId, v, CircleBefore);
  }

  /** insert_before a value nothing matches makes a ring of one node of its own, counts it and
   *  puts the cursor on it, but leaves the list's ring as it was. */
  lemma InsertBeforeAbsentOwnRing(s: ListState, key: int -> int, order: seq<nat>, at: Option<int>, v: int)
    requires Wired(s) && Ring(s.nodes, order, s.head, s.tail)
    requires order != [] && s.size != 0 && Target(s, key, order, at) == Nil
    ensures var s' := InsertingBefore(s, key, order, at, v); var id := s.nextId;
            && s'.nodes == s.nodes[id := LinkNode(Some(v), Ref(id), Ref(id))] && id !in order
            && Ring(s'.nodes, order, s'.head, s'.tail) && Values(s'.nodes, order) == Values(s.nodes, order)
            && s'.head == s.head && s'.tail == s.tail && s'.current == Ref(id)
            && InsertingBeforeOrder(s, key, order, at) == order && s'.size == s.size + 1
  {
    Unused(s.nodes, s.nextId);
    var id := s.nextId;
    assert id !in order;
    assert Values(s.nodes[id := LinkNode(Some(v), Ref(id), Ref(id))], order) == Values(s.nodes, order);
  }

  /** prepend on a counted ring with nodes is insert_before the head's own value, which matches
   *  the head: v becomes the new head. */
  lemma PrependOnRing(s: ListState, key: int -> int, order: seq<nat>, v: int)
    requires Wired(s) && Ring(s.nodes, order, s.head, s.tail) && order != [] && s.size == |order|
    ensures var at := ValueAt(s.nodes, s.head);
            var s' := InsertingBefore(s, key, order, at, v); var o' := InsertingBeforeOrder(s, key, order, at);
            && Ring(s'.nodes, o', s'.head, s'.tail) && o' == [s.nextId] + order && s'.current == s'.head
            && Values(s'.nodes, o') == [v] + Values(s.nodes, order)
  {
    var x := s.nodes[order[0]].value.value;
    assert ValueAt(s.nodes, s.head) == Some(x);
    assert MatchByValue(key, s.nodes[order[0]], x);
    MatchIndexIs(s.nodes, key, order, x, 0);
    InsertBeforeHeadRing(s, key, order, x, v);
  }

  // ---------------------------------------------------------------------------------------------
  // insert_after

  /** insert_after: nothing when find_by_value raises; otherwise insert's steps with the target in place of the cursor. A node made after the
   *  target with :circle_after (a ring of its own without one) becomes the cursor; in a list of
   *  size 0 it is the head and the tail, and when the target is the tail it becomes the tail,
   *  leading on to the head, which leads back to it. */
  ghost function InsertingAfter(s: ListState, key: int -> int, order: seq<nat>, at: Option<int>, v: int): ListState
    requires Wired(s) && InArena(s.nodes, order) && Filled(s.nodes, order)
  {
    if FindRaises(s.nodes, key, order, s.head, s.size, at) then s else InsertedAfter(s, Target(s, key, order, at), v)
  }

  /** insert_after once find_by_value has answered the target. */
  ghost function InsertedAfter(s: ListState, target: Link, v: int): ListState
    requires Wired(s) && LinkIn(s.nodes, target)
  {
    Inserting(s.(current := target), v, Circular)
  }

  /** insert_after's answer: the new size, or NoMethodError when find_by_value raises or the
   *  target is the tail of a list with no head. */
  ghost function InsertingAfterAnswer(s: ListState, key: int -> int, order: seq<nat>, at: Option<int>): Outcome<int>
    requires Wired(s) && InArena(s.nodes, order) && Filled(s.nodes, order)
  {
    if FindRaises(s.nodes, key, order, s.head, s.size, at) then Raised(NoMethodError) else InsertingAnswer(s.(current := Target(s, key, order, at)), Circular)
  }

  /** The nodes of the ring of next links after insert_after: the new node after the match, or
   *  alone in a list that was empty; a node made without a match is not on it. */
  ghost function InsertingAfterOrder(s: ListState, key: int -> int, order: seq<nat>, at: Option<int>): seq<nat>
    requires InArena(s.nodes, order) && Filled(s.nodes, order)
  {
    if order == [] then [s.nextId]
    else if at.Some? && Target(s, key, order, at).Ref? then Inserted(order, MatchIndex(s.nodes, key, order, at.value) + 1, s.nextId)
    else order
  }

  /** insert_after the tail of a counted ring appends v: the ring closes through the new node,
   *  which is the tail and the cursor. */
  lemma InsertAfterTailRing(s: ListState, key: int -> int, order: seq<nat>, x: int, v: int)
    requires Wired(s) && Ring(s.nodes, order, s.head, s.tail) && s.size == |order|
    requires order != [] && MatchIndex(s.nodes, key, order, x) == |order| - 1
    ensures var s' := InsertingAfter(s, key, order, Some(x), v); var o' := InsertingAfterOrder(s, key, order, Some(x));
            && Ring(s'.nodes, o', s'.head, s'.tail) && o' == order + [s.nextId] && s'.current == s'.tail
            && Values(s'.nodes, o') == Values(s.nodes, order) + [v] && s'.size == s.size + 1
            && InsertingAfterAnswer(s, key, order, Some(x)) == Returned(s.size + 1)
  {
    assert Target(s, key, order, Some(x)) == s.tail;
    AppendKeepsRing(s.(current := s.tail), order, v);
    assert Inserted(order, |order|, s.nextId) == order + [s.nextId];
  }

  /** insert_after a node short of the tail, written out: the new node is spliced after the
   *  match, takes the cursor and is counted. */
  lemma InsertingAfterInteriorIs(s: ListState, key: int -> int, order: seq<nat>, x: int, v: int)
    requires Wired(s) && InArena(s.nodes, order) && Filled(s.nodes, order) && s.size != 0
    requires MatchIndex(s.nodes, key, order, x) < |order|
    requires s.tail != Ref(order[MatchIndex(s.nodes, key, order, x)])
    ensures var i, id := MatchIndex(s.nodes, key, order, x), s.nextId;
            && id !in s.nodes
            && InsertingAfter(s, key, order, Some(x), v)
               == ListState(Spliced(s.nodes, id, v, Ref(order[i]), CircleAfter), id + 1, s.head, s.tail, Ref(id), s.size + 1)
            && InsertingAfterOrder(s, key, order, Some(x)) == Inserted(order, i + 1, id)
            && InsertingAfterAnswer(s, key, order, Some(x)) == Returned(s.size + 1)
  {
    var i := MatchIndex(s.nodes, key, order, x);
    assert !FindRaises(s.nodes, key, order, s.head, s.size, Some(x));
    assert Target(s, key, order, Some(x)) == Ref(order[i]);
    var at := s.(current := Ref(order[i]));
    InsertingInteriorIs(at, v);
    assert InsertingAfterAnswer(s, key, order, Some(x)) == InsertingAnswer(at, Circular);
    assert InsertingAfter(s, key, order, Some(x), v) == Inserting(at, v, Circular);
  }

  /** insert_after a node short of the tail puts v after it on the ring of next links, but the
   *  node after the new one still leads back to the match. */
  lemma InsertAfterInteriorStaleRing(s: ListState, key: int -> int, order: seq<nat>, x: int, v: int)
    requires Wired(s) && Ring(s.nodes, order, s.head, s.tail) && s.size == |order|
    requires MatchIndex(s.nodes, key, order, x) < |order| - 1
    ensures var s' := InsertingAfter(s, key, order, Some(x), v); var o' := InsertingAfterOrder(s, key, order, Some(x));
            var i := MatchIndex(s.nodes, key, order, x);
            && Circle(s'.nodes, o', s'.head, s'.tail) && |o'| == |order| + 1 && s'.current == Ref(o'[i + 1])
            && Values(s'.nodes, o') == Values(s.nodes, order)[..i + 1] + [v] + Values(s.nodes, order)[i + 1..]
            && s'.nodes[o'[i + 2]].prev == Ref(o'[i]) && !Ring(s'.nodes, o', s'.head, s'.tail)
            && InsertingAfterAnswer(s, key, order, Some(x)) == Returned(s.size + 1)
  {
    var i, id := MatchIndex(s.nodes, key, order, x), s.nextId;
    DistinctAt(order, |order| - 1, i);
    InsertingAfterInteriorIs(s, key, order, x, v);
    SplicedAfterInteriorRing(s.nodes, order, s.head, s.tail, i, id, v);
    assert Inserted(order, i + 1, id)[i + 1] == id;
  }

  /** insert_after on a list of size 0 without nodes makes a ring of one, as head, tail and
   *  cursor. */
  lemma InsertAfterIntoEmpty(s: ListState, key: int -> int, at: Option<int>, v: int)
    requires Wired(s) && Ring(s.nodes, [], s.head, s.tail) && s.size == 0
    ensures var s' := InsertingAfter(s, key, [], at, v); var o' := InsertingAfterOrder(s, key, [], at);
            && Ring(s'.nodes, o', s'.head, s'.tail) && o' == [s.nextId] && Values(s'.nodes, o') == [v]
            && s'.current == s'.head && s'.size == 1 && InsertingAfterAnswer(s, key, [], at) == Returned(1)
  {
    Unused(s.nodes, s.nextId);
    RingOfOne(s.nodes, s.nextId, v, CircleAfter);
  }

  /** insert_after a value nothing matches makes a ring of one node of its own, counts it and
   *  puts the cursor on it, but leaves the list's ring as it was. */
  lemma InsertAfterAbsentOwnRing(s: ListState, key: int -> int, order: seq<nat>, at: Option<int>, v: int)
    requires Wired(s) && Ring(s.nodes, order, s.head, s.tail)
    requires order != [] && s.size != 0 && Target(s, key, order, at) == Nil
    ensures var s' := InsertingAfter(s, key, order, at, v); var id := s.nextId;
            && s'.nodes == s.nodes[id := LinkNode(Some(v), Ref(id), Ref(id))] && id !in order
            && Ring(s'.nodes, order, s'.head, s'.tail) && Values(s'.nodes, order) == Values(s.nodes, order)
            && s'.head == s.head && s'.tail == s.tail && s'.current == Ref(id)
            && InsertingAfterOrder(s, key, order, at) == order && s'.size == s.size + 1
  {
    Unused(s.nodes, s.nextId);
    var id := s.nextId;
    assert id !in order;
    assert Values(s.nodes[id := LinkNode(Some(v), Ref(id), Ref(id))], order) == Values(s.nodes, order);
  }

  // ---------------------------------------------------------------------------------------------
  // insert, insert_before and insert_after as evidently meant: a node put in between two is made
  // with the corrected LinkNode.new (MendedSpliced), and with no target it goes after the tail

  /** The corrected LinkNode.new(v, p-th node, :circle_after) on a ring, short of the tail, puts
   *  the new node at p + 1 on both links. */
  lemma MendedSplicedAfterRing(nodes: map<nat, LinkNode>, order: seq<nat>, head: Link, tail: Link, p: nat, id: nat, v: int)
    requires Ring(nodes, order, head, tail) && p + 1 < |order| && id !in nodes
    ensures var m := MendedSpliced(nodes, id, v, Ref(order[p]), CircleAfter); var o' := Inserted(order, p + 1, id);
            && Ring(m, o', head, tail)
            && Values(m, o') == Values(nodes, order)[..p + 1] + [v] + Values(nodes, order)[p + 1..]
  {
    var m := MendedSpliced(nodes, id, v, Ref(order[p]), CircleAfter);
    assert nodes[order[p]].next == Succ(order, p, HeadLink(order));
    DistinctAt(order, p, p + 1);
    MendedSplicedAfter(nodes, id, v, order[p], CircleAfter);
    PutBetween(nodes, m, order, p + 1, id, v, HeadLink(order), EndLink(order));
  }

  /** The corrected LinkNode.new(v, p-th node, :circle_before) on a ring, past the head, puts the
   *  new node at p on both links. */
  lemma MendedSplicedBeforeRing(nodes: map<nat, LinkNode>, order: seq<nat>, head: Link, tail: Link, p: nat, id: nat, v: int)
    requires Ring(nodes, order, head, tail) && 0 < p < |order| && id !in nodes
    ensures var m := MendedSpliced(nodes, id, v, Ref(order[p]), CircleBefore); var o' := Inserted(order, p, id);
            && Ring(m, o', head, tail)
            && Values(m, o') == Values(nodes, order)[..p] + [v] + Values(nodes, order)[p..]
  {
    var m := MendedSpliced(nodes, id, v, Ref(order[p]), CircleBefore);
    assert nodes[order[p]].prev == Pred(order, p, EndLink(order));
    DistinctAt(order, p, p - 1);
    MendedSplicedBefore(nodes, id, v, order[p], CircleBefore);
    PutBetween(nodes, m, order, p, id, v, HeadLink(order), EndLink(order));
  }

  /** insert as evidently meant: a node made after a cursor short of the tail comes from the
   *  corrected LinkNode.new; otherwise as insert. */
  ghost function MendedInserting(s: ListState, v: int): ListState
    requires Wired(s)
  {
    if s.size != 0 && s.tail != s.current && s.current.Ref? then
      Unused(s.nodes, s.nextId);
      ListState(MendedSpliced(s.nodes, s.nextId, v, s.current, CircleAfter), s.nextId + 1, s.head, s.tail,
                Ref(s.nextId), s.size + 1)
    else Inserting(s, v, Circular)
  }

  /** The corrected insert keeps a counted ring linked both ways wherever the cursor is: v goes
   *  right after the cursor's node and becomes the cursor, and the tail when the cursor was the
   *  tail. */
  lemma MendedInsertKeepsRing(s: ListState, order: seq<nat>, v: int)
    requires Wired(s) && Ring(s.nodes, order, s.head, s.tail) && s.size == |order|
    requires s.current.Ref? && s.current.id in order
    ensures var s' := MendedInserting(s, v); var p := IndexOf(order, s.current.id);
            var o' := Inserted(order, p + 1, s.nextId);
            && Ring(s'.nodes, o', s'.head, s'.tail) && s'.current == Ref(s.nextId)
            && Values(s'.nodes, o') == Values(s.nodes, order)[..p + 1] + [v] + Values(s.nodes, order)[p + 1..]
            && s'.size == s.size + 1
  {
    var n, p := |order|, IndexOf(order, s.current.id);
    assert s.current == Ref(order[p]);
    if p == n - 1 {
      MendedAppendOnRing(s, order, p, v);
    } else {
      DistinctAt(order, n - 1, p);
      MendedInsertInteriorRing(s, order, p, v);
    }
  }

  /** MendedInsertKeepsRing with the cursor on the tail, where the corrected insert is insert. */
  lemma MendedAppendOnRing(s: ListState, order: seq<nat>, p: nat, v: int)
    requires Wired(s) && Ring(s.nodes, order, s.head, s.tail) && s.size == |order|
    requires p + 1 == |order| && s.current == Ref(order[p])
    ensures var s' := MendedInserting(s, v); var o' := Inserted(order, p + 1, s.nextId);
            && Ring(s'.nodes, o', s'.head, s'.tail) && s'.current == Ref(s.nextId)
            && Values(s'.nodes, o') == Values(s.nodes, order)[..p + 1] + [v] + Values(s.nodes, order)[p + 1..]
            && s'.size == s.size + 1
  {
    var n, id := |order|, s.nextId;
    MendedInsertingIs(s, v);
    AppendKeepsRing(s, order, v);
    InsertedAtEnd(order, id, Values(s.nodes, order), v);
  }

  /** MendedInsertKeepsRing with the cursor on the p-th node, short of the tail. */
  lemma MendedInsertInteriorRing(s: ListState, order: seq<nat>, p: nat, v: int)
    requires Wired(s) && Ring(s.nodes, order, s.head, s.tail) && s.size == |order|
    requires p + 1 < |order| && s.current == Ref(order[p])
    ensures var s' := MendedInserting(s, v); var o' := Inserted(order, p + 1, s.nextId);
            && Ring(s'.nodes, o', s'.head, s'.tail) && s'.current == Ref(s.nextId)
            && Values(s'.nodes, o') == Values(s.nodes, order)[..p + 1] + [v] + Values(s.nodes, order)[p + 1..]
            && s'.size == s.size + 1
  {
    DistinctAt(order, |order| - 1, p);
    MendedInsertingInteriorIs(s, v);
    MendedSplicedAfterRing(s.nodes, order, s.head, s.tail, p, s.nextId, v);
  }

  /** Where the cursor is the tail, or nil, or the list has size 0, the corrected insert is insert. */
  lemma MendedInsertingIs(s: ListState, v: int)
    requires Wired(s) && (s.size == 0 || s.tail == s.current || s.current.Nil?)
    ensures MendedInserting(s, v) == Inserting(s, v, Circular)
  {
  }

  /** The corrected insert with the cursor on a node of a list of size not 0 that is not its
   *  tail, unfolded: only the corrected LinkNode.new's links change. */
  lemma MendedInsertingInteriorIs(s: ListState, v: int)
    requires Wired(s) && s.current.Ref? && s.size != 0 && s.tail != s.current
    ensures s.nextId !in s.nodes
    ensures MendedInserting(s, v)
            == ListState(MendedSpliced(s.nodes, s.nextId, v, s.current, CircleAfter), s.nextId + 1, s.head, s.tail,
                         Ref(s.nextId), s.size + 1)
  {
    Unused(s.nodes, s.nextId);
  }

  /** insert_after once find_by_value has answered the target, as evidently meant: the corrected
   *  insert with the target, or the tail when there is none, in place of the cursor. */
  ghost function MendedInsertedAfter(s: ListState, target: Link, v: int): ListState
    requires Wired(s) && LinkIn(s.nodes, target)
  {
    MendedInserting(s.(current := if target.Nil? && s.size != 0 then s.tail else target), v)
  }

  /** insert_before once find_by_value has answered the target, as evidently meant: a node made in
   *  front of a target past the head comes from the corrected LinkNode.new, and without a target
   *  a list of size not 0 gains it after the tail; otherwise as insert_before. */
  ghost function MendedInsertedBefore(s: ListState, target: Link, v: int): ListState
    requires Wired(s) && LinkIn(s.nodes, target)
  {
    if target.Nil? && s.size != 0 then MendedInsertedAfter(s, Nil, v)
    else if s.size != 0 && s.head != target && target.Ref? then
      Unused(s.nodes, s.nextId);
      ListState(MendedSpliced(s.nodes, s.nextId, v, target, CircleBefore), s.nextId + 1, s.head, s.tail,
                Ref(s.nextId), s.size + 1)
    else InsertedBefore(s, target, v)
  }

  /** insert_after as evidently meant. */
  ghost function MendedInsertingAfter(s: ListState, key: int -> int, order: seq<nat>, at: Option<int>, v: int): ListState
    requires Wired(s) && InArena(s.nodes, order) && Filled(s.nodes, order)
  {
    if FindRaises(s.nodes, key, order, s.head, s.size, at) then s else MendedInsertedAfter(s, Target(s, key, order, at), v)
  }

  /** insert_before as evidently meant. */
  ghost function MendedInsertingBefore(s: ListState, key: int -> int, order: seq<nat>, at: Option<int>, v: int): ListState
    requires Wired(s) && InArena(s.nodes, order) && Filled(s.nodes, order)
  {
    if FindRaises(s.nodes, key, order, s.head, s.size, at) then s else MendedInsertedBefore(s, Target(s, key, order, at), v)
  }

  /** The corrected insert_after a matched node keeps a counted ring linked both ways: v goes right
   *  after the match and becomes the cursor. */
  lemma MendedInsertAfterFoundRing(s: ListState, key: int -> int, order: seq<nat>, x: int, v: int)
    requires Wired(s) && Ring(s.nodes, order, s.head, s.tail) && s.size == |order|
    requires MatchIndex(s.nodes, key, order, x) < |order|
    ensures var s' := MendedInsertingAfter(s, key, order, Some(x), v); var i := MatchIndex(s.nodes, key, order, x);
            var o' := Inserted(order, i + 1, s.nextId);
            && Ring(s'.nodes, o', s'.head, s'.tail) && s'.current == Ref(s.nextId)
            && Values(s'.nodes, o') == Values(s.nodes, order)[..i + 1] + [v] + Values(s.nodes, order)[i + 1..]
            && s'.size == s.size + 1
  {
    var i := MatchIndex(s.nodes, key, order, x);
    assert Target(s, key, order, Some(x)) == Ref(order[i]);
    IndexOfAt(order, i);
    MendedInsertKeepsRing(s.(current := Ref(order[i])), order, v);
  }

  /** The corrected insert_after a value nothing matches appends v: the ring closes through the
   *  new node, which is the tail and the cursor. */
  lemma MendedInsertAfterAbsentRing(s: ListState, key: int -> int, order: seq<nat>, at: Option<int>, v: int)
    requires Wired(s) && Ring(s.nodes, order, s.head, s.tail) && s.size == |order|
    requires order != [] && Target(s, key, order, at) == Nil
    ensures var s' := MendedInsertingAfter(s, key, order, at, v);
            && Ring(s'.nodes, order + [s.nextId], s'.head, s'.tail) && s'.tail == Ref(s.nextId)
            && s'.current == s'.tail && s'.size == s.size + 1
            && Values(s'.nodes, order + [s.nextId]) == Values(s.nodes, order) + [v]
  {
    CircleFindReturns(s.nodes, key, order, s.head, s.tail, s.size, at);
    AppendKeepsRing(s.(current := s.tail), order, v);
    IndexOfAt(order, |order| - 1);
  }

  /** The corrected insert_before a matched node keeps a counted ring linked both ways: v goes
   *  right in front of the match and becomes the cursor, and the head when the match was the
   *  head. */
  lemma MendedInsertBeforeFoundRing(s: ListState, key: int -> int, order: seq<nat>, x: int, v: int)
    requires Wired(s) && Ring(s.nodes, order, s.head, s.tail) && s.size == |order|
    requires MatchIndex(s.nodes, key, order, x) < |order|
    ensures var s' := MendedInsertingBefore(s, key, order, Some(x), v); var i := MatchIndex(s.nodes, key, order, x);
            var o' := Inserted(order, i, s.nextId);
            && Ring(s'.nodes, o', s'.head, s'.tail) && s'.current == Ref(s.nextId)
            && Values(s'.nodes, o') == Values(s.nodes, order)[..i] + [v] + Values(s.nodes, order)[i..]
            && s'.size == s.size + 1
  {
    var i := MatchIndex(s.nodes, key, order, x);
    assert Target(s, key, order, Some(x)) == Ref(order[i]);
    if i == 0 {
      MendedPrependOnRing(s, key, order, x, v);
    } else {
      MendedInsertBeforeInteriorRing(s, key, order, x, v);
    }
  }

  /** MendedInsertBeforeFoundRing on the head, where the corrected insert_before is insert_before. */
  lemma MendedPrependOnRing(s: ListState, key: int -> int, order: seq<nat>, x: int, v: int)
    requires Wired(s) && Ring(s.nodes, order, s.head, s.tail) && s.size == |order|
    requires order != [] && MatchIndex(s.nodes, key, order, x) == 0
    ensures var s', id := MendedInsertingBefore(s, key, order, Some(x), v), s.nextId;
            && Ring(s'.nodes, Inserted(order, 0, id), s'.head, s'.tail) && s'.current == Ref(id)
            && Values(s'.nodes, Inserted(order, 0, id)) == Values(s.nodes, order)[..0] + [v] + Values(s.nodes, order)[0..]
            && s'.size == s.size + 1
  {
    var id := s.nextId;
    assert Target(s, key, order, Some(x)) == s.head;
    assert MendedInsertingBefore(s, key, order, Some(x), v) == InsertingBefore(s, key, order, Some(x), v);
    InsertBeforeHeadRing(s, key, order, x, v);
    InsertedAtFront(order, id, Values(s.nodes, order), v);
  }

  /** MendedInsertBeforeFoundRing past the head. */
  lemma MendedInsertBeforeInteriorRing(s: ListState, key: int -> int, order: seq<nat>, x: int, v: int)
    requires Wired(s) && Ring(s.nodes, order, s.head, s.tail) && s.size == |order|
    requires 0 < MatchIndex(s.nodes, key, order, x) < |order|
    ensures var s', i, id := MendedInsertingBefore(s, key, order, Some(x), v), MatchIndex(s.nodes, key, order, x), s.nextId;
            && Ring(s'.nodes, Inserted(order, i, id), s'.head, s'.tail) && s'.current == Ref(id)
            && Values(s'.nodes, Inserted(order, i, id)) == Values(s.nodes, order)[..i] + [v] + Values(s.nodes, order)[i..]
            && s'.size == s.size + 1
  {
    Unused(s.nodes, s.nextId);
    var i, id := MatchIndex(s.nodes, key, order, x), s.nextId;
    assert Target(s, key, order, Some(x)) == Ref(order[i]);
    DistinctAt(order, 0, i);
    var m := MendedSpliced(s.nodes, id, v, Ref(order[i]), CircleBefore);
    assert MendedInsertingBefore(s, key, order, Some(x), v) == ListState(m, id + 1, s.head, s.tail, Ref(id), s.size + 1);
    MendedSplicedBeforeRing(s.nodes, order, s.head, s.tail, i, id, v);
  }

  /** The corrected insert_before a value nothing matches appends v, as the corrected insert_after
   *  does: the ring closes through the new node, which is the tail and the cursor. */
  lemma MendedInsertBeforeAbsentRing(s: ListState, key: int -> int, order: seq<nat>, at: Option<int>, v: int)
    requires Wired(s) && Ring(s.nodes, order, s.head, s.tail) && s.size == |order|
    requires order != [] && Target(s, key, order, at) == Nil
    ensures var s' := MendedInsertingBefore(s, key, order, at, v);
            && s' == MendedInsertingAfter(s, key, order, at, v)
            && Ring(s'.nodes, order + [s.nextId], s'.head, s'.tail) && s'.tail == Ref(s.nextId)
            && s'.current == s'.tail && s'.size == s.size + 1
            && Values(s'.nodes, order + [s.nextId]) == Values(s.nodes, order) + [v]
  {
    CircleFindReturns(s.nodes, key, order, s.head, s.tail, s.size, at);
    MendedInsertAfterAbsentRing(s, key, order, at, v);
  }

  // ---------------------------------------------------------------------------------------------
  // remove

  /**
   * remove: nothing when find_by_value raises or finds no target. Otherwise a list of size 1 loses head, tail and cursor;
   * the head hands head and cursor to the node after it (which leads back to the node before it,
   * and the tail on to it); the tail hands tail and cursor to the node before it (which leads on
   * to the node after it, and the head back to it); a node in the middle hands the cursor to the
   * node before it, linked past it both ways. A nil link met on the way raises, with the steps
   * before it done. The target is cleared and the size counted down.
   */
  ghost function Removing(s: ListState, key: int -> int, order: seq<nat>, x: Option<int>): ListState
    requires Wired(s) && InArena(s.nodes, order) && Filled(s.nodes, order)
  {
    if FindRaises(s.nodes, key, order, s.head, s.size, x) then s else RemovedAt(s, Target(s, key, order, x))
  }

  /** remove once find_by_value has answered the target. */
  ghost function RemovedAt(s: ListState, target: Link): ListState
    requires Wired(s) && LinkIn(s.nodes, target)
  {
    if target.Nil? then s
    else
      LinksOf(s.nodes, s.nextId, target.id);
      var t := s.nodes[target.id];
      if s.size == 1 then ListState(s.nodes[target.id := Cleared], s.nextId, Nil, Nil, Nil, s.size - 1)
      else if target == s.head then
        if t.next.Nil? then s.(current := Nil)
        else
          var m := Relinked(s.nodes, t.next.id, t.prev, Back);
          if s.tail.Nil? then s.(nodes := m, current := t.next)
          else ListState(Relinked(m, s.tail.id, t.next, Forth)[target.id := Cleared], s.nextId, t.next, s.tail, t.next, s.size - 1)
      else if target == s.tail then
        if t.prev.Nil? then s.(current := Nil)
        else
          var m := Relinked(s.nodes, t.prev.id, t.next, Forth);
          if s.head.Nil? then s.(nodes := m, current := t.prev)
          else ListState(Relinked(m, s.head.id, t.prev, Back)[target.id := Cleared], s.nextId, s.head, t.prev, t.prev, s.size - 1)
      else
        if t.prev.Nil? then s.(current := Nil)
        else
          var m := Relinked(s.nodes, t.prev.id, t.next, Forth);
          if t.next.Nil? then s.(nodes := m, current := t.prev)
          else ListState(Relinked(m, t.next.id, t.prev, Back)[target.id := Cleared], s.nextId, s.head, s.tail, t.prev, s.size - 1)
  }

  /** remove's answer once find_by_value has answered the target: nil without one, NoMethodError
   *  when a link it follows is nil, else the new size. */
  ghost function RemovedAnswer(s: ListState, target: Link): Outcome<Option<int>>
    requires LinkIn(s.nodes, target)
  {
    if target.Nil? then Returned(None)
    else
      var t := s.nodes[target.id];
      var stuck := if target == s.head then t.next.Nil? || s.tail.Nil?
                   else if target == s.tail then t.prev.Nil? || s.head.Nil?
                   else t.prev.Nil? || t.next.Nil?;
      if s.size != 1 && stuck then Raised(NoMethodError) else Returned(Some(s.size - 1))
  }

  /** remove's answer: NoMethodError when find_by_value raises. */
  ghost function RemovingAnswer(s: ListState, key: int -> int, order: seq<nat>, x: Option<int>): Outcome<Option<int>>
    requires Wired(s) && InArena(s.nodes, order) && Filled(s.nodes, order)
  {
    if FindRaises(s.nodes, key, order, s.head, s.size, x) then Raised(NoMethodError) else RemovedAnswer(s, Target(s, key, order, x))
  }

  /** The nodes of the list after remove: without the first match, unless remove raised. */
  ghost function RemovingOrder(s: ListState, key: int -> int, order: seq<nat>, x: Option<int>): seq<nat>
    requires Wired(s) && InArena(s.nodes, order) && Filled(s.nodes, order)
  {
    if x.Some? && Target(s, key, order, x).Ref? && RemovingAnswer(s, key, order, x).Returned?
    then Removed(order, MatchIndex(s.nodes, key, order, x.value))
    else order
  }

  /** The arena after the node before the p-th node of a ring of two or more is led on past it,
   *  the node after it led back past it, and the p-th node cleared: remove's steps for the tail
   *  and the middle (and, in the other order, for the head). */
  ghost function Unlinked(nodes: map<nat, LinkNode>, order: seq<nat>, p: nat): map<nat, LinkNode>
    requires InArena(nodes, order) && 2 <= |order| && p < |order|
  {
    var n := |order|;
    var pre, post := Wrap(p - 1, n), Wrap(p + 1, n);
    Relinked(Relinked(nodes, order[pre], Ref(order[post]), Forth), order[post], Ref(order[pre]), Back)[order[p] := Cleared]
  }

  /** Unlinking the p-th node of a ring linked both ways leaves the other nodes a ring linked both
   *  ways, with the node after it as the head when it was the head and the node before it as the
   *  tail when it was the tail. */
  lemma RingUnlinked(nodes: map<nat, LinkNode>, order: seq<nat>, p: nat)
    requires InArena(nodes, order) && Distinct(order) && Filled(nodes, order)
    requires Forward(nodes, order, HeadLink(order)) && Backward(nodes, order, EndLink(order))
    requires 2 <= |order| && p < |order|
    ensures var n, m, o' := |order|, Unlinked(nodes, order, p), Removed(order, p);
            && Ring(m, o', HeadLink(o'), EndLink(o'))
            && HeadLink(o') == Ref(order[if p == 0 then 1 else 0])
            && EndLink(o') == Ref(order[if p == n - 1 then n - 2 else n - 1])
            && Values(m, o') == Values(nodes, order)[..p] + Values(nodes, order)[p + 1..]
  {
    var n := |order|;
    assert UniqueAt(order, Wrap(p - 1, n));
    assert UniqueAt(order, p);
    assert UniqueAt(order, Wrap(p + 1, n));
    ForwardUnlinked(nodes, order, p);
    BackwardUnlinked(nodes, order, p);
    UnlinkedValues(nodes, order, p);
    RemovedValues(nodes, Unlinked(nodes, order, p), order, p);
  }

  /** Unlinking changes no value but the p-th node's. */
  lemma UnlinkedValues(nodes: map<nat, LinkNode>, order: seq<nat>, p: nat)
    requires InArena(nodes, order) && 2 <= |order| && p < |order| && UniqueAt(order, p)
    ensures var m := Unlinked(nodes, order, p);
            forall k :: 0 <= k < |order| && k != p ==> order[k] in m && m[order[k]].value == nodes[order[k]].value
  {
    var n := |order|;
    var pre, post := Wrap(p - 1, n), Wrap(p + 1, n);
    var m1 := Relinked(nodes, order[pre], Ref(order[post]), Forth);
    var m2 := Relinked(m1, order[post], Ref(order[pre]), Back);
    assert forall id :: id in nodes ==> id in m1 && m1[id].value == nodes[id].value;
    assert forall id :: id in nodes ==> id in m2 && m2[id].value == nodes[id].value;
    assert Unlinked(nodes, order, p) == m2[order[p] := Cleared];
  }

  lemma ForwardUnlinked(nodes: map<nat, LinkNode>, order: seq<nat>, p: nat)
    requires InArena(nodes, order) && Forward(nodes, order, HeadLink(order)) && 2 <= |order| && p < |order|
    requires UniqueAt(order, p) && UniqueAt(order, Wrap(p - 1, |order|))
    ensures var o' := Removed(order, p);
            && InArena(Unlinked(nodes, order, p), o') && Forward(Unlinked(nodes, order, p), o', HeadLink(o'))
            && HeadLink(o') == Ref(order[if p == 0 then 1 else 0])
  {
    var n, o' := |order|, Removed(order, p);
    assert nodes[order[n - 1]].next == Succ(order, n - 1, HeadLink(order));
    assert HeadLink(o') == Ref(order[if p == 0 then 1 else 0]);
    ForwardRemoved(nodes, Unlinked(nodes, order, p), order, p, HeadLink(order), HeadLink(o'));
  }

  lemma BackwardUnlinked(nodes: map<nat, LinkNode>, order: seq<nat>, p: nat)
    requires InArena(nodes, order) && Backward(nodes, order, EndLink(order)) && 2 <= |order| && p < |order|
    requires UniqueAt(order, p) && UniqueAt(order, Wrap(p + 1, |order|))
    ensures var n, o' := |order|, Removed(order, p);
            && InArena(Unlinked(nodes, order, p), o') && Backward(Unlinked(nodes, order, p), o', EndLink(o'))
            && EndLink(o') == Ref(order[if p == n - 1 then n - 2 else n - 1])
  {
    var n, o' := |order|, Removed(order, p);
    assert nodes[order[0]].prev == Pred(order, 0, EndLink(order));
    assert EndLink(o') == Ref(order[if p == n - 1 then n - 2 else n - 1]);
    BackwardRemoved(nodes, Unlinked(nodes, order, p), order, p, EndLink(order), EndLink(o'));
  }

  /** remove of the head of a counted ring of two nodes or more. */
  lemma RemovedHeadRing(s: ListState, order: seq<nat>)
    requires Wired(s) && Ring(s.nodes, order, s.head, s.tail) && s.size == |order| && |order| >= 2
    ensures var s' := RemovedAt(s, Ref(order[0])); var o' := Removed(order, 0);
            && Ring(s'.nodes, o', s'.head, s'.tail) && Values(s'.nodes, o') == Values(s.nodes, order)[1..]
            && s'.current == Ref(order[1]) && s'.size == s.size - 1
            && RemovedAnswer(s, Ref(order[0])) == Returned(Some(s.size - 1))
  {
    var n := |order|;
    var t := s.nodes[order[0]];
    assert t.next == Succ(order, 0, HeadLink(order));
    assert t.prev == Pred(order, 0, EndLink(order));
    var m := Relinked(Relinked(s.nodes, order[1], t.prev, Back), order[n - 1], Ref(order[1]), Forth)[order[0] := Cleared];
    var s' := RemovedAt(s, Ref(order[0]));
    assert s' == ListState(m, s.nextId, Ref(order[1]), s.tail, Ref(order[1]), s.size - 1);
    assert m == Unlinked(s.nodes, order, 0);
    RingUnlinked(s.nodes, order, 0);
  }

  /** remove of the tail of a counted ring of two nodes or more. */
  lemma RemovedTailRing(s: ListState, order: seq<nat>, i: nat)
    requires Wired(s) && Ring(s.nodes, order, s.head, s.tail) && s.size == |order| && 0 < i == |order| - 1
    ensures var s' := RemovedAt(s, Ref(order[i])); var o' := Removed(order, i);
            && Ring(s'.nodes, o', s'.head, s'.tail) && Values(s'.nodes, o') == Values(s.nodes, order)[..i]
            && s'.current == Ref(order[i - 1]) && s'.size == s.size - 1
            && RemovedAnswer(s, Ref(order[i])) == Returned(Some(s.size - 1))
  {
    var n := |order|;
    var t := s.nodes[order[n - 1]];
    assert t.next == Succ(order, n - 1, HeadLink(order));
    assert t.prev == Pred(order, n - 1, EndLink(order));
    DistinctAt(order, 0, n - 1);
    RemovedTailIs(s, order[n - 2], order[n - 1], order[0]);
    var m := Relinked(Relinked(s.nodes, order[n - 2], Ref(order[0]), Forth), order[0], Ref(order[n - 2]), Back)[order[n - 1] := Cleared];
    var s' := RemovedAt(s, Ref(order[n - 1]));
    assert s' == ListState(m, s.nextId, s.head, Ref(order[n - 2]), Ref(order[n - 2]), s.size - 1);
    RingUnlinked(s.nodes, order, n - 1);
    assert s'.nodes == m;
    assert Values(s.nodes, order)[..n - 1] + Values(s.nodes, order)[n..] == Values(s.nodes, order)[..n - 1];
  }

  /** remove of the tail of a list whose size is not 1, with a head and a prev, unfolded. */
  lemma RemovedTailIs(s: ListState, a: nat, b: nat, c: nat)
    requires Wired(s) && b in s.nodes && s.size != 1 && Ref(b) != s.head && Ref(b) == s.tail
    requires s.nodes[b].prev == Ref(a) && s.head == Ref(c)
    ensures a in s.nodes && c in s.nodes
    ensures RemovedAt(s, Ref(b))
            == ListState(Relinked(Relinked(s.nodes, a, s.nodes[b].next, Forth), c, Ref(a), Back)[b := Cleared], s.nextId, s.head, Ref(a), Ref(a), s.size - 1)
    ensures RemovedAnswer(s, Ref(b)) == Returned(Some(s.size - 1))
  {
    LinksOf(s.nodes, s.nextId, b);
  }

  /** remove of a node of a counted ring strictly between its head and its tail. */
  lemma RemovedMiddleRing(s: ListState, order: seq<nat>, i: nat)
    requires Wired(s) && Ring(s.nodes, order, s.head, s.tail) && s.size == |order| && 0 < i < |order| - 1
    ensures var s' := RemovedAt(s, Ref(order[i])); var o' := Removed(order, i);
            && Ring(s'.nodes, o', s'.head, s'.tail) && Values(s'.nodes, o') == Values(s.nodes, order)[..i] + Values(s.nodes, order)[i + 1..]
            && s'.current == Ref(order[i - 1]) && s'.size == s.size - 1
            && RemovedAnswer(s, Ref(order[i])) == Returned(Some(s.size - 1))
  {
    var n := |order|;
    var t := s.nodes[order[i]];
    assert t.next == Succ(order, i, HeadLink(order));
    assert t.prev == Pred(order, i, EndLink(order));
    DistinctAt(order, 0, i);
    DistinctAt(order, n - 1, i);
    RemovedMiddleIs(s, order[i - 1], order[i], order[i + 1]);
    RingUnlinked(s.nodes, order, i);
  }

  /** remove of a node linked both ways, which is neither head nor tail of a list whose size is
   *  not 1, unfolded. */
  lemma RemovedMiddleIs(s: ListState, a: nat, b: nat, c: nat)
    requires Wired(s) && b in s.nodes && s.size != 1 && Ref(b) != s.head && Ref(b) != s.tail
    requires s.nodes[b].prev == Ref(a) && s.nodes[b].next == Ref(c)
    ensures a in s.nodes && c in s.nodes
    ensures RemovedAt(s, Ref(b))
            == ListState(Relinked(Relinked(s.nodes, a, Ref(c), Forth), c, Ref(a), Back)[b := Cleared], s.nextId, s.head, s.tail, Ref(a), s.size - 1)
    ensures RemovedAnswer(s, Ref(b)) == Returned(Some(s.size - 1))
  {
    LinksOf(s.nodes, s.nextId, b);
  }

  /** remove of the i-th node of a counted ring takes it out, leaving a ring linked both ways with
   *  the cursor on the node before it (after it, for the head; nil, for the last node), and
   *  answers the new size. */
  lemma RemovedAtRing(s: ListState, order: seq<nat>, i: nat)
    requires Wired(s) && Ring(s.nodes, order, s.head, s.tail) && s.size == |order| && i < |order|
    ensures var s' := RemovedAt(s, Ref(order[i])); var o' := Removed(order, i);
            && Ring(s'.nodes, o', s'.head, s'.tail)
            && Values(s'.nodes, o') == Values(s.nodes, order)[..i] + Values(s.nodes, order)[i + 1..]
            && s'.current == (if |order| == 1 then Nil else if i == 0 then Ref(order[1]) else Ref(order[i - 1]))
            && s'.size == s.size - 1 && RemovedAnswer(s, Ref(order[i])) == Returned(Some(s.size - 1))
  {
    var n := |order|;
    if n == 1 {
      assert Removed(order, i) == [];
    } else if i == 0 {
      RemovedHeadRing(s, order);
    } else if i == n - 1 {
      RemovedTailRing(s, order, i);
    } else {
      RemovedMiddleRing(s, order, i);
    }
  }

  /** remove of a matching value on a counted ring takes the first match out, keeps the ring
   *  linked both ways and answers the new size. */
  lemma RemoveOnRing(s: ListState, key: int -> int, order: seq<nat>, x: int)
    requires Wired(s) && Ring(s.nodes, order, s.head, s.tail) && s.size == |order|
    requires MatchIndex(s.nodes, key, order, x) < |order|
    ensures var s' := Removing(s, key, order, Some(x)); var o' := RemovingOrder(s, key, order, Some(x));
            var i := MatchIndex(s.nodes, key, order, x);
            && Ring(s'.nodes, o', s'.head, s'.tail) && o' == Removed(order, i)
            && Values(s'.nodes, o') == Values(s.nodes, order)[..i] + Values(s.nodes, order)[i + 1..]
            && s'.current == (if |order| == 1 then Nil else if i == 0 then Ref(order[1]) else Ref(order[i - 1]))
            && s'.size == s.size - 1 && RemovingAnswer(s, key, order, Some(x)) == Returned(Some(s.size - 1))
  {
    var i := MatchIndex(s.nodes, key, order, x);
    assert Target(s, key, order, Some(x)) == Ref(order[i]);
    RemovedAtRing(s, order, i);
  }

  /** remove of a value nothing matches (or of nil, or from a list of size 0) changes nothing and
   *  answers nil. */
  lemma RemoveAbsent(s: ListState, key: int -> int, order: seq<nat>, x: Option<int>)
    requires Wired(s) && Circle(s.nodes, order, s.head, s.tail) && Target(s, key, order, x) == Nil
    ensures Removing(s, key, order, x) == s && RemovingOrder(s, key, order, x) == order
    ensures RemovingAnswer(s, key, order, x) == Returned(None)
  {
  }

  /** remove of the only node of a ring whose size is neither 0 nor 1 clears the node but leaves
   *  head, tail and cursor on it, and counts one less: the list no longer leads to its nodes. */
  lemma RemoveLoneUncountedDangles(s: ListState, key: int -> int, id: nat, x: int)
    requires Wired(s) && Ring(s.nodes, [id], s.head, s.tail) && s.size != 0 && s.size != 1
    requires MatchByValue(key, s.nodes[id], x)
    ensures var s' := Removing(s, key, [id], Some(x));
            && s' == ListState(s.nodes[id := Cleared], s.nextId, Ref(id), Ref(id), Ref(id), s.size - 1)
            && RemovingAnswer(s, key, [id], Some(x)) == Returned(Some(s.size - 1))
            && RemovingOrder(s, key, [id], Some(x)) == [] && !Circle(s'.nodes, [], s'.head, s'.tail)
  {
    MatchIndexIs(s.nodes, key, [id], x, 0);
    assert s.nodes[[id][0]].next == Succ([id], 0, HeadLink([id]));
    assert s.nodes[[id][0]].prev == Pred([id], 0, EndLink([id]));
    assert Target(s, key, [id], Some(x)) == Ref(id);
    assert Relinked(Relinked(s.nodes, id, Ref(id), Back), id, Ref(id), Forth)[id := Cleared] == s.nodes[id := Cleared];
  }

  // ---------------------------------------------------------------------------------------------
  // nth

  /** nth(index): index - 1 steps forward from the cursor for a positive index and -index steps
   *  back for a negative one, stopping on a nil link or on coming back to the node it started
   *  from; 0 stays. */
  ghost function NthStepped(s: ListState, index: int): ListState
  {
    if index > 0 then s.(current := Walk(s.nodes, s.current, index - 1, s.current, Forth))
    else if index < 0 then s.(current := Walk(s.nodes, s.current, -index, s.current, Back))
    else s
  }

  /** The position nth(index) reaches from position p of a ring of n: index - 1 places on for a
   *  positive index and -index places back for a negative one, or p again after a full turn. */
  function RingNth(p: nat, n: nat, index: int): (q: nat)
    requires p < n
    ensures q < n
  {
    if index > 0 then (if index - 1 < n then Wrap(p + index - 1, n) else p)
    else if index < 0 then (if -index < n then Wrap(p + index, n) else p)
    else p
  }

  /** nth(index) from the p-th node of a ring linked both ways goes round the ring index - 1 places
   *  forward for a positive index and -index places back for a negative one, and comes to rest
   *  where it started when that is a full turn or more; it answers the value it lands on. */
  lemma NthOnRing(s: ListState, order: seq<nat>, p: nat, index: int)
    requires Ring(s.nodes, order, s.head, s.tail) && p < |order| && s.current == Ref(order[p])
    ensures NthStepped(s, index) == s.(current := Ref(order[RingNth(p, |order|, index)]))
    ensures ValueAt(s.nodes, NthStepped(s, index).current) == Some(Values(s.nodes, order)[RingNth(p, |order|, index)])
  {
    if index > 0 {
      NthForthRing(s.nodes, order, p, index);
    } else if index < 0 {
      NthBackRing(s.nodes, order, p, index);
    }
    ValueOf(s.nodes, order, RingNth(p, |order|, index));
  }

  /** nth with a positive index on a ring walks index - 1 next links, back to the start after a
   *  full turn. */
  lemma NthForthRing(nodes: map<nat, LinkNode>, order: seq<nat>, p: nat, index: int)
    requires InArena(nodes, order) && Distinct(order) && Forward(nodes, order, HeadLink(order))
    requires p < |order| && index > 0
    ensures Walk(nodes, Ref(order[p]), index - 1, Ref(order[p]), Forth) == Ref(order[RingNth(p, |order|, index)])
  {
    DistinctUnique(order, p);
    WalkRing(nodes, order, p, p, index - 1);
    RingNthAhead(p, |order|, index);
  }

  /** index - 1 steps forward from p, stopping on coming back to p, end where nth says. */
  lemma RingNthAhead(p: nat, n: nat, index: int)
    requires p < n && index > 0
    ensures RingAhead(p, p, n, index - 1) == RingNth(p, n, index)
  {
    RingAheadSteps(p, p, n, index - 1);
  }

  /** nth with a negative index on a ring walks -index prev links, back to the start after a
   *  full turn. */
  lemma NthBackRing(nodes: map<nat, LinkNode>, order: seq<nat>, p: nat, index: int)
    requires InArena(nodes, order) && Distinct(order) && Backward(nodes, order, EndLink(order))
    requires p < |order| && index < 0
    ensures Walk(nodes, Ref(order[p]), -index, Ref(order[p]), Back) == Ref(order[RingNth(p, |order|, index)])
  {
    DistinctUnique(order, p);
    WalkBackRing(nodes, order, p, p, -index);
    RingNthBehind(p, |order|, index);
  }

  /** -index steps back from p, stopping on coming back to p, end where nth says. */
  lemma RingNthBehind(p: nat, n: nat, index: int)
    requires p < n && index < 0
    ensures RingBehind(p, p, n, -index) == RingNth(p, n, index)
  {
    RingBehindSteps(p, p, n, -index);
  }

  // ---------------------------------------------------------------------------------------------
  // find_by_index and at_index

  /** find_by_index(index): nil for an index outside 1..size; otherwise index - 1 next links from
   *  the head, raising NoMethodError when one is nil. */
  ghost function FoundByIndex(s: ListState, index: int): Outcome<Link>
  {
    if index > s.size || index < 1 then Returned(Nil)
    else match Chase(s.nodes, s.head, index - 1)
      case None => Raised(NoMethodError)
      case Some(node) => Returned(node)
  }

  /** find_by_index moves the cursor to the link it reaches, even a nil one. */
  ghost function AtIndexChased(s: ListState, index: int): ListState
  {
    if index > s.size || index < 1 then s
    else match Chase(s.nodes, s.head, index - 1)
      case None => s
      case Some(node) => s.(current := node)
  }

  /** On a counted ring, at_index(i) for i in 1..size puts the cursor on the i-th node and answers
   *  its value; any other index changes nothing and finds nil. */
  lemma AtIndexOnRing(s: ListState, order: seq<nat>, index: int)
    requires Circle(s.nodes, order, s.head, s.tail) && s.size == |order|
    ensures 1 <= index <= |order| ==> && FoundByIndex(s, index) == Returned(Ref(order[index - 1]))
                                      && AtIndexChased(s, index) == s.(current := Ref(order[index - 1]))
                                      && ValueAt(s.nodes, AtIndexChased(s, index).current) == Some(Values(s.nodes, order)[index - 1])
    ensures !(1 <= index <= |order|) ==> FoundByIndex(s, index) == Returned(Nil) && AtIndexChased(s, index) == s
  {
    if 1 <= index <= |order| {
      ChasedOnRing(s.nodes, order, index - 1);
    }
  }

  /** k next links from the head of a ring of next links reach its k-th node. */
  lemma ChasedOnRing(nodes: map<nat, LinkNode>, order: seq<nat>, k: nat)
    requires Chain(nodes, order, HeadLink(order)) && k < |order|
    ensures Chase(nodes, HeadLink(order), k) == Some(Ref(order[k]))
    ensures ValueAt(nodes, Ref(order[k])) == Some(Values(nodes, order)[k])
  {
    ChaseChain(nodes, order, HeadLink(order), 0, k);
    ValueOf(nodes, order, k);
  }

  // ---------------------------------------------------------------------------------------------
  // The list

  /** A CircularLinkedList: its arena of nodes, its key block and its fields. `order` names the
   *  nodes of the ring of next links from the head on, for the lemmas that describe its shape. */
  class CircularLinkedList {
    const arena: LinkArena
    const key: int -> int
    var head: Link
    var tail: Link
    var current: Link
    var size: int
    ghost var order: seq<nat>

    /** The fields and the nodes as one value. */
    function State(): ListState
      reads this, arena
    {
      ListState(arena.nodes, arena.nextId, head, tail, current, size)
    }

    /** The arena is closed and head, tail and cursor are nil or nodes of it. */
    ghost predicate Valid()
      reads this, arena
    {
      Wired(State())
    }

    /** The next links make a ring of the nodes of order: what find_by_value, to_a and clear
     *  walk. */
    ghost predicate Shaped()
      reads this, arena
    {
      Valid() && Circle(arena.nodes, order, head, tail)
    }

    /** The ring is linked both ways. */
    ghost predicate Ringed()
      reads this, arena
    {
      Valid() && Ring(arena.nodes, order, head, tail)
    }

    /** The size counts the nodes. */
    ghost predicate Counted()
      reads this
    {
      size == |order|
    }

    /** The values of the list from the head round to the tail. */
    ghost function Contents(): seq<int>
      reads this, arena
      requires Shaped()
    {
      Values(arena.nodes, order)
    }

    /** CircularLinkedList.new(*vs) { key }: a counted ring of vs linked both ways, with the cursor
     *  on the head when there is more than one value. */
    constructor (vs: seq<int>, key: int -> int)
      ensures Valid() && State() == Started(vs, Circular) && order == StartedOrder(vs, Circular) && this.key == key
      ensures Ringed() && Shaped() && Contents() == vs && Counted()
    {
      arena := new LinkArena();
      this.key := key;
      head, tail, current, size := Nil, Nil, Nil, 0;
      order := [];
      new;
      InsertEach(vs);
      if |vs| > 1 {
        var _ := First();
      }
      StartedRing(vs);
    }

    /** `vs.each { |value| insert(value) }`, from a list of size 0 as the constructor and sort!
     *  leave it, where no insert raises. */
    method InsertEach(vs: seq<int>)
      requires Ringed() && Counted() && current == tail
      modifies this, arena
      ensures Valid() && State() == InsertingAll(old(State()), vs, Circular)
      ensures order == InsertingAllOrder(old(State()), old(order), vs, Circular)
    {
      ghost var s0, o0 := State(), order;
      for i := 0 to |vs|
        invariant Valid() && State() == InsertingAll(s0, vs[..i], Circular) && order == InsertingAllOrder(s0, o0, vs[..i], Circular)
      {
        assert vs[..i + 1][..i] == vs[..i];
        var _ := Insert(vs[i]);
      }
      assert vs[..|vs|] == vs;
    }

    /** first */
    method First() returns (r: Option<int>)
      requires Valid()
      modifies this`current
      ensures Valid() && State() == Firsted(old(State())) && r == ValueAt(arena.nodes, current)
    {
      if head.Ref? {
        current := head;
      }
      r := ValueAt(arena.nodes, current);
    }

    /** next */
    method Next() returns (r: Option<int>)
      requires Valid()
      modifies this`current
      ensures Valid() && State() == Stepped(old(State()), Forth) && r == ValueAt(arena.nodes, current)
    {
      if current.Ref? && arena.nodes[current.id].next.Ref? {
        LinksOf(arena.nodes, arena.nextId, current.id);
        current := arena.nodes[current.id].next;
      }
      r := ValueAt(arena.nodes, current);
    }

    /** prev */
    method Prev() returns (r: Option<int>)
      requires Valid()
      modifies this`current
      ensures Valid() && State() == Stepped(old(State()), Back) && r == ValueAt(arena.nodes, current)
    {
      if current.Ref? && arena.nodes[current.id].prev.Ref? {
        LinksOf(arena.nodes, arena.nextId, current.id);
        current := arena.nodes[current.id].prev;
      }
      r := ValueAt(arena.nodes, current);
    }

    /** last */
    method Last() returns (r: Option<int>)
      requires Valid()
      modifies this`current
      ensures Valid() && State() == Lasted(old(State())) && r == ValueAt(arena.nodes, current)
    {
      if tail.Ref? {
        current := tail;
      }
      r := ValueAt(arena.nodes, current);
    }

    /** current: the cursor's value; on a ring, the value at the cursor's position. */
    method Current() returns (r: Option<int>)
      requires Valid()
      ensures r == ValueAt(arena.nodes, current)
      ensures Shaped() && Cursor(order, current) && order != [] ==>
                IndexOf(order, current.id) < |order| && r == Some(Contents()[IndexOf(order, current.id)])
    {
      r := ValueAt(arena.nodes, current);
      if Shaped() && Cursor(order, current) {
        CurrentOnList(State(), order);
      }
    }

    /** empty?: the size is 0; when the size counts the nodes, exactly when there are none. */
    method IsEmpty() returns (r: bool)
      ensures r == (size == 0) && (Counted() ==> (r <==> order == []))
    {
      r := size == 0;
    }

    /** nth(index): each step moves the cursor; the walk stops on coming back to its start. */
    method Nth(index: int) returns (r: Option<int>)
      requires Valid()
      modifies this`current
      ensures Valid() && State() == NthStepped(old(State()), index) && r == ValueAt(arena.nodes, current)
    {
      var position := current;
      if index > 0 {
        current := WalkLinks(arena, position, index - 1, position, Forth);
      } else if index < 0 {
        current := WalkLinks(arena, position, -index, position, Back);
      }
      r := ValueAt(arena.nodes, current);
    }

    /** find_by_index(index): the link it reaches becomes the cursor. */
    method FindByIndex(index: int) returns (r: Outcome<Link>)
      requires Valid()
      modifies this`current
      ensures Valid() && r == FoundByIndex(old(State()), index) && State() == AtIndexChased(old(State()), index)
    {
      if index > size || index < 1 {
        return Returned(Nil);
      }
      var node := ChaseLinks(arena, head, index - 1);
      if node.None? {
        return Raised(NoMethodError);
      }
      current := node.value;
      r := Returned(node.value);
    }

    /** at_index(index): find_by_index, then the cursor's value. */
    method AtIndex(index: int) returns (r: Outcome<Option<int>>)
      requires Valid()
      modifies this`current
      ensures Valid() && State() == AtIndexChased(old(State()), index)
      ensures r == if FoundByIndex(old(State()), index).Raised? then Raised(NoMethodError) else Returned(ValueAt(arena.nodes, current))
    {
      var found := FindByIndex(index);
      if found.Raised? {
        return Raised(found.error);
      }
      r := Returned(ValueAt(arena.nodes, current));
    }

    /** insert (and append): the new size. */
    method Insert(v: int) returns (r: Outcome<int>)
      requires Valid()
      modifies this, arena
      ensures Valid() && State() == Inserting(old(State()), v, Circular) && order == InsertingOrder(old(State()), old(order))
      ensures r == InsertingAnswer(old(State()), Circular)
    {
      ghost var s0 := State();
      order := InsertingOrder(s0, order);
      r := LinkAfter(current, v);
    }

    /** find_by_value(x): walks the ring of next links from the head round to the head. */
    method FindTarget(x: Option<int>, ghost walk: seq<nat>) returns (r: Outcome<Link>)
      requires Valid() && Trail(arena.nodes, walk, head) && FindHalts(arena.nodes, key, walk, head, size, x)
      ensures r == if FindRaises(arena.nodes, key, walk, head, size, x) then Raised(NoMethodError)
                   else Returned(Target(State(), key, walk, x))
      ensures r.Returned? ==> LinkIn(arena.nodes, r.value)
    {
      r := FindByValue(arena, key, head, size, x, walk);
    }

    /** insert_before(x, v): the new size, or NoMethodError. `walk` is the run of nodes from the
     *  head that find_by_value walks. */
    method InsertBefore(x: Option<int>, v: int, ghost walk: seq<nat>) returns (r: Outcome<int>)
      requires Valid() && Trail(arena.nodes, walk, head) && FindHalts(arena.nodes, key, walk, head, size, x)
      modifies this, arena
      ensures Valid() && State() == InsertingBefore(old(State()), key, walk, x, v)
      ensures order == if FindRaises(old(arena.nodes), key, walk, old(head), old(size), x) then old(order) else InsertingBeforeOrder(old(State()), key, walk, x)
      ensures r == InsertingBeforeAnswer(old(State()), key, walk, x)
    {
      ghost var s0 := State();
      var found := FindTarget(x, walk);
      if found.Raised? {
        return Raised(found.error);
      }
      r := LinkBefore(found.value, v);
      order := InsertingBeforeOrder(s0, key, walk, x);
    }

    /** insert_before after its find_by_value. */
    method LinkBefore(target: Link, v: int) returns (r: Outcome<int>)
      requires Valid() && LinkIn(arena.nodes, target)
      modifies this`head, this`tail, this`current, this`size, arena
      ensures Valid() && State() == InsertedBefore(old(State()), target, v) && r == InsertedBeforeAnswer(old(State()), target)
    {
      if size != 0 && head == target {
        r := LinkBeforeHead(v);
        return;
      }
      var node := arena.Call(v, target, CircleBefore);
      current := Ref(node);
      if size == 0 {
        head, tail := Ref(node), Ref(node);
      }
      size := size + 1;
      r := Returned(size);
    }

    /** insert_before the head, in a list whose size is not 0: the new node becomes the head,
     *  leading back to the tail, which leads on to it. */
    method LinkBeforeHead(v: int) returns (r: Outcome<int>)
      requires Valid() && size != 0
      modifies this`head, this`current, this`size, arena
      ensures Valid() && State() == InsertedBefore(old(State()), old(head), v) && r == InsertedBeforeAnswer(old(State()), old(head))
    {
      var node := arena.Call(v, head, CircleBefore);
      current := Ref(node);
      head := Ref(node);
      arena.SetPrev(node, tail);
      if tail.Nil? {
        return Raised(NoMethodError);
      }
      arena.SetNext(tail.id, Ref(node));
      size := size + 1;
      r := Returned(size);
    }

    /** prepend(v): insert_before the head's value, which the walk from the head finds at the head
     *  itself (or nil for a head with no value), so find_by_value neither raises nor goes round for
     *  ever. */
    method Prepend(v: int, ghost walk: seq<nat>) returns (r: Outcome<int>)
      requires Valid() && Trail(arena.nodes, walk, head)
      modifies this, arena
      ensures Valid() && State() == InsertingBefore(old(State()), key, walk, ValueAt(old(arena.nodes), old(head)), v)
      ensures order == InsertingBeforeOrder(old(State()), key, walk, ValueAt(old(arena.nodes), old(head)))
      ensures r == InsertingBeforeAnswer(old(State()), key, walk, ValueAt(old(arena.nodes), old(head)))
    {
      HeadValueFound(arena.nodes, key, walk, head, size);
      r := InsertBefore(ValueAt(arena.nodes, head), v, walk);
    }

    /** insert_after(x, v): the new size, or NoMethodError. */
    method InsertAfter(x: Option<int>, v: int, ghost walk: seq<nat>) returns (r: Outcome<int>)
      requires Valid() && Trail(arena.nodes, walk, head) && FindHalts(arena.nodes, key, walk, head, size, x)
      modifies this, arena
      ensures Valid() && State() == InsertingAfter(old(State()), key, walk, x, v)
      ensures order == if FindRaises(old(arena.nodes), key, walk, old(head), old(size), x) then old(order) else InsertingAfterOrder(old(State()), key, walk, x)
      ensures r == InsertingAfterAnswer(old(State()), key, walk, x)
    {
      ghost var s0 := State();
      var found := FindTarget(x, walk);
      if found.Raised? {
        return Raised(found.error);
      }
      r := LinkAfter(found.value, v);
      order := InsertingAfterOrder(s0, key, walk, x);
    }

    /** insert_after after its find_by_value, and insert with the cursor as the target. */
    method LinkAfter(target: Link, v: int) returns (r: Outcome<int>)
      requires Valid() && LinkIn(arena.nodes, target)
      modifies this`head, this`tail, this`current, this`size, arena
      ensures Valid() && State() == InsertedAfter(old(State()), target, v)
      ensures r == InsertingAnswer(old(State()).(current := target), Circular)
    {
      ghost var s0 := State().(current := target);
      var node := arena.Call(v, target, CircleAfter);
      current := Ref(node);
      if size == 0 {
        head, tail := Ref(node), Ref(node);
      } else if tail == target {
        tail := Ref(node);
        arena.SetNext(node, head);
        if head.Nil? {
          return Raised(NoMethodError);
        }
        arena.SetPrev(head.id, Ref(node));
      }
      size := size + 1;
      r := Returned(size);
    }

    /** remove(x): nil without a match, else the remaining size; NoMethodError when find_by_value
     *  meets a cleared node or a link remove follows is nil. */
    method Remove(x: Option<int>, ghost walk: seq<nat>) returns (r: Outcome<Option<int>>)
      requires Valid() && Trail(arena.nodes, walk, head) && FindHalts(arena.nodes, key, walk, head, size, x)
      modifies this, arena
      ensures Valid() && State() == Removing(old(State()), key, walk, x)
      ensures order == if FindRaises(old(arena.nodes), key, walk, old(head), old(size), x) then old(order) else RemovingOrder(old(State()), key, walk, x)
      ensures r == RemovingAnswer(old(State()), key, walk, x)
    {
      ghost var s0 := State();
      var found := FindTarget(x, walk);
      if found.Raised? {
        return Raised(found.error);
      }
      r := Unlink(found.value);
      order := RemovingOrder(s0, key, walk, x);
    }

    /** remove after its find_by_value. */
    method Unlink(target: Link) returns (r: Outcome<Option<int>>)
      requires Valid() && LinkIn(arena.nodes, target)
      modifies this`head, this`tail, this`current, this`size, arena
      ensures Valid() && State() == RemovedAt(old(State()), target) && r == RemovedAnswer(old(State()), target)
    {
      if target.Nil? {
        return Returned(None);
      }
      if size == 1 {
        LinksOf(arena.nodes, arena.nextId, target.id);
        current, head, tail := Nil, Nil, Nil;
        var _ := arena.RemoveNode(target.id);
        size := size - 1;
        r := Returned(Some(size));
      } else if target == head {
        r := UnlinkHead();
      } else if target == tail {
        r := UnlinkTail();
      } else {
        r := UnlinkMiddle(target.id);
      }
    }

    /** remove of the head, in a list whose size is not 1: the node after it becomes the head
     *  and the cursor, leading back to the node before it, and the tail leads on to it. */
    method UnlinkHead() returns (r: Outcome<Option<int>>)
      requires Valid() && head.Ref? && size != 1
      modifies this`head, this`current, this`size, arena
      ensures Valid() && State() == RemovedAt(old(State()), old(head)) && r == RemovedAnswer(old(State()), old(head))
    {
      var target := head.id;
      LinksOf(arena.nodes, arena.nextId, target);
      var t := arena.nodes[target];
      current := t.next;
      if current.Nil? {
        return Raised(NoMethodError);
      }
      arena.SetPrev(current.id, t.prev);
      if tail.Nil? {
        return Raised(NoMethodError);
      }
      arena.SetNext(tail.id, current);
      head := current;
      var _ := arena.RemoveNode(target);
      size := size - 1;
      r := Returned(Some(size));
    }

    /** remove of the tail, in a list whose size is not 1, that is not the head: the node before
     *  it becomes the tail and the cursor, leading on to the node after it, and the head leads
     *  back to it. */
    method UnlinkTail() returns (r: Outcome<Option<int>>)
      requires Valid() && tail.Ref? && tail != head && size != 1
      modifies this`tail, this`current, this`size, arena
      ensures Valid() && State() == RemovedAt(old(State()), old(tail)) && r == RemovedAnswer(old(State()), old(tail))
    {
      var target := tail.id;
      LinksOf(arena.nodes, arena.nextId, target);
      var t := arena.nodes[target];
      current := t.prev;
      if current.Nil? {
        return Raised(NoMethodError);
      }
      arena.SetNext(current.id, t.next);
      if head.Nil? {
        return Raised(NoMethodError);
      }
      arena.SetPrev(head.id, current);
      tail := current;
      var _ := arena.RemoveNode(target);
      size := size - 1;
      r := Returned(Some(size));
    }

    /** remove of a node that is neither head nor tail, in a list whose size is not 1: the node
     *  before it becomes the cursor, and its neighbours are linked past it both ways. */
    method UnlinkMiddle(target: nat) returns (r: Outcome<Option<int>>)
      requires Valid() && target in arena.nodes && Ref(target) != head && Ref(target) != tail && size != 1
      modifies this`current, this`size, arena
      ensures Valid() && State() == RemovedAt(old(State()), Ref(target)) && r == RemovedAnswer(old(State()), Ref(target))
    {
      LinksOf(arena.nodes, arena.nextId, target);
      var t := arena.nodes[target];
      current := t.prev;
      if current.Nil? {
        return Raised(NoMethodError);
      }
      arena.SetNext(current.id, t.next);
      if t.next.Nil? {
        return Raised(NoMethodError);
      }
      arena.SetPrev(t.next.id, current);
      var _ := arena.RemoveNode(target);
      size := size - 1;
      r := Returned(Some(size));
    }

    /** to_a: the values met from the head on until the head comes round again (or nil); the
     *  cursor moves to the head. */
    method ToArray(ghost walk: seq<nat>, ghost end: Link) returns (result: seq<int>)
      requires Valid() && Walkable(arena.nodes, walk, head, end)
      modifies this`current
      ensures Valid() && result == Values(arena.nodes, walk) && State() == old(State()).(current := old(head))
      ensures old(Shaped()) ==> Shaped()
    {
      result := ToA(arena, head, walk, end);
      current := head;
    }

    /** clear: the number of nodes cleared. */
    method Clear(ghost walk: seq<nat>, ghost end: Link) returns (rc: int)
      requires Valid() && Walkable(arena.nodes, walk, head, end)
      modifies this, arena
      ensures Ringed() && Counted() && State() == Clearing(old(State()), walk) && order == [] && rc == |walk|
    {
      rc := ClearNodes(arena, head, walk, end);
      current, head, tail, size := Nil, Nil, Nil, 0;
      order := [];
    }

    /** sort!(direction) { block }: the values merge-sorted by the active condition, clear, and
     *  each sorted value inserted again; answers the size. */
    method Sort(direction: SortOrder, ghost walk: seq<nat>, ghost end: Link) returns (r: int)
      requires Valid() && Walkable(arena.nodes, walk, head, end)
      modifies this, arena
      ensures Valid() && r == size
      ensures var sorted := MergeSorted(ActiveCondition(key, direction), Values(old(arena.nodes), walk));
              && State() == InsertingAll(Clearing(old(State()), walk), sorted, Circular)
              && order == InsertingAllOrder(Clearing(old(State()), walk), [], sorted, Circular)
              && Ringed() && Shaped() && Contents() == sorted && Counted()
    {
      var values := ToArray(walk, end);
      var sorted := MergeSort(ActiveCondition(key, direction), values);
      var _ := Clear(walk, end);
      AppendingAllRing(State(), order, sorted);
      InsertEach(sorted);
      r := size;
    }
  }
}
