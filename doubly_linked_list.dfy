/**
 * Lists::DoublyLinkedList: a list linked both ways. insert and insert_after make the new node
 * with :after, insert_before with :before, and remove unlinks the match from both of its
 * neighbours. LinkNode.new rewires only the anchor's link, so a node put in between two nodes is
 * not linked from the far one; the lemmas say when the result is again a line both ways
 * (DoubleLine), and what is left of the shape when it is not. The Mended definitions are the
 * inserts as evidently meant, linking such a node from both neighbours (MendedSpliced) and
 * appending when nothing matches; the lemmas about them prove that they keep the line.
 */
module DoublyLinkedLists {
  import opened Wrappers
  import opened LinkNodes
  import opened LinkedCommons

  // ---------------------------------------------------------------------------------------------
  // Lines under LinkNode.new(value, anchor, :after) and (value, anchor, :before)

  /** A node made after the tail of a line linked both ways becomes its new tail, and the line
   *  is still linked both ways. */
  lemma DoubleLineAppended(nodes: map<nat, LinkNode>, order: seq<nat>, head: Link, tail: Link, id: nat, v: int)
    requires DoubleLine(nodes, order, head, tail) && order != [] && id !in nodes
    ensures var m := Spliced(nodes, id, v, tail, After);
            && DoubleLine(m, order + [id], head, Ref(id))
            && Values(m, order + [id]) == Values(nodes, order) + [v]
  {
    var n := |order|;
    var m := Spliced(nodes, id, v, tail, After);
    LineSplicedAfter(nodes, order, head, tail, n - 1, id, v, After);
    SplicedBetween(nodes, id, v, order[n - 1], After);
    SplicedFrame(nodes, id, v, Ref(order[n - 1]), After);
    assert UniqueAt(order, n - 1);
    assert nodes[order[0]].prev == Pred(order, 0, Nil);
    BackwardInserted(nodes, m, order, n, id, Nil, Nil);
    InsertedAtEnd(order, id, Values(nodes, order), v);
  }

  /** A node made after the p-th node of a line linked both ways, short of the tail, is on the
   *  forward line at p + 1, but the node after it still leads back to the p-th node: the line is
   *  no longer linked both ways. */
  lemma SplicedAfterInterior(nodes: map<nat, LinkNode>, order: seq<nat>, head: Link, tail: Link, p: nat, id: nat, v: int)
    requires DoubleLine(nodes, order, head, tail) && p + 1 < |order| && id !in nodes
    ensures var m := Spliced(nodes, id, v, Ref(order[p]), After); var o' := Inserted(order, p + 1, id);
            && Line(m, o', head, tail)
            && Values(m, o') == Values(nodes, order)[..p + 1] + [v] + Values(nodes, order)[p + 1..]
            && m[order[p + 1]].prev == Ref(order[p]) && !DoubleLine(m, o', head, tail)
  {
    var m := Spliced(nodes, id, v, Ref(order[p]), After);
    var o' := Inserted(order, p + 1, id);
    LineSplicedAfter(nodes, order, head, tail, p, id, v, After);
    SplicedFrame(nodes, id, v, Ref(order[p]), After);
    DistinctAt(order, p + 1, p);
    assert nodes[order[p + 1]].prev == Pred(order, p + 1, Nil);
    assert o'[p + 2] == order[p + 1];
    assert m[o'[p + 2]].prev != Pred(o', p + 2, Nil);
  }

  /** A node made in front of the head of a line linked both ways becomes its new head. */
  lemma SplicedBeforeHead(nodes: map<nat, LinkNode>, order: seq<nat>, head: Link, tail: Link, id: nat, v: int)
    requires DoubleLine(nodes, order, head, tail) && order != [] && id !in nodes
    ensures var m := Spliced(nodes, id, v, head, Before);
            && DoubleLine(m, [id] + order, Ref(id), tail)
            && Values(m, [id] + order) == [v] + Values(nodes, order)
  {
    var m := Spliced(nodes, id, v, head, Before);
    LinksSplicedBeforeHead(nodes, order, id, v);
    SplicedFrame(nodes, id, v, head, Before);
    assert id !in order;
    InsertedValues(nodes, m, order, 0, id, v);
    assert Inserted(order, 0, id) == [id] + order;
  }

  /** The links after a node is made in front of the head of a line linked both ways. */
  lemma LinksSplicedBeforeHead(nodes: map<nat, LinkNode>, order: seq<nat>, id: nat, v: int)
    requires InArena(nodes, order) && Distinct(order) && Forward(nodes, order, Nil) && Backward(nodes, order, Nil)
    requires order != [] && id !in nodes
    ensures var m := Spliced(nodes, id, v, Ref(order[0]), Before); var o' := Inserted(order, 0, id);
            InArena(m, o') && Forward(m, o', Nil) && Backward(m, o', Nil)
  {
    var n := |order|;
    var m := Spliced(nodes, id, v, Ref(order[0]), Before);
    SplicedBetween(nodes, id, v, order[0], Before);
    SplicedFrame(nodes, id, v, Ref(order[0]), Before);
    assert UniqueAt(order, 0);
    assert nodes[order[0]].prev == Pred(order, 0, Nil);
    assert nodes[order[n - 1]].next == Succ(order, n - 1, Nil);
    ForwardInserted(nodes, m, order, 0, id, Nil, Nil);
    BackwardInserted(nodes, m, order, 0, id, Nil, Nil);
  }

  /** A node made in front of the p-th node of a line linked both ways, past the head, leads on
   *  to it and back to the node before it, and the p-th node leads back to it; but the node
   *  before still leads on to the p-th node, so the new node is not on the forward line, which
   *  is no longer linked both ways. */
  lemma SplicedBeforeInterior(nodes: map<nat, LinkNode>, order: seq<nat>, head: Link, tail: Link, p: nat, id: nat, v: int)
    requires DoubleLine(nodes, order, head, tail) && 0 < p < |order| && id !in nodes
    ensures var m := Spliced(nodes, id, v, Ref(order[p]), Before);
            && Line(m, order, head, tail) && Values(m, order) == Values(nodes, order)
            && m[order[p]].prev == Ref(id) && m[id].next == Ref(order[p]) && m[id].prev == Ref(order[p - 1])
            && !DoubleLine(m, order, head, tail)
  {
    SplicedBeforeLinks(nodes, order, head, tail, p, id, v);
    assert nodes[order[p]].prev == Pred(order, p, Nil);
  }

  /** The forward line and the links of the new node in SplicedBeforeInterior. */
  lemma SplicedBeforeLinks(nodes: map<nat, LinkNode>, order: seq<nat>, head: Link, tail: Link, p: nat, id: nat, v: int)
    requires DoubleLine(nodes, order, head, tail) && 0 < p < |order| && id !in nodes
    ensures var m := Spliced(nodes, id, v, Ref(order[p]), Before);
            && Line(m, order, head, tail) && Values(m, order) == Values(nodes, order)
            && m[order[p]].prev == Ref(id) && m[id].next == Ref(order[p]) && m[id].prev == Ref(order[p - 1])
  {
    var m := Spliced(nodes, id, v, Ref(order[p]), Before);
    SplicedBetween(nodes, id, v, order[p], Before);
    SplicedBeforeKeepsNext(nodes, order, p, id, v, Before);
    SameForward(nodes, m, order, Nil);
  }

  // ---------------------------------------------------------------------------------------------
  // insert (append)

  /** insert with the cursor on the tail (or on nothing, in an empty list) appends v: the list is
   *  still a line both ways and the cursor stays on the tail. */
  lemma AppendKeepsDoubleLine(s: ListState, order: seq<nat>, v: int)
    requires Wired(s) && DoubleLine(s.nodes, order, s.head, s.tail) && s.current == s.tail
    ensures var s' := Inserting(s, v, Doubly); var o' := InsertingOrder(s, order);
            && DoubleLine(s'.nodes, o', s'.head, s'.tail) && o' == order + [s.nextId] && s'.current == s'.tail
            && Values(s'.nodes, o') == Values(s.nodes, order) + [v] && s'.size == s.size + 1
  {
    Unused(s.nodes, s.nextId);
    var id := s.nextId;
    var m := Spliced(s.nodes, id, v, s.current, After);
    assert Inserting(s, v, Doubly) == ListState(m, id + 1, if s.head.Nil? then Ref(id) else s.head, Ref(id), Ref(id), s.size + 1);
    if order == [] {
      LineOfOne(s.nodes, id, v, After);
    } else {
      IndexOfAt(order, |order| - 1);
      DoubleLineAppended(s.nodes, order, s.head, s.tail, id, v);
      assert Inserted(order, |order|, id) == order + [id];
    }
  }

  /** insert with the cursor on a node short of the tail puts v after it on the forward line, but
   *  the node after the new one still leads back to the cursor's old node. */
  lemma InsertInteriorStalePrev(s: ListState, order: seq<nat>, v: int)
    requires Wired(s) && DoubleLine(s.nodes, order, s.head, s.tail)
    requires s.current.Ref? && s.current.id in order && IndexOf(order, s.current.id) < |order| - 1
    ensures var s' := Inserting(s, v, Doubly); var o' := InsertingOrder(s, order); var p := IndexOf(order, s.current.id);
            && Line(s'.nodes, o', s'.head, s'.tail) && |o'| == |order| + 1 && s'.current == Ref(o'[p + 1])
            && Values(s'.nodes, o') == Values(s.nodes, order)[..p + 1] + [v] + Values(s.nodes, order)[p + 1..]
            && s'.nodes[o'[p + 2]].prev == Ref(o'[p]) && !DoubleLine(s'.nodes, o', s'.head, s'.tail)
  {
    InsertingInterior(s, order, v);
    StaleAfterInterior(s, Inserting(s, v, Doubly), order, InsertingOrder(s, order), IndexOf(order, s.current.id),
                       s.nextId, v);
  }

  /** insert with the cursor on a node short of the tail: the node made after the cursor's, in
   *  the order after it. */
  lemma InsertingInterior(s: ListState, order: seq<nat>, v: int)
    requires Wired(s) && DoubleLine(s.nodes, order, s.head, s.tail)
    requires s.current.Ref? && s.current.id in order && IndexOf(order, s.current.id) < |order| - 1
    ensures s.nextId !in s.nodes
    ensures Inserting(s, v, Doubly)
            == ListState(Spliced(s.nodes, s.nextId, v, Ref(order[IndexOf(order, s.current.id)]), After), s.nextId + 1,
                         s.head, s.tail, Ref(s.nextId), s.size + 1)
    ensures InsertingOrder(s, order) == Inserted(order, IndexOf(order, s.current.id) + 1, s.nextId)
  {
    Unused(s.nodes, s.nextId);
    IndexOfAt(order, IndexOf(order, s.current.id));
    DistinctAt(order, |order| - 1, IndexOf(order, s.current.id));
    assert s.current == Ref(order[IndexOf(order, s.current.id)]) && s.tail != s.current && !s.head.Nil?;
  }

  /** InsertInteriorStalePrev, once the arena with the new node is known. */
  lemma StaleAfterInterior(s: ListState, s': ListState, order: seq<nat>, o': seq<nat>, p: nat, id: nat, v: int)
    requires DoubleLine(s.nodes, order, s.head, s.tail) && p + 1 < |order| && id !in s.nodes
    requires s' == ListState(Spliced(s.nodes, id, v, Ref(order[p]), After), id + 1, s.head, s.tail, Ref(id), s.size + 1)
    requires o' == Inserted(order, p + 1, id)
    ensures && Line(s'.nodes, o', s'.head, s'.tail) && |o'| == |order| + 1 && s'.current == Ref(o'[p + 1])
            && Values(s'.nodes, o') == Values(s.nodes, order)[..p + 1] + [v] + Values(s.nodes, order)[p + 1..]
            && s'.nodes[o'[p + 2]].prev == Ref(o'[p]) && !DoubleLine(s'.nodes, o', s'.head, s'.tail)
  {
    SplicedAfterInterior(s.nodes, order, s.head, s.tail, p, id, v);
    assert o'[p + 2] == order[p + 1] && o'[p] == order[p];
  }

  /** Inserting each of vs from the tail appends them all in order, linked both ways. */
  lemma {:induction false} AppendingAll(s: ListState, order: seq<nat>, vs: seq<int>)
    requires Wired(s) && DoubleLine(s.nodes, order, s.head, s.tail) && s.current == s.tail
    ensures var s' := InsertingAll(s, vs, Doubly); var o' := InsertingAllOrder(s, order, vs, Doubly);
            && DoubleLine(s'.nodes, o', s'.head, s'.tail) && s'.current == s'.tail && |o'| == |order| + |vs|
            && Values(s'.nodes, o') == Values(s.nodes, order) + vs && s'.size == s.size + |vs|
    decreases |vs|
  {
    if vs != [] {
      var init, last := vs[..|vs| - 1], vs[|vs| - 1];
      var s1, o1 := InsertingAll(s, init, Doubly), InsertingAllOrder(s, order, init, Doubly);
      AppendingAll(s, order, init);
      AppendKeepsDoubleLine(s1, o1, last);
      InsertingLast(s, order, vs, Doubly);
      InitLast(Values(s.nodes, order), vs);
    }
  }

  /** A list made from vs is a line of vs linked both ways, counted by its size, with the cursor
   *  on the head when there are more values than one. */
  lemma StartedDoubleLine(vs: seq<int>)
    ensures var s := Started(vs, Doubly); var o := StartedOrder(vs, Doubly);
            && DoubleLine(s.nodes, o, s.head, s.tail) && Values(s.nodes, o) == vs && s.size == |vs| && |o| == |vs|
            && s.current == (if |vs| > 1 then s.head else s.tail)
  {
    AppendingAll(Initial, [], vs);
  }

  // ---------------------------------------------------------------------------------------------
  // insert_before (prepend)

  /** insert_before: nothing when find_by_value raises; otherwise a node made in front of the
   *  target with :before (unlinked without one); it is the cursor when there is a target, the head
   *  when the target was the head (or both are nil), and the tail of a list without one. */
  ghost function InsertingBefore(s: ListState, key: int -> int, order: seq<nat>, at: Option<int>, v: int): ListState
    requires Wired(s) && InArena(s.nodes, order) && Filled(s.nodes, order)
  {
    if FindRaises(s.nodes, key, order, s.head, s.size, at) then s else InsertedBefore(s, Target(s, key, order, at), v)
  }

  /** insert_before once find_by_value has answered the target. */
  ghost function InsertedBefore(s: ListState, target: Link, v: int): ListState
    requires Wired(s) && LinkIn(s.nodes, target)
  {
    Unused(s.nodes, s.nextId);
    var id := s.nextId;
    ListState(Spliced(s.nodes, id, v, target, Before), id + 1,
              if s.head == target then Ref(id) else s.head,
              if s.tail.Nil? then Ref(id) else s.tail,
              if target.Ref? then Ref(id) else s.current, s.size + 1)
  }

  /** The nodes of the forward line after insert_before: the new node in front of the head when
   *  the head matched, and alone in a list that was empty; a node made in front of a later match,
   *  or without one, is not on it. */
  ghost function InsertingBeforeOrder(s: ListState, key: int -> int, order: seq<nat>, at: Option<int>): seq<nat>
    requires InArena(s.nodes, order) && Filled(s.nodes, order)
  {
    if order == [] then [s.nextId]
    else if Target(s, key, order, at) == HeadLink(order) then [s.nextId] + order
    else order
  }

  /** insert_before the head puts v in front of it: the list is still a line both ways, with the
   *  new node as head and cursor. */
  lemma InsertBeforeHead(s: ListState, key: int -> int, order: seq<nat>, x: int, v: int)
    requires Wired(s) && DoubleLine(s.nodes, order, s.head, s.tail)
    requires order != [] && s.size != 0 && MatchIndex(s.nodes, key, order, x) == 0
    ensures var s' := InsertingBefore(s, key, order, Some(x), v); var o' := InsertingBeforeOrder(s, key, order, Some(x));
            && DoubleLine(s'.nodes, o', s'.head, s'.tail) && o' == [s.nextId] + order && s'.current == s'.head
            && Values(s'.nodes, o') == [v] + Values(s.nodes, order) && s'.size == s.size + 1
  {
    Unused(s.nodes, s.nextId);
    assert Target(s, key, order, Some(x)) == s.head;
    SplicedBeforeHead(s.nodes, order, s.head, s.tail, s.nextId, v);
  }

  /** insert_before a node past the head leaves the forward line as it was, with the new node
   *  linked to the match and its predecessor but reached from neither's next: the match leads
   *  back to a node that is not on the line. */
  lemma InsertBeforeInteriorHidden(s: ListState, key: int -> int, order: seq<nat>, x: int, v: int)
    requires Wired(s) && DoubleLine(s.nodes, order, s.head, s.tail)
    requires s.size != 0 && 0 < MatchIndex(s.nodes, key, order, x) < |order|
    ensures var s' := InsertingBefore(s, key, order, Some(x), v); var o' := InsertingBeforeOrder(s, key, order, Some(x));
            var i := MatchIndex(s.nodes, key, order, x);
            && Line(s'.nodes, o', s'.head, s'.tail) && o' == order && Values(s'.nodes, o') == Values(s.nodes, order)
            && s'.current == Ref(s.nextId) && s.nextId !in order && s'.nodes[order[i]].prev == Ref(s.nextId)
            && !DoubleLine(s'.nodes, o', s'.head, s'.tail) && s'.size == s.size + 1
  {
    Unused(s.nodes, s.nextId);
    var i, id := MatchIndex(s.nodes, key, order, x), s.nextId;
    var m := Spliced(s.nodes, id, v, Ref(order[i]), Before);
    assert Target(s, key, order, Some(x)) == Ref(order[i]);
    DistinctAt(order, 0, i);
    assert InsertingBefore(s, key, order, Some(x), v) == ListState(m, id + 1, s.head, s.tail, Ref(id), s.size + 1);
    assert InsertingBeforeOrder(s, key, order, Some(x)) == order;
    SplicedBeforeInterior(s.nodes, order, s.head, s.tail, i, id, v);
  }

  /** insert_before on an empty list makes a line of one, as head and tail; the cursor does not
   *  move. */
  lemma InsertBeforeIntoEmpty(s: ListState, key: int -> int, at: Option<int>, v: int)
    requires Wired(s) && DoubleLine(s.nodes, [], s.head, s.tail)
    ensures var s' := InsertingBefore(s, key, [], at, v); var o' := InsertingBeforeOrder(s, key, [], at);
            && DoubleLine(s'.nodes, o', s'.head, s'.tail) && o' == [s.nextId] && Values(s'.nodes, o') == [v]
            && s'.current == s.current
  {
    Unused(s.nodes, s.nextId);
    LineOfOne(s.nodes, s.nextId, v, Before);
  }

  /** insert_before a value nothing matches makes an unlinked node and counts it, but leaves the
   *  list and the cursor as they were. */
  lemma InsertBeforeAbsent(s: ListState, key: int -> int, order: seq<nat>, at: Option<int>, v: int)
    requires Wired(s) && DoubleLine(s.nodes, order, s.head, s.tail)
    requires order != [] && Target(s, key, order, at) == Nil
    ensures var s' := InsertingBefore(s, key, order, at, v);
            && s'.nodes == s.nodes[s.nextId := LinkNode(Some(v), Nil, Nil)] && s.nextId !in order
            && DoubleLine(s'.nodes, order, s'.head, s'.tail) && Values(s'.nodes, order) == Values(s.nodes, order)
            && s'.head == s.head && s'.tail == s.tail && s'.current == s.current
            && InsertingBeforeOrder(s, key, order, at) == order && s'.size == s.size + 1
  {
    Unused(s.nodes, s.nextId);
    assert s.nextId !in order;
    assert Values(s.nodes[s.nextId := LinkNode(Some(v), Nil, Nil)], order) == Values(s.nodes, order);
  }

  /** prepend on a counted list with nodes is insert_before the head's own value, which matches
   *  the head: v becomes the new head. */
  lemma PrependOnDoubleLine(s: ListState, key: int -> int, order: seq<nat>, v: int)
    requires Wired(s) && DoubleLine(s.nodes, order, s.head, s.tail) && order != [] && s.size != 0
    ensures var at := ValueAt(s.nodes, s.head);
            var s' := InsertingBefore(s, key, order, at, v); var o' := InsertingBeforeOrder(s, key, order, at);
            && DoubleLine(s'.nodes, o', s'.head, s'.tail) && o' == [s.nextId] + order && s'.current == s'.head
            && Values(s'.nodes, o') == [v] + Values(s.nodes, order)
  {
    var x := s.nodes[order[0]].value.value;
    assert ValueAt(s.nodes, s.head) == Some(x);
    assert MatchByValue(key, s.nodes[order[0]], x);
    MatchIndexIs(s.nodes, key, order, x, 0);
    InsertBeforeHead(s, key, order, x, v);
  }

  // ---------------------------------------------------------------------------------------------
  // insert_after

  /** insert_after: nothing when find_by_value raises; otherwise a node made after the target with
   *  :after (unlinked without one); it is the cursor, the head of a list without one, and the tail
   *  when the target was the tail. */
  ghost function InsertingAfter(s: ListState, key: int -> int, order: seq<nat>, at: Option<int>, v: int): ListState
    requires Wired(s) && InArena(s.nodes, order) && Filled(s.nodes, order)
  {
    if FindRaises(s.nodes, key, order, s.head, s.size, at) then s else InsertedAfter(s, Target(s, key, order, at), v)
  }

  /** insert_after once find_by_value has answered the target. */
  ghost function InsertedAfter(s: ListState, target: Link, v: int): ListState
    requires Wired(s) && LinkIn(s.nodes, target)
  {
    Unused(s.nodes, s.nextId);
    var id := s.nextId;
    ListState(Spliced(s.nodes, id, v, target, After), id + 1,
              if s.head.Nil? then Ref(id) else s.head,
              if s.tail == target then Ref(id) else s.tail,
              Ref(id), s.size + 1)
  }

  /** The nodes of the forward line after insert_after: the new node after the match, or alone
   *  in a list that was empty; a node made without a match is not on it. */
  ghost function InsertingAfterOrder(s: ListState, key: int -> int, order: seq<nat>, at: Option<int>): seq<nat>
    requires InArena(s.nodes, order) && Filled(s.nodes, order)
  {
    if order == [] then [s.nextId]
    else if at.Some? && Target(s, key, order, at).Ref? then Inserted(order, MatchIndex(s.nodes, key, order, at.value) + 1, s.nextId)
    else order
  }

  /** insert_after the tail appends v: the list is still a line both ways, with the new node as
   *  tail and cursor. */
  lemma InsertAfterTail(s: ListState, key: int -> int, order: seq<nat>, x: int, v: int)
    requires Wired(s) && DoubleLine(s.nodes, order, s.head, s.tail)
    requires order != [] && s.size != 0 && MatchIndex(s.nodes, key, order, x) == |order| - 1
    ensures var s' := InsertingAfter(s, key, order, Some(x), v); var o' := InsertingAfterOrder(s, key, order, Some(x));
            && DoubleLine(s'.nodes, o', s'.head, s'.tail) && o' == order + [s.nextId] && s'.current == s'.tail
            && Values(s'.nodes, o') == Values(s.nodes, order) + [v] && s'.size == s.size + 1
  {
    Unused(s.nodes, s.nextId);
    assert Target(s, key, order, Some(x)) == s.tail;
    DoubleLineAppended(s.nodes, order, s.head, s.tail, s.nextId, v);
    assert Inserted(order, |order|, s.nextId) == order + [s.nextId];
  }

  /** insert_after a node short of the tail puts v after it on the forward line, but the node
   *  after the new one still leads back to the match. */
  lemma InsertAfterInteriorStalePrev(s: ListState, key: int -> int, order: seq<nat>, x: int, v: int)
    requires Wired(s) && DoubleLine(s.nodes, order, s.head, s.tail)
    requires s.size != 0 && MatchIndex(s.nodes, key, order, x) < |order| - 1
    ensures var s' := InsertingAfter(s, key, order, Some(x), v); var o' := InsertingAfterOrder(s, key, order, Some(x));
            var i := MatchIndex(s.nodes, key, order, x);
            && Line(s'.nodes, o', s'.head, s'.tail) && o' == Inserted(order, i + 1, s.nextId) && s'.current == Ref(s.nextId)
            && Values(s'.nodes, o') == Values(s.nodes, order)[..i + 1] + [v] + Values(s.nodes, order)[i + 1..]
            && s'.nodes[order[i + 1]].prev == Ref(order[i]) && !DoubleLine(s'.nodes, o', s'.head, s'.tail)
  {
    Unused(s.nodes, s.nextId);
    var i := MatchIndex(s.nodes, key, order, x);
    assert Target(s, key, order, Some(x)) == Ref(order[i]);
    DistinctAt(order, |order| - 1, i);
    SplicedAfterInterior(s.nodes, order, s.head, s.tail, i, s.nextId, v);
  }

  /** insert_after on an empty list makes a line of one, as head, tail and cursor. */
  lemma InsertAfterIntoEmpty(s: ListState, key: int -> int, at: Option<int>, v: int)
    requires Wired(s) && DoubleLine(s.nodes, [], s.head, s.tail)
    ensures var s' := InsertingAfter(s, key, [], at, v); var o' := InsertingAfterOrder(s, key, [], at);
            && DoubleLine(s'.nodes, o', s'.head, s'.tail) && o' == [s.nextId] && Values(s'.nodes, o') == [v]
            && s'.current == s'.head
  {
    Unused(s.nodes, s.nextId);
    LineOfOne(s.nodes, s.nextId, v, After);
  }

  /** insert_after a value nothing matches leaves the list as it was, counts one more, and puts
   *  the cursor on an unlinked node that is not on it. */
  lemma InsertAfterAbsentFloats(s: ListState, key: int -> int, order: seq<nat>, at: Option<int>, v: int)
    requires Wired(s) && DoubleLine(s.nodes, order, s.head, s.tail)
    requires order != [] && Target(s, key, order, at) == Nil
    ensures var s' := InsertingAfter(s, key, order, at, v);
            && s'.nodes == s.nodes[s.nextId := LinkNode(Some(v), Nil, Nil)] && s.nextId !in order
            && DoubleLine(s'.nodes, order, s'.head, s'.tail) && Values(s'.nodes, order) == Values(s.nodes, order)
            && s'.head == s.head && s'.tail == s.tail && s'.current == Ref(s.nextId)
            && InsertingAfterOrder(s, key, order, at) == order && s'.size == s.size + 1
  {
    Unused(s.nodes, s.nextId);
    assert s.nextId !in order;
    assert Values(s.nodes[s.nextId := LinkNode(Some(v), Nil, Nil)], order) == Values(s.nodes, order);
  }

  // ---------------------------------------------------------------------------------------------
  // insert, insert_before and insert_after as evidently meant: the node is made with the corrected
  // LinkNode.new (MendedSpliced), and with no target it goes after the tail

  /** The corrected LinkNode.new(v, p-th node, :after) on a line linked both ways puts the new node
   *  at p + 1 on both links; after the tail it is the new tail. */
  lemma MendedSplicedAfterLine(nodes: map<nat, LinkNode>, order: seq<nat>, head: Link, tail: Link, p: nat, id: nat, v: int)
    requires DoubleLine(nodes, order, head, tail) && p < |order| && id !in nodes
    ensures var m := MendedSpliced(nodes, id, v, Ref(order[p]), After); var o' := Inserted(order, p + 1, id);
            && DoubleLine(m, o', head, if p + 1 == |order| then Ref(id) else tail)
            && Values(m, o') == Values(nodes, order)[..p + 1] + [v] + Values(nodes, order)[p + 1..]
  {
    var m := MendedSpliced(nodes, id, v, Ref(order[p]), After);
    assert nodes[order[p]].next == Succ(order, p, Nil);
    if p + 1 == |order| {
      assert m == Spliced(nodes, id, v, tail, After);
      MendedAppended(nodes, m, order, head, tail, id, v);
    } else {
      DistinctAt(order, p, p + 1);
      MendedSplicedAfter(nodes, id, v, order[p], After);
      PutBetween(nodes, m, order, p + 1, id, v, Nil, Nil);
    }
  }

  /** MendedSplicedAfterLine after the tail, where the corrected LinkNode.new is the one as
   *  written. */
  lemma MendedAppended(nodes: map<nat, LinkNode>, m: map<nat, LinkNode>, order: seq<nat>, head: Link, tail: Link, id: nat, v: int)
    requires DoubleLine(nodes, order, head, tail) && order != [] && id !in nodes && m == Spliced(nodes, id, v, tail, After)
    ensures var n := |order|; var o' := Inserted(order, n, id);
            && DoubleLine(m, o', head, Ref(id)) && Values(m, o') == Values(nodes, order)[..n] + [v] + Values(nodes, order)[n..]
  {
    var n := |order|;
    DoubleLineAppended(nodes, order, head, tail, id, v);
    InsertedAtEnd(order, id, Values(nodes, order), v);
  }

  /** The corrected LinkNode.new(v, p-th node, :before) on a line linked both ways puts the new
   *  node at p on both links; in front of the head it is the new head. */
  lemma MendedSplicedBeforeLine(nodes: map<nat, LinkNode>, order: seq<nat>, head: Link, tail: Link, p: nat, id: nat, v: int)
    requires DoubleLine(nodes, order, head, tail) && p < |order| && id !in nodes
    ensures var m := MendedSpliced(nodes, id, v, Ref(order[p]), Before); var o' := Inserted(order, p, id);
            && DoubleLine(m, o', if p == 0 then Ref(id) else head, tail)
            && Values(m, o') == Values(nodes, order)[..p] + [v] + Values(nodes, order)[p..]
  {
    var m := MendedSpliced(nodes, id, v, Ref(order[p]), Before);
    assert nodes[order[p]].prev == Pred(order, p, Nil);
    if p == 0 {
      assert m == Spliced(nodes, id, v, head, Before);
      MendedPrepended(nodes, m, order, head, tail, id, v);
    } else {
      DistinctAt(order, p, p - 1);
      MendedSplicedBefore(nodes, id, v, order[p], Before);
      PutBetween(nodes, m, order, p, id, v, Nil, Nil);
    }
  }

  /** MendedSplicedBeforeLine in front of the head, where the corrected LinkNode.new is the one as
   *  written. */
  lemma MendedPrepended(nodes: map<nat, LinkNode>, m: map<nat, LinkNode>, order: seq<nat>, head: Link, tail: Link, id: nat, v: int)
    requires DoubleLine(nodes, order, head, tail) && order != [] && id !in nodes && m == Spliced(nodes, id, v, head, Before)
    ensures var o' := Inserted(order, 0, id);
            && DoubleLine(m, o', Ref(id), tail) && Values(m, o') == Values(nodes, order)[..0] + [v] + Values(nodes, order)[0..]
  {
    SplicedBeforeHead(nodes, order, head, tail, id, v);
    InsertedAtFront(order, id, Values(nodes, order), v);
  }

  /** insert as evidently meant: a node made after the cursor with the corrected LinkNode.new. */
  ghost function MendedInserting(s: ListState, v: int): ListState
    requires Wired(s)
  {
    Unused(s.nodes, s.nextId);
    var id := s.nextId;
    ListState(MendedSpliced(s.nodes, id, v, s.current, After), id + 1,
              if s.head.Nil? then Ref(id) else s.head,
              if s.tail == s.current then Ref(id) else s.tail,
              Ref(id), s.size + 1)
  }

  /** The corrected insert keeps a line linked both ways wherever the cursor is: v goes right after
   *  the cursor's node and becomes the cursor. */
  lemma MendedInsertKeepsDoubleLine(s: ListState, order: seq<nat>, v: int)
    requires Wired(s) && DoubleLine(s.nodes, order, s.head, s.tail) && s.current.Ref? && s.current.id in order
    ensures var s' := MendedInserting(s, v); var p := IndexOf(order, s.current.id);
            var o' := Inserted(order, p + 1, s.nextId);
            && DoubleLine(s'.nodes, o', s'.head, s'.tail) && s'.current == Ref(o'[p + 1])
            && Values(s'.nodes, o') == Values(s.nodes, order)[..p + 1] + [v] + Values(s.nodes, order)[p + 1..]
            && s'.size == s.size + 1
  {
    Unused(s.nodes, s.nextId);
    var p := IndexOf(order, s.current.id);
    if p < |order| - 1 {
      DistinctAt(order, |order| - 1, p);
    }
    MendedSplicedAfterLine(s.nodes, order, s.head, s.tail, p, s.nextId, v);
  }

  /** insert_after once find_by_value has answered the target, as evidently meant: the node is made
   *  after the target, or after the tail when there is none, with the corrected LinkNode.new. */
  ghost function MendedInsertedAfter(s: ListState, target: Link, v: int): ListState
    requires Wired(s) && LinkIn(s.nodes, target)
  {
    Unused(s.nodes, s.nextId);
    var id := s.nextId;
    var anchor := if target.Nil? then s.tail else target;
    ListState(MendedSpliced(s.nodes, id, v, anchor, After), id + 1,
              if s.head.Nil? then Ref(id) else s.head,
              if s.tail == anchor then Ref(id) else s.tail,
              Ref(id), s.size + 1)
  }

  /** insert_before once find_by_value has answered the target, as evidently meant: the node is
   *  made in front of the target with the corrected LinkNode.new, and after the tail when there is
   *  no target in a list with nodes. */
  ghost function MendedInsertedBefore(s: ListState, target: Link, v: int): ListState
    requires Wired(s) && LinkIn(s.nodes, target)
  {
    if target.Nil? && s.tail.Ref? then MendedInsertedAfter(s, Nil, v)
    else
      Unused(s.nodes, s.nextId);
      var id := s.nextId;
      ListState(MendedSpliced(s.nodes, id, v, target, Before), id + 1,
                if s.head == target then Ref(id) else s.head,
                if s.tail.Nil? then Ref(id) else s.tail,
                if target.Ref? then Ref(id) else s.current, s.size + 1)
  }

  /** insert_after as evidently meant. */
  ghost function MendedInsertingAfter(s: ListState, key: int -> int, order: seq<nat>, at: Option<int>, v: int): ListState
    requires Wired(s) && InArena(s.nodes, order) && Filled(s.nodes, order)
  {
    if FindRaises(s.nodes, key, order, s.head, s.size, at) then s else MendedInsertedAfter(s, Target(s, key, order, at), v)
  }

  /** insert_before as evidently meant. */
  ghost function MendedInsertingBefore(s: ListState, key: int -> int, order: seq<nat>, at: Option<int>, v: int): ListState
    requires Wired(s) && InArena(s.nodes, order) && Filled(s.nodes, order)
  {
    if FindRaises(s.nodes, key, order, s.head, s.size, at) then s else MendedInsertedBefore(s, Target(s, key, order, at), v)
  }

  /** The corrected insert_after a matched node keeps a line linked both ways: v goes right after
   *  the match and becomes the cursor, and the tail when the match was the tail. */
  lemma MendedInsertAfterFound(s: ListState, key: int -> int, order: seq<nat>, x: int, v: int)
    requires Wired(s) && DoubleLine(s.nodes, order, s.head, s.tail)
    requires s.size != 0 && MatchIndex(s.nodes, key, order, x) < |order|
    ensures var s' := MendedInsertingAfter(s, key, order, Some(x), v); var i := MatchIndex(s.nodes, key, order, x);
            var o' := Inserted(order, i + 1, s.nextId);
            && DoubleLine(s'.nodes, o', s'.head, s'.tail) && s'.current == Ref(s.nextId)
            && Values(s'.nodes, o') == Values(s.nodes, order)[..i + 1] + [v] + Values(s.nodes, order)[i + 1..]
            && s'.size == s.size + 1
  {
    Unused(s.nodes, s.nextId);
    var i := MatchIndex(s.nodes, key, order, x);
    assert Target(s, key, order, Some(x)) == Ref(order[i]);
    if i < |order| - 1 {
      DistinctAt(order, |order| - 1, i);
    }
    MendedSplicedAfterLine(s.nodes, order, s.head, s.tail, i, s.nextId, v);
  }

  /** The corrected insert_after a value nothing matches appends v: the list is still a line both
   *  ways, with the new node as tail and cursor. */
  lemma MendedInsertAfterAbsent(s: ListState, key: int -> int, order: seq<nat>, at: Option<int>, v: int)
    requires Wired(s) && DoubleLine(s.nodes, order, s.head, s.tail)
    requires order != [] && Target(s, key, order, at) == Nil
    ensures var s' := MendedInsertingAfter(s, key, order, at, v);
            && DoubleLine(s'.nodes, order + [s.nextId], s'.head, s'.tail) && s'.tail == Ref(s.nextId)
            && s'.current == s'.tail && s'.size == s.size + 1
            && Values(s'.nodes, order + [s.nextId]) == Values(s.nodes, order) + [v]
  {
    Unused(s.nodes, s.nextId);
    LineFindReturns(s.nodes, key, order, s.head, s.tail, s.size, at);
    MendedSplicedAfterLine(s.nodes, order, s.head, s.tail, |order| - 1, s.nextId, v);
    InsertedAtEnd(order, s.nextId, Values(s.nodes, order), v);
  }

  /** The corrected insert_before a matched node keeps a line linked both ways: v goes right in
   *  front of the match and becomes the cursor, and the head when the match was the head. */
  lemma MendedInsertBeforeFound(s: ListState, key: int -> int, order: seq<nat>, x: int, v: int)
    requires Wired(s) && DoubleLine(s.nodes, order, s.head, s.tail)
    requires s.size != 0 && MatchIndex(s.nodes, key, order, x) < |order|
    ensures var s' := MendedInsertingBefore(s, key, order, Some(x), v); var i := MatchIndex(s.nodes, key, order, x);
            var o' := Inserted(order, i, s.nextId);
            && DoubleLine(s'.nodes, o', s'.head, s'.tail) && s'.current == Ref(s.nextId)
            && Values(s'.nodes, o') == Values(s.nodes, order)[..i] + [v] + Values(s.nodes, order)[i..]
            && s'.size == s.size + 1
  {
    Unused(s.nodes, s.nextId);
    var i := MatchIndex(s.nodes, key, order, x);
    assert Target(s, key, order, Some(x)) == Ref(order[i]);
    if i > 0 {
      DistinctAt(order, 0, i);
    }
    MendedSplicedBeforeLine(s.nodes, order, s.head, s.tail, i, s.nextId, v);
  }

  /** The corrected insert_before a value nothing matches appends v, as the corrected insert_after
   *  does: the list is still a line both ways, with the new node as tail and cursor. */
  lemma MendedInsertBeforeAbsent(s: ListState, key: int -> int, order: seq<nat>, at: Option<int>, v: int)
    requires Wired(s) && DoubleLine(s.nodes, order, s.head, s.tail)
    requires order != [] && Target(s, key, order, at) == Nil
    ensures var s' := MendedInsertingBefore(s, key, order, at, v);
            && s' == MendedInsertingAfter(s, key, order, at, v)
            && DoubleLine(s'.nodes, order + [s.nextId], s'.head, s'.tail) && s'.tail == Ref(s.nextId)
            && s'.current == s'.tail && s'.size == s.size + 1
            && Values(s'.nodes, order + [s.nextId]) == Values(s.nodes, order) + [v]
  {
    LineFindReturns(s.nodes, key, order, s.head, s.tail, s.size, at);
    MendedInsertAfterAbsent(s, key, order, at, v);
  }

  // ---------------------------------------------------------------------------------------------
  // remove

  /** The arena after remove has unlinked a node: the node before it leads on to the node after
   *  it, that one leads back to the node before, and the node itself is cleared. */
  function Bypassing(nodes: map<nat, LinkNode>, target: nat): (m: map<nat, LinkNode>)
    requires target in nodes && LinkIn(nodes, nodes[target].prev) && LinkIn(nodes, nodes[target].next)
    ensures m.Keys == nodes.Keys
  {
    var t := nodes[target];
    var m1 := if t.prev.Ref? then Relinked(nodes, t.prev.id, t.next, Forth) else nodes;
    var m2 := if t.next.Ref? then Relinked(m1, t.next.id, t.prev, Back) else m1;
    m2[target := Cleared]
  }

  /** remove: nothing when find_by_value raises or finds no target. Otherwise a list of size 1 loses its only node, head,
   *  tail and cursor; a target with neither neighbour raises once the cursor is nil; the head
   *  hands head and cursor to the node after it, the tail hands tail and cursor to the node
   *  before it, and a node in the middle hands the cursor to the node before it. */
  ghost function Removing(s: ListState, key: int -> int, order: seq<nat>, x: Option<int>): ListState
    requires Wired(s) && InArena(s.nodes, order) && Filled(s.nodes, order)
  {
    if FindRaises(s.nodes, key, order, s.head, s.size, x) then s else RemovedAt(s, Target(s, key, order, x))
  }

  /** remove once find_by_value has answered the target. */
  ghost function RemovedAt(s: ListState, target: Link): ListState
    requires Wired(s) && LinkIn(s.nodes, target)
  {
    if target.Nil? then s
    else
      LinksOf(s.nodes, s.nextId, target.id);
      var t := s.nodes[target.id];
      if s.size == 1 then ListState(s.nodes[target.id := Cleared], s.nextId, Nil, Nil, Nil, s.size - 1)
      else if t.prev.Nil? && t.next.Nil? then s.(current := Nil)
      else
        var m := Bypassing(s.nodes, target.id);
        if t.prev.Nil? then ListState(m, s.nextId, t.next, s.tail, t.next, s.size - 1)
        else if t.next.Nil? then ListState(m, s.nextId, s.head, t.prev, t.prev, s.size - 1)
        else ListState(m, s.nextId, s.head, s.tail, t.prev, s.size - 1)
  }

  /** remove's answer once find_by_value has answered the target: nil without one, NoMethodError
   *  for a target with neither neighbour in a list whose size is not 1, else the new size. */
  ghost function RemovedAnswer(s: ListState, target: Link): Outcome<Option<int>>
    requires LinkIn(s.nodes, target)
  {
    if target.Nil? then Returned(None)
    else if s.size != 1 && s.nodes[target.id].prev.Nil? && s.nodes[target.id].next.Nil? then Raised(NoMethodError)
    else Returned(Some(s.size - 1))
  }

  /** remove's answer: NoMethodError when find_by_value raises. */
  ghost function RemovingAnswer(s: ListState, key: int -> int, order: seq<nat>, x: Option<int>): Outcome<Option<int>>
    requires Wired(s) && InArena(s.nodes, order) && Filled(s.nodes, order)
  {
    if FindRaises(s.nodes, key, order, s.head, s.size, x) then Raised(NoMethodError) else RemovedAnswer(s, Target(s, key, order, x))
  }

  /** The nodes of the list after remove: without the first match, unless remove raised. */
  ghost function RemovingOrder(s: ListState, key: int -> int, order: seq<nat>, x: Option<int>): seq<nat>
    requires Wired(s) && InArena(s.nodes, order) && Filled(s.nodes, order)
  {
    if x.Some? && Target(s, key, order, x).Ref? && RemovingAnswer(s, key, order, x).Returned?
    then Removed(order, MatchIndex(s.nodes, key, order, x.value))
    else order
  }

  /** Unlinking the p-th node of a line linked both ways changes only it and its two
   *  neighbours: the one before leads on past it, the one after leads back past it. */
  lemma BypassingFrame(nodes: map<nat, LinkNode>, order: seq<nat>, p: nat)
    requires InArena(nodes, order) && Distinct(order) && p < |order|
    requires nodes[order[p]].prev == Pred(order, p, Nil) && nodes[order[p]].next == Succ(order, p, Nil)
    ensures var m := Bypassing(nodes, order[p]);
            && InArena(m, order) && m[order[p]] == Cleared
            && (p > 0 ==> m[order[p - 1]] == nodes[order[p - 1]].(next := Succ(order, p, Nil)))
            && (p + 1 < |order| ==> m[order[p + 1]] == nodes[order[p + 1]].(prev := Pred(order, p, Nil)))
            && forall k :: 0 <= k < |order| && k + 1 != p && k != p && k != p + 1 ==> m[order[k]] == nodes[order[k]]
  {
    if p > 0 {
      DistinctAt(order, p - 1, p);
    }
    if p + 1 < |order| {
      DistinctAt(order, p + 1, p);
      if p > 0 {
        DistinctAt(order, p - 1, p + 1);
      }
    }
    forall k | 0 <= k < |order| && k + 1 != p && k != p && k != p + 1
      ensures Bypassing(nodes, order[p])[order[k]] == nodes[order[k]]
    {
      DistinctAt(order, k, p);
      if p > 0 {
        DistinctAt(order, k, p - 1);
      }
      if p + 1 < |order| {
        DistinctAt(order, k, p + 1);
      }
    }
  }

  /** Unlinking the p-th node of a line linked both ways leaves a line of the other nodes, linked
   *  both ways. */
  lemma DoubleLineBypassed(nodes: map<nat, LinkNode>, order: seq<nat>, p: nat)
    requires Chain(nodes, order, Nil) && Backward(nodes, order, Nil) && p < |order|
    ensures LinkIn(nodes, nodes[order[p]].prev) && LinkIn(nodes, nodes[order[p]].next)
    ensures var m := Bypassing(nodes, order[p]); var o' := Removed(order, p);
            && Chain(m, o', Nil) && Backward(m, o', Nil)
            && Values(m, o') == Values(nodes, order)[..p] + Values(nodes, order)[p + 1..]
  {
    assert nodes[order[p]].prev == Pred(order, p, Nil);
    assert nodes[order[p]].next == Succ(order, p, Nil);
    var m := Bypassing(nodes, order[p]);
    NextBypassed(nodes, order, p);
    PrevBypassed(nodes, order, p);
    BypassingFrame(nodes, order, p);
    RemovedValues(nodes, m, order, p);
  }

  /** The next links after the p-th node of a line is unlinked. */
  lemma NextBypassed(nodes: map<nat, LinkNode>, order: seq<nat>, p: nat)
    requires InArena(nodes, order) && Distinct(order) && Forward(nodes, order, Nil) && p < |order|
    requires nodes[order[p]].prev == Pred(order, p, Nil) && nodes[order[p]].next == Succ(order, p, Nil)
    ensures InArena(Bypassing(nodes, order[p]), Removed(order, p)) && Forward(Bypassing(nodes, order[p]), Removed(order, p), Nil)
  {
    var n := |order|;
    BypassingFrame(nodes, order, p);
    assert nodes[order[n - 1]].next == Succ(order, n - 1, Nil);
    ForwardRemoved(nodes, Bypassing(nodes, order[p]), order, p, Nil, Nil);
  }

  /** The prev links after the p-th node of a line is unlinked. */
  lemma PrevBypassed(nodes: map<nat, LinkNode>, order: seq<nat>, p: nat)
    requires InArena(nodes, order) && Distinct(order) && Backward(nodes, order, Nil) && p < |order|
    requires nodes[order[p]].prev == Pred(order, p, Nil) && nodes[order[p]].next == Succ(order, p, Nil)
    ensures InArena(Bypassing(nodes, order[p]), Removed(order, p)) && Backward(Bypassing(nodes, order[p]), Removed(order, p), Nil)
  {
    BypassingFrame(nodes, order, p);
    assert nodes[order[0]].prev == Pred(order, 0, Nil);
    BackwardRemoved(nodes, Bypassing(nodes, order[p]), order, p, Nil, Nil);
  }

  /** remove of the i-th node of a counted line linked both ways, once find_by_value has
   *  answered it: the node is unlinked from its neighbours, and head, tail and cursor move as
   *  remove's branches say; a single node is dropped with head, tail and cursor. */
  lemma RemovedAtNeighbours(s: ListState, order: seq<nat>, i: nat)
    requires Wired(s) && InArena(s.nodes, order) && s.size == |order| && i < |order|
    requires s.nodes[order[i]].prev == Pred(order, i, Nil) && s.nodes[order[i]].next == Succ(order, i, Nil)
    ensures RemovedAnswer(s, Ref(order[i])) == Returned(Some(s.size - 1))
    ensures |order| == 1 ==> RemovedAt(s, Ref(order[i])) == ListState(s.nodes[order[i] := Cleared], s.nextId, Nil, Nil, Nil, s.size - 1)
    ensures |order| > 1 ==>
              RemovedAt(s, Ref(order[i]))
              == ListState(Bypassing(s.nodes, order[i]), s.nextId, if i == 0 then Ref(order[1]) else s.head,
                           if i == |order| - 1 then Ref(order[i - 1]) else s.tail,
                           if i == 0 then Ref(order[1]) else Ref(order[i - 1]), s.size - 1)
  {
  }

  /** remove of the i-th node of a counted line linked both ways takes it out, leaving a line
   *  linked both ways with the cursor on the node before it (after it, for the head; nil, for
   *  the last node), and answers the new size. */
  lemma RemovedAtDoubleLine(s: ListState, order: seq<nat>, i: nat)
    requires Wired(s) && DoubleLine(s.nodes, order, s.head, s.tail) && s.size == |order| && i < |order|
    ensures var s' := RemovedAt(s, Ref(order[i])); var o' := Removed(order, i);
            && DoubleLine(s'.nodes, o', s'.head, s'.tail)
            && Values(s'.nodes, o') == Values(s.nodes, order)[..i] + Values(s.nodes, order)[i + 1..]
            && s'.current == (if |order| == 1 then Nil else if i == 0 then Ref(order[1]) else Ref(order[i - 1]))
            && s'.size == s.size - 1 && RemovedAnswer(s, Ref(order[i])) == Returned(Some(s.size - 1))
  {
    assert s.nodes[order[i]].prev == Pred(order, i, Nil);
    assert s.nodes[order[i]].next == Succ(order, i, Nil);
    RemovedAtNeighbours(s, order, i);
    if |order| == 1 {
      assert Removed(order, i) == [];
    } else {
      RemovedAtLonger(s, order, i);
    }
  }

  /** RemovedAtDoubleLine on a line of two or more nodes. */
  lemma RemovedAtLonger(s: ListState, order: seq<nat>, i: nat)
    requires Wired(s) && DoubleLine(s.nodes, order, s.head, s.tail) && s.size == |order| && i < |order| && |order| > 1
    requires RemovedAt(s, Ref(order[i]))
             == ListState(Bypassing(s.nodes, order[i]), s.nextId, if i == 0 then Ref(order[1]) else s.head,
                          if i == |order| - 1 then Ref(order[i - 1]) else s.tail,
                          if i == 0 then Ref(order[1]) else Ref(order[i - 1]), s.size - 1)
    ensures var s' := RemovedAt(s, Ref(order[i])); var o' := Removed(order, i);
            && DoubleLine(s'.nodes, o', s'.head, s'.tail)
            && Values(s'.nodes, o') == Values(s.nodes, order)[..i] + Values(s.nodes, order)[i + 1..]
  {
    var n := |order|;
    var o' := Removed(order, i);
    DoubleLineBypassed(s.nodes, order, i);
    assert HeadLink(o') == if i == 0 then Ref(order[1]) else s.head;
    assert EndLink(o') == if i == n - 1 then Ref(order[i - 1]) else s.tail;
  }

  /** remove of a matching value on a counted line linked both ways takes the first match out,
   *  keeps the line linked both ways and answers the new size. */
  lemma RemoveOnDoubleLine(s: ListState, key: int -> int, order: seq<nat>, x: int)
    requires Wired(s) && DoubleLine(s.nodes, order, s.head, s.tail) && s.size == |order|
    requires MatchIndex(s.nodes, key, order, x) < |order|
    ensures var s' := Removing(s, key, order, Some(x)); var o' := RemovingOrder(s, key, order, Some(x));
            var i := MatchIndex(s.nodes, key, order, x);
            && DoubleLine(s'.nodes, o', s'.head, s'.tail) && o' == Removed(order, i)
            && Values(s'.nodes, o') == Values(s.nodes, order)[..i] + Values(s.nodes, order)[i + 1..]
            && s'.current == (if |order| == 1 then Nil else if i == 0 then Ref(order[1]) else Ref(order[i - 1]))
            && s'.size == s.size - 1 && RemovingAnswer(s, key, order, Some(x)) == Returned(Some(s.size - 1))
  {
    var i := MatchIndex(s.nodes, key, order, x);
    assert Target(s, key, order, Some(x)) == Ref(order[i]);
    RemovedAtDoubleLine(s, order, i);
  }

  /** remove of a value nothing matches (or of nil, or from a list of size 0) changes nothing and
   *  answers nil. */
  lemma RemoveAbsent(s: ListState, key: int -> int, order: seq<nat>, x: Option<int>)
    requires Wired(s) && Line(s.nodes, order, s.head, s.tail) && Target(s, key, order, x) == Nil
    ensures Removing(s, key, order, x) == s && RemovingOrder(s, key, order, x) == order
    ensures RemovingAnswer(s, key, order, x) == Returned(None)
  {
  }

  /** remove of the only node of a list whose size is not 1 raises NoMethodError, with the cursor
   *  already nil and nothing else changed. */
  lemma RemoveLoneUncountedRaises(s: ListState, key: int -> int, id: nat, x: int)
    requires Wired(s) && DoubleLine(s.nodes, [id], s.head, s.tail) && s.size != 0 && s.size != 1
    requires MatchByValue(key, s.nodes[id], x)
    ensures RemovingAnswer(s, key, [id], Some(x)) == Raised(NoMethodError)
    ensures Removing(s, key, [id], Some(x)) == s.(current := Nil) && RemovingOrder(s, key, [id], Some(x)) == [id]
  {
    MatchIndexIs(s.nodes, key, [id], x, 0);
    assert s.nodes[[id][0]].prev == Pred([id], 0, Nil);
    assert Target(s, key, [id], Some(x)) == Ref(id);
  }

  // ---------------------------------------------------------------------------------------------
  // nth

  /** nth(index): index - 1 steps forward from the cursor for a positive index, stopping at the
   *  last node, and -index steps back for a negative one, stopping at the first; 0 stays. */
  ghost function NthStepped(s: ListState, index: int): ListState
  {
    if index > 0 then s.(current := Walk(s.nodes, s.current, index - 1, Nil, Forth))
    else if index < 0 then s.(current := Walk(s.nodes, s.current, -index, Nil, Back))
    else s
  }

  /** nth(index) from the p-th node of a line linked both ways lands on node p + index - 1 for a
   *  positive index and p + index for a negative one, held within the line, and answers its
   *  value. */
  lemma NthOnDoubleLine(s: ListState, order: seq<nat>, p: nat, index: int)
    requires DoubleLine(s.nodes, order, s.head, s.tail) && p < |order| && s.current == Ref(order[p])
    ensures var q := if index > 0 then Min(p + index - 1, |order| - 1) else if index < 0 then Max(p + index, 0) else p;
            && NthStepped(s, index) == s.(current := Ref(order[q]))
            && ValueAt(s.nodes, NthStepped(s, index).current) == Some(Values(s.nodes, order)[q])
  {
    var q := if index > 0 then Min(p + index - 1, |order| - 1) else if index < 0 then Max(p + index, 0) else p;
    if index > 0 {
      NthForth(s, order, p, index - 1);
    } else if index < 0 {
      NthBack(s, order, p, -index);
    }
    ValueOf(s.nodes, order, q);
  }

  /** nth(k + 1) walks k next links, stopping at the last node. */
  lemma NthForth(s: ListState, order: seq<nat>, p: nat, k: nat)
    requires InArena(s.nodes, order) && Forward(s.nodes, order, Nil) && p < |order| && s.current == Ref(order[p])
    ensures NthStepped(s, k + 1) == s.(current := Ref(order[Min(p + k, |order| - 1)]))
  {
    WalkLine(s.nodes, order, p, k);
  }

  /** nth(-k) walks k prev links, stopping at the first node. */
  lemma NthBack(s: ListState, order: seq<nat>, p: nat, k: nat)
    requires InArena(s.nodes, order) && Backward(s.nodes, order, Nil) && p < |order| && s.current == Ref(order[p]) && k > 0
    ensures NthStepped(s, -(k as int)) == s.(current := Ref(order[if p < k then 0 else p - k]))
  {
    WalkBackLine(s.nodes, order, p, k);
  }

  // ---------------------------------------------------------------------------------------------
  // The list

  /** A DoublyLinkedList: its arena of nodes, its key block and its fields. `order` names the
   *  nodes of the forward line from the head on, for the lemmas that describe its shape. */
  class DoublyLinkedList {
    const arena: LinkArena
    const key: int -> int
    var head: Link
    var tail: Link
    var current: Link
    var size: int
    ghost var order: seq<nat>

    /** The fields and the nodes as one value. */
    function State(): ListState
      reads this, arena
    {
      ListState(arena.nodes, arena.nextId, head, tail, current, size)
    }

    /** The arena is closed and head, tail and cursor are nil or nodes of it. */
    ghost predicate Valid()
      reads this, arena
    {
      Wired(State())
    }

    /** The next links make a line of the nodes of order: what find_by_value, to_a and clear
     *  walk. */
    ghost predicate Shaped()
      reads this, arena
    {
      Valid() && Line(arena.nodes, order, head, tail)
    }

    /** The line is linked both ways. */
    ghost predicate Doubled()
      reads this, arena
    {
      Valid() && DoubleLine(arena.nodes, order, head, tail)
    }

    /** The size counts the nodes. */
    ghost predicate Counted()
      reads this
    {
      size == |order|
    }

    /** The values of the list from the head on. */
    ghost function Contents(): seq<int>
      reads this, arena
      requires Shaped()
    {
      Values(arena.nodes, order)
    }

    /** DoublyLinkedList.new(*vs) { key }: a line of vs linked both ways, with the cursor on the
     *  head when there is more than one value. */
    constructor (vs: seq<int>, key: int -> int)
      ensures Valid() && State() == Started(vs, Doubly) && order == StartedOrder(vs, Doubly) && this.key == key
      ensures Doubled() && Shaped() && Contents() == vs && Counted()
    {
      arena := new LinkArena();
      this.key := key;
      head, tail, current, size := Nil, Nil, Nil, 0;
      order := [];
      new;
      InsertEach(vs);
      if |vs| > 1 {
        var _ := First();
      }
      StartedDoubleLine(vs);
    }

    /** The constructor's `vargs.each { |value| insert(value) }`. */
    method InsertEach(vs: seq<int>)
      requires Valid()
      modifies this, arena
      ensures Valid() && State() == InsertingAll(old(State()), vs, Doubly)
      ensures order == InsertingAllOrder(old(State()), old(order), vs, Doubly)
    {
      ghost var s0, o0 := State(), order;
      for i := 0 to |vs|
        invariant Valid() && State() == InsertingAll(s0, vs[..i], Doubly) && order == InsertingAllOrder(s0, o0, vs[..i], Doubly)
      {
        assert vs[..i + 1][..i] == vs[..i];
        var _ := Insert(vs[i]);
      }
      assert vs[..|vs|] == vs;
    }

    /** first */
    method First() returns (r: Option<int>)
      requires Valid()
      modifies this`current
      ensures Valid() && State() == Firsted(old(State())) && r == ValueAt(arena.nodes, current)
    {
      if head.Ref? {
        current := head;
      }
      r := ValueAt(arena.nodes, current);
    }

    /** next */
    method Next() returns (r: Option<int>)
      requires Valid()
      modifies this`current
      ensures Valid() && State() == Stepped(old(State()), Forth) && r == ValueAt(arena.nodes, current)
    {
      if current.Ref? && arena.nodes[current.id].next.Ref? {
        LinksOf(arena.nodes, arena.nextId, current.id);
        current := arena.nodes[current.id].next;
      }
      r := ValueAt(arena.nodes, current);
    }

    /** prev */
    method Prev() returns (r: Option<int>)
      requires Valid()
      modifies this`current
      ensures Valid() && State() == Stepped(old(State()), Back) && r == ValueAt(arena.nodes, current)
    {
      if current.Ref? && arena.nodes[current.id].prev.Ref? {
        LinksOf(arena.nodes, arena.nextId, current.id);
        current := arena.nodes[current.id].prev;
      }
      r := ValueAt(arena.nodes, current);
    }

    /** last */
    method Last() returns (r: Option<int>)
      requires Valid()
      modifies this`current
      ensures Valid() && State() == Lasted(old(State())) && r == ValueAt(arena.nodes, current)
    {
      if tail.Ref? {
        current := tail;
      }
      r := ValueAt(arena.nodes, current);
    }

    /** current: the cursor's value; on a line, the value at the cursor's position. */
    method Current() returns (r: Option<int>)
      requires Valid()
      ensures r == ValueAt(arena.nodes, current)
      ensures Shaped() && Cursor(order, current) && order != [] ==>
                IndexOf(order, current.id) < |order| && r == Some(Contents()[IndexOf(order, current.id)])
    {
      r := ValueAt(arena.nodes, current);
      if Shaped() && Cursor(order, current) {
        CurrentOnList(State(), order);
      }
    }

    /** empty?: the size is 0; when the size counts the nodes, exactly when there are none. */
    method IsEmpty() returns (r: bool)
      ensures r == (size == 0) && (Counted() ==> (r <==> order == []))
    {
      r := size == 0;
    }

    /** nth(index) */
    method Nth(index: int) returns (r: Option<int>)
      requires Valid()
      modifies this`current
      ensures Valid() && State() == NthStepped(old(State()), index) && r == ValueAt(arena.nodes, current)
    {
      if index > 0 {
        current := WalkLinks(arena, current, index - 1, Nil, Forth);
      } else if index < 0 {
        current := WalkLinks(arena, current, -index, Nil, Back);
      }
      r := ValueAt(arena.nodes, current);
    }

    /** find_by_index(index): the node it finds becomes the cursor. */
    method FindByIndex(index: int) returns (node: Link)
      requires Valid()
      modifies this`current
      ensures Valid() && node == ByIndex(old(State()), index) && State() == AtIndexed(old(State()), index)
    {
      if head.Nil? || index < 1 || index > size {
        return Nil;
      }
      node := WalkLinks(arena, head, index - 1, Nil, Forth);
      if node.Ref? {
        current := node;
      }
    }

    /** at_index(index): find_by_index, then the cursor's value. */
    method AtIndex(index: int) returns (r: Option<int>)
      requires Valid()
      modifies this`current
      ensures Valid() && State() == AtIndexed(old(State()), index) && r == ValueAt(arena.nodes, current)
    {
      var _ := FindByIndex(index);
      r := ValueAt(arena.nodes, current);
    }

    /** insert (and append): the new size. */
    method Insert(v: int) returns (r: int)
      requires Valid()
      modifies this, arena
      ensures Valid() && State() == Inserting(old(State()), v, Doubly) && order == InsertingOrder(old(State()), old(order))
      ensures r == size
    {
      ghost var s0 := State();
      order := InsertingOrder(s0, order);
      var node := current;
      var id := arena.Call(v, node, After);
      current := Ref(id);
      head := if head.Nil? then current else head;
      tail := if tail == node then current else tail;
      size := size + 1;
      r := size;
      InsertingWired(s0, v, Doubly);
    }

    /** find_by_value(x): walks the next links from the head. */
    method FindTarget(x: Option<int>, ghost walk: seq<nat>) returns (r: Outcome<Link>)
      requires Valid() && Trail(arena.nodes, walk, head) && FindHalts(arena.nodes, key, walk, head, size, x)
      ensures r == if FindRaises(arena.nodes, key, walk, head, size, x) then Raised(NoMethodError)
                   else Returned(Target(State(), key, walk, x))
      ensures r.Returned? ==> LinkIn(arena.nodes, r.value)
    {
      r := FindByValue(arena, key, head, size, x, walk);
    }

    /** insert_before(x, v): the new size, or NoMethodError from find_by_value. `walk` is the run
     *  of nodes from the head that find_by_value walks. */
    method InsertBefore(x: Option<int>, v: int, ghost walk: seq<nat>) returns (r: Outcome<int>)
      requires Valid() && Trail(arena.nodes, walk, head) && FindHalts(arena.nodes, key, walk, head, size, x)
      modifies this, arena
      ensures Valid() && State() == InsertingBefore(old(State()), key, walk, x, v)
      ensures r == if FindRaises(old(arena.nodes), key, walk, old(head), old(size), x) then Raised(NoMethodError) else Returned(size)
      ensures order == if r.Raised? then old(order) else InsertingBeforeOrder(old(State()), key, walk, x)
    {
      ghost var s0 := State();
      var found := FindTarget(x, walk);
      if found.Raised? {
        return Raised(found.error);
      }
      var n := LinkBefore(found.value, v);
      r := Returned(n);
      order := InsertingBeforeOrder(s0, key, walk, x);
    }

    /** insert_before after its find_by_value. */
    method LinkBefore(target: Link, v: int) returns (r: int)
      requires Valid() && LinkIn(arena.nodes, target)
      modifies this`head, this`tail, this`current, this`size, arena
      ensures Valid() && State() == InsertedBefore(old(State()), target, v) && r == size
    {
      var id := arena.Call(v, target, Before);
      if target.Ref? {
        current := Ref(id);
      }
      head := if head == target then Ref(id) else head;
      tail := if tail.Nil? then Ref(id) else tail;
      size := size + 1;
      r := size;
    }

    /** prepend(v): insert_before the head's value. The walk from the head matches at the head
     *  itself, or the value is nil, so find_by_value neither raises nor goes round for ever. */
    method Prepend(v: int, ghost walk: seq<nat>) returns (r: int)
      requires Valid() && Trail(arena.nodes, walk, head)
      modifies this, arena
      ensures Valid() && State() == InsertingBefore(old(State()), key, walk, ValueAt(old(arena.nodes), old(head)), v)
      ensures order == InsertingBeforeOrder(old(State()), key, walk, ValueAt(old(arena.nodes), old(head))) && r == size
    {
      HeadValueFound(arena.nodes, key, walk, head, size);
      var found := InsertBefore(ValueAt(arena.nodes, head), v, walk);
      r := found.value;
    }

    /** insert_after(x, v): the new size, or NoMethodError from find_by_value. */
    method InsertAfter(x: Option<int>, v: int, ghost walk: seq<nat>) returns (r: Outcome<int>)
      requires Valid() && Trail(arena.nodes, walk, head) && FindHalts(arena.nodes, key, walk, head, size, x)
      modifies this, arena
      ensures Valid() && State() == InsertingAfter(old(State()), key, walk, x, v)
      ensures r == if FindRaises(old(arena.nodes), key, walk, old(head), old(size), x) then Raised(NoMethodError) else Returned(size)
      ensures order == if r.Raised? then old(order) else InsertingAfterOrder(old(State()), key, walk, x)
    {
      ghost var s0 := State();
      var found := FindTarget(x, walk);
      if found.Raised? {
        return Raised(found.error);
      }
      var n := LinkAfter(found.value, v);
      r := Returned(n);
      order := InsertingAfterOrder(s0, key, walk, x);
    }

    /** insert_after after its find_by_value. */
    method LinkAfter(target: Link, v: int) returns (r: int)
      requires Valid() && LinkIn(arena.nodes, target)
      modifies this`head, this`tail, this`current, this`size, arena
      ensures Valid() && State() == InsertedAfter(old(State()), target, v) && r == size
    {
      var id := arena.Call(v, target, After);
      current := Ref(id);
      head := if head.Nil? then Ref(id) else head;
      tail := if tail == target then Ref(id) else tail;
      size := size + 1;
      r := size;
    }

    /** remove(x): nil without a match, else the remaining size; NoMethodError from find_by_value,
     *  or for a match with neither neighbour in a list whose size is not 1. */
    method Remove(x: Option<int>, ghost walk: seq<nat>) returns (r: Outcome<Option<int>>)
      requires Valid() && Trail(arena.nodes, walk, head) && FindHalts(arena.nodes, key, walk, head, size, x)
      modifies this, arena
      ensures Valid() && State() == Removing(old(State()), key, walk, x)
      ensures order == if FindRaises(old(arena.nodes), key, walk, old(head), old(size), x) then old(order)
                       else RemovingOrder(old(State()), key, walk, x)
      ensures r == RemovingAnswer(old(State()), key, walk, x)
    {
      ghost var s0 := State();
      var found := FindTarget(x, walk);
      if found.Raised? {
        return Raised(found.error);
      }
      r := Unlink(found.value);
      order := RemovingOrder(s0, key, walk, x);
    }

    /** remove after its find_by_value. */
    method Unlink(target: Link) returns (r: Outcome<Option<int>>)
      requires Valid() && LinkIn(arena.nodes, target)
      modifies this`head, this`tail, this`current, this`size, arena
      ensures Valid() && State() == RemovedAt(old(State()), target) && r == RemovedAnswer(old(State()), target)
    {
      if target.Nil? {
        return Returned(None);
      }
      LinksOf(arena.nodes, arena.nextId, target.id);
      var t := arena.nodes[target.id];
      if size == 1 {
        current, head, tail := Nil, Nil, Nil;
      } else if t.prev.Nil? {
        current := t.next;
        if current.Nil? {
          return Raised(NoMethodError);
        }
        arena.SetPrev(current.id, Nil);
        head := current;
      } else if t.next.Nil? {
        current := t.prev;
        arena.SetNext(current.id, Nil);
        tail := current;
      } else {
        current := t.prev;
        arena.SetNext(current.id, t.next);
        arena.SetPrev(t.next.id, current);
      }
      var _ := arena.RemoveNode(target.id);
      size := size - 1;
      r := Returned(Some(size));
    }

    /** to_a: the values met from the head on until nil or the head comes round again; the cursor
     *  moves to the head. */
    method ToArray(ghost walk: seq<nat>, ghost end: Link) returns (result: seq<int>)
      requires Valid() && Walkable(arena.nodes, walk, head, end)
      modifies this`current
      ensures Valid() && result == Values(arena.nodes, walk) && State() == old(State()).(current := old(head))
      ensures old(Shaped()) ==> Shaped()
    {
      result := ToA(arena, head, walk, end);
      current := head;
    }

    /** clear: the number of nodes cleared. */
    method Clear(ghost walk: seq<nat>, ghost end: Link) returns (rc: int)
      requires Valid() && Walkable(arena.nodes, walk, head, end)
      modifies this, arena
      ensures Doubled() && State() == Clearing(old(State()), walk) && order == [] && rc == |walk|
    {
      rc := ClearNodes(arena, head, walk, end);
      current, head, tail, size := Nil, Nil, Nil, 0;
      order := [];
    }

    /** sort!(direction) { block }: the values merge-sorted by the active condition, clear, and
     *  each sorted value inserted again; answers the size. */
    method Sort(direction: SortOrder, ghost walk: seq<nat>, ghost end: Link) returns (r: int)
      requires Valid() && Walkable(arena.nodes, walk, head, end)
      modifies this, arena
      ensures Valid() && r == size
      ensures var sorted := MergeSorted(ActiveCondition(key, direction), Values(old(arena.nodes), walk));
              && State() == InsertingAll(Clearing(old(State()), walk), sorted, Doubly)
              && order == InsertingAllOrder(Clearing(old(State()), walk), [], sorted, Doubly)
              && Doubled() && Shaped() && Contents() == sorted && Counted()
    {
      var values := ToArray(walk, end);
      var sorted := MergeSort(ActiveCondition(key, direction), values);
      var _ := Clear(walk, end);
      AppendingAll(State(), order, sorted);
      InsertEach(sorted);
      r := size;
    }
  }
}
