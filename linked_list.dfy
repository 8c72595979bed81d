/**
 * Lists::LinkedList: a singly linked list. Its nodes are linked by next only; insert puts the new
 * node after the cursor, and find_by_value answers the node before the first match as well as the
 * match. Each operation is a function of the list's state; the lemmas say when the result is
 * again a line of nodes (Line) and what its values are, and what the code does when it is not.
 */
module LinkedLists {
  import opened Wrappers
  import opened LinkNodes
  import opened LinkedCommons

  // ---------------------------------------------------------------------------------------------
  // find_by_value

  /** order runs from head: its first node is the head (an empty order has no node to say so). */
  ghost predicate Headed(order: seq<nat>, head: Link)
  {
    order != [] ==> head == Ref(order[0])
  }

  /** find_by_value: [current, nil] without a head or a value; otherwise the first matching node
   *  and the node before it (the head for a match at the head), or the last node and nil when
   *  the walk reaches nil with no match. A node remove! has cleared, met before any match, raises
   *  NoMethodError from match_by_value. */
  ghost function PriorAndTarget(nodes: map<nat, LinkNode>, key: int -> int, order: seq<nat>, head: Link,
                                current: Link, v: Option<int>): Outcome<(Link, Link)>
    requires InArena(nodes, order) && Filled(nodes, order) && Headed(order, head)
  {
    if head.Nil? || v.None? then Returned((current, Nil))
    else
      var i := MatchIndex(nodes, key, order, v.value);
      if i < |order| then Returned(if i == 0 then (head, head) else (Ref(order[i - 1]), Ref(order[i])))
      else if Dead(nodes, Beyond(nodes, order, head)) then Raised(NoMethodError)
      else Returned((EndLink(order), Nil))
  }

  /** find_by_value's loop of LinkedList ends: at once without a head or a value, and otherwise
   *  on a match, at nil, or by raising at a cleared node. A walk that comes back round without a
   *  match never ends. */
  ghost predicate PriorHalts(nodes: map<nat, LinkNode>, key: int -> int, walk: seq<nat>, head: Link, v: Option<int>)
    requires InArena(nodes, walk) && Filled(nodes, walk)
  {
    || head.Nil? || v.None? || MatchIndex(nodes, key, walk, v.value) < |walk|
    || var e := Beyond(nodes, walk, head); e.Nil? || Dead(nodes, e)
  }

  /** find_by_value of the head's own value, as prepend asks: the head matches itself at once, and
   *  a head with no value gives [current, nil]; so the walk halts and never raises. */
  lemma HeadValuePrior(nodes: map<nat, LinkNode>, key: int -> int, walk: seq<nat>, head: Link, current: Link)
    requires Trail(nodes, walk, head)
    ensures PriorHalts(nodes, key, walk, head, ValueAt(nodes, head))
    ensures PriorAndTarget(nodes, key, walk, head, current, ValueAt(nodes, head)).Returned?
  {
    var v := ValueAt(nodes, head);
    if walk != [] && v.Some? {
      assert MatchByValue(key, nodes[walk[0]], v.value);
      MatchIndexIs(nodes, key, walk, v.value, 0);
    }
  }

  /** On a line find_by_value halts and never raises. */
  lemma LinePriorReturns(nodes: map<nat, LinkNode>, key: int -> int, order: seq<nat>, head: Link, tail: Link,
                         current: Link, v: Option<int>)
    requires Line(nodes, order, head, tail)
    ensures Trail(nodes, order, head) && PriorHalts(nodes, key, order, head, v)
    ensures PriorAndTarget(nodes, key, order, head, current, v).Returned?
  {
    LineTrail(nodes, order, head, tail);
  }

  /** On a line, the target is the first match; the prior leads to it, is the head when the match
   *  is the head, and is the tail when nothing matches. */
  lemma PriorLeadsToTarget(nodes: map<nat, LinkNode>, key: int -> int, order: seq<nat>, head: Link, tail: Link,
                           current: Link, x: int)
    requires Line(nodes, order, head, tail) && head.Ref?
    ensures PriorAndTarget(nodes, key, order, head, current, Some(x)).Returned?
    ensures var (prior, target) := PriorAndTarget(nodes, key, order, head, current, Some(x)).value;
            && target == Found(nodes, key, order, x) && prior.Ref? && prior.id in nodes
            && (target == head ==> prior == head)
            && (target.Ref? && target != head ==> nodes[prior.id].next == target)
            && (target.Nil? ==> prior == tail)
  {
    var i := MatchIndex(nodes, key, order, x);
    if 0 < i < |order| {
      assert nodes[order[i - 1]].next == Succ(order, i - 1, Nil);
    }
  }

  /** find_by_value's loop: walk from the head, keeping the node before the one looked at. */
  method FindPrior(arena: LinkArena, key: int -> int, head: Link, current: Link, v: Option<int>, ghost walk: seq<nat>)
    returns (r: Outcome<(Link, Link)>)
    requires arena.Valid() && Trail(arena.nodes, walk, head) && PriorHalts(arena.nodes, key, walk, head, v)
    ensures r == PriorAndTarget(arena.nodes, key, walk, head, current, v)
  {
    if head.Nil? || v.None? {
      return Returned((current, Nil));
    }
    var prior := head;
    var target := prior;
    ghost var i := 0;
    while target.Ref?
      invariant 0 <= i <= |walk|
      invariant target == (if i < |walk| then Ref(walk[i]) else Beyond(arena.nodes, walk, head))
      invariant prior == (if i == 0 then head else Ref(walk[i - 1]))
      invariant forall k :: 0 <= k < i ==> !MatchByValue(key, arena.nodes[walk[k]], v.value)
      invariant i == |walk| && target.Ref? ==> Dead(arena.nodes, target)
      decreases |walk| - i
    {
      if arena.nodes[target.id].value.None? {
        MatchIndexIs(arena.nodes, key, walk, v.value, |walk|);
        return Raised(NoMethodError);
      }
      if MatchByValue(key, arena.nodes[target.id], v.value) {
        break;
      }
      prior := target;
      target := arena.nodes[target.id].next;
      i := i + 1;
      if i == |walk| {
        MatchIndexIs(arena.nodes, key, walk, v.value, |walk|);
      }
    }
    MatchIndexIs(arena.nodes, key, walk, v.value, i);
    r := Returned((prior, target));
  }

  // ---------------------------------------------------------------------------------------------
  // insert (append)

  /** insert with the cursor on a node of a line puts v right after it, and the new node is the
   *  cursor. */
  lemma InsertAfterCursor(s: ListState, order: seq<nat>, v: int)
    requires Wired(s) && Line(s.nodes, order, s.head, s.tail) && s.current.Ref? && s.current.id in order
    ensures var s' := Inserting(s, v, Singly); var o' := InsertingOrder(s, order); var p := IndexOf(order, s.current.id);
            && Line(s'.nodes, o', s'.head, s'.tail) && |o'| == |order| + 1 && s'.current == Ref(o'[p + 1])
            && Values(s'.nodes, o') == Values(s.nodes, order)[..p + 1] + [v] + Values(s.nodes, order)[p + 1..]
  {
    Unused(s.nodes, s.nextId);
    var p := IndexOf(order, s.current.id);
    if p != |order| - 1 {
      assert order[|order| - 1] != order[p];
    }
    LineSplicedAfter(s.nodes, order, s.head, s.tail, p, s.nextId, v, Single);
  }

  /** insert into an empty list with no cursor makes a line of one. */
  lemma InsertIntoEmpty(s: ListState, v: int)
    requires Wired(s) && Line(s.nodes, [], s.head, s.tail) && s.current == Nil
    ensures var s' := Inserting(s, v, Singly); var o' := InsertingOrder(s, []);
            Line(s'.nodes, o', s'.head, s'.tail) && o' == [s.nextId] && Values(s'.nodes, o') == [v] && s'.current == s'.tail
  {
    Unused(s.nodes, s.nextId);
    LineOfOne(s.nodes, s.nextId, v, Single);
  }

  /** insert into an empty list whose cursor is left on a removed node sets the head but
   *  leaves the list without a tail. */
  lemma InsertStaleCursorLosesTail(s: ListState, v: int)
    requires Wired(s) && Line(s.nodes, [], s.head, s.tail) && s.current.Ref?
    ensures Inserting(s, v, Singly).head == Ref(s.nextId) && Inserting(s, v, Singly).tail == Nil
  {
  }

  /** insert as evidently meant: in a list without a head the new node is head, tail and cursor
   *  alone, wherever the cursor was left; otherwise as insert. */
  ghost function MendedInserting(s: ListState, v: int): ListState
    requires Wired(s)
  {
    if s.head.Nil? then
      Unused(s.nodes, s.nextId);
      ListState(Spliced(s.nodes, s.nextId, v, Nil, Single), s.nextId + 1, Ref(s.nextId), Ref(s.nextId), Ref(s.nextId), s.size + 1)
    else Inserting(s, v, Singly)
  }

  /** The mended insert keeps a line: v goes after the cursor, or alone into a list that was
   *  empty, whatever node the cursor was left on. */
  lemma MendedInsertKeepsLine(s: ListState, order: seq<nat>, v: int)
    requires Wired(s) && Line(s.nodes, order, s.head, s.tail) && (order == [] || (s.current.Ref? && s.current.id in order))
    ensures var s' := MendedInserting(s, v); var o' := InsertingOrder(s, order);
            && Line(s'.nodes, o', s'.head, s'.tail) && |o'| == |order| + 1 && s'.current == Ref(s.nextId)
            && s'.size == s.size + 1
            && Values(s'.nodes, o') == if order == [] then [v]
                                       else var p := IndexOf(order, s.current.id);
                                            Values(s.nodes, order)[..p + 1] + [v] + Values(s.nodes, order)[p + 1..]
  {
    Unused(s.nodes, s.nextId);
    if order == [] {
      LineOfOne(s.nodes, s.nextId, v, Single);
    } else {
      InsertAfterCursor(s, order, v);
      IndexOfAt(order, IndexOf(order, s.current.id));
    }
  }

  /** insert with the cursor on the tail (or on nothing, in an empty list) appends v, and the
   *  cursor stays on the tail. */
  lemma AppendKeepsLine(s: ListState, order: seq<nat>, v: int)
    requires Wired(s) && Line(s.nodes, order, s.head, s.tail) && s.current == s.tail
    ensures var s' := Inserting(s, v, Singly); var o' := InsertingOrder(s, order);
            && Line(s'.nodes, o', s'.head, s'.tail) && o' == order + [s.nextId] && s'.current == s'.tail
            && Values(s'.nodes, o') == Values(s.nodes, order) + [v] && s'.size == s.size + 1
  {
    var n := |order|;
    if n == 0 {
      InsertIntoEmpty(s, v);
    } else {
      IndexOfAt(order, n - 1);
      InsertAfterCursor(s, order, v);
      assert Inserted(order, n, s.nextId) == order + [s.nextId];
      assert Values(s.nodes, order)[..n] + [v] + Values(s.nodes, order)[n..] == Values(s.nodes, order) + [v];
    }
  }

  /** Inserting each of vs from the tail appends them all in order. */
  lemma {:induction false} AppendingAll(s: ListState, order: seq<nat>, vs: seq<int>)
    requires Wired(s) && Line(s.nodes, order, s.head, s.tail) && s.current == s.tail
    ensures var s' := InsertingAll(s, vs, Singly); var o' := InsertingAllOrder(s, order, vs, Singly);
            && Line(s'.nodes, o', s'.head, s'.tail) && s'.current == s'.tail && |o'| == |order| + |vs|
            && Values(s'.nodes, o') == Values(s.nodes, order) + vs && s'.size == s.size + |vs|
    decreases |vs|
  {
    if vs != [] {
      var init, last := vs[..|vs| - 1], vs[|vs| - 1];
      var s1, o1 := InsertingAll(s, init, Singly), InsertingAllOrder(s, order, init, Singly);
      AppendingAll(s, order, init);
      AppendKeepsLine(s1, o1, last);
      InsertingLast(s, order, vs, Singly);
      InitLast(Values(s.nodes, order), vs);
    }
  }

  /** A list made from vs is a line of vs, counted by its size, with the cursor on the head when
   *  there are more values than one. */
  lemma StartedLine(vs: seq<int>)
    ensures var s := Started(vs, Singly); var o := StartedOrder(vs, Singly);
            && Line(s.nodes, o, s.head, s.tail) && Values(s.nodes, o) == vs && s.size == |vs| && |o| == |vs|
            && s.current == (if |vs| > 1 then s.head else s.tail)
  {
    AppendingAll(Initial, [], vs);
  }

  // ---------------------------------------------------------------------------------------------
  // insert_before (prepend)

  /** insert_before: nothing when find_by_value raises; otherwise a node after the prior, linked on to the target when there is one; it is the
   *  cursor, the head when the target was the head (or both are nil), and the tail of a list
   *  without one. */
  ghost function InsertingBefore(s: ListState, key: int -> int, order: seq<nat>, at: Option<int>, v: int): ListState
    requires Wired(s) && InArena(s.nodes, order) && Filled(s.nodes, order) && Headed(order, s.head)
  {
    match PriorAndTarget(s.nodes, key, order, s.head, s.current, at)
    case Raised(_) => s
    case Returned((prior, target)) => InsertedBefore(s, prior, target, v)
  }

  /** insert_before once find_by_value has answered prior and target. */
  ghost function InsertedBefore(s: ListState, prior: Link, target: Link, v: int): ListState
    requires Wired(s) && LinkIn(s.nodes, prior)
  {
    Unused(s.nodes, s.nextId);
    var id := s.nextId;
    var m := Spliced(s.nodes, id, v, prior, Single);
    ListState(if target.Ref? then m[id := m[id].(next := target)] else m, id + 1,
              if s.head == target then Ref(id) else s.head,
              if s.tail.Nil? then Ref(id) else s.tail,
              Ref(id), s.size + 1)
  }

  /** The nodes of the list after insert_before: the new node in front of the match, alone in a
   *  list that was empty, after the last node when nothing matches, and right after the cursor
   *  when no value is given (find_by_value then answers the cursor as the prior); a node made
   *  after a cursor that is not on the list is not on it either. */
  ghost function InsertingBeforeOrder(s: ListState, key: int -> int, order: seq<nat>, at: Option<int>): seq<nat>
    requires InArena(s.nodes, order) && Filled(s.nodes, order)
  {
    if order == [] then [s.nextId]
    else if at.None? then
      if s.current.Ref? && s.current.id in order then Inserted(order, IndexOf(order, s.current.id) + 1, s.nextId)
      else order
    else Inserted(order, MatchIndex(s.nodes, key, order, at.value), s.nextId)
  }

  /** insert_before without a value on a list with a head puts v right after the cursor: a line
   *  again when the cursor is not the tail, and a chain past a tail left where it was when it is. */
  lemma InsertBeforeAtCursor(s: ListState, key: int -> int, order: seq<nat>, v: int)
    requires Wired(s) && Line(s.nodes, order, s.head, s.tail) && order != []
    requires s.current.Ref? && s.current.id in order
    ensures var s' := InsertingBefore(s, key, order, None, v); var o' := InsertingBeforeOrder(s, key, order, None);
            var i := IndexOf(order, s.current.id) + 1;
            && Chain(s'.nodes, o', Nil) && s'.head == s.head && s'.tail == s.tail && s'.current == Ref(s.nextId)
            && o' == Inserted(order, i, s.nextId) && o'[i] == s.nextId
            && (i < |order| ==> Line(s'.nodes, o', s'.head, s'.tail))
            && (i == |order| ==> s'.tail != EndLink(o'))
            && Values(s'.nodes, o') == Values(s.nodes, order)[..i] + [v] + Values(s.nodes, order)[i..]
  {
    Unused(s.nodes, s.nextId);
    var p := IndexOf(order, s.current.id);
    assert s.current == Ref(order[p]);
    LineSplicedAfter(s.nodes, order, s.head, s.tail, p, s.nextId, v, Single);
  }

  /** insert_before a node other than the head puts v in front of it. */
  lemma InsertBeforeInterior(s: ListState, key: int -> int, order: seq<nat>, x: int, v: int)
    requires Wired(s) && Line(s.nodes, order, s.head, s.tail)
    requires 0 < MatchIndex(s.nodes, key, order, x) < |order|
    ensures var s' := InsertingBefore(s, key, order, Some(x), v); var o' := InsertingBeforeOrder(s, key, order, Some(x));
            var i := MatchIndex(s.nodes, key, order, x);
            && Line(s'.nodes, o', s'.head, s'.tail) && |o'| == |order| + 1 && s'.current == Ref(o'[i])
            && Values(s'.nodes, o') == Values(s.nodes, order)[..i] + [v] + Values(s.nodes, order)[i..]
  {
    Unused(s.nodes, s.nextId);
    var i := MatchIndex(s.nodes, key, order, x);
    assert order[i] != order[0];
    var m := Spliced(s.nodes, s.nextId, v, Ref(order[i - 1]), Single);
    LineSplicedAfter(s.nodes, order, s.head, s.tail, i - 1, s.nextId, v, Single);
    SplicedBetween(s.nodes, s.nextId, v, order[i - 1], Single);
    assert s.nodes[order[i - 1]].next == Succ(order, i - 1, Nil);
    assert m[s.nextId := m[s.nextId].(next := Ref(order[i]))] == m;
  }

  /** insert_before on an empty list with no cursor makes a line of one. */
  lemma InsertBeforeIntoEmpty(s: ListState, key: int -> int, at: Option<int>, v: int)
    requires Wired(s) && Line(s.nodes, [], s.head, s.tail) && s.current == Nil
    ensures var s' := InsertingBefore(s, key, [], at, v); var o' := InsertingBeforeOrder(s, key, [], at);
            Line(s'.nodes, o', s'.head, s'.tail) && o' == [s.nextId] && Values(s'.nodes, o') == [v] && s'.current == s'.head
  {
    Unused(s.nodes, s.nextId);
    LineOfOne(s.nodes, s.nextId, v, Single);
  }

  /** insert_before the head links the new node and the old head to each other: the new head
   *  leads to the old head, which leads back to the new head, and the rest of the list is cut
   *  off. */
  lemma InsertBeforeHeadLoops(s: ListState, key: int -> int, order: seq<nat>, x: int, v: int)
    requires Wired(s) && Line(s.nodes, order, s.head, s.tail)
    requires order != [] && MatchIndex(s.nodes, key, order, x) == 0
    ensures var s' := InsertingBefore(s, key, order, Some(x), v);
            && s'.head == Ref(s.nextId) && s'.nodes[s.nextId].next == Ref(order[0])
            && s'.nodes[order[0]].next == Ref(s.nextId)
  {
    Unused(s.nodes, s.nextId);
    SplicedBetween(s.nodes, s.nextId, v, order[0], Single);
  }

  /** insert_before a value nothing matches puts the node after the last one but leaves the tail
   *  where it was. */
  lemma InsertBeforeAbsentStaleTail(s: ListState, key: int -> int, order: seq<nat>, x: int, v: int)
    requires Wired(s) && Line(s.nodes, order, s.head, s.tail)
    requires order != [] && MatchIndex(s.nodes, key, order, x) == |order|
    ensures var s' := InsertingBefore(s, key, order, Some(x), v); var o' := InsertingBeforeOrder(s, key, order, Some(x));
            && Chain(s'.nodes, o', Nil) && o' == order + [s.nextId] && s'.head == s.head && s'.tail == s.tail
            && s'.tail != EndLink(o') && Values(s'.nodes, o') == Values(s.nodes, order) + [v]
  {
    Unused(s.nodes, s.nextId);
    var n := |order|;
    LineSplicedAfter(s.nodes, order, s.head, s.tail, n - 1, s.nextId, v, Single);
    assert Inserted(order, n, s.nextId) == order + [s.nextId];
    assert Values(s.nodes, order)[..n] + [v] + Values(s.nodes, order)[n..] == Values(s.nodes, order) + [v];
  }

  /** prepend on a list with a head is insert_before the head's own value, which matches the head:
   *  the new head and the old head lead to each other. */
  lemma PrependLoops(s: ListState, key: int -> int, order: seq<nat>, v: int)
    requires Wired(s) && Line(s.nodes, order, s.head, s.tail) && order != []
    ensures var s' := InsertingBefore(s, key, order, ValueAt(s.nodes, s.head), v);
            && s'.head == Ref(s.nextId) && s'.nodes[s.nextId].next == Ref(order[0])
            && s'.nodes[order[0]].next == Ref(s.nextId)
  {
    var x := s.nodes[order[0]].value.value;
    assert ValueAt(s.nodes, s.head) == Some(x);
    assert MatchByValue(key, s.nodes[order[0]], x);
    MatchIndexIs(s.nodes, key, order, x, 0);
    InsertBeforeHeadLoops(s, key, order, x, v);
  }

  /** The loop prepend leaves comes back to the new head right after the old one, so to_a and
   *  clear, which stop on coming back to the head, walk exactly those two nodes: to_a answers v
   *  and the old head's value, and every node after the old head is lost. */
  lemma PrependedWalk(s: ListState, key: int -> int, order: seq<nat>, v: int)
    requires Wired(s) && Line(s.nodes, order, s.head, s.tail) && order != []
    ensures var s' := InsertingBefore(s, key, order, ValueAt(s.nodes, s.head), v); var walk := [s.nextId, order[0]];
            && Walkable(s'.nodes, walk, s'.head, s'.head) && Values(s'.nodes, walk) == [v, Values(s.nodes, order)[0]]
  {
    var s' := InsertingBefore(s, key, order, ValueAt(s.nodes, s.head), v);
    var walk := [s.nextId, order[0]];
    PrependLoops(s, key, order, v);
    Unused(s.nodes, s.nextId);
    SplicedFrame(s.nodes, s.nextId, v, Ref(order[0]), Single);
    assert s'.nodes[s.nextId].value == Some(v);
    assert s'.nodes[order[0]].value == s.nodes[order[0]].value;
    assert UniqueAt(walk, 0) && UniqueAt(walk, 1);
  }

  /** insert_before as evidently meant: the new node alone in a list without a head, in front
   *  of the head as the new head when the target is the head, and after the tail as the new tail
   *  when the prior is the tail and there is no target; otherwise as insert_before. */
  ghost function MendedInsertedBefore(s: ListState, prior: Link, target: Link, v: int): ListState
    requires Wired(s) && LinkIn(s.nodes, prior)
  {
    Unused(s.nodes, s.nextId);
    var id := s.nextId;
    if s.head.Nil? then
      ListState(Spliced(s.nodes, id, v, Nil, Single), id + 1, Ref(id), Ref(id), Ref(id), s.size + 1)
    else if target == s.head then
      ListState(s.nodes[id := LinkNode(Some(v), Nil, s.head)], id + 1, Ref(id), s.tail, Ref(id), s.size + 1)
    else
      var r := InsertedBefore(s, prior, target, v);
      if target.Nil? && prior == s.tail then r.(tail := Ref(id)) else r
  }

  ghost function MendedInsertingBefore(s: ListState, key: int -> int, order: seq<nat>, at: Option<int>, v: int): ListState
    requires Wired(s) && Line(s.nodes, order, s.head, s.tail)
  {
    var (prior, target) := PriorAndTarget(s.nodes, key, order, s.head, s.current, at).value;
    MendedInsertedBefore(s, prior, target, v)
  }

  /** A node put in front of the head of a line makes a line one longer, headed by it. */
  lemma LineFronted(nodes: map<nat, LinkNode>, order: seq<nat>, head: Link, tail: Link, id: nat, v: int)
    requires Line(nodes, order, head, tail) && order != [] && id !in nodes
    ensures var m := nodes[id := LinkNode(Some(v), Nil, head)];
            Line(m, [id] + order, Ref(id), tail) && Values(m, [id] + order) == [v] + Values(nodes, order)
  {
    var m := nodes[id := LinkNode(Some(v), Nil, head)];
    assert id !in order;
    assert Inserted(order, 0, id) == [id] + order;
    if 0 < |order| - 1 {
      assert nodes[order[|order| - 1]].next == Succ(order, |order| - 1, Nil);
    }
    ForwardInserted(nodes, m, order, 0, id, Nil, Nil);
    InsertedValues(nodes, m, order, 0, id, v);
  }

  /** The mended insert_before the head puts v in front of the whole line, as its new head. */
  lemma MendedInsertBeforeHead(s: ListState, key: int -> int, order: seq<nat>, x: int, v: int)
    requires Wired(s) && Line(s.nodes, order, s.head, s.tail)
    requires order != [] && MatchIndex(s.nodes, key, order, x) == 0
    ensures var s' := MendedInsertingBefore(s, key, order, Some(x), v);
            && Line(s'.nodes, [s.nextId] + order, s'.head, s'.tail) && s'.head == Ref(s.nextId)
            && s'.current == Ref(s.nextId) && s'.size == s.size + 1
            && Values(s'.nodes, [s.nextId] + order) == [v] + Values(s.nodes, order)
  {
    Unused(s.nodes, s.nextId);
    assert PriorAndTarget(s.nodes, key, order, s.head, s.current, Some(x)) == Returned((s.head, s.head));
    LineFronted(s.nodes, order, s.head, s.tail, s.nextId, v);
  }

  /** The mended insert_before a value nothing matches appends v, as the new tail. */
  lemma MendedInsertBeforeAbsent(s: ListState, key: int -> int, order: seq<nat>, x: int, v: int)
    requires Wired(s) && Line(s.nodes, order, s.head, s.tail)
    requires order != [] && MatchIndex(s.nodes, key, order, x) == |order|
    ensures var s' := MendedInsertingBefore(s, key, order, Some(x), v);
            && Line(s'.nodes, order + [s.nextId], s'.head, s'.tail) && s'.tail == Ref(s.nextId)
            && s'.current == Ref(s.nextId) && s'.size == s.size + 1
            && Values(s'.nodes, order + [s.nextId]) == Values(s.nodes, order) + [v]
  {
    InsertBeforeAbsentStaleTail(s, key, order, x, v);
    assert PriorAndTarget(s.nodes, key, order, s.head, s.current, Some(x)) == Returned((s.tail, Nil));
  }

  /** The mended insert_before a node past the head is insert_before. */
  lemma MendedInsertBeforeAgrees(s: ListState, key: int -> int, order: seq<nat>, x: int, v: int)
    requires Wired(s) && Line(s.nodes, order, s.head, s.tail)
    requires 0 < MatchIndex(s.nodes, key, order, x) < |order|
    ensures MendedInsertingBefore(s, key, order, Some(x), v) == InsertingBefore(s, key, order, Some(x), v)
  {
    assert order[MatchIndex(s.nodes, key, order, x)] != order[0];
  }

  /** The mended insert_before on an empty list makes a line of one, whatever node the cursor
   *  was left on. */
  lemma MendedInsertBeforeIntoEmpty(s: ListState, key: int -> int, at: Option<int>, v: int)
    requires Wired(s) && Line(s.nodes, [], s.head, s.tail)
    ensures var s' := MendedInsertingBefore(s, key, [], at, v);
            Line(s'.nodes, [s.nextId], s'.head, s'.tail) && Values(s'.nodes, [s.nextId]) == [v] && s'.current == s'.head
  {
    Unused(s.nodes, s.nextId);
    LineOfOne(s.nodes, s.nextId, v, Single);
  }

  /** prepend as evidently meant: insert_before the head's own value through the mended
   *  insert_before. */
  ghost function MendedPrepending(s: ListState, key: int -> int, order: seq<nat>, v: int): ListState
    requires Wired(s) && Line(s.nodes, order, s.head, s.tail)
  {
    MendedInsertingBefore(s, key, order, ValueAt(s.nodes, s.head), v)
  }

  /** The mended prepend puts v in front of every node of the line, as its new head. */
  lemma MendedPrependKeepsLine(s: ListState, key: int -> int, order: seq<nat>, v: int)
    requires Wired(s) && Line(s.nodes, order, s.head, s.tail) && order != []
    ensures var s' := MendedPrepending(s, key, order, v);
            && Line(s'.nodes, [s.nextId] + order, s'.head, s'.tail) && s'.head == Ref(s.nextId)
            && Values(s'.nodes, [s.nextId] + order) == [v] + Values(s.nodes, order)
  {
    var x := s.nodes[order[0]].value.value;
    assert ValueAt(s.nodes, s.head) == Some(x);
    assert MatchByValue(key, s.nodes[order[0]], x);
    MatchIndexIs(s.nodes, key, order, x, 0);
    MendedInsertBeforeHead(s, key, order, x, v);
  }

  /** insert_before's nodes: a node made after the prior and linked on to the target. */
  method MakeBefore(arena: LinkArena, v: int, prior: Link, target: Link) returns (id: nat)
    requires arena.Valid() && LinkIn(arena.nodes, prior) && LinkIn(arena.nodes, target)
    modifies arena
    ensures arena.Valid() && id == old(arena.nextId) && arena.nextId == id + 1 && id !in old(arena.nodes)
    ensures var m := Spliced(old(arena.nodes), id, v, prior, Single);
            arena.nodes == if target.Ref? then m[id := m[id].(next := target)] else m
  {
    id := arena.Call(v, prior, Single);
    if target.Ref? {
      arena.SetNext(id, target);
    }
  }

  // ---------------------------------------------------------------------------------------------
  // insert_after

  /** insert_after: nothing when find_by_value raises; otherwise a node after the target (unlinked without one); it is the cursor, the head of
   *  a list without one, and the tail when the target was the tail. */
  ghost function InsertingAfter(s: ListState, key: int -> int, order: seq<nat>, at: Option<int>, v: int): ListState
    requires Wired(s) && InArena(s.nodes, order) && Filled(s.nodes, order) && Headed(order, s.head)
  {
    match PriorAndTarget(s.nodes, key, order, s.head, s.current, at)
    case Raised(_) => s
    case Returned((_, target)) => InsertedAfter(s, target, v)
  }

  /** insert_after once find_by_value has answered the target. */
  ghost function InsertedAfter(s: ListState, target: Link, v: int): ListState
    requires Wired(s) && LinkIn(s.nodes, target)
  {
    Unused(s.nodes, s.nextId);
    var id := s.nextId;
    ListState(Spliced(s.nodes, id, v, target, Single), id + 1,
              if s.head.Nil? then Ref(id) else s.head,
              if s.tail == target then Ref(id) else s.tail,
              Ref(id), s.size + 1)
  }

  /** The nodes of the list after insert_after: the new node after the match, or alone in a list
   *  that was empty; a node made without a match is not on the list. */
  ghost function InsertingAfterOrder(s: ListState, key: int -> int, order: seq<nat>, at: Option<int>): seq<nat>
    requires InArena(s.nodes, order) && Filled(s.nodes, order)
  {
    if order == [] then [s.nextId]
    else if at.None? || MatchIndex(s.nodes, key, order, at.value) == |order| then order
    else Inserted(order, MatchIndex(s.nodes, key, order, at.value) + 1, s.nextId)
  }

  /** insert_after a matching node puts v right after it. */
  lemma InsertAfterMatch(s: ListState, key: int -> int, order: seq<nat>, x: int, v: int)
    requires Wired(s) && Line(s.nodes, order, s.head, s.tail) && MatchIndex(s.nodes, key, order, x) < |order|
    ensures var s' := InsertingAfter(s, key, order, Some(x), v); var o' := InsertingAfterOrder(s, key, order, Some(x));
            var i := MatchIndex(s.nodes, key, order, x);
            && Line(s'.nodes, o', s'.head, s'.tail) && |o'| == |order| + 1 && s'.current == Ref(o'[i + 1])
            && Values(s'.nodes, o') == Values(s.nodes, order)[..i + 1] + [v] + Values(s.nodes, order)[i + 1..]
  {
    Unused(s.nodes, s.nextId);
    var i := MatchIndex(s.nodes, key, order, x);
    assert PriorAndTarget(s.nodes, key, order, s.head, s.current, Some(x)).value.1 == Ref(order[i]);
    if i != |order| - 1 {
      DistinctAt(order, |order| - 1, i);
    }
    LineSplicedAfter(s.nodes, order, s.head, s.tail, i, s.nextId, v, Single);
  }

  /** insert_after on an empty list makes a line of one, whatever the cursor. */
  lemma InsertAfterIntoEmpty(s: ListState, key: int -> int, at: Option<int>, v: int)
    requires Wired(s) && Line(s.nodes, [], s.head, s.tail)
    ensures var s' := InsertingAfter(s, key, [], at, v); var o' := InsertingAfterOrder(s, key, [], at);
            Line(s'.nodes, o', s'.head, s'.tail) && o' == [s.nextId] && Values(s'.nodes, o') == [v] && s'.current == s'.head
  {
    Unused(s.nodes, s.nextId);
    LineOfOne(s.nodes, s.nextId, v, Single);
  }

  /** insert_after a value nothing matches leaves the list as it was and the cursor on a node that
   *  is not on it. */
  lemma InsertAfterAbsentFloats(s: ListState, key: int -> int, order: seq<nat>, x: int, v: int)
    requires Wired(s) && Line(s.nodes, order, s.head, s.tail)
    requires order != [] && MatchIndex(s.nodes, key, order, x) == |order|
    ensures var s' := InsertingAfter(s, key, order, Some(x), v);
            && Line(s'.nodes, order, s'.head, s'.tail) && s'.head == s.head && s'.tail == s.tail
            && Values(s'.nodes, order) == Values(s.nodes, order)
            && s'.current == Ref(s.nextId) && s.nextId !in order
  {
    Unused(s.nodes, s.nextId);
    var s' := InsertingAfter(s, key, order, Some(x), v);
    assert s'.nodes == s.nodes[s.nextId := LinkNode(Some(v), Nil, Nil)];
    assert s.nextId !in order;
    assert Values(s'.nodes, order) == Values(s.nodes, order);
  }

  /** insert_after as evidently meant: with no target the new node goes after the tail, as the
   *  new tail; otherwise as insert_after. */
  ghost function MendedInsertingAfter(s: ListState, key: int -> int, order: seq<nat>, at: Option<int>, v: int): ListState
    requires Wired(s) && Line(s.nodes, order, s.head, s.tail)
  {
    var (_, target) := PriorAndTarget(s.nodes, key, order, s.head, s.current, at).value;
    InsertedAfter(s, if target.Nil? then s.tail else target, v)
  }

  /** The mended insert_after a value nothing matches appends v, as the new tail. */
  lemma MendedInsertAfterAbsent(s: ListState, key: int -> int, order: seq<nat>, x: int, v: int)
    requires Wired(s) && Line(s.nodes, order, s.head, s.tail)
    requires order != [] && MatchIndex(s.nodes, key, order, x) == |order|
    ensures var s' := MendedInsertingAfter(s, key, order, Some(x), v);
            && Line(s'.nodes, order + [s.nextId], s'.head, s'.tail) && s'.tail == Ref(s.nextId)
            && s'.current == Ref(s.nextId) && s'.size == s.size + 1
            && Values(s'.nodes, order + [s.nextId]) == Values(s.nodes, order) + [v]
  {
    Unused(s.nodes, s.nextId);
    var n := |order|;
    assert PriorAndTarget(s.nodes, key, order, s.head, s.current, Some(x)).value.1 == Nil;
    LineSplicedAfter(s.nodes, order, s.head, s.tail, n - 1, s.nextId, v, Single);
    assert Inserted(order, n, s.nextId) == order + [s.nextId];
    assert Values(s.nodes, order)[..n] + [v] + Values(s.nodes, order)[n..] == Values(s.nodes, order) + [v];
  }

  /** Where insert_after finds a target, or the list is empty, the mended insert_after is
   *  insert_after. */
  lemma MendedInsertAfterAgrees(s: ListState, key: int -> int, order: seq<nat>, x: int, v: int)
    requires Wired(s) && Line(s.nodes, order, s.head, s.tail)
    requires order == [] || MatchIndex(s.nodes, key, order, x) < |order|
    ensures MendedInsertingAfter(s, key, order, Some(x), v) == InsertingAfter(s, key, order, Some(x), v)
  {
  }

  // ---------------------------------------------------------------------------------------------
  // remove

  /** The arena after `prior.next = target.remove!`. */
  function Bypassed(nodes: map<nat, LinkNode>, prior: nat, target: nat): (m: map<nat, LinkNode>)
    requires prior in nodes && target in nodes
    ensures m.Keys == nodes.Keys
  {
    var cleared := nodes[target := Cleared];
    cleared[prior := cleared[prior].(next := nodes[target].next)]
  }

  /** remove: nothing when find_by_value raises; raises when there is neither a prior nor a target; otherwise the cursor moves to the
   *  prior, the target (if any) is removed with the prior leading on to what followed it, the head
   *  and the tail move to the prior's next when they were the target, and the size drops by one. */
  ghost function Removing(s: ListState, key: int -> int, order: seq<nat>, v: Option<int>): ListState
    requires Wired(s) && InArena(s.nodes, order) && Filled(s.nodes, order) && Headed(order, s.head)
  {
    match PriorAndTarget(s.nodes, key, order, s.head, s.current, v)
    case Raised(_) => s
    case Returned((prior, target)) => RemovedAt(s, prior, target)
  }

  /** remove once find_by_value has answered prior and target. */
  ghost function RemovedAt(s: ListState, prior: Link, target: Link): ListState
    requires Wired(s) && LinkIn(s.nodes, prior) && LinkIn(s.nodes, target)
  {
    if prior.Nil? then s
    else
      var m := if target.Ref? then Bypassed(s.nodes, prior.id, target.id) else s.nodes;
      var next := m[prior.id].next;
      ListState(m, s.nextId, if s.head == target then next else s.head, if s.tail == target then next else s.tail,
                prior, s.size - 1)
  }

  /** remove's answer: NoMethodError when find_by_value raises or answers no prior, else the new
   *  size. */
  ghost function RemovingAnswer(s: ListState, key: int -> int, order: seq<nat>, v: Option<int>): Outcome<int>
    requires Wired(s) && InArena(s.nodes, order) && Filled(s.nodes, order) && Headed(order, s.head)
  {
    match PriorAndTarget(s.nodes, key, order, s.head, s.current, v)
    case Raised(e) => Raised(e)
    case Returned((prior, _)) => if prior.Nil? then Raised(NoMethodError) else Returned(s.size - 1)
  }

  /** The nodes of the list after remove: without the first match. */
  ghost function RemovingOrder(s: ListState, key: int -> int, order: seq<nat>, v: Option<int>): seq<nat>
    requires InArena(s.nodes, order) && Filled(s.nodes, order)
  {
    if v.None? || MatchIndex(s.nodes, key, order, v.value) == |order| then order
    else Removed(order, MatchIndex(s.nodes, key, order, v.value))
  }

  /** Bypassing the node at p (from the node before it, or from itself at the head) leaves only
   *  the prior's next link and the target changed. */
  lemma BypassedFrame(nodes: map<nat, LinkNode>, order: seq<nat>, q: nat, p: nat)
    requires InArena(nodes, order) && Distinct(order) && p < |order| && (q == p || q + 1 == p)
    ensures var m := Bypassed(nodes, order[q], order[p]);
            && InArena(m, order) && m[order[q]].next == nodes[order[p]].next
            && (q < p ==> m[order[q]].value == nodes[order[q]].value)
            && forall i :: 0 <= i < |order| && i != q && i != p ==> m[order[i]] == nodes[order[i]]
  {
    var m := Bypassed(nodes, order[q], order[p]);
    if q < p {
      DistinctAt(order, q, p);
    }
    forall i | 0 <= i < |order| && i != q && i != p ensures m[order[i]] == nodes[order[i]] {
      DistinctAt(order, i, q);
      DistinctAt(order, i, p);
    }
  }

  /** Bypassing the p-th node of a chain that ends in nil leaves a chain of the other nodes, and
   *  the prior leads to what followed the target. */
  lemma ChainBypassed(nodes: map<nat, LinkNode>, order: seq<nat>, p: nat)
    requires Chain(nodes, order, Nil) && p < |order|
    ensures var q := if p == 0 then 0 else p - 1; var m := Bypassed(nodes, order[q], order[p]);
            && Chain(m, Removed(order, p), Nil) && m[order[q]].next == Succ(order, p, Nil)
            && Values(m, Removed(order, p)) == Values(nodes, order)[..p] + Values(nodes, order)[p + 1..]
  {
    var q := if p == 0 then 0 else p - 1;
    var m := Bypassed(nodes, order[q], order[p]);
    BypassedFrame(nodes, order, q, p);
    assert nodes[order[p]].next == Succ(order, p, Nil);
    if p + 1 < |order| && q != |order| - 1 {
      assert nodes[order[|order| - 1]].next == Succ(order, |order| - 1, Nil);
    }
    ForwardRemoved(nodes, m, order, p, Nil, Nil);
    RemovedValues(nodes, m, order, p);
  }

  /** remove of a matching value on a line answers the new size and takes the first match out
   *  of the list, bypassing it from the node before it (from itself at the head). */
  lemma RemovingMatch(s: ListState, key: int -> int, order: seq<nat>, x: int)
    requires Wired(s) && Line(s.nodes, order, s.head, s.tail) && MatchIndex(s.nodes, key, order, x) < |order|
    ensures var i := MatchIndex(s.nodes, key, order, x); var q := if i == 0 then 0 else i - 1;
            && Removing(s, key, order, Some(x)) == RemovedAt(s, Ref(order[q]), Ref(order[i]))
            && RemovingOrder(s, key, order, Some(x)) == Removed(order, i)
            && RemovingAnswer(s, key, order, Some(x)) == Returned(s.size - 1)
  {
    var i := MatchIndex(s.nodes, key, order, x);
    assert PriorAndTarget(s.nodes, key, order, s.head, s.current, Some(x))
           == Returned((Ref(order[if i == 0 then 0 else i - 1]), Ref(order[i])));
  }

  /** Bypassing the i-th node of a line moves the cursor to the node before it (to the node itself
   *  at the head), moves the head on when it was the head and makes the tail nil when it was the
   *  tail. */
  lemma RemovedAtLine(s: ListState, order: seq<nat>, i: nat, q: nat)
    requires Wired(s) && Line(s.nodes, order, s.head, s.tail) && i < |order| && q == if i == 0 then 0 else i - 1
    ensures RemovedAt(s, Ref(order[q]), Ref(order[i]))
            == ListState(Bypassed(s.nodes, order[q], order[i]), s.nextId, if i == 0 then Succ(order, 0, Nil) else s.head,
                         if i == |order| - 1 then Nil else s.tail, Ref(order[q]), s.size - 1)
  {
    assert UniqueAt(order, i);
    assert s.nodes[order[i]].next == Succ(order, i, Nil);
  }

  /** remove of a node other than the head and the tail takes it out of the line and leaves the
   *  cursor on the node before it. */
  lemma RemoveInterior(s: ListState, key: int -> int, order: seq<nat>, x: int)
    requires Wired(s) && Line(s.nodes, order, s.head, s.tail)
    requires 0 < MatchIndex(s.nodes, key, order, x) < |order| - 1
    ensures var s' := Removing(s, key, order, Some(x)); var o' := RemovingOrder(s, key, order, Some(x));
            var i := MatchIndex(s.nodes, key, order, x);
            && Line(s'.nodes, o', s'.head, s'.tail) && |o'| == |order| - 1 && s'.current == Ref(order[i - 1])
            && Values(s'.nodes, o') == Values(s.nodes, order)[..i] + Values(s.nodes, order)[i + 1..]
            && RemovingAnswer(s, key, order, Some(x)) == Returned(s.size - 1) && s'.size == s.size - 1
  {
    var i := MatchIndex(s.nodes, key, order, x);
    RemovingMatch(s, key, order, x);
    RemovedAtLine(s, order, i, i - 1);
    ChainBypassed(s.nodes, order, i);
  }

  /** remove of the head takes it out of the line but leaves the cursor on the removed node, whose
   *  value is gone. */
  lemma RemoveHead(s: ListState, key: int -> int, order: seq<nat>, x: int)
    requires Wired(s) && Line(s.nodes, order, s.head, s.tail)
    requires order != [] && MatchIndex(s.nodes, key, order, x) == 0
    ensures var s' := Removing(s, key, order, Some(x)); var o' := RemovingOrder(s, key, order, Some(x));
            && Line(s'.nodes, o', s'.head, s'.tail) && o' == order[1..]
            && Values(s'.nodes, o') == Values(s.nodes, order)[1..]
            && s'.current == Ref(order[0]) && ValueAt(s'.nodes, s'.current) == None
            && RemovingAnswer(s, key, order, Some(x)) == Returned(s.size - 1) && s'.size == s.size - 1
  {
    var i := MatchIndex(s.nodes, key, order, x);
    RemovingMatch(s, key, order, x);
    RemovedAtLine(s, order, i, 0);
    ChainBypassed(s.nodes, order, i);
    assert Removed(order, 0) == order[1..];
  }

  /** remove of the tail of a line of two or more takes it out but leaves the list without a
   *  tail. */
  lemma RemoveTailLosesTail(s: ListState, key: int -> int, order: seq<nat>, x: int)
    requires Wired(s) && Line(s.nodes, order, s.head, s.tail)
    requires |order| > 1 && MatchIndex(s.nodes, key, order, x) == |order| - 1
    ensures var s' := Removing(s, key, order, Some(x)); var o' := RemovingOrder(s, key, order, Some(x));
            && Chain(s'.nodes, o', Nil) && s'.head == HeadLink(o') && o' == order[..|order| - 1]
            && s'.tail == Nil && s'.current == EndLink(o')
            && Values(s'.nodes, o') == Values(s.nodes, order)[..|order| - 1]
  {
    var n := |order|;
    var i := MatchIndex(s.nodes, key, order, x);
    RemovingMatch(s, key, order, x);
    RemovedAtLine(s, order, i, i - 1);
    ChainBypassed(s.nodes, order, i);
    assert Removed(order, n - 1) == order[..n - 1];
    assert Values(s.nodes, order)[..n - 1] + Values(s.nodes, order)[n..] == Values(s.nodes, order)[..n - 1];
  }

  /** remove of a value nothing matches changes no node, moves the cursor to the tail, and still
   *  takes one from the size. */
  lemma RemoveAbsentShrinks(s: ListState, key: int -> int, order: seq<nat>, x: int)
    requires Wired(s) && Line(s.nodes, order, s.head, s.tail)
    requires order != [] && MatchIndex(s.nodes, key, order, x) == |order|
    ensures var s' := Removing(s, key, order, Some(x));
            && s'.nodes == s.nodes && s'.head == s.head && s'.tail == s.tail && s'.current == s.tail
            && RemovingOrder(s, key, order, Some(x)) == order && s'.size == s.size - 1
            && RemovingAnswer(s, key, order, Some(x)) == Returned(s.size - 1)
  {
    assert PriorAndTarget(s.nodes, key, order, s.head, s.current, Some(x)) == Returned((s.tail, Nil));
  }

  /** remove as evidently meant: without a target nothing is removed and the size stays; the
   *  tail, when removed, hands the tail to the node before it; otherwise as remove. */
  ghost function MendedRemovedAt(s: ListState, prior: Link, target: Link): ListState
    requires Wired(s) && LinkIn(s.nodes, prior) && LinkIn(s.nodes, target)
  {
    if prior.Ref? && target.Nil? then s.(current := prior)
    else
      var r := RemovedAt(s, prior, target);
      if prior.Ref? && prior != target && s.tail == target then r.(tail := prior) else r
  }

  ghost function MendedRemoving(s: ListState, key: int -> int, order: seq<nat>, v: Option<int>): ListState
    requires Wired(s) && Line(s.nodes, order, s.head, s.tail)
  {
    var (prior, target) := PriorAndTarget(s.nodes, key, order, s.head, s.current, v).value;
    MendedRemovedAt(s, prior, target)
  }

  /** The mended remove of the tail of a line of two or more takes it out, and the node before
   *  it becomes the tail. */
  lemma MendedRemoveTail(s: ListState, key: int -> int, order: seq<nat>, x: int)
    requires Wired(s) && Line(s.nodes, order, s.head, s.tail)
    requires |order| > 1 && MatchIndex(s.nodes, key, order, x) == |order| - 1
    ensures var s' := MendedRemoving(s, key, order, Some(x)); var n := |order|;
            && Line(s'.nodes, order[..n - 1], s'.head, s'.tail) && s'.tail == Ref(order[n - 2])
            && Values(s'.nodes, order[..n - 1]) == Values(s.nodes, order)[..n - 1] && s'.size == s.size - 1
  {
    var n := |order|;
    RemoveTailLosesTail(s, key, order, x);
    RemovingMatch(s, key, order, x);
    assert order[n - 2] != order[n - 1];
  }

  /** The mended remove of a value nothing matches changes nothing but the cursor, which goes to
   *  the tail. */
  lemma MendedRemoveAbsent(s: ListState, key: int -> int, order: seq<nat>, x: int)
    requires Wired(s) && Line(s.nodes, order, s.head, s.tail)
    requires order != [] && MatchIndex(s.nodes, key, order, x) == |order|
    ensures MendedRemoving(s, key, order, Some(x)) == s.(current := s.tail)
  {
    assert PriorAndTarget(s.nodes, key, order, s.head, s.current, Some(x)) == Returned((s.tail, Nil));
  }

  /** Where the match is not the tail of a longer line, the mended remove is remove. */
  lemma MendedRemoveAgrees(s: ListState, key: int -> int, order: seq<nat>, x: int)
    requires Wired(s) && Line(s.nodes, order, s.head, s.tail)
    requires MatchIndex(s.nodes, key, order, x) < |order| && (|order| == 1 || MatchIndex(s.nodes, key, order, x) < |order| - 1)
    ensures MendedRemoving(s, key, order, Some(x)) == Removing(s, key, order, Some(x))
  {
    var i := MatchIndex(s.nodes, key, order, x);
    RemovingMatch(s, key, order, x);
    if i > 0 {
      assert order[|order| - 1] != order[i];
    }
  }

  /** remove on a list without a head, or of nil, raises NoMethodError when there is no cursor. */
  lemma RemoveWithoutCursorRaises(s: ListState, key: int -> int, order: seq<nat>, v: Option<int>)
    requires Wired(s) && Line(s.nodes, order, s.head, s.tail) && (order == [] || v.None?) && s.current == Nil
    ensures RemovingAnswer(s, key, order, v) == Raised(NoMethodError) && Removing(s, key, order, v) == s
  {
  }

  // ---------------------------------------------------------------------------------------------
  // nth

  /** nth(index): index - 1 steps forward from the cursor, stopping at the last node; none for an
   *  index below 2. */
  ghost function NthStepped(s: ListState, index: int): ListState
  {
    s.(current := Walk(s.nodes, s.current, if index > 1 then index - 1 else 0, Nil, Forth))
  }

  /** nth(index) from the p-th node of a line lands on node p + index - 1, or on the last node
   *  when the line is shorter, and answers its value. */
  lemma NthOnLine(s: ListState, order: seq<nat>, p: nat, index: int)
    requires Line(s.nodes, order, s.head, s.tail) && p < |order| && s.current == Ref(order[p])
    ensures var q := if index > 1 then Min(p + index - 1, |order| - 1) else p;
            && NthStepped(s, index) == s.(current := Ref(order[q]))
            && ValueAt(s.nodes, NthStepped(s, index).current) == Some(Values(s.nodes, order)[q])
  {
    WalkLine(s.nodes, order, p, if index > 1 then index - 1 else 0);
  }

  // ---------------------------------------------------------------------------------------------
  // The list

  /** A LinkedList: its arena of nodes, its key block and its fields. `order` names the nodes of
   *  the list from the head on, for the lemmas that describe its shape. */
  class LinkedList {
    const arena: LinkArena
    const key: int -> int
    var head: Link
    var tail: Link
    var current: Link
    var size: int
    ghost var order: seq<nat>

    /** The fields and the nodes as one value. */
    function State(): ListState
      reads this, arena
    {
      ListState(arena.nodes, arena.nextId, head, tail, current, size)
    }

    /** The arena is closed and head, tail and cursor are nil or nodes of it. */
    ghost predicate Valid()
      reads this, arena
    {
      Wired(State())
    }

    /** The list is a line of the nodes of order. */
    ghost predicate Shaped()
      reads this, arena
    {
      Valid() && Line(arena.nodes, order, head, tail)
    }

    /** The size counts the nodes. */
    ghost predicate Counted()
      reads this
    {
      size == |order|
    }

    /** The values of the list from the head on. */
    ghost function Contents(): seq<int>
      reads this, arena
      requires Shaped()
    {
      Values(arena.nodes, order)
    }

    /** LinkedList.new(*vs) { key }: a line of vs, with the cursor on the head when there is more
     *  than one value. */
    constructor (vs: seq<int>, key: int -> int)
      ensures Valid() && State() == Started(vs, Singly) && order == StartedOrder(vs, Singly) && this.key == key
      ensures Shaped() && Contents() == vs && Counted()
    {
      arena := new LinkArena();
      this.key := key;
      head, tail, current, size := Nil, Nil, Nil, 0;
      order := [];
      new;
      InsertEach(vs);
      if |vs| > 1 {
        var _ := First();
      }
      StartedLine(vs);
    }

    /** The constructor's `vargs.each { |value| insert(value) }`. */
    method InsertEach(vs: seq<int>)
      requires Valid()
      modifies this, arena
      ensures Valid() && State() == InsertingAll(old(State()), vs, Singly)
      ensures order == InsertingAllOrder(old(State()), old(order), vs, Singly)
    {
      ghost var s0, o0 := State(), order;
      for i := 0 to |vs|
        invariant Valid() && State() == InsertingAll(s0, vs[..i], Singly) && order == InsertingAllOrder(s0, o0, vs[..i], Singly)
      {
        assert vs[..i + 1][..i] == vs[..i];
        var _ := Insert(vs[i]);
      }
      assert vs[..|vs|] == vs;
    }

    /** first */
    method First() returns (r: Option<int>)
      requires Valid()
      modifies this`current
      ensures Valid() && State() == Firsted(old(State())) && r == ValueAt(arena.nodes, current)
    {
      if head.Ref? {
        current := head;
      }
      r := ValueAt(arena.nodes, current);
    }

    /** next */
    method Next() returns (r: Option<int>)
      requires Valid()
      modifies this`current
      ensures Valid() && State() == Stepped(old(State()), Forth) && r == ValueAt(arena.nodes, current)
    {
      if current.Ref? && arena.nodes[current.id].next.Ref? {
        LinksOf(arena.nodes, arena.nextId, current.id);
        current := arena.nodes[current.id].next;
      }
      r := ValueAt(arena.nodes, current);
    }

    /** last */
    method Last() returns (r: Option<int>)
      requires Valid()
      modifies this`current
      ensures Valid() && State() == Lasted(old(State())) && r == ValueAt(arena.nodes, current)
    {
      if tail.Ref? {
        current := tail;
      }
      r := ValueAt(arena.nodes, current);
    }

    /** current: the cursor's value; on a line, the value at the cursor's position. */
    method Current() returns (r: Option<int>)
      requires Valid()
      ensures r == ValueAt(arena.nodes, current)
      ensures Shaped() && Cursor(order, current) && order != [] ==>
                IndexOf(order, current.id) < |order| && r == Some(Contents()[IndexOf(order, current.id)])
      ensures Shaped() && order == [] ==> r == ValueAt(arena.nodes, current)
    {
      r := ValueAt(arena.nodes, current);
      if Shaped() && Cursor(order, current) {
        CurrentOnList(State(), order);
      }
    }

    /** empty?: the size is 0; when the size counts the nodes, exactly when there are none. */
    method IsEmpty() returns (r: bool)
      ensures r == (size == 0) && (Counted() ==> (r <==> order == []))
    {
      r := size == 0;
    }

    /** nth(index) */
    method Nth(index: int) returns (r: Option<int>)
      requires Valid()
      modifies this`current
      ensures Valid() && State() == NthStepped(old(State()), index) && r == ValueAt(arena.nodes, current)
    {
      current := WalkLinks(arena, current, if index > 1 then index - 1 else 0, Nil, Forth);
      r := ValueAt(arena.nodes, current);
    }

    /** find_by_index(index): the node it finds becomes the cursor. */
    method FindByIndex(index: int) returns (node: Link)
      requires Valid()
      modifies this`current
      ensures Valid() && node == ByIndex(old(State()), index) && State() == AtIndexed(old(State()), index)
    {
      if head.Nil? || index < 1 || index > size {
        return Nil;
      }
      node := WalkLinks(arena, head, index - 1, Nil, Forth);
      if node.Ref? {
        current := node;
      }
    }

    /** at_index(index): find_by_index, then the cursor's value. */
    method AtIndex(index: int) returns (r: Option<int>)
      requires Valid()
      modifies this`current
      ensures Valid() && State() == AtIndexed(old(State()), index) && r == ValueAt(arena.nodes, current)
    {
      var _ := FindByIndex(index);
      r := ValueAt(arena.nodes, current);
    }

    /** insert (and append): the new size. */
    method Insert(v: int) returns (r: int)
      requires Valid()
      modifies this, arena
      ensures Valid() && State() == Inserting(old(State()), v, Singly) && order == InsertingOrder(old(State()), old(order))
      ensures r == size
    {
      ghost var s0 := State();
      order := InsertingOrder(s0, order);
      var node := current;
      var id := arena.Call(v, node, Single);
      current := Ref(id);
      head := if head.Nil? then current else head;
      tail := if tail == node then current else tail;
      size := size + 1;
      r := size;
      InsertingWired(s0, v, Singly);
    }

    /** find_by_value's [prior, target], or NoMethodError. `walk` is the run of nodes from the
     *  head that it walks. */
    method FindPriorAndTarget(x: Option<int>, ghost walk: seq<nat>) returns (r: Outcome<(Link, Link)>)
      requires Valid() && Trail(arena.nodes, walk, head) && PriorHalts(arena.nodes, key, walk, head, x)
      ensures r == PriorAndTarget(arena.nodes, key, walk, head, current, x)
      ensures r.Returned? ==> LinkIn(arena.nodes, r.value.0) && LinkIn(arena.nodes, r.value.1)
    {
      r := FindPrior(arena, key, head, current, x, walk);
    }

    /** insert_before(x, v): the new size, or NoMethodError from find_by_value. */
    method InsertBefore(x: Option<int>, v: int, ghost walk: seq<nat>) returns (r: Outcome<int>)
      requires Valid() && Trail(arena.nodes, walk, head) && PriorHalts(arena.nodes, key, walk, head, x)
      modifies this, arena
      ensures Valid() && State() == InsertingBefore(old(State()), key, walk, x, v)
      ensures r == if PriorAndTarget(old(arena.nodes), key, walk, old(head), old(current), x).Raised? then Raised(NoMethodError) else Returned(size)
      ensures order == if r.Raised? then old(order) else InsertingBeforeOrder(old(State()), key, walk, x)
    {
      ghost var s0 := State();
      var found := FindPriorAndTarget(x, walk);
      if found.Raised? {
        return Raised(found.error);
      }
      var (prior, target) := found.value;
      var n := LinkBefore(prior, target, v);
      r := Returned(n);
      order := InsertingBeforeOrder(s0, key, walk, x);
    }

    /** insert_before after its find_by_value. */
    method LinkBefore(prior: Link, target: Link, v: int) returns (r: int)
      requires Valid() && LinkIn(arena.nodes, prior) && LinkIn(arena.nodes, target)
      modifies this`head, this`tail, this`current, this`size, arena
      ensures Valid() && State() == InsertedBefore(old(State()), prior, target, v) && r == size
    {
      var id := MakeBefore(arena, v, prior, target);
      head := if head == target then Ref(id) else head;
      tail := if tail.Nil? then Ref(id) else tail;
      current := Ref(id);
      size := size + 1;
      r := size;
    }

    /** prepend(v): insert_before the head's value, which the walk from the head finds at the head
     *  itself, so find_by_value neither raises nor goes round for ever. */
    method Prepend(v: int, ghost walk: seq<nat>) returns (r: int)
      requires Valid() && Trail(arena.nodes, walk, head)
      modifies this, arena
      ensures Valid() && State() == InsertingBefore(old(State()), key, walk, ValueAt(old(arena.nodes), old(head)), v)
      ensures order == InsertingBeforeOrder(old(State()), key, walk, ValueAt(old(arena.nodes), old(head))) && r == size
    {
      HeadValuePrior(arena.nodes, key, walk, head, current);
      var found := InsertBefore(ValueAt(arena.nodes, head), v, walk);
      r := found.value;
    }

    /** insert_after(x, v): the new size, or NoMethodError from find_by_value. */
    method InsertAfter(x: Option<int>, v: int, ghost walk: seq<nat>) returns (r: Outcome<int>)
      requires Valid() && Trail(arena.nodes, walk, head) && PriorHalts(arena.nodes, key, walk, head, x)
      modifies this, arena
      ensures Valid() && State() == InsertingAfter(old(State()), key, walk, x, v)
      ensures r == if PriorAndTarget(old(arena.nodes), key, walk, old(head), old(current), x).Raised? then Raised(NoMethodError) else Returned(size)
      ensures order == if r.Raised? then old(order) else InsertingAfterOrder(old(State()), key, walk, x)
    {
      ghost var s0 := State();
      var found := FindPriorAndTarget(x, walk);
      if found.Raised? {
        return Raised(found.error);
      }
      var n := LinkAfter(found.value.1, v);
      r := Returned(n);
      order := InsertingAfterOrder(s0, key, walk, x);
    }

    /** insert_after after its find_by_value. */
    method LinkAfter(target: Link, v: int) returns (r: int)
      requires Valid() && LinkIn(arena.nodes, target)
      modifies this`head, this`tail, this`current, this`size, arena
      ensures Valid() && State() == InsertedAfter(old(State()), target, v) && r == size
    {
      var id := arena.Call(v, target, Single);
      head := if head.Nil? then Ref(id) else head;
      tail := if tail == target then Ref(id) else tail;
      current := Ref(id);
      size := size + 1;
      r := size;
    }

    /** remove(x): the remaining size, or NoMethodError from find_by_value or when there is
     *  neither a prior nor a target. */
    method Remove(x: Option<int>, ghost walk: seq<nat>) returns (r: Outcome<int>)
      requires Valid() && Trail(arena.nodes, walk, head) && PriorHalts(arena.nodes, key, walk, head, x)
      modifies this, arena
      ensures Valid() && State() == Removing(old(State()), key, walk, x)
      ensures order == RemovingOrder(old(State()), key, walk, x)
      ensures r == RemovingAnswer(old(State()), key, walk, x)
    {
      ghost var s0 := State();
      var found := FindPriorAndTarget(x, walk);
      if found.Raised? {
        order := RemovingOrder(s0, key, walk, x);
        return Raised(found.error);
      }
      var (prior, target) := found.value;
      r := Unlink(prior, target);
      order := RemovingOrder(s0, key, walk, x);
    }

    /** remove after its find_by_value. */
    method Unlink(prior: Link, target: Link) returns (r: Outcome<int>)
      requires Valid() && LinkIn(arena.nodes, prior) && LinkIn(arena.nodes, target)
      modifies this`head, this`tail, this`current, this`size, arena
      ensures Valid() && State() == RemovedAt(old(State()), prior, target)
      ensures r == if prior.Nil? then Raised(NoMethodError) else Returned(size)
    {
      if prior.Nil? {
        return Raised(NoMethodError);
      }
      current := prior;
      if target.Ref? {
        LinksOf(arena.nodes, arena.nextId, target.id);
        var next := arena.RemoveNode(target.id);
        arena.SetNext(current.id, next);
      }
      var next := arena.nodes[current.id].next;
      LinksOf(arena.nodes, arena.nextId, current.id);
      tail := if tail == target then next else tail;
      head := if head == target then next else head;
      size := size - 1;
      r := Returned(size);
    }

    /** to_a: the values met from the head on, along a line or along a walk that comes back to the
     *  head (the loop an as-written prepend leaves, PrependedWalk); the cursor moves to the head. */
    method ToArray(ghost walk: seq<nat>, ghost end: Link) returns (result: seq<int>)
      requires Valid() && Walkable(arena.nodes, walk, head, end)
      modifies this`current
      ensures Valid() && result == Values(arena.nodes, walk) && State() == old(State()).(current := old(head))
      ensures old(Shaped()) ==> Shaped()
    {
      result := ToA(arena, head, walk, end);
      current := head;
    }

    /** clear: the number of nodes cleared. */
    method Clear(ghost walk: seq<nat>, ghost end: Link) returns (rc: int)
      requires Valid() && Walkable(arena.nodes, walk, head, end)
      modifies this, arena
      ensures Shaped() && State() == Clearing(old(State()), walk) && order == [] && rc == |walk|
    {
      rc := ClearNodes(arena, head, walk, end);
      current, head, tail, size := Nil, Nil, Nil, 0;
      order := [];
    }

    /** sort!(direction) { block }: the values merge-sorted by the active condition, clear, and
     *  each sorted value inserted again; answers the size. */
    method Sort(direction: SortOrder, ghost walk: seq<nat>, ghost end: Link) returns (r: int)
      requires Valid() && Walkable(arena.nodes, walk, head, end)
      modifies this, arena
      ensures Valid() && r == size
      ensures var sorted := MergeSorted(ActiveCondition(key, direction), Values(old(arena.nodes), walk));
              && State() == InsertingAll(Clearing(old(State()), walk), sorted, Singly)
              && order == InsertingAllOrder(Clearing(old(State()), walk), [], sorted, Singly)
              && Shaped() && Contents() == sorted && Counted()
    {
      var values := ToArray(walk, end);
      var sorted := MergeSort(ActiveCondition(key, direction), values);
      var _ := Clear(walk, end);
      AppendingAll(State(), order, sorted);
      InsertEach(sorted);
      r := size;
    }
  }
}
