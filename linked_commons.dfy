/**
 * Lists::LinkedCommons: what the three lists share. The walks of to_a, clear and find_by_value,
 * merge_sort and merge, and the shapes a list's links can have: a line of next links (LinkedList),
 * a line linked both ways (DoublyLinkedList) and a ring linked both ways (CircularLinkedList).
 * A shape is stated against `order`, the identities of the list's nodes from head to tail.
 */
module LinkedCommons {
  import opened Wrappers
  import opened LinkNodes

  // ---------------------------------------------------------------------------------------------
  // The state of a list

  /** The fields of a list (@head, @tail, @current, @size) with the list's nodes. */
  datatype ListState = ListState(nodes: map<nat, LinkNode>, nextId: nat, head: Link, tail: Link, current: Link, size: int)

  /** The arena is closed and the list's links point into it. */
  ghost predicate Wired(s: ListState)
  {
    Closed(s.nodes, s.nextId) && LinkIn(s.nodes, s.head) && LinkIn(s.nodes, s.tail) && LinkIn(s.nodes, s.current)
  }

  /** A list just made: no nodes, no links, size 0. */
  const Initial := ListState(map[], 0, Nil, Nil, Nil, 0)

  // ---------------------------------------------------------------------------------------------
  // Shapes

  /** Every identity of order is a node of the arena. */
  ghost predicate InArena(nodes: map<nat, LinkNode>, order: seq<nat>)
  {
    forall i :: 0 <= i < |order| ==> order[i] in nodes
  }

  /** No other position of order holds the node at position s. */
  ghost predicate UniqueAt(order: seq<nat>, s: nat)
    requires s < |order|
  {
    forall j :: 0 <= j < |order| && j != s ==> order[j] != order[s]
  }

  /** No node appears twice in order. Stated position by position, so that a proof draws on it
   *  only where it names a position. */
  ghost predicate Distinct(order: seq<nat>)
  {
    forall s :: 0 <= s < |order| ==> UniqueAt(order, s)
  }

  lemma DistinctAt(order: seq<nat>, i: nat, j: nat)
    requires Distinct(order) && i < |order| && j < |order| && i != j
    ensures order[i] != order[j]
  {
    assert UniqueAt(order, i);
  }

  /** Every node of order holds a value (none has been cleared). */
  ghost predicate Filled(nodes: map<nat, LinkNode>, order: seq<nat>)
    requires InArena(nodes, order)
  {
    forall i :: 0 <= i < |order| ==> nodes[order[i]].value.Some?
  }

  /** The link after position i: the next node, or `end` after the last. */
  function Succ(order: seq<nat>, i: nat, end: Link): Link
    requires i < |order|
  {
    if i + 1 < |order| then Ref(order[i + 1]) else end
  }

  /** The link before position i: the previous node, or `start` before the first. */
  function Pred(order: seq<nat>, i: nat, start: Link): Link
    requires i < |order|
  {
    if i > 0 then Ref(order[i - 1]) else start
  }

  function HeadLink(order: seq<nat>): Link
  {
    if order == [] then Nil else Ref(order[0])
  }

  function EndLink(order: seq<nat>): Link
  {
    if order == [] then Nil else Ref(order[|order| - 1])
  }

  /** The next links run along order, the last one to `end`. */
  ghost predicate Forward(nodes: map<nat, LinkNode>, order: seq<nat>, end: Link)
    requires InArena(nodes, order)
  {
    forall i {:trigger nodes[order[i]]} :: 0 <= i < |order| ==> nodes[order[i]].next == Succ(order, i, end)
  }

  /** The prev links run back along order, the first one to `start`. */
  ghost predicate Backward(nodes: map<nat, LinkNode>, order: seq<nat>, start: Link)
    requires InArena(nodes, order)
  {
    forall i {:trigger nodes[order[i]]} :: 0 <= i < |order| ==> nodes[order[i]].prev == Pred(order, i, start)
  }

  /** Distinct filled nodes whose next links run along order to `end`. */
  ghost predicate Chain(nodes: map<nat, LinkNode>, order: seq<nat>, end: Link)
  {
    InArena(nodes, order) && Distinct(order) && Filled(nodes, order) && Forward(nodes, order, end)
  }

  /** The shape of a LinkedList: head and tail end a chain whose last next is nil. */
  ghost predicate Line(nodes: map<nat, LinkNode>, order: seq<nat>, head: Link, tail: Link)
  {
    Chain(nodes, order, Nil) && head == HeadLink(order) && tail == EndLink(order)
  }

  /** The shape of a DoublyLinkedList: a line whose prev links run back to nil. */
  ghost predicate DoubleLine(nodes: map<nat, LinkNode>, order: seq<nat>, head: Link, tail: Link)
  {
    Line(nodes, order, head, tail) && Backward(nodes, order, Nil)
  }

  /** The shape of a CircularLinkedList: the tail's next is the head and the head's prev the tail. */
  ghost predicate Ring(nodes: map<nat, LinkNode>, order: seq<nat>, head: Link, tail: Link)
  {
    && Chain(nodes, order, HeadLink(order)) && Backward(nodes, order, EndLink(order))
    && head == HeadLink(order) && tail == EndLink(order)
  }

  /** The values of the nodes of order, head to tail. */
  ghost function Values(nodes: map<nat, LinkNode>, order: seq<nat>): (vs: seq<int>)
    requires InArena(nodes, order) && Filled(nodes, order)
    ensures |vs| == |order|
  {
    seq(|order|, i requires 0 <= i < |order| && InArena(nodes, order) && Filled(nodes, order) => nodes[order[i]].value.value)
  }

  /** `@current.value rescue nil`: the value of a node, nil for a nil link. */
  function ValueAt(nodes: map<nat, LinkNode>, l: Link): Option<int>
  {
    if l.Ref? && l.id in nodes then nodes[l.id].value else None
  }

  /** The cursor is nil on an empty list and a node of the list otherwise. */
  ghost predicate Cursor(order: seq<nat>, current: Link)
  {
    if order == [] then current == Nil else current.Ref? && current.id in order
  }

  /** The first position of x in order, |order| when x is not there. */
  function IndexOf(order: seq<nat>, x: nat): (i: nat)
    ensures i <= |order| && (i < |order| ==> order[i] == x) && (x in order ==> i < |order|)
    ensures forall k :: 0 <= k < i ==> order[k] != x
    decreases |order|
  {
    if order == [] then 0 else if order[0] == x then 0 else 1 + IndexOf(order[1..], x)
  }

  /** In distinct order, the position of a node is where it is. */
  lemma IndexOfAt(order: seq<nat>, p: nat)
    requires Distinct(order) && p < |order|
    ensures IndexOf(order, order[p]) == p
  {
    assert UniqueAt(order, p);
  }

  lemma ValueOf(nodes: map<nat, LinkNode>, order: seq<nat>, i: nat)
    requires InArena(nodes, order) && Filled(nodes, order) && i < |order|
    ensures ValueAt(nodes, Ref(order[i])) == Some(Values(nodes, order)[i])
  {
  }

  // ---------------------------------------------------------------------------------------------
  // Walks

  /**
   * Where k steps in direction d lead from node: a step is taken only while the node has a link
   * that way, and the walk ends on arriving at `stop` (nil for a walk that never stops early).
   */
  ghost function Walk(nodes: map<nat, LinkNode>, node: Link, k: nat, stop: Link, d: Dir): Link
    decreases k
  {
    if k == 0 || node.Nil? || node.id !in nodes || Along(nodes[node.id], d).Nil? then node
    else if Along(nodes[node.id], d) == stop then stop
    else Walk(nodes, Along(nodes[node.id], d), k - 1, stop, d)
  }

  /** k next links from node, raising (None) when one is nil. */
  ghost function Chase(nodes: map<nat, LinkNode>, node: Link, k: nat): Option<Link>
    decreases k
  {
    if k == 0 then Some(node)
    else if node.Nil? || node.id !in nodes then None
    else Chase(nodes, nodes[node.id].next, k - 1)
  }

  function Min(a: int, b: int): int
  {
    if a <= b then a else b
  }

  function Max(a: int, b: int): int
  {
    if a >= b then a else b
  }

  /** Forward along a line, a walk stops at the last node. */
  lemma {:induction false} WalkLine(nodes: map<nat, LinkNode>, order: seq<nat>, p: nat, k: nat)
    requires InArena(nodes, order) && Forward(nodes, order, Nil) && p < |order|
    ensures Walk(nodes, Ref(order[p]), k, Nil, Forth) == Ref(order[Min(p + k, |order| - 1)])
    decreases k
  {
    if k > 0 && p + 1 < |order| {
      WalkLine(nodes, order, p + 1, k - 1);
    }
  }

  /** Backward along a line, a walk stops at the first node. */
  lemma {:induction false} WalkBackLine(nodes: map<nat, LinkNode>, order: seq<nat>, p: nat, k: nat)
    requires InArena(nodes, order) && Backward(nodes, order, Nil) && p < |order|
    ensures Walk(nodes, Ref(order[p]), k, Nil, Back) == Ref(order[Max(p - k, 0)])
    decreases k
  {
    if k > 0 && p > 0 {
      WalkBackLine(nodes, order, p - 1, k - 1);
    }
  }

  /** A position past the end of a ring of n, brought back into it. */
  function Wrap(x: int, n: int): int
  {
    if x >= n then x - n else if x < 0 then x + n else x
  }

  /** The steps forward from position q to position s of a ring of n: n when they coincide. */
  function Ahead(q: int, s: int, n: int): int
  {
    if s > q then s - q else s - q + n
  }

  /** The steps backward from position q to position s of a ring of n: n when they coincide. */
  function Behind(q: int, s: int, n: int): int
  {
    if q > s then q - s else q - s + n
  }

  /** One step of a walk that has a link to follow. */
  lemma WalkStep(nodes: map<nat, LinkNode>, node: nat, k: nat, stop: Link, d: Dir)
    requires node in nodes && k > 0 && Along(nodes[node], d).Ref?
    ensures Walk(nodes, Ref(node), k, stop, d)
            == if Along(nodes[node], d) == stop then stop else Walk(nodes, Along(nodes[node], d), k - 1, stop, d)
  {
  }

  /** The position k forward steps from q reach in a ring of n, stopping on arriving at s. */
  function RingAhead(q: int, s: int, n: int, k: nat): (r: int)
    requires 0 <= q < n && 0 <= s < n
    ensures 0 <= r < n
    decreases k
  {
    if k == 0 then q
    else if Wrap(q + 1, n) == s then s
    else RingAhead(Wrap(q + 1, n), s, n, k - 1)
  }

  /** The position k backward steps from q reach in a ring of n, stopping on arriving at s. */
  function RingBehind(q: int, s: int, n: int, k: nat): (r: int)
    requires 0 <= q < n && 0 <= s < n
    ensures 0 <= r < n
    decreases k
  {
    if k == 0 then q
    else if Wrap(q - 1, n) == s then s
    else RingBehind(Wrap(q - 1, n), s, n, k - 1)
  }

  /** Forward, the walk takes the steps asked for or the steps to s, whichever is fewer. */
  lemma {:induction false} RingAheadSteps(q: int, s: int, n: int, k: nat)
    requires 0 <= q < n && 0 <= s < n
    ensures RingAhead(q, s, n, k) == Wrap(q + Min(k, Ahead(q, s, n)), n)
    decreases k
  {
    if k > 0 && Wrap(q + 1, n) != s {
      RingAheadSteps(Wrap(q + 1, n), s, n, k - 1);
    }
  }

  /** Backward, the walk takes the steps asked for or the steps to s, whichever is fewer. */
  lemma {:induction false} RingBehindSteps(q: int, s: int, n: int, k: nat)
    requires 0 <= q < n && 0 <= s < n
    ensures RingBehind(q, s, n, k) == Wrap(q - Min(k, Behind(q, s, n)), n)
    decreases k
  {
    if k > 0 && Wrap(q - 1, n) != s {
      RingBehindSteps(Wrap(q - 1, n), s, n, k - 1);
    }
  }

  /** In a ring, after the last node comes the first. */
  lemma RingNext(nodes: map<nat, LinkNode>, order: seq<nat>, q: nat)
    requires InArena(nodes, order) && Forward(nodes, order, HeadLink(order)) && q < |order|
    ensures nodes[order[q]].next == Ref(order[Wrap(q + 1, |order|)])
  {
  }

  lemma DistinctUnique(order: seq<nat>, s: nat)
    requires Distinct(order) && s < |order|
    ensures UniqueAt(order, s)
  {
  }

  /** Forward around a ring, a walk from position q that stops at position s. */
  lemma {:induction false} WalkRing(nodes: map<nat, LinkNode>, order: seq<nat>, q: nat, s: nat, k: nat)
    requires InArena(nodes, order) && Forward(nodes, order, HeadLink(order)) && q < |order| && s < |order|
    requires UniqueAt(order, s)
    ensures Walk(nodes, Ref(order[q]), k, Ref(order[s]), Forth) == Ref(order[RingAhead(q, s, |order|, k)])
    decreases k
  {
    if k > 0 {
      RingNext(nodes, order, q);
      var q' := Wrap(q + 1, |order|);
      if q' != s {
        WalkRing(nodes, order, q', s, k - 1);
      }
    }
  }

  /** In a ring, before the first node comes the last. */
  lemma RingPrev(nodes: map<nat, LinkNode>, order: seq<nat>, q: nat)
    requires InArena(nodes, order) && Backward(nodes, order, EndLink(order)) && q < |order|
    ensures nodes[order[q]].prev == Ref(order[Wrap(q - 1, |order|)])
  {
  }

  /** Backward around a ring, a walk from position q that stops at position s. */
  lemma {:induction false} WalkBackRing(nodes: map<nat, LinkNode>, order: seq<nat>, q: nat, s: nat, k: nat)
    requires InArena(nodes, order) && Backward(nodes, order, EndLink(order)) && q < |order| && s < |order|
    requires UniqueAt(order, s)
    ensures Walk(nodes, Ref(order[q]), k, Ref(order[s]), Back) == Ref(order[RingBehind(q, s, |order|, k)])
    decreases k
  {
    if k > 0 {
      RingPrev(nodes, order, q);
      var q' := Wrap(q - 1, |order|);
      if q' != s {
        WalkBackRing(nodes, order, q', s, k - 1);
      }
    }
  }

  /** Chasing next links within a chain never meets nil. */
  lemma {:induction false} ChaseChain(nodes: map<nat, LinkNode>, order: seq<nat>, end: Link, q: nat, k: nat)
    requires InArena(nodes, order) && Forward(nodes, order, end) && q + k < |order|
    ensures Chase(nodes, Ref(order[q]), k) == Some(Ref(order[q + k]))
    decreases k
  {
    if k > 0 {
      ChaseChain(nodes, order, end, q + 1, k - 1);
    }
  }

  /** k steps of a walk, one link at a time: the loop of nth and find_by_index. */
  method WalkLinks(arena: LinkArena, node: Link, k: nat, stop: Link, d: Dir) returns (r: Link)
    requires arena.Valid() && LinkIn(arena.nodes, node)
    ensures r == Walk(arena.nodes, node, k, stop, d) && LinkIn(arena.nodes, r)
  {
    r := node;
    var i: nat := k;
    while i > 0 && r.Ref? && Along(arena.nodes[r.id], d).Ref?
      invariant i <= k && LinkIn(arena.nodes, r)
      invariant Walk(arena.nodes, r, i, stop, d) == Walk(arena.nodes, node, k, stop, d)
      decreases i
    {
      LinksOf(arena.nodes, arena.nextId, r.id);
      r := Along(arena.nodes[r.id], d);
      i := i - 1;
      if r == stop {
        break;
      }
    }
  }

  /** k next links from node, one at a time: circular find_by_index's loop. */
  method ChaseLinks(arena: LinkArena, node: Link, k: nat) returns (r: Option<Link>)
    requires arena.Valid() && LinkIn(arena.nodes, node)
    ensures r == Chase(arena.nodes, node, k) && (r.Some? ==> LinkIn(arena.nodes, r.value))
  {
    var at := node;
    var i: nat := k;
    while i > 0
      invariant i <= k && LinkIn(arena.nodes, at)
      invariant Chase(arena.nodes, at, i) == Chase(arena.nodes, node, k)
      decreases i
    {
      if at.Nil? {
        return None;
      }
      LinksOf(arena.nodes, arena.nextId, at.id);
      at := arena.nodes[at.id].next;
      i := i - 1;
    }
    r := Some(at);
  }

  // ---------------------------------------------------------------------------------------------
  // Navigation: first, next, prev and last move the cursor

  /** first: the cursor moves to the head when there is one. */
  function Firsted(s: ListState): ListState
  {
    if s.head.Ref? then s.(current := s.head) else s
  }

  /** last: the cursor moves to the tail when there is one. */
  function Lasted(s: ListState): ListState
  {
    if s.tail.Ref? then s.(current := s.tail) else s
  }

  /** next (Forth) and prev (Back): the cursor moves along its link that way when it has one. */
  function Stepped(s: ListState, d: Dir): ListState
  {
    if s.current.Ref? && s.current.id in s.nodes && Along(s.nodes[s.current.id], d).Ref?
    then s.(current := Along(s.nodes[s.current.id], d))
    else s
  }

  /** first on a list whose head leads its nodes puts the cursor on the first node and answers
   *  the first value; on a list without nodes it changes nothing. */
  lemma FirstOnList(s: ListState, order: seq<nat>)
    requires InArena(s.nodes, order) && Filled(s.nodes, order) && s.head == HeadLink(order)
    ensures order == [] ==> Firsted(s) == s
    ensures order != [] ==> && Firsted(s) == s.(current := Ref(order[0]))
                            && ValueAt(s.nodes, Firsted(s).current) == Some(Values(s.nodes, order)[0])
  {
  }

  /** last on a list whose tail ends its nodes puts the cursor on the last node and answers the
   *  last value; on a list without nodes it changes nothing. */
  lemma LastOnList(s: ListState, order: seq<nat>)
    requires InArena(s.nodes, order) && Filled(s.nodes, order) && s.tail == EndLink(order)
    ensures order == [] ==> Lasted(s) == s
    ensures order != [] ==> && Lasted(s) == s.(current := Ref(order[|order| - 1]))
                            && ValueAt(s.nodes, Lasted(s).current) == Some(Values(s.nodes, order)[|order| - 1])
  {
  }

  /** next from the p-th node moves to the following node; from the last node it stays put on a
   *  line and moves back to the first on a ring. */
  lemma NextOnList(s: ListState, order: seq<nat>, end: Link, p: nat)
    requires InArena(s.nodes, order) && Filled(s.nodes, order) && Forward(s.nodes, order, end)
    requires end == Nil || end == HeadLink(order)
    requires p < |order| && s.current == Ref(order[p])
    ensures var q := if p + 1 < |order| then p + 1 else if end.Nil? then p else 0;
            && Stepped(s, Forth) == s.(current := Ref(order[q]))
            && ValueAt(s.nodes, Stepped(s, Forth).current) == Some(Values(s.nodes, order)[q])
  {
    assert s.nodes[order[p]].next == Succ(order, p, end);
  }

  /** prev from the p-th node moves to the preceding node; from the first node it stays put on a
   *  line and moves on to the last on a ring. */
  lemma PrevOnList(s: ListState, order: seq<nat>, start: Link, p: nat)
    requires InArena(s.nodes, order) && Filled(s.nodes, order) && Backward(s.nodes, order, start)
    requires start == Nil || start == EndLink(order)
    requires p < |order| && s.current == Ref(order[p])
    ensures var q := if p > 0 then p - 1 else if start.Nil? then 0 else |order| - 1;
            && Stepped(s, Back) == s.(current := Ref(order[q]))
            && ValueAt(s.nodes, Stepped(s, Back).current) == Some(Values(s.nodes, order)[q])
  {
    assert s.nodes[order[p]].prev == Pred(order, p, start);
  }

  /** The value under the cursor, when it is on the p-th node, is the p-th value. */
  lemma CurrentOnList(s: ListState, order: seq<nat>)
    requires InArena(s.nodes, order) && Distinct(order) && Filled(s.nodes, order) && Cursor(order, s.current)
    ensures order == [] ==> ValueAt(s.nodes, s.current) == None
    ensures order != [] ==> && IndexOf(order, s.current.id) < |order|
                            && ValueAt(s.nodes, s.current) == Some(Values(s.nodes, order)[IndexOf(order, s.current.id)])
  {
  }

  /** find_by_index of LinkedList and DoublyLinkedList: nil without a head or for an index outside
   *  1..size; otherwise index - 1 steps from the head, stopping at the last node. */
  ghost function ByIndex(s: ListState, index: int): Link
  {
    if s.head.Nil? || index < 1 || index > s.size then Nil else Walk(s.nodes, s.head, index - 1, Nil, Forth)
  }

  /** find_by_index moves the cursor to the node it finds. */
  ghost function AtIndexed(s: ListState, index: int): ListState
  {
    if ByIndex(s, index).Ref? then s.(current := ByIndex(s, index)) else s
  }

  /** On a line whose size counts its nodes, at_index(i) for i in 1..size puts the cursor on the
   *  i-th node and answers its value; any other index changes nothing and answers the cursor's
   *  value. */
  lemma AtIndexOnLine(s: ListState, order: seq<nat>, index: int)
    requires Line(s.nodes, order, s.head, s.tail) && s.size == |order|
    ensures 1 <= index <= |order| ==> && AtIndexed(s, index) == s.(current := Ref(order[index - 1]))
                                      && ValueAt(s.nodes, AtIndexed(s, index).current) == Some(Values(s.nodes, order)[index - 1])
    ensures !(1 <= index <= |order|) ==> AtIndexed(s, index) == s
  {
    if 1 <= index <= |order| {
      WalkLine(s.nodes, order, 0, index - 1);
    }
  }

  // ---------------------------------------------------------------------------------------------
  // Splices: order with a node put in at position p, or with the node at position p taken out

  function Inserted(order: seq<nat>, p: nat, id: nat): (r: seq<nat>)
    requires p <= |order|
    ensures |r| == |order| + 1 && r[p] == id
    ensures forall i :: 0 <= i < p ==> r[i] == order[i]
    ensures forall i :: p < i < |r| ==> r[i] == order[i - 1]
  {
    order[..p] + [id] + order[p..]
  }

  /** Putting a node in after the last one, and a value after the last value, is appending. */
  lemma InsertedAtEnd(order: seq<nat>, id: nat, vs: seq<int>, v: int)
    ensures Inserted(order, |order|, id) == order + [id]
    ensures vs[..|vs|] + [v] + vs[|vs|..] == vs + [v]
  {
    assert vs[..|vs|] == vs;
  }

  /** Putting a node in before the first one, and a value before the first value, is prepending. */
  lemma InsertedAtFront(order: seq<nat>, id: nat, vs: seq<int>, v: int)
    ensures Inserted(order, 0, id) == [id] + order
    ensures vs[..0] + [v] + vs[0..] == [v] + vs
  {
    assert vs[0..] == vs;
  }

  function Removed(order: seq<nat>, p: nat): (r: seq<nat>)
    requires p < |order|
    ensures |r| == |order| - 1
    ensures forall i :: 0 <= i < p ==> r[i] == order[i]
    ensures forall i :: p <= i < |r| ==> r[i] == order[i + 1]
  {
    order[..p] + order[p + 1..]
  }

  /** A node not yet in order, with a value, put in keeps order a set of distinct filled nodes
   *  whose values are the old ones with v put in at p. */
  lemma InsertedValues(nodes: map<nat, LinkNode>, nodes': map<nat, LinkNode>, order: seq<nat>, p: nat, id: nat, v: int)
    requires InArena(nodes, order) && Distinct(order) && Filled(nodes, order) && p <= |order|
    requires id in nodes' && id !in order && nodes'[id].value == Some(v)
    requires forall i :: 0 <= i < |order| ==> order[i] in nodes' && nodes'[order[i]].value == nodes[order[i]].value
    ensures InArena(nodes', Inserted(order, p, id)) && Distinct(Inserted(order, p, id))
    ensures Filled(nodes', Inserted(order, p, id))
    ensures Values(nodes', Inserted(order, p, id)) == Values(nodes, order)[..p] + [v] + Values(nodes, order)[p..]
  {
    var o' := Inserted(order, p, id);
    forall s | 0 <= s < |o'| ensures UniqueAt(o', s) {
      forall j | 0 <= j < |o'| && j != s ensures o'[j] != o'[s] {
        var j', s' := if j < p then j else j - 1, if s < p then s else s - 1;
        if j != p && s != p {
          DistinctAt(order, j', s');
        } else if s == p {
          assert o'[j] == order[j'];
        } else {
          assert o'[s] == order[s'];
        }
      }
    }
  }

  /** Taking a node out keeps order a set of distinct filled nodes whose values are the old ones
   *  without the p-th. */
  lemma RemovedValues(nodes: map<nat, LinkNode>, nodes': map<nat, LinkNode>, order: seq<nat>, p: nat)
    requires InArena(nodes, order) && Distinct(order) && Filled(nodes, order) && p < |order|
    requires forall i :: 0 <= i < |order| && i != p ==> order[i] in nodes' && nodes'[order[i]].value == nodes[order[i]].value
    ensures InArena(nodes', Removed(order, p)) && Distinct(Removed(order, p)) && Filled(nodes', Removed(order, p))
    ensures Values(nodes', Removed(order, p)) == Values(nodes, order)[..p] + Values(nodes, order)[p + 1..]
  {
    var o' := Removed(order, p);
    forall s | 0 <= s < |o'| ensures UniqueAt(o', s) {
      forall j | 0 <= j < |o'| && j != s ensures o'[j] != o'[s] {
        DistinctAt(order, if j < p then j else j + 1, if s < p then s else s + 1);
      }
    }
  }

  /** Next links after a node is put in at p: the node before the gap leads to it, it leads to
   *  what followed the gap, the last node leads to the new end, and no other next link changed. */
  lemma ForwardInserted(nodes: map<nat, LinkNode>, nodes': map<nat, LinkNode>, order: seq<nat>, p: nat, id: nat,
                        end: Link, end': Link)
    requires InArena(nodes, order) && Forward(nodes, order, end) && p <= |order|
    requires InArena(nodes', order) && id in nodes'
    requires p > 0 ==> nodes'[order[p - 1]].next == Ref(id)
    requires nodes'[id].next == if p < |order| then Ref(order[p]) else end'
    requires p < |order| ==> nodes'[order[|order| - 1]].next == end'
    requires forall i :: 0 <= i < |order| - 1 && i != p - 1 ==> nodes'[order[i]].next == nodes[order[i]].next
    ensures InArena(nodes', Inserted(order, p, id)) && Forward(nodes', Inserted(order, p, id), end')
  {
    var o' := Inserted(order, p, id);
    forall i | 0 <= i < |o'| ensures nodes'[o'[i]].next == Succ(o', i, end') {
      if i < p {
        assert o'[i] == order[i];
        if i < p - 1 {
          assert nodes[order[i]].next == Succ(order, i, end);
        }
      } else if i > p {
        assert o'[i] == order[i - 1];
        if i < |o'| - 1 {
          assert nodes[order[i - 1]].next == Succ(order, i - 1, end);
        }
      }
    }
  }

  /** Next links after the node at p is taken out: the node before it leads to what followed it,
   *  the last node leads to the new end, and no other next link changed. */
  lemma ForwardRemoved(nodes: map<nat, LinkNode>, nodes': map<nat, LinkNode>, order: seq<nat>, p: nat,
                       end: Link, end': Link)
    requires InArena(nodes, order) && Forward(nodes, order, end) && p < |order|
    requires InArena(nodes', order)
    requires p > 0 ==> nodes'[order[p - 1]].next == if p + 1 < |order| then Ref(order[p + 1]) else end'
    requires p + 1 < |order| ==> nodes'[order[|order| - 1]].next == end'
    requires forall i :: 0 <= i < |order| - 1 && i != p - 1 && i != p ==> nodes'[order[i]].next == nodes[order[i]].next
    ensures InArena(nodes', Removed(order, p)) && Forward(nodes', Removed(order, p), end')
  {
    var o' := Removed(order, p);
    forall i | 0 <= i < |o'| ensures nodes'[o'[i]].next == Succ(o', i, end') {
      if i < p - 1 {
        assert o'[i] == order[i];
        assert nodes[order[i]].next == Succ(order, i, end);
      } else if p <= i < |o'| - 1 {
        assert o'[i] == order[i + 1];
        assert nodes[order[i + 1]].next == Succ(order, i + 1, end);
      }
    }
  }

  /** Prev links after a node is put in at p: the node after the gap leads back to it, it leads
   *  back to what preceded the gap, the first node leads back to the new start, and no other
   *  prev link changed. */
  lemma BackwardInserted(nodes: map<nat, LinkNode>, nodes': map<nat, LinkNode>, order: seq<nat>, p: nat, id: nat,
                         start: Link, start': Link)
    requires InArena(nodes, order) && Backward(nodes, order, start) && p <= |order|
    requires InArena(nodes', order) && id in nodes'
    requires p < |order| ==> nodes'[order[p]].prev == Ref(id)
    requires nodes'[id].prev == if p > 0 then Ref(order[p - 1]) else start'
    requires p > 0 ==> nodes'[order[0]].prev == start'
    requires forall i :: 0 < i < |order| && i != p ==> nodes'[order[i]].prev == nodes[order[i]].prev
    ensures InArena(nodes', Inserted(order, p, id)) && Backward(nodes', Inserted(order, p, id), start')
  {
    var o' := Inserted(order, p, id);
    forall i | 0 <= i < |o'| ensures nodes'[o'[i]].prev == Pred(o', i, start') {
      if 0 < i < p {
        assert o'[i] == order[i];
        assert nodes[order[i]].prev == Pred(order, i, start);
      } else if i > p + 1 {
        assert o'[i] == order[i - 1];
        assert nodes[order[i - 1]].prev == Pred(order, i - 1, start);
      }
    }
  }

  /** A node put in between the (p-1)-th and p-th nodes on both links, with no other node changed,
   *  keeps order a chain both ways with the same ends, and the values gain v at p. */
  lemma PutBetween(nodes: map<nat, LinkNode>, m: map<nat, LinkNode>, order: seq<nat>, p: nat, id: nat, v: int,
                   end: Link, start: Link)
    requires InArena(nodes, order) && Distinct(order) && Filled(nodes, order)
    requires Forward(nodes, order, end) && Backward(nodes, order, start)
    requires 0 < p < |order| && id !in nodes && Between(nodes, m, id, v, order[p - 1], order[p])
    ensures var o' := Inserted(order, p, id);
            && InArena(m, o') && Distinct(o') && Filled(m, o') && Forward(m, o', end) && Backward(m, o', start)
            && HeadLink(o') == HeadLink(order) && EndLink(o') == EndLink(order)
            && Values(m, o') == Values(nodes, order)[..p] + [v] + Values(nodes, order)[p..]
  {
    assert id !in order;
    PutBetweenForward(nodes, m, order, p, id, v, end);
    PutBetweenBackward(nodes, m, order, p, id, v, start);
    InsertedValues(nodes, m, order, p, id, v);
  }

  /** The next links of PutBetween. */
  lemma PutBetweenForward(nodes: map<nat, LinkNode>, m: map<nat, LinkNode>, order: seq<nat>, p: nat, id: nat, v: int,
                          end: Link)
    requires InArena(nodes, order) && Distinct(order) && Forward(nodes, order, end)
    requires 0 < p < |order| && id !in nodes && Between(nodes, m, id, v, order[p - 1], order[p])
    ensures InArena(m, Inserted(order, p, id)) && Forward(m, Inserted(order, p, id), end)
  {
    var n := |order|;
    assert UniqueAt(order, p - 1);
    assert nodes[order[n - 1]].next == Succ(order, n - 1, end);
    ForwardInserted(nodes, m, order, p, id, end, end);
  }

  /** The prev links of PutBetween. */
  lemma PutBetweenBackward(nodes: map<nat, LinkNode>, m: map<nat, LinkNode>, order: seq<nat>, p: nat, id: nat, v: int,
                           start: Link)
    requires InArena(nodes, order) && Distinct(order) && Backward(nodes, order, start)
    requires 0 < p < |order| && id !in nodes && Between(nodes, m, id, v, order[p - 1], order[p])
    ensures InArena(m, Inserted(order, p, id)) && Backward(m, Inserted(order, p, id), start)
  {
    assert UniqueAt(order, p);
    assert nodes[order[0]].prev == Pred(order, 0, start);
    BackwardInserted(nodes, m, order, p, id, start, start);
  }

  /** Prev links after the node at p is taken out: the node after it leads back to what preceded
   *  it, the first node leads back to the new start, and no other prev link changed. */
  lemma BackwardRemoved(nodes: map<nat, LinkNode>, nodes': map<nat, LinkNode>, order: seq<nat>, p: nat,
                        start: Link, start': Link)
    requires InArena(nodes, order) && Backward(nodes, order, start) && p < |order|
    requires InArena(nodes', order)
    requires p + 1 < |order| ==> nodes'[order[p + 1]].prev == if p > 0 then Ref(order[p - 1]) else start'
    requires p > 0 ==> nodes'[order[0]].prev == start'
    requires forall i :: 0 < i < |order| && i != p && i != p + 1 ==> nodes'[order[i]].prev == nodes[order[i]].prev
    ensures InArena(nodes', Removed(order, p)) && Backward(nodes', Removed(order, p), start')
  {
    var o' := Removed(order, p);
    forall i | 0 <= i < |o'| ensures nodes'[o'[i]].prev == Pred(o', i, start') {
      if 0 < i < p {
        assert o'[i] == order[i];
        assert nodes[order[i]].prev == Pred(order, i, start);
      } else if i > p {
        assert o'[i] == order[i + 1];
        assert nodes[order[i + 1]].prev == Pred(order, i + 1, start);
      }
    }
  }

  // ---------------------------------------------------------------------------------------------
  // Lines under LinkNode.new(value, anchor, :single or :after)

  /** A node made without an anchor by a strategy other than the circular ones is a line of
   *  one, with both links nil. */
  lemma LineOfOne(nodes: map<nat, LinkNode>, id: nat, v: int, st: Strategy)
    requires id !in nodes && st != CircleBefore && st != CircleAfter
    ensures var m := Spliced(nodes, id, v, Nil, st);
            DoubleLine(m, [id], Ref(id), Ref(id)) && Values(m, [id]) == [v]
  {
    SplicedAlone(nodes, id, v, st);
  }

  /** A node made after the p-th node of a line (by :single or :after) sits at p + 1 of a line,
   *  as its tail when the p-th node was the tail. */
  lemma LineSplicedAfter(nodes: map<nat, LinkNode>, order: seq<nat>, head: Link, tail: Link, p: nat, id: nat, v: int,
                         st: Strategy)
    requires Line(nodes, order, head, tail) && p < |order| && id !in nodes && (st == Single || st == After)
    ensures var m := Spliced(nodes, id, v, Ref(order[p]), st);
            && Line(m, Inserted(order, p + 1, id), head, if p == |order| - 1 then Ref(id) else tail)
            && Values(m, Inserted(order, p + 1, id)) == Values(nodes, order)[..p + 1] + [v] + Values(nodes, order)[p + 1..]
  {
    var m := Spliced(nodes, id, v, Ref(order[p]), st);
    ForwardSplicedAfter(nodes, order, p, id, v, st);
    SplicedFrame(nodes, id, v, Ref(order[p]), st);
    assert id !in order;
    LineInserted(nodes, m, order, head, tail, p, id, v);
  }

  /** A line with a node holding v put in after its p-th node, wired forward: a line again, with
   *  v among the values after the p-th. */
  lemma LineInserted(nodes: map<nat, LinkNode>, m: map<nat, LinkNode>, order: seq<nat>, head: Link, tail: Link,
                     p: nat, id: nat, v: int)
    requires Line(nodes, order, head, tail) && p < |order| && id !in order
    requires InArena(m, Inserted(order, p + 1, id)) && Forward(m, Inserted(order, p + 1, id), Nil)
    requires id in m && m[id].value == Some(v)
    requires forall i :: 0 <= i < |order| ==> order[i] in m && m[order[i]].value == nodes[order[i]].value
    ensures Line(m, Inserted(order, p + 1, id), head, if p == |order| - 1 then Ref(id) else tail)
    ensures Values(m, Inserted(order, p + 1, id)) == Values(nodes, order)[..p + 1] + [v] + Values(nodes, order)[p + 1..]
  {
    InsertedValues(nodes, m, order, p + 1, id, v);
  }

  /** The next links after a node made after the p-th node of a chain ending in nil. */
  lemma ForwardSplicedAfter(nodes: map<nat, LinkNode>, order: seq<nat>, p: nat, id: nat, v: int, st: Strategy)
    requires Chain(nodes, order, Nil) && p < |order| && id !in nodes && (st == Single || st == After)
    ensures var m := Spliced(nodes, id, v, Ref(order[p]), st);
            InArena(m, Inserted(order, p + 1, id)) && Forward(m, Inserted(order, p + 1, id), Nil)
  {
    var m := Spliced(nodes, id, v, Ref(order[p]), st);
    SplicedBetween(nodes, id, v, order[p], st);
    SplicedFrame(nodes, id, v, Ref(order[p]), st);
    assert UniqueAt(order, p);
    assert nodes[order[p]].next == Succ(order, p, Nil);
    if p + 1 < |order| {
      assert nodes[order[|order| - 1]].next == Succ(order, |order| - 1, Nil);
    }
    ForwardInserted(nodes, m, order, p + 1, id, Nil, Nil);
  }

  /** :before and :circle_before with an anchor rewire no next link and no value of the nodes
   *  already there. */
  lemma SplicedBeforeKeepsNext(nodes: map<nat, LinkNode>, order: seq<nat>, p: nat, id: nat, v: int, st: Strategy)
    requires InArena(nodes, order) && p < |order| && id !in nodes && (st == Before || st == CircleBefore)
    ensures var m := Spliced(nodes, id, v, Ref(order[p]), st);
            && InArena(m, order)
            && forall k :: 0 <= k < |order| ==> m[order[k]].next == nodes[order[k]].next && m[order[k]].value == nodes[order[k]].value
  {
    SplicedBetween(nodes, id, v, order[p], st);
    SplicedFrame(nodes, id, v, Ref(order[p]), st);
  }

  /** An arena whose nodes on order keep their next links and values keeps the chain along
   *  order and its values. */
  lemma SameForward(nodes: map<nat, LinkNode>, m: map<nat, LinkNode>, order: seq<nat>, end: Link)
    requires Chain(nodes, order, end) && InArena(m, order)
    requires forall k :: 0 <= k < |order| ==> m[order[k]].next == nodes[order[k]].next && m[order[k]].value == nodes[order[k]].value
    ensures Chain(m, order, end) && Values(m, order) == Values(nodes, order)
  {
    assert Forward(m, order, end);
  }

  // ---------------------------------------------------------------------------------------------
  // insert: the constructor and sort! insert through the list's own insert

  /** The three lists, whose insert differs. */
  datatype Kind = Singly | Doubly | Circular

  /**
   * insert(v): a node made after the cursor becomes the cursor. LinkedList links it with :single
   * and DoublyLinkedList with :after; either makes it the head of a list without one and the tail
   * when the cursor was the tail. CircularLinkedList links it with :circle_after; in a list of
   * size 0 it is the head and the tail, and when the cursor was the tail it becomes the tail,
   * leading on to the head, which leads back to it (with no head, that last step raises before
   * the size is counted).
   */
  ghost function Inserting(s: ListState, v: int, kind: Kind): ListState
    requires Wired(s)
  {
    Unused(s.nodes, s.nextId);
    var id := s.nextId;
    match kind
    case Singly | Doubly =>
      ListState(Spliced(s.nodes, id, v, s.current, if kind == Singly then Single else After), id + 1,
                if s.head.Nil? then Ref(id) else s.head,
                if s.tail == s.current then Ref(id) else s.tail,
                Ref(id), s.size + 1)
    case Circular =>
      SplicedFrame(s.nodes, id, v, s.current, CircleAfter);
      var m := Spliced(s.nodes, id, v, s.current, CircleAfter);
      if s.size == 0 then ListState(m, id + 1, Ref(id), Ref(id), Ref(id), s.size + 1)
      else if s.tail != s.current then ListState(m, id + 1, s.head, s.tail, Ref(id), s.size + 1)
      else if s.head.Nil? then ListState(Relinked(m, id, Nil, Forth), id + 1, Nil, Ref(id), Ref(id), s.size)
      else ListState(Relinked(Relinked(m, id, s.head, Forth), s.head.id, Ref(id), Back), id + 1, s.head, Ref(id), Ref(id), s.size + 1)
  }

  /** insert's answer: the new size, or NoMethodError from a CircularLinkedList without a head
   *  whose cursor is its tail. */
  ghost function InsertingAnswer(s: ListState, kind: Kind): Outcome<int>
  {
    if kind == Circular && s.size != 0 && s.tail == s.current && s.head.Nil? then Raised(NoMethodError)
    else Returned(s.size + 1)
  }

  /** insert keeps the arena closed and the list's links in it, and counts one more unless it
   *  raised. */
  lemma InsertingWired(s: ListState, v: int, kind: Kind)
    requires Wired(s)
    ensures var r := Inserting(s, v, kind);
            && Wired(r) && r.nextId == s.nextId + 1
            && r.size == if InsertingAnswer(s, kind).Raised? then s.size else s.size + 1
  {
    var id := s.nextId;
    var st := match kind case Singly => Single case Doubly => After case Circular => CircleAfter;
    SplicedClosed(s.nodes, id, v, s.current, st);
    SplicedFrame(s.nodes, id, v, s.current, st);
    if kind == Circular && s.size != 0 && s.tail == s.current {
      var m := Spliced(s.nodes, id, v, s.current, st);
      RelinkedClosed(m, id + 1, id, s.head, Forth);
      if s.head.Ref? {
        RelinkedClosed(Relinked(m, id, s.head, Forth), id + 1, s.head.id, Ref(id), Back);
      }
    }
  }

  /** The nodes of the list after insert: the new node after the cursor, or alone in a list that
   *  was empty. */
  ghost function InsertingOrder(s: ListState, order: seq<nat>): seq<nat>
  {
    if s.current.Ref? && s.current.id in order then Inserted(order, IndexOf(order, s.current.id) + 1, s.nextId)
    else if order == [] then [s.nextId]
    else order
  }

  /** insert of each of vs in turn. */
  ghost function InsertingAll(s: ListState, vs: seq<int>, kind: Kind): (r: ListState)
    requires Wired(s)
    ensures Wired(r) && r.nextId == s.nextId + |vs|
    decreases |vs|
  {
    if vs == [] then s
    else
      var before := InsertingAll(s, vs[..|vs| - 1], kind);
      InsertingWired(before, vs[|vs| - 1], kind);
      Inserting(before, vs[|vs| - 1], kind)
  }

  /** The nodes of the list after insert of each of vs in turn. */
  ghost function InsertingAllOrder(s: ListState, order: seq<nat>, vs: seq<int>, kind: Kind): seq<nat>
    requires Wired(s)
    decreases |vs|
  {
    if vs == [] then order
    else InsertingOrder(InsertingAll(s, vs[..|vs| - 1], kind), InsertingAllOrder(s, order, vs[..|vs| - 1], kind))
  }

  /** The last insert of a run of inserts, unfolded. */
  lemma InsertingLast(s: ListState, order: seq<nat>, vs: seq<int>, kind: Kind)
    requires Wired(s) && vs != []
    ensures var s1 := InsertingAll(s, vs[..|vs| - 1], kind);
            && InsertingAll(s, vs, kind) == Inserting(s1, vs[|vs| - 1], kind)
            && InsertingAllOrder(s, order, vs, kind) == InsertingOrder(s1, InsertingAllOrder(s, order, vs[..|vs| - 1], kind))
  {
  }

  lemma InitLast(a: seq<int>, vs: seq<int>)
    requires vs != []
    ensures a + vs == (a + vs[..|vs| - 1]) + [vs[|vs| - 1]]
  {
    assert vs == vs[..|vs| - 1] + [vs[|vs| - 1]];
  }

  /** initialize(*vs): each value inserted, then first when there are more than one. */
  ghost function Started(vs: seq<int>, kind: Kind): ListState
  {
    var s := InsertingAll(Initial, vs, kind);
    if |vs| > 1 then Firsted(s) else s
  }

  ghost function StartedOrder(vs: seq<int>, kind: Kind): seq<nat>
  {
    InsertingAllOrder(Initial, [], vs, kind)
  }

  // ---------------------------------------------------------------------------------------------
  // to_a, clear and find_by_value

  /** A chain walked from its head ends at nil or back at the head. */
  ghost predicate Walkable(nodes: map<nat, LinkNode>, order: seq<nat>, head: Link, end: Link)
  {
    Chain(nodes, order, end) && head == HeadLink(order) && (end == Nil || end == head)
  }

  /** to_a: the values from the head on, stopping at nil or on coming back to the head. */
  method ToA(arena: LinkArena, head: Link, ghost order: seq<nat>, ghost end: Link) returns (result: seq<int>)
    requires arena.Valid() && Walkable(arena.nodes, order, head, end)
    ensures result == Values(arena.nodes, order)
  {
    var position := head;
    result := [];
    ghost var i := 0;
    if order != [] {
      assert UniqueAt(order, 0);
    }
    while position.Ref?
      invariant 0 <= i <= |order| && |result| == i
      invariant position == (if i < |order| then Ref(order[i]) else Nil)
      invariant forall k :: 0 <= k < i ==> result[k] == Values(arena.nodes, order)[k]
      decreases |order| - i
    {
      result := result + [arena.nodes[position.id].value.value];
      position := arena.nodes[position.id].next;
      i := i + 1;
      if position == head {
        break;
      }
    }
  }

  /** The arena with the nodes of order cleared. */
  ghost function Wiped(nodes: map<nat, LinkNode>, order: seq<nat>): (m: map<nat, LinkNode>)
    ensures m.Keys == nodes.Keys
  {
    map id | id in nodes :: if id in order then Cleared else nodes[id]
  }

  /** clear's walk: remove! every node from the head on, counting them, stopping at nil or on
   *  coming back to the head. */
  method ClearNodes(arena: LinkArena, head: Link, ghost order: seq<nat>, ghost end: Link) returns (rc: int)
    requires arena.Valid() && Walkable(arena.nodes, order, head, end)
    modifies arena
    ensures arena.Valid() && arena.nextId == old(arena.nextId)
    ensures rc == |order| && arena.nodes == Wiped(old(arena.nodes), order)
  {
    ghost var m0 := arena.nodes;
    var node := head;
    var position := node;
    rc := 0;
    if order != [] {
      assert UniqueAt(order, 0);
    }
    while node.Ref?
      invariant 0 <= rc <= |order| && arena.Valid() && arena.nextId == old(arena.nextId)
      invariant node == (if rc < |order| then Ref(order[rc]) else Nil)
      invariant arena.nodes == Wiped(m0, order[..rc])
      decreases |order| - rc
    {
      WipedStep(m0, order, rc);
      node := arena.RemoveNode(node.id);
      rc := rc + 1;
      if position == node {
        break;
      }
    }
    assert order[..rc] == order;
  }

  /** Clearing one more node of order: the node still held its old record, and now is cleared. */
  lemma WipedStep(nodes: map<nat, LinkNode>, order: seq<nat>, k: nat)
    requires InArena(nodes, order) && Distinct(order) && k < |order|
    ensures order[k] in Wiped(nodes, order[..k]) && Wiped(nodes, order[..k])[order[k]] == nodes[order[k]]
    ensures Wiped(nodes, order[..k + 1]) == Wiped(nodes, order[..k])[order[k] := Cleared]
  {
    assert UniqueAt(order, k);
    assert order[..k + 1] == order[..k] + [order[k]];
  }

  /** clear: every node of the list cleared, no head, tail or cursor, and size 0. */
  ghost function Clearing(s: ListState, order: seq<nat>): (r: ListState)
    requires Wired(s)
    ensures Wired(r) && r.nextId == s.nextId && r.head == Nil && r.tail == Nil && r.current == Nil && r.size == 0
    ensures r.nodes.Keys == s.nodes.Keys && forall i :: 0 <= i < |order| && order[i] in s.nodes ==> r.nodes[order[i]] == Cleared
  {
    WipedClosed(s.nodes, s.nextId, order);
    ListState(Wiped(s.nodes, order), s.nextId, Nil, Nil, Nil, 0)
  }

  /** Clearing nodes keeps the arena closed. */
  lemma WipedClosed(nodes: map<nat, LinkNode>, nextId: nat, order: seq<nat>)
    requires Closed(nodes, nextId)
    ensures Closed(Wiped(nodes, order), nextId)
  {
    var m := Wiped(nodes, order);
    forall id | id in m ensures ClosedAt(m, nextId, id) {
      LinksOf(nodes, nextId, id);
    }
  }

  /** The position of the first node of order whose key matches x's, |order| when none does. */
  ghost function MatchIndex(nodes: map<nat, LinkNode>, key: int -> int, order: seq<nat>, x: int): (i: nat)
    requires InArena(nodes, order) && Filled(nodes, order)
    ensures i <= |order|
    ensures i < |order| ==> MatchByValue(key, nodes[order[i]], x)
    ensures forall k :: 0 <= k < i ==> !MatchByValue(key, nodes[order[k]], x)
    decreases |order|
  {
    if order == [] then 0
    else if MatchByValue(key, nodes[order[0]], x) then 0
    else 1 + MatchIndex(nodes, key, order[1..], x)
  }

  /** The first node of order whose key matches x's, nil when none does. */
  ghost function Found(nodes: map<nat, LinkNode>, key: int -> int, order: seq<nat>, x: int): Link
    requires InArena(nodes, order) && Filled(nodes, order)
  {
    var i := MatchIndex(nodes, key, order, x);
    if i == |order| then Nil else Ref(order[i])
  }

  /** What find_by_value answers when it returns: nil for a nil value or a list of size 0,
   *  otherwise the first node of the walk that matches, nil when none does. */
  ghost function Target(s: ListState, key: int -> int, order: seq<nat>, v: Option<int>): Link
    requires InArena(s.nodes, order) && Filled(s.nodes, order)
  {
    if v.None? || s.size == 0 then Nil else Found(s.nodes, key, order, v.value)
  }

  /** A node remove! has cleared: its value is nil, and so is the key block match_by_value would
   *  call on it. */
  ghost predicate Dead(nodes: map<nat, LinkNode>, l: Link)
  {
    l.Ref? && l.id in nodes && nodes[l.id].value.None?
  }

  /** Where a walk along next from head goes after the nodes of walk: head itself when walk is
   *  empty. */
  ghost function Beyond(nodes: map<nat, LinkNode>, walk: seq<nat>, head: Link): Link
    requires InArena(nodes, walk)
  {
    if walk == [] then head else nodes[walk[|walk| - 1]].next
  }

  /** walk is the run of distinct filled nodes met from head along next, as far as it goes: after
   *  it come nil, a node remove! has cleared, or a node of walk again. Every state the lists'
   *  operations leave has one; a line or a ring is the case where nothing comes after the last
   *  node but nil or the head. */
  ghost predicate Trail(nodes: map<nat, LinkNode>, walk: seq<nat>, head: Link)
  {
    && InArena(nodes, walk) && Chain(nodes, walk, Beyond(nodes, walk, head))
    && (walk != [] ==> head == Ref(walk[0]))
    && var e := Beyond(nodes, walk, head);
       e.Nil? || Dead(nodes, e) || (e.Ref? && e.id in walk)
  }

  /** A line is a trail that ends at nil. */
  lemma LineTrail(nodes: map<nat, LinkNode>, order: seq<nat>, head: Link, tail: Link)
    requires Line(nodes, order, head, tail)
    ensures Trail(nodes, order, head) && Beyond(nodes, order, head) == Nil
  {
    if order != [] {
      assert nodes[order[|order| - 1]].next == Succ(order, |order| - 1, Nil);
    }
  }

  /** A ring is a trail that comes back to the head. */
  lemma RingTrail(nodes: map<nat, LinkNode>, order: seq<nat>, head: Link, tail: Link)
    requires Ring(nodes, order, head, tail)
    ensures Trail(nodes, order, head) && Beyond(nodes, order, head) == head
  {
    if order != [] {
      assert nodes[order[|order| - 1]].next == Succ(order, |order| - 1, HeadLink(order));
    }
  }

  /** find_by_value's loop of LinkedCommons ends: it stops at once for a nil value or a list of
   *  size 0, and otherwise on a match, at nil, on coming back to the head, or by raising at a
   *  cleared node. It goes round for ever only when the walk comes back, without a match, to a
   *  node other than the head. */
  ghost predicate FindHalts(nodes: map<nat, LinkNode>, key: int -> int, walk: seq<nat>, head: Link, size: int,
                            v: Option<int>)
    requires InArena(nodes, walk) && Filled(nodes, walk)
  {
    || v.None? || size == 0 || MatchIndex(nodes, key, walk, v.value) < |walk|
    || var e := Beyond(nodes, walk, head); e.Nil? || Dead(nodes, e) || e == head
  }

  /** find_by_value raises NoMethodError: the walk meets a cleared node before any match, and
   *  match_by_value calls its nil key block. */
  ghost predicate FindRaises(nodes: map<nat, LinkNode>, key: int -> int, walk: seq<nat>, head: Link, size: int,
                             v: Option<int>)
    requires InArena(nodes, walk) && Filled(nodes, walk)
  {
    v.Some? && size != 0 && MatchIndex(nodes, key, walk, v.value) == |walk| && Dead(nodes, Beyond(nodes, walk, head))
  }

  /** On a line find_by_value never raises. */
  lemma LineFindReturns(nodes: map<nat, LinkNode>, key: int -> int, order: seq<nat>, head: Link, tail: Link,
                        size: int, v: Option<int>)
    requires Line(nodes, order, head, tail)
    ensures FindHalts(nodes, key, order, head, size, v) && !FindRaises(nodes, key, order, head, size, v)
  {
    LineTrail(nodes, order, head, tail);
  }

  /** find_by_value of the head's own value, as prepend asks: the head matches itself at once, and
   *  a head with no value gives nil; so the walk halts and never raises. */
  lemma HeadValueFound(nodes: map<nat, LinkNode>, key: int -> int, walk: seq<nat>, head: Link, size: int)
    requires Trail(nodes, walk, head)
    ensures FindHalts(nodes, key, walk, head, size, ValueAt(nodes, head))
    ensures !FindRaises(nodes, key, walk, head, size, ValueAt(nodes, head))
  {
    var v := ValueAt(nodes, head);
    if walk != [] && v.Some? {
      assert MatchByValue(key, nodes[walk[0]], v.value);
      MatchIndexIs(nodes, key, walk, v.value, 0);
    }
  }

  /** find_by_value: nil for a nil value or a list of size 0; otherwise the first node from the
   *  head whose key matches, nil when the walk comes back to nil or to the head without one, and
   *  NoMethodError when it reaches a cleared node first. */
  method FindByValue(arena: LinkArena, key: int -> int, head: Link, size: int, v: Option<int>, ghost walk: seq<nat>)
    returns (r: Outcome<Link>)
    requires arena.Valid() && Trail(arena.nodes, walk, head) && FindHalts(arena.nodes, key, walk, head, size, v)
    ensures r == if FindRaises(arena.nodes, key, walk, head, size, v) then Raised(NoMethodError)
                 else Returned(if v.None? || size == 0 then Nil else Found(arena.nodes, key, walk, v.value))
  {
    if v.None? || size == 0 {
      return Returned(Nil);
    }
    var stop := head;
    var target := stop;
    ghost var i := 0;
    if walk != [] {
      assert UniqueAt(walk, 0);
    }
    while target.Ref?
      invariant 0 <= i <= |walk|
      invariant target == (if i < |walk| then Ref(walk[i]) else Beyond(arena.nodes, walk, head))
      invariant forall k :: 0 <= k < i ==> !MatchByValue(key, arena.nodes[walk[k]], v.value)
      invariant i == |walk| && target.Ref? ==> Dead(arena.nodes, target)
      decreases |walk| - i
    {
      if arena.nodes[target.id].value.None? {
        MatchIndexIs(arena.nodes, key, walk, v.value, |walk|);
        return Raised(NoMethodError);
      }
      if MatchByValue(key, arena.nodes[target.id], v.value) {
        break;
      }
      target := arena.nodes[target.id].next;
      i := i + 1;
      if i == |walk| {
        MatchIndexIs(arena.nodes, key, walk, v.value, |walk|);
      }
      if stop == target {
        break;
      }
    }
    if target.Ref? && arena.nodes[target.id].value.Some? && MatchByValue(key, arena.nodes[target.id], v.value) {
      MatchIndexIs(arena.nodes, key, walk, v.value, i);
      r := Returned(target);
    } else {
      MatchIndexIs(arena.nodes, key, walk, v.value, |walk|);
      r := Returned(Nil);
    }
  }

  /** A position whose node matches, with none matching before it, is the first match. */
  lemma MatchIndexIs(nodes: map<nat, LinkNode>, key: int -> int, order: seq<nat>, x: int, i: nat)
    requires InArena(nodes, order) && Filled(nodes, order) && i <= |order|
    requires i < |order| ==> MatchByValue(key, nodes[order[i]], x)
    requires forall k :: 0 <= k < i ==> !MatchByValue(key, nodes[order[k]], x)
    ensures MatchIndex(nodes, key, order, x) == i
  {
    var j := MatchIndex(nodes, key, order, x);
    assert !(j < i) && !(i < j);
  }

  // ---------------------------------------------------------------------------------------------
  // sort!: merge_sort and merge

  /** The sort condition: true when the right run's first element goes first. */
  type Condition = (int, int) -> bool

  /** merge: the right run's first element when the condition holds, else the left's. */
  function Merged(cond: Condition, left: seq<int>, right: seq<int>): (r: seq<int>)
    ensures |r| == |left| + |right|
    decreases |left| + |right|
  {
    if left == [] then right
    else if right == [] then left
    else if cond(left[0], right[0]) then [right[0]] + Merged(cond, left, right[1..])
    else [left[0]] + Merged(cond, left[1..], right)
  }

  /** merge keeps every element of both runs. */
  lemma {:induction false} MergedPermutes(cond: Condition, left: seq<int>, right: seq<int>)
    ensures multiset(Merged(cond, left, right)) == multiset(left) + multiset(right)
    decreases |left| + |right|
  {
    if left != [] && right != [] {
      if cond(left[0], right[0]) {
        MergedPermutes(cond, left, right[1..]);
        assert Merged(cond, left, right) == [right[0]] + Merged(cond, left, right[1..]);
        assert multiset(right) == multiset([right[0]]) + multiset(right[1..]) by {
          assert right == [right[0]] + right[1..];
        }
      } else {
        MergedPermutes(cond, left[1..], right);
        assert Merged(cond, left, right) == [left[0]] + Merged(cond, left[1..], right);
        assert multiset(left) == multiset([left[0]]) + multiset(left[1..]) by {
          assert left == [left[0]] + left[1..];
        }
      }
    }
  }

  /** merge's loop: shift the chosen first element while both runs have one, then append the rest. */
  method Merge(cond: Condition, left: seq<int>, right: seq<int>) returns (sorted: seq<int>)
    ensures sorted == Merged(cond, left, right)
  {
    var l, r := left, right;
    sorted := [];
    while |l| > 0 && |r| > 0
      invariant sorted + Merged(cond, l, r) == Merged(cond, left, right)
      decreases |l| + |r|
    {
      ghost var before := sorted;
      if cond(l[0], r[0]) {
        sorted := sorted + [r[0]];
        Shifted(before, r[0], Merged(cond, l, r[1..]));
        r := r[1..];
      } else {
        sorted := sorted + [l[0]];
        Shifted(before, l[0], Merged(cond, l[1..], r));
        l := l[1..];
      }
    }
    MergedRest(cond, sorted, l, r);
    sorted := sorted + l + r;
  }

  lemma Shifted(s: seq<int>, x: int, t: seq<int>)
    ensures s + ([x] + t) == (s + [x]) + t
  {
  }

  /** Once one run is empty, merge appends the other. */
  lemma MergedRest(cond: Condition, s: seq<int>, l: seq<int>, r: seq<int>)
    requires l == [] || r == []
    ensures s + Merged(cond, l, r) == s + l + r
  {
    if l == [] {
      assert [] + r == r;
    } else {
      assert l + [] == l;
    }
  }

  /** merge_sort: runs of fewer than two are sorted; otherwise merge the sorted halves. */
  function MergeSorted(cond: Condition, a: seq<int>): (r: seq<int>)
    ensures multiset(r) == multiset(a) && |r| == |a|
    decreases |a|
  {
    if |a| < 2 then a
    else
      var middle := |a| / 2;
      assert a == a[..middle] + a[middle..];
      MergedPermutes(cond, MergeSorted(cond, a[..middle]), MergeSorted(cond, a[middle..]));
      Merged(cond, MergeSorted(cond, a[..middle]), MergeSorted(cond, a[middle..]))
  }

  /** merge_sort: recursion on the halves, merged by merge's loop. */
  method MergeSort(cond: Condition, a: seq<int>) returns (r: seq<int>)
    ensures r == MergeSorted(cond, a)
    decreases |a|
  {
    if |a| < 2 {
      return a;
    }
    var middle := |a| / 2;
    var left := MergeSort(cond, a[..middle]);
    var right := MergeSort(cond, a[middle..]);
    r := Merge(cond, left, right);
  }

  /** s is non-decreasing by rank. */
  ghost predicate SortedBy(rank: int -> int, s: seq<int>)
  {
    forall i, j :: 0 <= i < j < |s| ==> rank(s[i]) <= rank(s[j])
  }

  /** The condition takes the right element first exactly when its rank is not above the
   *  left's. */
  ghost predicate RanksBy(cond: Condition, rank: int -> int)
  {
    forall a, b {:trigger cond(a, b)} :: cond(a, b) == (rank(b) <= rank(a))
  }

  lemma RankedCondition(cond: Condition, rank: int -> int, a: int, b: int)
    requires RanksBy(cond, rank)
    ensures cond(a, b) == (rank(b) <= rank(a))
  {
  }

  /** Every element of s ranks at least b. */
  ghost predicate AtLeast(rank: int -> int, b: int, s: seq<int>)
  {
    forall x :: x in s ==> b <= rank(x)
  }

  lemma SortedAtLeast(rank: int -> int, s: seq<int>)
    requires SortedBy(rank, s) && s != []
    ensures AtLeast(rank, rank(s[0]), s)
  {
    forall x | x in s ensures rank(s[0]) <= rank(x) {
      var i :| 0 <= i < |s| && s[i] == x;
      if i > 0 {
        assert rank(s[0]) <= rank(s[i]);
      }
    }
  }

  lemma MergedAtLeast(cond: Condition, rank: int -> int, b: int, left: seq<int>, right: seq<int>)
    requires AtLeast(rank, b, left) && AtLeast(rank, b, right)
    ensures AtLeast(rank, b, Merged(cond, left, right))
  {
    var m := Merged(cond, left, right);
    MergedPermutes(cond, left, right);
    forall x | x in m ensures b <= rank(x) {
      assert x in multiset(m);
      assert x in multiset(left) || x in multiset(right);
    }
  }

  /** An element ranked at most every element of a sorted run can go before it. */
  lemma SortedCons(rank: int -> int, x: int, rest: seq<int>)
    requires SortedBy(rank, rest) && AtLeast(rank, rank(x), rest)
    ensures SortedBy(rank, [x] + rest)
  {
    var m := [x] + rest;
    forall i, j | 0 <= i < j < |m| ensures rank(m[i]) <= rank(m[j]) {
      assert m[j] == rest[j - 1];
      if i > 0 {
        assert m[i] == rest[i - 1];
      } else {
        assert m[j] in rest;
      }
    }
  }

  /** Every element after the first of a sorted run ranks at least the first. */
  lemma SortedTail(rank: int -> int, s: seq<int>)
    requires SortedBy(rank, s) && s != []
    ensures SortedBy(rank, s[1..]) && AtLeast(rank, rank(s[0]), s[1..]) && AtLeast(rank, rank(s[0]), s)
  {
    SortedAtLeast(rank, s);
    forall x | x in s[1..] ensures rank(s[0]) <= rank(x) {
      assert x in s;
    }
  }

  /** Merging two runs sorted by a rank the condition follows gives a run sorted by it. */
  lemma {:induction false} MergedInOrder(cond: Condition, rank: int -> int, left: seq<int>, right: seq<int>)
    requires RanksBy(cond, rank) && SortedBy(rank, left) && SortedBy(rank, right)
    ensures SortedBy(rank, Merged(cond, left, right))
    decreases |left| + |right|
  {
    if left != [] && right != [] {
      SortedTail(rank, left);
      SortedTail(rank, right);
      RankedCondition(cond, rank, left[0], right[0]);
      if cond(left[0], right[0]) {
        MergedInOrder(cond, rank, left, right[1..]);
        MergedAtLeast(cond, rank, rank(right[0]), left, right[1..]);
        SortedCons(rank, right[0], Merged(cond, left, right[1..]));
      } else {
        MergedInOrder(cond, rank, left[1..], right);
        MergedAtLeast(cond, rank, rank(left[0]), left[1..], right);
        SortedCons(rank, left[0], Merged(cond, left[1..], right));
      }
    }
  }

  /** merge_sort under a condition that follows a rank sorts by that rank. */
  lemma {:induction false} MergeSortedInOrder(cond: Condition, rank: int -> int, a: seq<int>)
    requires RanksBy(cond, rank)
    ensures SortedBy(rank, MergeSorted(cond, a))
    decreases |a|
  {
    if |a| >= 2 {
      var middle := |a| / 2;
      MergeSortedInOrder(cond, rank, a[..middle]);
      MergeSortedInOrder(cond, rank, a[middle..]);
      MergedInOrder(cond, rank, MergeSorted(cond, a[..middle]), MergeSorted(cond, a[middle..]));
    }
  }

  /** sort!'s direction: :asc, :desc, any other symbol (the default order), or a block. */
  datatype SortOrder = Asc | Desc | Default | By(block: Condition)

  /** The condition sort! merges by: a block overrides the direction; :desc compares keys with
   *  <=, and :asc and every other symbol with >=. */
  function ActiveCondition(key: int -> int, order: SortOrder): Condition
  {
    match order
    case By(block) => block
    case Desc => (a, b) => key(a) <= key(b)
    case _ => (a, b) => key(a) >= key(b)
  }

  /** The rank sort! orders by: the key ascending, its negation for :desc. */
  function SortRank(key: int -> int, order: SortOrder): int -> int
  {
    if order.Desc? then x => -key(x) else key
  }

  /** sort! with a direction leaves the values non-decreasing by key, or non-increasing for :desc. */
  lemma SortedByDirection(key: int -> int, order: SortOrder, a: seq<int>)
    requires !order.By?
    ensures SortedBy(SortRank(key, order), MergeSorted(ActiveCondition(key, order), a))
    ensures order.Desc? ==> forall i, j :: 0 <= i < j < |a| ==>
              key(MergeSorted(ActiveCondition(key, order), a)[i]) >= key(MergeSorted(ActiveCondition(key, order), a)[j])
  {
    var cond := ActiveCondition(key, order);
    var rank := SortRank(key, order);
    assert RanksBy(cond, rank) by {
      forall x, y ensures cond(x, y) == (rank(y) <= rank(x)) {
      }
    }
    MergeSortedInOrder(cond, rank, a);
  }
}
