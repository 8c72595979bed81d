/**
 * Heaps::MinimumHeap: the earlier minimum heap over linked nodes. push computes the row of the
 * new slot, follows left links down to the row above it and then walks that row left to right
 * (row_wise_insert) until a node has a free child slot; the sift-up compares with `<=>`. pop,
 * replace!, delete!, include?, inspect and clear! work as HeapBase's do; to_a asks the root for
 * to_a, which only an EmptyNode answers.
 */
module MinimumHeaps {
  import opened Wrappers
  import opened HeapSlots
  import opened Bags
  import opened HeapNodes
  import opened NodeStores
  import opened SiftUps
  import opened HeapRoots
  import Drawings
  import opened HeapBases
  import opened HeapOrders

  // ---------------------------------------------------------------------------------------------
  // Entries

  /** What MinimumHeap's public methods receive: an Array of two elements (`Node.new(*user_data)`
   *  takes them as label and value), a Hash (read at :label and :value), a Heaps::Node that no
   *  tree links, or anything else. */
  datatype Entry =
    | Pair(name: Option<string>, value: Option<int>)
    | Labelled(name: Option<string>, value: Option<int>)
    | Loose(name: Option<string>, value: Option<int>)
    | Other

  /** valid_node: the record of the node built from the entry, or of the Heaps::Node given
   *  (which push links into the tree as it is); none for anything else. */
  function EntryNode(e: Entry): (r: Option<Data>)
    ensures r.None? <==> e.Other?
    ensures e.Pair? ==> r == Some(Data(e.name, e.value))
    ensures e.Labelled? ==> r == Some(Data(e.name, e.value))
    ensures e.Loose? ==> r == Some(Data(e.name, e.value))
  {
    match e
    case Pair(l, v) => Some(Data(l, v))
    case Labelled(l, v) => Some(Data(l, v))
    case Loose(l, v) => Some(Data(l, v))
    case Other => None
  }

  /** The HeapBase user data making the same node: the pair as it is, the Hash with its label as
   *  the description. */
  function AsUserData(e: Entry): (u: UserData)
    ensures ValidNode(u) == EntryNode(e)
  {
    match e
    case Pair(l, v) => UserData.Pair(l, v)
    case Labelled(l, v) => Keyed(l, v)
    case Loose(l, v) => UserData.Loose(l, v)
    case Other => UserData.Other
  }

  /** The HeapBase user data of a run of entries. */
  function AsUserDatas(es: seq<Entry>): (us: seq<UserData>)
    ensures |us| == |es| && forall i :: 0 <= i < |es| ==> us[i] == AsUserData(es[i])
  {
    seq(|es|, i requires 0 <= i < |es| => AsUserData(es[i]))
  }

  // ---------------------------------------------------------------------------------------------
  // The fields of a minimum heap

  /** The fields of a MinimumHeap: a heap shaped as HeapBase's, except that a heap without a tree
   *  has size 0, and that a tree of one node made by the first push may keep the EmptyNode that
   *  was last_node before it (push onto an empty heap leaves last_node alone). */
  ghost predicate MinShaped(nodes: map<Id, Node>, at: map<nat, Id>, root: Obj, size: int, last: Obj, j: nat)
  {
    || (Shaped(nodes, at, root, size, last, j) && (at == map[] ==> size == 0))
    || LoneWithEmptyLast(nodes, at, root, size, last)
  }

  /** A one-node tree whose last_node is an EmptyNode. */
  ghost predicate LoneWithEmptyLast(nodes: map<Id, Node>, at: map<nat, Id>, root: Obj, size: int, last: Obj)
  {
    && Positioned(nodes, at) && AllValid(nodes, at)
    && at.Keys == {1} && root == Ref(at[1]) && size == 1 && last == Sentinel
  }

  /** Either way the tree and the root are as HeapBase's. */
  lemma MinRooted(nodes: map<Id, Node>, at: map<nat, Id>, root: Obj, size: int, last: Obj, j: nat)
    requires MinShaped(nodes, at, root, size, last, j)
    ensures Rooted(nodes, at, root) && (at != map[] <==> LinkValid(nodes, root))
    ensures at != map[] ==> 1 in at && size == |at|
    ensures at == map[] ==> size == 0
    ensures !LoneWithEmptyLast(nodes, at, root, size, last) ==> Shaped(nodes, at, root, size, last, j)
  {
    if at != map[] {
      assert 1 in at;
      assert |at.Keys| == |at|;
    }
  }

  /** The records a tree holds, each once. */
  ghost predicate Unique(b: multiset<Data>)
  {
    forall x :: b[x] <= 1
  }

  /** Records held once sit at one slot each. */
  lemma UniqueSlots(p: map<nat, Data>, s: set<nat>, i: nat, k: nat)
    requires s <= p.Keys && i in s && k in s && i != k && Unique(BagOf(p, s))
    ensures p[i] != p[k]
  {
    if p[i] == p[k] {
      HeldTwice(p, s, i, k);
      assert false;
    }
  }

  /** Two slots holding the same record count it twice. */
  lemma HeldTwice(p: map<nat, Data>, s: set<nat>, i: nat, k: nat)
    requires s <= p.Keys && i in s && k in s && i != k && p[i] == p[k]
    ensures BagOf(p, s)[p[i]] >= 2
  {
    BagOfRemove<nat, Data>(p, s, i);
    BagOfRemove<nat, Data>(p, s - {i}, k);
    assert BagOf(p, s) == multiset{p[i], p[k]} + BagOf(p, s - {i} - {k});
  }

  // ---------------------------------------------------------------------------------------------
  // row_wise_insert, on slots

  /** `node.parent.right == node` for the node at slot q: the right link of its parent holds a
   *  node with the same record (Node#== compares contents). Above the root is an EmptyNode, whose
   *  right is false. */
  ghost predicate OnRight(p: map<nat, Data>, at: map<nat, Id>, q: nat)
    requires p.Keys == at.Keys
  {
    q >= 2 && q in at && 2 * (q / 2) + 1 in at && p[2 * (q / 2) + 1] == p[q]
  }

  /** A move through the tree: the slot reached and how many rows it went. */
  datatype Moved = Moved(slot: nat, rows: nat)

  /** The climb of row_wise_insert from slot q: up while on the right. */
  ghost function ClimbFrom(p: map<nat, Data>, at: map<nat, Id>, q: nat): (c: Moved)
    requires PrefixClosed(at) && p.Keys == at.Keys && q in at
    ensures c.slot in at && !OnRight(p, at, c.slot)
    decreases q
  {
    ParentSlot(at, q);
    if OnRight(p, at, q) then
      var c := ClimbFrom(p, at, q / 2);
      Moved(c.slot, c.rows + 1)
    else Moved(q, 0)
  }

  /** The descent of row_wise_insert from slot x: down left links while rows are left to go and
   *  the left link holds a node of the tree. */
  ghost function DescendFrom(at: map<nat, Id>, x: nat, count: nat): (e: Moved)
    requires x in at
    ensures e.slot in at && e.rows <= count
    decreases count
  {
    if count > 0 && 2 * x in at then
      var e := DescendFrom(at, 2 * x, count - 1);
      Moved(e.slot, e.rows + 1)
    else Moved(x, 0)
  }

  /** Where row_wise_insert leaves the node it places: attached on one side of a node of the
   *  tree; dropped, the answer being a full node holding the same record; or stuck on an
   *  EmptyNode or false, which raises NoMethodError. */
  datatype Walked = Attach(parent: nat, side: Dir) | Drop(slot: nat) | Stuck

  /** row_wise_insert from the node at slot q of a tree of valid nodes, placing a node holding d:
   *  insert_node; on a full node that differs from the new one the climb, the step to the right
   *  link of the parent and the descent, then again from there. */
  ghost function Walk(p: map<nat, Data>, at: map<nat, Id>, d: Data, q: nat): (w: Walked)
    requires PrefixClosed(at) && p.Keys == at.Keys && q in at
    ensures w.Attach? ==> w.parent in at && Child(w.parent, w.side) !in at
    ensures w.Drop? ==> w.slot in at && p[w.slot] == d
    decreases Log2Floor(q), Cap(at) - q
  {
    ParentSlot(at, q);
    if 2 * q !in at then Attach(q, Left)
    else if 2 * q + 1 !in at then Attach(q, Right)
    else if p[q] == d then Drop(q)
    else
      var c := ClimbFrom(p, at, q);
      if c.slot == 1 || c.slot + 1 !in at then Stuck
      else
        var e := DescendFrom(at, c.slot + 1, c.rows);
        WalkAdvances(p, at, q);
        Walk(p, at, d, e.slot)
  }

  /** The climb goes up exactly `rows` rows, stops at the root or at an even slot, and slot
   *  `slot + 1` descended as many rows lies past q. */
  lemma {:induction false} ClimbFacts(p: map<nat, Data>, at: map<nat, Id>, q: nat)
    requires PrefixClosed(at) && p.Keys == at.Keys && q in at
    ensures var c := ClimbFrom(p, at, q);
            && c.slot >= 1 && q >= 1 && (c.slot == 1 || c.slot % 2 == 0)
            && Log2Floor(q) == Log2Floor(c.slot) + c.rows
            && q < Scale(c.slot + 1, c.rows)
    decreases q
  {
    ParentSlot(at, q);
    var c := ClimbFrom(p, at, q);
    assert c.slot % 2 == 0 || 2 * (c.slot / 2) + 1 == c.slot;
    if OnRight(p, at, q) {
      ClimbFacts(p, at, q / 2);
      assert q < 2 * (q / 2 + 1);
    }
  }

  /** The descent goes down `rows` rows along left links. */
  lemma {:induction false} DescendFacts(at: map<nat, Id>, x: nat, count: nat)
    requires x in at
    ensures DescendFrom(at, x, count).slot == Scale(x, DescendFrom(at, x, count).rows)
    decreases count
  {
    if count > 0 && 2 * x in at {
      DescendFacts(at, 2 * x, count - 1);
      ScaleShift(x, DescendFrom(at, 2 * x, count - 1).rows);
    }
  }

  /** Each round of row_wise_insert ends in a higher row, or further right in the same row. */
  lemma WalkAdvances(p: map<nat, Data>, at: map<nat, Id>, q: nat)
    requires PrefixClosed(at) && p.Keys == at.Keys && q in at
    requires var c := ClimbFrom(p, at, q); c.slot != 1 && c.slot + 1 in at
    ensures var c := ClimbFrom(p, at, q);
            var e := DescendFrom(at, c.slot + 1, c.rows);
            && e.slot >= 1 && q >= 1
            && (Log2Floor(e.slot) < Log2Floor(q) || (Log2Floor(e.slot) == Log2Floor(q) && e.slot > q))
  {
    var c := ClimbFrom(p, at, q);
    var e := DescendFrom(at, c.slot + 1, c.rows);
    ClimbFacts(p, at, q);
    DescendFacts(at, c.slot + 1, c.rows);
    assert (c.slot + 1) / 2 == c.slot / 2;
    ScaleRow(c.slot + 1, e.rows);
    if e.rows == c.rows {
      ScaleRow(c.slot + 1, c.rows);
    }
  }

  /** No two slots hold the same record. */
  ghost predicate DistinctRecords(p: map<nat, Data>)
  {
    forall i, k :: i in p && k in p && i != k ==> p[i] != p[k]
  }

  /** A tree holding each record once holds it at one slot. */
  lemma UniqueDistinct(p: map<nat, Data>)
    requires Unique(BagOf(p, p.Keys))
    ensures DistinctRecords(p)
  {
    forall i, k | i in p && k in p && i != k ensures p[i] != p[k] {
      UniqueSlots(p, p.Keys, i, k);
    }
  }

  /** With distinct records the left child of a node never `==` its right sibling, so the climb is
   *  the one on slot numbers: up while on an odd slot. */
  lemma {:induction false} ClimbDistinct(p: map<nat, Data>, at: map<nat, Id>, q: nat)
    requires PrefixClosed(at) && p.Keys == at.Keys && q in at && DistinctRecords(p)
    ensures q >= 1 && ClimbFrom(p, at, q) == Moved(ClimbTop(q), ClimbCount(q))
    decreases q
  {
    ParentSlot(at, q);
    if q >= 3 && q % 2 == 1 {
      assert 2 * (q / 2) + 1 == q;
      assert OnRight(p, at, q);
      ClimbDistinct(p, at, q / 2);
    } else if q >= 2 {
      assert 2 * (q / 2) + 1 == q + 1;
      assert !OnRight(p, at, q);
    }
  }

  /** In a complete tree the descent goes all the rows it is given when the slot it aims at is
   *  in the tree. */
  lemma {:induction false} DescendComplete(at: map<nat, Id>, x: nat, count: nat)
    requires Complete(at) && x >= 1 && Scale(x, count) in at
    ensures x in at && DescendFrom(at, x, count) == Moved(Scale(x, count), count)
    decreases count
  {
    ScaleRow(x, count);
    if count > 0 {
      ScaleShift(x, count - 1);
      ScaleRow(2 * x, count - 1);
      DescendComplete(at, 2 * x, count - 1);
    }
  }

  /** On a complete tree of n nodes with distinct records, none of them d, row_wise_insert from
   *  any node of the row above slot n + 1, not right of its parent (n + 1) / 2, attaches the node
   *  to that parent, on the left when n + 1 is even: it fills the tree in level order. */
  lemma WalkComplete(p: map<nat, Data>, at: map<nat, Id>, d: Data, q: nat)
    requires PrefixClosed(at) && Complete(at) && p.Keys == at.Keys && DistinctRecords(p)
    requires forall k :: k in p ==> p[k] != d
    requires 1 <= q <= (|at| + 1) / 2 && Log2Floor(q) == Log2Floor((|at| + 1) / 2)
    ensures q in at
    ensures Walk(p, at, d, q) == Attach((|at| + 1) / 2, SideOf(|at| + 1))
  {
    var parent := (|at| + 1) / 2;
    WalkAtParent(p, at, d);
    forall k | q <= k < parent
      ensures SameStep(p, at, d, k)
    {
      Log2FloorMonotone(q, k);
      Log2FloorMonotone(k, parent);
      WalkAlong(p, at, d, k);
    }
    WalkChain(p, at, d, q, parent, Attach(parent, SideOf(|at| + 1)));
  }

  /** Slots k and k + 1 both hold nodes and row_wise_insert from either ends alike. */
  ghost predicate SameStep(p: map<nat, Data>, at: map<nat, Id>, d: Data, k: nat)
  {
    PrefixClosed(at) && p.Keys == at.Keys && k in at && k + 1 in at
    && Walk(p, at, d, k) == Walk(p, at, d, k + 1)
  }

  /** Along a run of slots whose neighbours walk alike, every walk ends as the last one does. */
  lemma {:induction false} WalkChain(p: map<nat, Data>, at: map<nat, Id>, d: Data, q: nat, parent: nat, a: Walked)
    requires PrefixClosed(at) && p.Keys == at.Keys && q <= parent && parent in at
    requires Walk(p, at, d, parent) == a
    requires forall k :: q <= k < parent ==> SameStep(p, at, d, k)
    ensures q in at && Walk(p, at, d, q) == a
    decreases parent - q
  {
    if q < parent {
      assert SameStep(p, at, d, q);
      WalkChain(p, at, d, q + 1, parent, a);
    }
  }

  /** One round of row_wise_insert on a complete tree with distinct records, from a node left of
   *  the parent of the next slot: the node is full, and the round ends on its right neighbour. */
  lemma WalkAlong(p: map<nat, Data>, at: map<nat, Id>, d: Data, q: nat)
    requires PrefixClosed(at) && Complete(at) && p.Keys == at.Keys && DistinctRecords(p)
    requires forall k :: k in p ==> p[k] != d
    requires 1 <= q < (|at| + 1) / 2 && Log2Floor(q) == Log2Floor((|at| + 1) / 2)
    ensures q + 1 <= (|at| + 1) / 2 && Log2Floor(q + 1) == Log2Floor((|at| + 1) / 2)
    ensures q in at && q + 1 in at && Walk(p, at, d, q) == Walk(p, at, d, q + 1)
  {
    var n := |at|;
    var top, count := RowNeighbour(q, (n + 1) / 2);
    InComplete(at, q);
    InComplete(at, 2 * q);
    InComplete(at, 2 * q + 1);
    InComplete(at, top + 1);
    InComplete(at, q + 1);
    ClimbDistinct(p, at, q);
    WalkCross(p, at, d, q, top, count);
  }

  /** The round from slot q once the climb is known to stop at slot top, count rows up, and the
   *  descent from top + 1 as many rows down to reach slot q + 1 of a complete tree. */
  lemma WalkCross(p: map<nat, Data>, at: map<nat, Id>, d: Data, q: nat, top: nat, count: nat)
    requires PrefixClosed(at) && Complete(at) && p.Keys == at.Keys
    requires q in at && 2 * q in at && 2 * q + 1 in at && p[q] != d
    requires ClimbFrom(p, at, q) == Moved(top, count) && top != 1 && top + 1 in at
    requires Scale(top + 1, count) == q + 1 && q + 1 in at
    ensures Walk(p, at, d, q) == Walk(p, at, d, q + 1)
  {
    DescendComplete(at, top + 1, count);
    WalkRound(p, at, d, q, q + 1);
  }

  lemma InComplete(at: map<nat, Id>, k: nat)
    requires Complete(at) && 1 <= k <= |at|
    ensures k in at
  {
  }

  /** The row step for a slot q left of a slot of its row: the climb on slot numbers stops below
   *  the root, and the descent from its right neighbour reaches q + 1. */
  lemma RowNeighbour(q: nat, parent: nat) returns (top: nat, count: nat)
    requires 1 <= q < parent && Log2Floor(q) == Log2Floor(parent)
    ensures top == ClimbTop(q) && count == ClimbCount(q)
    ensures top >= 2 && 1 <= top + 1 <= q + 1 && Scale(top + 1, count) == q + 1 && q + 1 <= parent
    ensures Log2Floor(q + 1) == Log2Floor(parent)
  {
    top, count := ClimbTop(q), ClimbCount(q);
    SameRowNext(q, parent);
    RowStepScale(q);
  }

  /** The slot after q, left of or at a slot of q's row, is in that row too, and the climb from q
   *  stops below the root. */
  lemma SameRowNext(q: nat, parent: nat)
    requires 1 <= q < parent && Log2Floor(q) == Log2Floor(parent)
    ensures Log2Floor(q + 1) == Log2Floor(parent) && ClimbTop(q) >= 2
  {
    var r := Log2Floor(q);
    assert Log2Floor(q + 1) == r by {
      Log2FloorMonotone(q, q + 1);
      Log2FloorMonotone(q + 1, parent);
    }
    RowStepRow(q);
  }

  /** A round of row_wise_insert from a full node holding another record, when the climb stops
   *  below the root and the right link of the parent holds a node. */
  lemma WalkRound(p: map<nat, Data>, at: map<nat, Id>, d: Data, q: nat, e: nat)
    requires PrefixClosed(at) && p.Keys == at.Keys && q in at && 2 * q in at && 2 * q + 1 in at && p[q] != d
    requires var c := ClimbFrom(p, at, q); c.slot != 1 && c.slot + 1 in at
                                            && e == DescendFrom(at, c.slot + 1, c.rows).slot
    ensures e in at && Walk(p, at, d, q) == Walk(p, at, d, e)
  {
  }

  /** On a complete tree row_wise_insert at the parent of the next slot attaches the node there. */
  lemma WalkAtParent(p: map<nat, Data>, at: map<nat, Id>, d: Data)
    requires PrefixClosed(at) && Complete(at) && p.Keys == at.Keys && |at| >= 1
    ensures (|at| + 1) / 2 in at
    ensures Walk(p, at, d, (|at| + 1) / 2) == Attach((|at| + 1) / 2, SideOf(|at| + 1))
  {
    var n := |at|;
    assert (n + 1) / 2 in at && n + 1 !in at;
    if (n + 1) % 2 == 1 {
      assert 2 * ((n + 1) / 2) == n;
    }
  }

  /** The node insert_node starts row_wise_insert from on a complete tree, prow - 1 left links
   *  below the root, prow being the row of slot n + 1, is in the same row as the parent of slot
   *  n + 1 and not right of it. */
  lemma RowStart(n: nat)
    requires n >= 1
    ensures var prow := Log2Floor(n + 1);
            && prow >= 1
            && 1 <= Pow2(prow - 1) <= (n + 1) / 2
            && Log2Floor(Pow2(prow - 1)) == Log2Floor((n + 1) / 2)
  {
    var prow := Log2Floor(n + 1);
    assert prow >= 1;
    assert Log2Floor((n + 1) / 2) == prow - 1;
    Log2FloorUnique(Pow2(prow - 1), prow - 1);
  }

  // ---------------------------------------------------------------------------------------------
  // row_wise_insert and insert_node on the store

  /** What row_wise_insert from the node at slot q does with the fresh node c, as Walk says:
   *  attached, the answer is c and the store has c linked below the parent; dropped, the answer
   *  is the full node holding c's record and nothing changes; stuck, NoMethodError. */
  ghost predicate WalkedTo(m0: map<Id, Node>, at: map<nat, Id>, c: Id, q: nat, m: map<Id, Node>, r: Outcome<Obj>)
    requires PrefixClosed(at) && InNodes(m0, at) && q in at && c in m0
  {
    var w := Walk(Payload(m0, at), at, m0[c].data, q);
    && (w.Attach? ==> r == Returned(Ref(c)) && m == Attached(m0, at[w.parent], c, w.side))
    && (w.Drop? ==> r == Returned(Ref(at[w.slot])) && m == m0)
    && (w.Stuck? ==> r == Raised(NoMethodError) && m == m0)
  }

  /** `node.parent.right == node` for the node x at slot k: the right link of its parent (false
   *  above the root, whose parent is an EmptyNode), compared by Node#==. */
  function ParentRightIs(nodes: map<Id, Node>, x: Id, ghost at: map<nat, Id>, ghost k: nat): (b: bool)
    requires Positioned(nodes, at) && k in at && x == at[k]
    ensures b == OnRight(Payload(nodes, at), at, k)
  {
    ParentLinks(nodes, at, k);
    var right := Send(nodes, nodes[x].parent, Right);
    right.Returned? && SameContents(nodes, right.value, nodes[x].data)
  }

  /** The links of the node at slot k and of its parent. */
  lemma ParentLinks(nodes: map<Id, Node>, at: map<nat, Id>, k: nat)
    requires Positioned(nodes, at) && k in at
    ensures k >= 1 && (k >= 2 ==> k / 2 in at)
    ensures at[k] in nodes && nodes[at[k]].parent == (if k == 1 then Sentinel else Ref(at[k / 2]))
    ensures k >= 2 ==> at[k / 2] in nodes
                       && nodes[at[k / 2]].right == (if 2 * (k / 2) + 1 in at then Ref(at[2 * (k / 2) + 1]) else Sentinel)
  {
    LinksAt(nodes, at, k);
    if k >= 2 {
      LinksAt(nodes, at, k / 2);
    }
  }

  /** The climb of row_wise_insert: `node = node.parent` while the node is its parent's right
   *  child, counting the rows. */
  method Climb(store: NodeStore, x: Id, ghost at: map<nat, Id>, ghost q: nat) returns (y: Id, count: nat, ghost k: nat)
    requires Positioned(store.nodes, at) && q in at && x == at[q]
    ensures count == ClimbFrom(Payload(store.nodes, at), at, q).rows
    ensures y == at[ClimbFrom(Payload(store.nodes, at), at, q).slot]
    ensures k == ClimbFrom(Payload(store.nodes, at), at, q).slot
  {
    ghost var p := Payload(store.nodes, at);
    y, count, k := x, 0, q;
    while ParentRightIs(store.nodes, y, at, k)
      invariant k in at && y == at[k]
      invariant ClimbFrom(p, at, q) == Moved(ClimbFrom(p, at, k).slot, ClimbFrom(p, at, k).rows + count)
      decreases k
    {
      LinksAt(store.nodes, at, k);
      y := store.nodes[y].parent.id;
      k := k / 2;
      count := count + 1;
    }
  }

  /** `node = node.parent.right`, then `node = node.left` while count > 0 and the left link holds
   *  a valid node, from the node y where the climb stopped, at slot k (the root or a left child).
   *  Below the root the step reaches slot k + 1, and the descent what DescendFrom says; from the
   *  root it reaches false, and where slot k + 1 is free an EmptyNode: either raises at once when
   *  count > 0 (false has no left, an EmptyNode's left is false, which has no valid?), and is
   *  answered as it is otherwise. */
  method CrossDown(store: NodeStore, y: Id, count: nat, ghost at: map<nat, Id>, ghost k: nat)
    returns (r: Outcome<Obj>)
    requires Positioned(store.nodes, at) && AllValid(store.nodes, at) && k in at && y == at[k]
    requires k == 1 || k % 2 == 0
    ensures k != 1 && k + 1 in at ==> r == Returned(Ref(at[DescendFrom(at, k + 1, count).slot]))
    ensures k == 1 || k + 1 !in at ==> if count > 0 then r == Raised(NoMethodError)
                                        else r == Returned(if k == 1 then False else Sentinel)
  {
    LinksAt(store.nodes, at, k);
    if k >= 2 {
      LinksAt(store.nodes, at, k / 2);
      assert 2 * (k / 2) + 1 == k + 1;
    }
    var right := Send(store.nodes, store.nodes[y].parent, Right);
    var node := right.value;
    var cnt: nat := count;
    ghost var e := k + 1;
    while cnt > 0
      invariant cnt <= count && LinkIn(store.nodes, node)
      invariant k != 1 && k + 1 in at ==>
                  e in at && node == Ref(at[e]) && DescendFrom(at, k + 1, count).slot == DescendFrom(at, e, cnt).slot
      invariant k == 1 || k + 1 !in at ==> cnt == count && node == (if k == 1 then False else Sentinel)
      decreases cnt
    {
      var left := Send(store.nodes, node, Left);
      if left.Raised? {
        return Raised(left.error);
      }
      if node.Ref? {
        LinksAt(store.nodes, at, e);
      }
      var valid := ValidOf(store.nodes, left.value);
      if valid.Raised? {
        return Raised(valid.error);
      }
      if !valid.value {
        break;
      }
      node := left.value;
      cnt := cnt - 1;
      e := 2 * e;
    }
    return Returned(node);
  }

  /** row_wise_insert(snode, new_node) from the node x at slot q, c being the fresh node, as
   *  WalkedTo says. */
  method RowWiseInsert(store: NodeStore, x: Id, c: Id, ghost at: map<nat, Id>, ghost q: nat) returns (r: Outcome<Obj>)
    requires store.Valid() && Positioned(store.nodes, at) && AllValid(store.nodes, at) && q in at && x == at[q]
    requires c in store.nodes && c !in at.Values && store.nodes[c] == FreshNode(store.nodes[c].data)
    modifies store
    ensures store.Valid() && store.next == old(store.next)
    ensures WalkedTo(old(store.nodes), at, c, q, store.nodes, r)
    decreases Log2Floor(q), Cap(at) - q, 1
  {
    LinksAt(store.nodes, at, q);
    if 2 * q in at { LinksAt(store.nodes, at, 2 * q); }
    if 2 * q + 1 in at { LinksAt(store.nodes, at, 2 * q + 1); }
    WalkFirst(Payload(store.nodes, at), at, store.nodes[c].data, q);
    var node := store.InsertNode(x, c);
    // `node != new_node`: an attached node is new_node itself
    if node.value == c {
      return Returned(Ref(c));
    }
    if store.nodes[x].data == store.nodes[c].data {
      return Returned(Ref(x));
    }
    r := RowWiseStep(store, x, c, at, q);
  }

  /** Where row_wise_insert starts: at a free child slot of q it attaches, at a full node holding
   *  d it drops. */
  lemma WalkFirst(p: map<nat, Data>, at: map<nat, Id>, d: Data, q: nat)
    requires PrefixClosed(at) && p.Keys == at.Keys && q in at
    ensures 2 * q !in at ==> Walk(p, at, d, q) == Attach(q, Left)
    ensures 2 * q in at && 2 * q + 1 !in at ==> Walk(p, at, d, q) == Attach(q, Right)
    ensures 2 * q in at && 2 * q + 1 in at && p[q] == d ==> Walk(p, at, d, q) == Drop(q)
  {
  }

  /** The rest of row_wise_insert from a full node x at slot q holding another record: the climb,
   *  the step right, the descent, and row_wise_insert again from there. */
  method RowWiseStep(store: NodeStore, x: Id, c: Id, ghost at: map<nat, Id>, ghost q: nat) returns (r: Outcome<Obj>)
    requires store.Valid() && Positioned(store.nodes, at) && AllValid(store.nodes, at) && q in at && x == at[q]
    requires c in store.nodes && c !in at.Values && store.nodes[c] == FreshNode(store.nodes[c].data)
    requires 2 * q in at && 2 * q + 1 in at && Payload(store.nodes, at)[q] != store.nodes[c].data
    modifies store
    ensures store.Valid() && store.next == old(store.next)
    ensures WalkedTo(old(store.nodes), at, c, q, store.nodes, r)
    decreases Log2Floor(q), Cap(at) - q, 0
  {
    ghost var p := Payload(store.nodes, at);
    ghost var d := store.nodes[c].data;
    var y, count, k := Climb(store, x, at, q);
    ClimbFacts(p, at, q);
    var next := CrossDown(store, y, count, at, k);
    if next.Raised? {
      return next;
    }
    if !next.value.Ref? {
      // insert_node sent to false or an EmptyNode
      return Raised(NoMethodError);
    }
    ghost var e := DescendFrom(at, k + 1, count).slot;
    WalkAdvances(p, at, q);
    WalkRound(p, at, d, q, e);
    r := RowWiseInsert(store, next.value.id, c, at, e);
  }

  // ---------------------------------------------------------------------------------------------
  // insert_node

  /** Where insert_node puts a node holding d when size has become n: insert_positions gives the
   *  row of slot n, the walk down left links reaches the leftmost slot of the row above it, and
   *  row_wise_insert goes on from there; a walk that leaves the tree ends on an EmptyNode or
   *  false, none of which answers insert_node (NoMethodError). */
  ghost function RowPlacement(p: map<nat, Data>, at: map<nat, Id>, d: Data, n: nat): (w: Walked)
    requires PrefixClosed(at) && p.Keys == at.Keys && n >= 2
  {
    var q := Pow2(SlotPositions(n).row - 1);
    if q in at then Walk(p, at, d, q) else Stuck
  }

  /** On a complete tree of n nodes with distinct records, a record none of them holds goes to
   *  slot n + 1: below its parent (n + 1) / 2, on the left when n + 1 is even. */
  lemma RowPlacementComplete(p: map<nat, Data>, at: map<nat, Id>, d: Data)
    requires PrefixClosed(at) && Complete(at) && p.Keys == at.Keys && |at| >= 1
    requires DistinctRecords(p) && forall k :: k in p ==> p[k] != d
    ensures RowPlacement(p, at, d, |at| + 1) == Attach((|at| + 1) / 2, SideOf(|at| + 1))
    ensures Child((|at| + 1) / 2, SideOf(|at| + 1)) == |at| + 1
  {
    var q := PlacementStart(|at|);
    InComplete(at, q);
    WalkComplete(p, at, d, q);
    assert RowPlacement(p, at, d, |at| + 1) == Walk(p, at, d, q);
  }

  /** The side of its parent a slot s >= 2 hangs on. */
  function SideOf(s: nat): (d: Dir)
    ensures s >= 2 ==> Child(s / 2, d) == s
  {
    if s % 2 == 0 then Left else Right
  }

  /** The slot insert_node starts row_wise_insert from when size becomes n + 1. */
  lemma PlacementStart(n: nat) returns (q: nat)
    requires n >= 1
    ensures q == Pow2(SlotPositions(n + 1).row - 1)
    ensures 1 <= q <= (n + 1) / 2 && Log2Floor(q) == Log2Floor((n + 1) / 2)
  {
    RowStart(n);
    q := Pow2(Log2Floor(n + 1) - 1);
  }

  /** Once a step down left links has raised, the later ones raise too. */
  lemma {:induction false} LeftSpineRaised(at: map<nat, Id>, a: nat, b: nat)
    requires PrefixClosed(at) && a <= b && Reached(at, Pow2(a)).Raised?
    ensures Reached(at, Pow2(b)) == Raised(NoMethodError)
    decreases b - a
  {
    if a < b {
      ReachedRaised(at, Pow2(a), Left);
      LeftSpineRaised(at, a + 1, b);
    }
  }

  /** insert_node's walk to the row above the new slot: `nav_node = nav_node.left` while
   *  prow > row, row counting from 1 at the root. */
  method LeftSpine(store: NodeStore, root: Obj, ghost at: map<nat, Id>, prow: nat) returns (r: Outcome<Obj>)
    requires Positioned(store.nodes, at) && 1 in at && root == Ref(at[1]) && prow >= 1
    ensures r == Reached(at, Pow2(prow - 1))
    ensures r.Returned? ==> LinkIn(store.nodes, r.value)
  {
    var navNode := root;
    var row := 1;
    while prow > row
      invariant 1 <= row <= prow
      invariant Reached(at, Pow2(row - 1)) == Returned(navNode)
    {
      ReachedStep(store.nodes, at, Pow2(row - 1), Left);
      var next := Send(store.nodes, navNode, Left);
      if next.Raised? {
        LeftSpineRaised(at, row, prow - 1);
        return next;
      }
      navNode := next.value;
      row := row + 1;
    }
    ReachedStep(store.nodes, at, Pow2(row - 1), Left);
    return Returned(navNode);
  }

  /** What insert_node does to the tree at0 over the store m0 with the fresh node c once size has
   *  become n, as RowPlacement says: stuck, it raises NoMethodError and changes nothing; dropped
   *  on the full node holding c's record, that node becomes last_node and nothing else changes
   *  (maintain_heap_property returns at once, c having no valid parent); attached at slot s, c
   *  becomes last_node and maintain_heap_property sifts it up, raising ArgumentError on a nil
   *  value. A sift-up that returns leaves a heap holding the old records and c's, with the root
   *  still the least if it was. */
  ghost predicate InsertedRowWise(m0: map<Id, Node>, at0: map<nat, Id>, last0: Obj, j0: nat, c: Id, n: nat,
                                  root: Obj, m: map<Id, Node>, at: map<nat, Id>, last: Obj, j: nat, r: Outcome<Obj>)
    requires Positioned(m0, at0) && c in m0 && n >= 2
  {
    var p := Payload(m0, at0);
    var d := m0[c].data;
    var w := RowPlacement(p, at0, d, n);
    && (w.Stuck? ==> r == Raised(NoMethodError) && m == m0 && at == at0 && last == last0 && j == j0)
    && (w.Drop? ==> r == Returned(Ref(c)) && m == m0 && at == at0 && last == Ref(at0[w.slot]) && j == w.slot)
    && (w.Attach? ==>
          var s := Child(w.parent, w.side);
          && at == at0[s := c] && last == Ref(c) && j == s
          && (!IsValid(d) ==> r == Raised(ArgumentError))
          && (IsValid(d) ==>
                && Shaped(m, at, root, |at0| + 1, last, j)
                && Payload(m, at) == Repaired(MinimumRepair, p[s := d], at, s).records
                && r == Returned(Ref(at[Repaired(MinimumRepair, p[s := d], at, s).slot]))
                && Contents(m, at) == Contents(m0, at0) + multiset{d}
                && (RootExtreme(MinimumRepair, p) ==> RootExtreme(MinimumRepair, Payload(m, at)))
                && ((forall k :: k in at0 ==> k < s) && SortedTree(p, at0, 1) ==> SortedTree(Payload(m, at), at, 1))))
  }

  /** insert_node(this_node) with size n: the walk down, row_wise_insert, then
   *  maintain_heap_property(this_node). last is last_node at slot j, or any node when the tree is
   *  the root alone (last_node is then not read). */
  method InsertRowWise(store: NodeStore, root: Obj, n: int, last: Obj, c: Id, ghost at: map<nat, Id>, ghost j: nat)
    returns (r: Outcome<Obj>, last': Obj, ghost at': map<nat, Id>, ghost j': nat)
    requires store.Valid() && MinShaped(store.nodes, at, root, |at|, last, j) && at != map[] && n == |at| + 1
    requires c in store.nodes && c !in at.Values && store.nodes[c] == FreshNode(store.nodes[c].data)
    modifies store
    ensures store.Valid()
    ensures InsertedRowWise(old(store.nodes), at, last, j, c, n, root, store.nodes, at', last', j', r)
  {
    ghost var m0 := store.nodes;
    MinRooted(m0, at, root, |at|, last, j);
    var prow := SlotPositions(n).row;
    var nav := LeftSpine(store, root, at, prow);
    if nav.Raised? || !nav.value.Ref? {
      // insert_node sent to an EmptyNode or false, or false has no left
      assert Pow2(prow - 1) !in at;
      InsertedStuck(m0, at, last, j, c, n, root);
      return Raised(NoMethodError), last, at, j;
    }
    assert Pow2(prow - 1) in at && nav.value.id == at[Pow2(prow - 1)];
    r, last', at', j' := PlaceRowWise(store, root, n, last, c, nav.value.id, at, j, Pow2(prow - 1));
  }

  /** The rest of insert_node from the node x at slot q, the leftmost of the row above slot n. */
  method PlaceRowWise(store: NodeStore, root: Obj, n: int, last: Obj, c: Id, x: Id,
                      ghost at: map<nat, Id>, ghost j: nat, ghost q: nat)
    returns (r: Outcome<Obj>, last': Obj, ghost at': map<nat, Id>, ghost j': nat)
    requires store.Valid() && MinShaped(store.nodes, at, root, |at|, last, j) && at != map[] && n == |at| + 1
    requires c in store.nodes && c !in at.Values && store.nodes[c] == FreshNode(store.nodes[c].data)
    requires q == Pow2(SlotPositions(n).row - 1) && q in at && x == at[q]
    modifies store
    ensures store.Valid()
    ensures InsertedRowWise(old(store.nodes), at, last, j, c, n, root, store.nodes, at', last', j', r)
  {
    ghost var m0 := store.nodes;
    ghost var w := Walk(Payload(m0, at), at, m0[c].data, q);
    MinRooted(m0, at, root, |at|, last, j);
    var node := RowWiseInsert(store, x, c, at, q);
    if node.Raised? {
      InsertedStuck(m0, at, last, j, c, n, root);
      return Raised(NoMethodError), last, at, j;
    }
    if w.Attach? {
      assert store.nodes[c].parent == Ref(at[w.parent]) && LinkValid(store.nodes, store.nodes[c].parent);
    }
    if !LinkValid(store.nodes, store.nodes[c].parent) {
      // dropped: `node&.parent&.valid?` fails for this_node, whose parent is an EmptyNode
      InsertedDropped(m0, at, last, j, c, n, root, w.slot);
      return Returned(Ref(c)), node.value, at, w.slot;
    }
    r, last', at', j' := SiftPlaced(store, root, n, last, c, m0, at, j, w.parent, w.side);
  }

  /** maintain_heap_property(this_node) once row_wise_insert has attached it below the node at
   *  slot k on side dir. */
  method SiftPlaced(store: NodeStore, root: Obj, n: int, last: Obj, c: Id, ghost m0: map<Id, Node>,
                    ghost at: map<nat, Id>, ghost j: nat, ghost k: nat, ghost dir: Dir)
    returns (r: Outcome<Obj>, last': Obj, ghost at': map<nat, Id>, ghost j': nat)
    requires Positioned(m0, at) && MinShaped(m0, at, root, |at|, last, j) && at != map[] && n == |at| + 1
    requires c in m0 && c !in at.Values && m0[c] == FreshNode(m0[c].data)
    requires RowPlacement(Payload(m0, at), at, m0[c].data, n) == Attach(k, dir)
    requires k in at && Child(k, dir) !in at
    requires store.Valid() && store.nodes == Attached(m0, at[k], c, dir)
    modifies store
    ensures store.Valid()
    ensures InsertedRowWise(m0, at, last, j, c, n, root, store.nodes, at', last', j', r)
  {
    ghost var s := Child(k, dir);
    assert s / 2 == k && (if s % 2 == 0 then Left else Right) == dir;
    // a tree of one node may keep an EmptyNode as last_node; SiftAttached does not read it
    var base := if last == Sentinel then root else last;
    ghost var j0 := if last == Sentinel then 1 else j;
    MinShapedBase(m0, at, root, last, j);
    r, last', at', j' := SiftAttached(store, MinimumRepair, root, base, c, m0, at, j0, k, s);
    InsertedAttached(m0, at, last, j, c, n, root, k, dir, store.nodes, at', last', j', r);
  }

  /** Either form of a tree's fields gives HeapBase's, with the root as last_node when the tree
   *  is the root alone and last_node an EmptyNode. */
  lemma MinShapedBase(m: map<Id, Node>, at: map<nat, Id>, root: Obj, last: Obj, j: nat)
    requires MinShaped(m, at, root, |at|, last, j) && at != map[]
    ensures Shaped(m, at, root, |at|, if last == Sentinel then root else last, if last == Sentinel then 1 else j)
  {
    if LoneWithEmptyLast(m, at, root, |at|, last) {
      assert LastLeaf(m, at, root, 1);
    }
  }

  /** insert_node when the walk is stuck. */
  lemma InsertedStuck(m0: map<Id, Node>, at: map<nat, Id>, last: Obj, j: nat, c: Id, n: nat, root: Obj)
    requires Positioned(m0, at) && c in m0 && n >= 2
    requires RowPlacement(Payload(m0, at), at, m0[c].data, n).Stuck?
    ensures InsertedRowWise(m0, at, last, j, c, n, root, m0, at, last, j, Raised(NoMethodError))
  {
  }

  /** insert_node when the walk drops the node on the one holding its record at slot k. */
  lemma InsertedDropped(m0: map<Id, Node>, at: map<nat, Id>, last: Obj, j: nat, c: Id, n: nat, root: Obj, k: nat)
    requires Positioned(m0, at) && c in m0 && n >= 2
    requires RowPlacement(Payload(m0, at), at, m0[c].data, n) == Drop(k)
    ensures InsertedRowWise(m0, at, last, j, c, n, root, m0, at, Ref(at[k]), k, Returned(Ref(c)))
  {
  }

  /** insert_node once the walk has attached c at slot s and the sift-up has run. */
  lemma InsertedAttached(m0: map<Id, Node>, at0: map<nat, Id>, last0: Obj, j0: nat, c: Id, n: nat, root: Obj,
                         k: nat, dir: Dir, m: map<Id, Node>, at: map<nat, Id>, last: Obj, j: nat, r: Outcome<Obj>)
    requires Positioned(m0, at0) && c in m0 && n >= 2
    requires RowPlacement(Payload(m0, at0), at0, m0[c].data, n) == Attach(k, dir)
    requires var s := Child(k, dir);
             var p := Payload(m0, at0);
             var d := m0[c].data;
             && at == at0[s := c] && last == Ref(c) && j == s
             && (!IsValid(d) ==> r == Raised(ArgumentError))
             && (IsValid(d) ==>
                   && Shaped(m, at, root, |at0| + 1, last, j)
                   && Payload(m, at) == Repaired(MinimumRepair, p[s := d], at, s).records
                   && r == Returned(Ref(at[Repaired(MinimumRepair, p[s := d], at, s).slot]))
                   && Contents(m, at) == Contents(m0, at0) + multiset{d}
                   && (RootExtreme(MinimumRepair, p) ==> RootExtreme(MinimumRepair, Payload(m, at)))
                   && ((forall k :: k in at0 ==> k < s) && SortedTree(p, at0, 1) ==> SortedTree(Payload(m, at), at, 1)))
    ensures InsertedRowWise(m0, at0, last0, j0, c, n, root, m, at, last, j, r)
  {
  }

  // ---------------------------------------------------------------------------------------------
  // push

  /** A fresh node in the store leaves a minimum heap's fields as they were. */
  lemma MinShapedFresh(m: map<Id, Node>, at: map<nat, Id>, root: Obj, size: int, last: Obj, j: nat, c: Id, n: Node)
    requires MinShaped(m, at, root, size, last, j) && c !in m
    ensures MinShaped(m[c := n], at, root, size, last, j) && c !in at.Values
    ensures Payload(m[c := n], at) == Payload(m, at) && Contents(m[c := n], at) == Contents(m, at)
    ensures LinkValid(m[c := n], root) == LinkValid(m, root)
  {
    MinRooted(m, at, root, size, last, j);
    PositionedFresh(m, at, c, n);
    if Shaped(m, at, root, size, last, j) {
      ShapedFresh(m, at, root, size, last, j, c, n);
    } else {
      AllValidRecords(m, at);
      AllValidRecords(m[c := n], at);
    }
  }

  /** What push(e) does to the fields of a minimum heap (root0, size0, last0, the tree at0 over
   *  the store m0), c being the node made for e's record and placed what insert_node answered:
   *  anything but an Array or a Hash changes nothing. Onto a heap without a tree
   *  (`!root.valid? and @size == 0`) the node becomes root, size becomes 1 and last_node is left
   *  as it was. Otherwise size grows by one and insert_node goes as InsertedRowWise says; push
   *  answers nil unless insert_node raised. */
  ghost predicate PushedMin(m0: map<Id, Node>, at0: map<nat, Id>, root0: Obj, size0: int, last0: Obj, j0: nat,
                            e: Entry, c: Id, placed: Outcome<Obj>,
                            m: map<Id, Node>, at: map<nat, Id>, root: Obj, size: int, last: Obj, j: nat,
                            r: Outcome<Obj>)
    requires MinShaped(m0, at0, root0, size0, last0, j0)
  {
    && (e.Other? ==> && r == Returned(Nil) && m == m0 && at == at0 && root == root0 && size == size0
                     && last == last0 && j == j0)
    && (!e.Other? ==>
          var d := EntryNode(e).value;
          var m1 := m0[c := FreshNode(d)];
          && c !in m0
          && (at0 == map[] ==> && r == Returned(Nil) && m == m1 && root == Ref(c) && size == 1
                               && last == last0 && j == j0 && at == (if IsValid(d) then map[1 := c] else map[]))
          && (at0 != map[] ==>
                && size == size0 + 1 && root == root0
                && r == (if placed.Returned? then Returned(Nil) else placed)
                && (PositionedFresh(m0, at0, c, FreshNode(d));
                    InsertedRowWise(m1, at0, last0, j0, c, |at0| + 1, root0, m, at, last, j, placed))))
  }

  /** push(e) on the fields of a minimum heap, as PushedMin says. */
  method PushEntry(store: NodeStore, root: Obj, size: int, last: Obj, e: Entry, ghost at: map<nat, Id>, ghost j: nat)
    returns (r: Outcome<Obj>, root': Obj, size': int, last': Obj, ghost at': map<nat, Id>, ghost j': nat,
             ghost c: Id, ghost placed: Outcome<Obj>, kept: bool)
    requires store.Valid() && MinShaped(store.nodes, at, root, size, last, j)
    modifies store
    ensures store.Valid()
    ensures PushedMin(old(store.nodes), at, root, size, last, j, e, c, placed,
                      store.nodes, at', root', size', last', j', r)
    ensures kept == Followed(old(store.nodes), at, e)
    ensures kept ==> && r == Returned(Nil) && MinShaped(store.nodes, at', root', size', last', j')
                     && Contents(store.nodes, at') == Contents(old(store.nodes), at) + Added(AsUserData(e))
                     && (RootExtreme(MinimumRepair, Payload(old(store.nodes), at)) ==>
                           RootExtreme(MinimumRepair, Payload(store.nodes, at')))
                     && (Complete(at) && SortedTree(Payload(old(store.nodes), at), at, 1) ==>
                           SortedTree(Payload(store.nodes, at'), at', 1))
  {
    ghost var m0 := store.nodes;
    r, root', size', last', at', j', c, placed, kept := PushFields(store, root, size, last, e, at, j);
    if kept {
      FollowedPush(m0, at, root, size, last, j, e, c, placed, store.nodes, at', root', size', last', j', r);
    }
  }

  /** The paths of push(e) on the fields of a minimum heap. */
  method PushFields(store: NodeStore, root: Obj, size: int, last: Obj, e: Entry, ghost at: map<nat, Id>, ghost j: nat)
    returns (r: Outcome<Obj>, root': Obj, size': int, last': Obj, ghost at': map<nat, Id>, ghost j': nat,
             ghost c: Id, ghost placed: Outcome<Obj>, kept: bool)
    requires store.Valid() && MinShaped(store.nodes, at, root, size, last, j)
    modifies store
    ensures store.Valid()
    ensures PushedMin(old(store.nodes), at, root, size, last, j, e, c, placed,
                      store.nodes, at', root', size', last', j', r)
    ensures kept == Followed(old(store.nodes), at, e)
  {
    var v := EntryNode(e);
    if v.None? {
      return Returned(Nil), root, size, last, at, j, 0, Returned(Nil), true;
    }
    ghost var m0 := store.nodes;
    MinRooted(m0, at, root, size, last, j);
    var n := store.NewNode(v.value);
    MinShapedFresh(m0, at, root, size, last, j, n, FreshNode(v.value));
    if !LinkValid(store.nodes, root) && size == 0 {
      at' := if IsValid(v.value) then map[1 := n] else map[];
      r, root', size', last', j', c, placed := Returned(Nil), Ref(n), 1, last, j, n, Returned(Nil);
      PushedOntoEmpty(m0, at, root, size, last, j, e, n, placed, store.nodes, at', root', size', last', j', r);
      return r, root', size', last', at', j', c, placed, IsValid(v.value);
    }
    c := n;
    r, root', size', last', at', j', placed, kept := PushOntoTree(store, root, size, last, e, n, m0, at, j);
  }

  /** The rest of push once the node c for e's record is made, the heap having a tree. */
  method PushOntoTree(store: NodeStore, root: Obj, size: int, last: Obj, e: Entry, c: Id,
                      ghost m0: map<Id, Node>, ghost at: map<nat, Id>, ghost j: nat)
    returns (r: Outcome<Obj>, root': Obj, size': int, last': Obj, ghost at': map<nat, Id>, ghost j': nat,
             ghost placed: Outcome<Obj>, kept: bool)
    requires MinShaped(m0, at, root, size, last, j) && !e.Other? && c !in m0
    requires LinkValid(m0, root) || size != 0
    requires store.Valid() && store.nodes == m0[c := FreshNode(EntryNode(e).value)]
    requires MinShaped(store.nodes, at, root, size, last, j) && c !in at.Values
    modifies store
    ensures store.Valid()
    ensures PushedMin(m0, at, root, size, last, j, e, c, placed, store.nodes, at', root', size', last', j', r)
    ensures at != map[] && kept == Followed(m0, at, e)
  {
    ghost var m1 := store.nodes;
    MinRooted(m1, at, root, size, last, j);
    var answer;
    answer, last', at', j' := InsertRowWise(store, root, size + 1, last, c, at, j);
    placed := answer;
    r := if answer.Returned? then Returned(Nil) else answer;
    root', size' := root, size + 1;
    // the node made for e hangs below a node of the tree
    kept := answer.Returned? && c in store.nodes && LinkValid(store.nodes, store.nodes[c].parent);
    PushedOntoTreeKept(m0, m1, at, root, size, last, j, e, c, placed, store.nodes, at', root', size', last', j', r, kept);
  }

  /** The facts PushOntoTree states once insert_node has run: the push as PushedMin says, and
   *  kept telling whether the model goes on following it. */
  lemma PushedOntoTreeKept(m0: map<Id, Node>, m1: map<Id, Node>, at0: map<nat, Id>, root0: Obj, size0: int, last0: Obj,
                           j0: nat, e: Entry, c: Id, placed: Outcome<Obj>,
                           m: map<Id, Node>, at: map<nat, Id>, root: Obj, size: int, last: Obj, j: nat, r: Outcome<Obj>,
                           kept: bool)
    requires MinShaped(m0, at0, root0, size0, last0, j0) && !e.Other? && c !in m0
    requires LinkValid(m0, root0) || size0 != 0
    requires m1 == m0[c := FreshNode(EntryNode(e).value)] && MinShaped(m1, at0, root0, size0, last0, j0)
    requires at0 != map[] && size0 == |at0|
    requires InsertedRowWise(m1, at0, last0, j0, c, size0 + 1, root0, m, at, last, j, placed)
    requires r == (if placed.Returned? then Returned(Nil) else placed) && root == root0 && size == size0 + 1
    requires kept == (placed.Returned? && c in m && LinkValid(m, m[c].parent))
    ensures PushedMin(m0, at0, root0, size0, last0, j0, e, c, placed, m, at, root, size, last, j, r)
    ensures at0 != map[] && kept == Followed(m0, at0, e)
  {
    MinRooted(m1, at0, root0, size0, last0, j0);
    KeptOnTree(m1, at0, last0, j0, c, root0, m, at, last, j, placed);
    PositionedFresh(m0, at0, c, FreshNode(EntryNode(e).value));
    FollowedOnTree(m0, m1, at0, e, c);
    PushedOntoTree(m0, m1, at0, root0, size0, last0, j0, e, c, placed, m, at, root, size, last, j, r);
  }

  /** A push the model goes on following: anything but an Array or a Hash; or a record whose
   *  value is not nil, onto a heap without a tree, or placed by insert_node in a free slot (rather
   *  than dropped on a full node holding the same record, or stuck). */
  ghost predicate Followed(m0: map<Id, Node>, at: map<nat, Id>, e: Entry)
    requires Positioned(m0, at)
  {
    || e.Other?
    || (&& IsValid(EntryNode(e).value)
        && (at == map[] || (|at| + 1 >= 2 && RowPlacement(Payload(m0, at), at, EntryNode(e).value, |at| + 1).Attach?)))
  }

  /** Followed, once the node for e's record is in the store: the walk sees the same records. */
  lemma FollowedOnTree(m0: map<Id, Node>, m1: map<Id, Node>, at: map<nat, Id>, e: Entry, c: Id)
    requires Positioned(m0, at) && Positioned(m1, at) && Payload(m1, at) == Payload(m0, at) && at != map[]
    requires !e.Other? && c in m1 && m1[c].data == EntryNode(e).value
    ensures Followed(m0, at, e) <==> IsValid(m1[c].data) && RowPlacement(Payload(m1, at), at, m1[c].data, |at| + 1).Attach?
  {
  }

  /** What push can see of a walk the model follows: insert_node returned and the fresh node
   *  hangs below a valid node. A dropped node still has an EmptyNode for parent. */
  lemma KeptOnTree(m1: map<Id, Node>, at0: map<nat, Id>, last0: Obj, j0: nat, c: Id, root0: Obj,
                   m: map<Id, Node>, at: map<nat, Id>, last: Obj, j: nat, placed: Outcome<Obj>)
    requires Positioned(m1, at0) && c in m1 && m1[c] == FreshNode(m1[c].data) && at0 != map[]
    requires InsertedRowWise(m1, at0, last0, j0, c, |at0| + 1, root0, m, at, last, j, placed)
    ensures (placed.Returned? && c in m && LinkValid(m, m[c].parent))
            <==> IsValid(m1[c].data) && RowPlacement(Payload(m1, at0), at0, m1[c].data, |at0| + 1).Attach?
  {
    var w := RowPlacement(Payload(m1, at0), at0, m1[c].data, |at0| + 1);
    if w.Attach? {
      var s := Child(w.parent, w.side);
      assert at == at0[s := c];
      if IsValid(m1[c].data) {
        AttachedFacts(m1, at0, last0, j0, c, |at0| + 1, root0, m, at, last, j, placed, w.parent, w.side, s);
      } else {
        assert placed.Raised?;
      }
    } else if w.Drop? {
      assert m == m1;
    }
  }

  /** The node at a slot below the root hangs below a valid node. */
  lemma HangsBelow(m: map<Id, Node>, at: map<nat, Id>, root: Obj, size: int, last: Obj, j: nat, s: nat, c: Id)
    requires Shaped(m, at, root, size, last, j) && s >= 2 && s in at && at[s] == c
    ensures c in m && LinkValid(m, m[c].parent)
  {
    LinksAt(m, at, s);
  }

  /** A followed push leaves a minimum heap holding what it held and the pushed record, and
   *  keeps the least record at the root. */
  lemma FollowedPush(m0: map<Id, Node>, at0: map<nat, Id>, root0: Obj, size0: int, last0: Obj, j0: nat,
                     e: Entry, c: Id, placed: Outcome<Obj>,
                     m: map<Id, Node>, at: map<nat, Id>, root: Obj, size: int, last: Obj, j: nat,
                     r: Outcome<Obj>)
    requires MinShaped(m0, at0, root0, size0, last0, j0) && Followed(m0, at0, e)
    requires PushedMin(m0, at0, root0, size0, last0, j0, e, c, placed, m, at, root, size, last, j, r)
    ensures r == Returned(Nil) && MinShaped(m, at, root, size, last, j)
    ensures Contents(m, at) == Contents(m0, at0) + Added(AsUserData(e))
    ensures RootExtreme(MinimumRepair, Payload(m0, at0)) ==> RootExtreme(MinimumRepair, Payload(m, at))
    ensures Complete(at0) && SortedTree(Payload(m0, at0), at0, 1) ==> SortedTree(Payload(m, at), at, 1)
  {
    MinRooted(m0, at0, root0, size0, last0, j0);
    if !e.Other? {
      if at0 == map[] {
        PushedOntoEmptyHeap(m0, at0, root0, size0, last0, j0, e, c, placed, m, at, root, size, last, j, r);
      } else {
        FollowedPushOntoTree(m0, at0, root0, size0, last0, j0, e, c, placed, m, at, root, size, last, j, r);
      }
    }
  }

  /** FollowedPush when the heap has a tree. */
  lemma FollowedPushOntoTree(m0: map<Id, Node>, at0: map<nat, Id>, root0: Obj, size0: int, last0: Obj, j0: nat,
                             e: Entry, c: Id, placed: Outcome<Obj>,
                             m: map<Id, Node>, at: map<nat, Id>, root: Obj, size: int, last: Obj, j: nat,
                             r: Outcome<Obj>)
    requires MinShaped(m0, at0, root0, size0, last0, j0) && Followed(m0, at0, e) && !e.Other? && at0 != map[]
    requires PushedMin(m0, at0, root0, size0, last0, j0, e, c, placed, m, at, root, size, last, j, r)
    ensures r == Returned(Nil) && MinShaped(m, at, root, size, last, j)
    ensures Contents(m, at) == Contents(m0, at0) + Added(AsUserData(e))
    ensures RootExtreme(MinimumRepair, Payload(m0, at0)) ==> RootExtreme(MinimumRepair, Payload(m, at))
    ensures Complete(at0) && SortedTree(Payload(m0, at0), at0, 1) ==> SortedTree(Payload(m, at), at, 1)
  {
    MinRooted(m0, at0, root0, size0, last0, j0);
    var m1, d := PushedOntoTreeFacts(m0, at0, root0, size0, last0, j0, e, c, placed, m, at, root, size, last, j, r);
    FollowedOnTree(m0, m1, at0, e, c);
    AttachedOnTree(m1, at0, last0, j0, c, root0, m, at, last, j, placed);
    assert Contents(m1, at0) == Contents(m0, at0);
  }

  /** On a complete tree of distinct records, a valid record the tree lacks is a followed push. */
  lemma CompleteFollowed(m0: map<Id, Node>, at: map<nat, Id>, e: Entry)
    requires Positioned(m0, at) && Complete(at) && Unique(Contents(m0, at))
    requires !e.Other? && IsValid(EntryNode(e).value) && EntryNode(e).value !in Contents(m0, at)
    ensures Followed(m0, at, e)
  {
    if at != map[] {
      var p := Payload(m0, at);
      var d := EntryNode(e).value;
      UniqueDistinct(p);
      forall k | k in p ensures p[k] != d {
        BagOfMember<nat, Data>(p, at.Keys, d);
      }
      RowPlacementComplete(p, at, d);
    }
  }

  /** push onto a heap without a tree. */
  lemma PushedOntoEmpty(m0: map<Id, Node>, at0: map<nat, Id>, root0: Obj, size0: int, last0: Obj, j0: nat,
                        e: Entry, c: Id, placed: Outcome<Obj>,
                        m: map<Id, Node>, at: map<nat, Id>, root: Obj, size: int, last: Obj, j: nat, r: Outcome<Obj>)
    requires MinShaped(m0, at0, root0, size0, last0, j0) && !e.Other?
    requires c !in m0 && m == m0[c := FreshNode(EntryNode(e).value)]
    requires !LinkValid(m, root0) && size0 == 0 && LinkValid(m, root0) == LinkValid(m0, root0)
    requires at == (if IsValid(EntryNode(e).value) then map[1 := c] else map[])
    requires r == Returned(Nil) && root == Ref(c) && size == 1 && last == last0 && j == j0
    ensures PushedMin(m0, at0, root0, size0, last0, j0, e, c, placed, m, at, root, size, last, j, r)
  {
    MinRooted(m0, at0, root0, size0, last0, j0);
  }

  /** push onto a tree, once insert_node has done what InsertedRowWise says. */
  lemma PushedOntoTree(m0: map<Id, Node>, m1: map<Id, Node>, at0: map<nat, Id>, root0: Obj, size0: int, last0: Obj,
                       j0: nat, e: Entry, c: Id, placed: Outcome<Obj>,
                       m: map<Id, Node>, at: map<nat, Id>, root: Obj, size: int, last: Obj, j: nat, r: Outcome<Obj>)
    requires MinShaped(m0, at0, root0, size0, last0, j0) && !e.Other? && c !in m0
    requires LinkValid(m0, root0) || size0 != 0
    requires m1 == m0[c := FreshNode(EntryNode(e).value)] && Positioned(m1, at0) && c in m1 && at0 != map[]
    requires InsertedRowWise(m1, at0, last0, j0, c, |at0| + 1, root0, m, at, last, j, placed)
    requires r == (if placed.Returned? then Returned(Nil) else placed) && root == root0 && size == size0 + 1
    ensures PushedMin(m0, at0, root0, size0, last0, j0, e, c, placed, m, at, root, size, last, j, r)
  {
    MinRooted(m0, at0, root0, size0, last0, j0);
  }

  /** A valid record pushed onto a heap without a tree makes a one-node minimum heap holding it. */
  lemma PushedOntoEmptyHeap(m0: map<Id, Node>, at0: map<nat, Id>, root0: Obj, size0: int, last0: Obj, j0: nat,
                            e: Entry, c: Id, placed: Outcome<Obj>,
                            m: map<Id, Node>, at: map<nat, Id>, root: Obj, size: int, last: Obj, j: nat,
                            r: Outcome<Obj>)
    requires MinShaped(m0, at0, root0, size0, last0, j0) && at0 == map[]
    requires !e.Other? && IsValid(EntryNode(e).value)
    requires PushedMin(m0, at0, root0, size0, last0, j0, e, c, placed, m, at, root, size, last, j, r)
    ensures r == Returned(Nil) && MinShaped(m, at, root, size, last, j) && Complete(at)
    ensures Contents(m, at) == multiset{EntryNode(e).value} && RootExtreme(MinimumRepair, Payload(m, at))
    ensures SortedTree(Payload(m, at), at, 1)
  {
    var d := EntryNode(e).value;
    assert last0 == root0 && Husk(m0, root0);
    assert m == m0[c := FreshNode(d)] && at == map[1 := c] && root == Ref(c) && size == 1 && last == last0;
    LoneRoot(m0, m, c, d, last0, j);
    SingleSorted(Payload(m, at), at);
  }

  /** The node c holding d alone in a tree, beside a last_node that was the husk root before. */
  lemma LoneRoot(m0: map<Id, Node>, m: map<Id, Node>, c: Id, d: Data, last: Obj, j: nat)
    requires c !in m0 && m == m0[c := FreshNode(d)] && IsValid(d) && Husk(m0, last)
    ensures MinShaped(m, map[1 := c], Ref(c), 1, last, j) && Complete(map[1 := c])
    ensures Contents(m, map[1 := c]) == multiset{d} && RootExtreme(MinimumRepair, Payload(m, map[1 := c]))
  {
    PushedOntoHusk(m, c, d, MinimumRepair);
    if last != Sentinel {
      assert m[last.id] == m0[last.id];
      assert LastLeaf(m, map[1 := c], last, j);
    }
  }

  /** What PushedMin says of a push onto a tree, with the store once the node is made. */
  lemma PushedOntoTreeFacts(m0: map<Id, Node>, at0: map<nat, Id>, root0: Obj, size0: int, last0: Obj, j0: nat,
                            e: Entry, c: Id, placed: Outcome<Obj>,
                            m: map<Id, Node>, at: map<nat, Id>, root: Obj, size: int, last: Obj, j: nat,
                            r: Outcome<Obj>)
    returns (m1: map<Id, Node>, d: Data)
    requires Positioned(m0, at0) && MinShaped(m0, at0, root0, size0, last0, j0) && at0 != map[] && !e.Other?
    requires PushedMin(m0, at0, root0, size0, last0, j0, e, c, placed, m, at, root, size, last, j, r)
    ensures d == EntryNode(e).value && c !in m0 && m1 == m0[c := FreshNode(d)] && m1[c].data == d
    ensures Positioned(m1, at0) && Payload(m1, at0) == Payload(m0, at0) && c !in at0.Values
    ensures size == size0 + 1 && size0 == |at0| && root == root0 && r == (if placed.Returned? then Returned(Nil) else placed)
    ensures InsertedRowWise(m1, at0, last0, j0, c, |at0| + 1, root0, m, at, last, j, placed)
  {
    d := EntryNode(e).value;
    m1 := m0[c := FreshNode(d)];
    MinRooted(m0, at0, root0, size0, last0, j0);
    PositionedFresh(m0, at0, c, FreshNode(d));
  }

  /** AttachedFacts for whichever slot the walk picks on a tree. */
  lemma AttachedOnTree(m1: map<Id, Node>, at0: map<nat, Id>, last0: Obj, j0: nat, c: Id, root0: Obj,
                       m: map<Id, Node>, at: map<nat, Id>, last: Obj, j: nat, placed: Outcome<Obj>)
    requires Positioned(m1, at0) && c in m1 && at0 != map[] && IsValid(m1[c].data)
    requires RowPlacement(Payload(m1, at0), at0, m1[c].data, |at0| + 1).Attach?
    requires InsertedRowWise(m1, at0, last0, j0, c, |at0| + 1, root0, m, at, last, j, placed)
    ensures && last == Ref(c) && placed.Returned?
            && Shaped(m, at, root0, |at0| + 1, last, j)
            && Contents(m, at) == Contents(m1, at0) + multiset{m1[c].data}
            && (RootExtreme(MinimumRepair, Payload(m1, at0)) ==> RootExtreme(MinimumRepair, Payload(m, at)))
            && (Complete(at0) && SortedTree(Payload(m1, at0), at0, 1) ==> SortedTree(Payload(m, at), at, 1))
  {
    var w := RowPlacement(Payload(m1, at0), at0, m1[c].data, |at0| + 1);
    var s := Child(w.parent, w.side);
    AttachedFacts(m1, at0, last0, j0, c, |at0| + 1, root0, m, at, last, j, placed, w.parent, w.side, s);
    if Complete(at0) {
      FreeSlotPast(at0, s);
    }
  }

  /** On a complete tree a free slot comes after every occupied one. */
  lemma FreeSlotPast(at: map<nat, Id>, s: nat)
    requires Complete(at) && s >= 1 && s !in at
    ensures forall i :: i in at ==> i < s
  {
  }

  /** What InsertedRowWise says once the walk has attached a record that is not nil below slot
   *  k. */
  lemma AttachedFacts(m1: map<Id, Node>, at0: map<nat, Id>, last0: Obj, j0: nat, c: Id, n: nat, root0: Obj,
                      m: map<Id, Node>, at: map<nat, Id>, last: Obj, j: nat, placed: Outcome<Obj>,
                      k: nat, dir: Dir, s: nat)
    requires Positioned(m1, at0) && c in m1 && n >= 2 && IsValid(m1[c].data)
    requires RowPlacement(Payload(m1, at0), at0, m1[c].data, n) == Attach(k, dir) && Child(k, dir) == s
    requires InsertedRowWise(m1, at0, last0, j0, c, n, root0, m, at, last, j, placed)
    ensures && at == at0[s := c] && last == Ref(c) && j == s && placed.Returned?
            && Shaped(m, at, root0, |at0| + 1, last, j)
            && Contents(m, at) == Contents(m1, at0) + multiset{m1[c].data}
            && (RootExtreme(MinimumRepair, Payload(m1, at0)) ==> RootExtreme(MinimumRepair, Payload(m, at)))
            && ((forall i :: i in at0 ==> i < s) && SortedTree(Payload(m1, at0), at0, 1) ==> SortedTree(Payload(m, at), at, 1))
    ensures c in m && LinkValid(m, m[c].parent)
  {
    HangsBelow(m, at, root0, |at0| + 1, last, j, s, c);
  }

  /** A record pushed onto a complete tree of distinct records, none of them its own and its
   *  value not nil, goes to the next slot: the tree stays complete and shaped, holds the new
   *  record once more, still holds each record once, and keeps the least record at the root. */
  lemma PushedOntoCompleteTree(m0: map<Id, Node>, at0: map<nat, Id>, root0: Obj, size0: int, last0: Obj, j0: nat,
                               e: Entry, c: Id, placed: Outcome<Obj>,
                               m: map<Id, Node>, at: map<nat, Id>, root: Obj, size: int, last: Obj, j: nat,
                               r: Outcome<Obj>)
    requires MinShaped(m0, at0, root0, size0, last0, j0) && at0 != map[] && Complete(at0)
    requires Unique(Contents(m0, at0)) && !e.Other? && IsValid(EntryNode(e).value)
    requires EntryNode(e).value !in Contents(m0, at0)
    requires PushedMin(m0, at0, root0, size0, last0, j0, e, c, placed, m, at, root, size, last, j, r)
    ensures r == Returned(Nil) && at == at0[|at0| + 1 := c] && Complete(at) && size == size0 + 1
    ensures MinShaped(m, at, root, size, last, j) && InNodes(m, at)
    ensures Contents(m, at) == Contents(m0, at0) + multiset{EntryNode(e).value} && Unique(Contents(m, at))
    ensures RootExtreme(MinimumRepair, Payload(m0, at0)) ==> RootExtreme(MinimumRepair, Payload(m, at))
  {
    MinRooted(m0, at0, root0, size0, last0, j0);
    var m1, d := PushedOntoTreeFacts(m0, at0, root0, size0, last0, j0, e, c, placed, m, at, root, size, last, j, r);
    assert Contents(m1, at0) == Contents(m0, at0);
    AttachedNext(m1, at0, last0, j0, c, root0, m, at, last, j, placed);
  }

  /** insert_node on a complete tree of distinct records with a record none of them holds and
   *  whose value is not nil: the node goes to slot |at0| + 1 and the sift-up returns. */
  lemma AttachedNext(m1: map<Id, Node>, at0: map<nat, Id>, last0: Obj, j0: nat, c: Id, root0: Obj,
                     m: map<Id, Node>, at: map<nat, Id>, last: Obj, j: nat, placed: Outcome<Obj>)
    requires Positioned(m1, at0) && c in m1 && c !in at0.Values && at0 != map[] && Complete(at0)
    requires IsValid(m1[c].data) && Unique(Contents(m1, at0)) && m1[c].data !in Contents(m1, at0)
    requires InsertedRowWise(m1, at0, last0, j0, c, |at0| + 1, root0, m, at, last, j, placed)
    ensures placed.Returned? && at == at0[|at0| + 1 := c] && Complete(at) && last == Ref(c) && j == |at0| + 1
    ensures Shaped(m, at, root0, |at0| + 1, last, j)
    ensures Contents(m, at) == Contents(m1, at0) + multiset{m1[c].data} && Unique(Contents(m, at))
    ensures RootExtreme(MinimumRepair, Payload(m1, at0)) ==> RootExtreme(MinimumRepair, Payload(m, at))
  {
    var d := m1[c].data;
    var p := Payload(m1, at0);
    UniqueDistinct(p);
    forall k | k in p ensures p[k] != d {
      BagOfMember<nat, Data>(p, at0.Keys, d);
    }
    RowPlacementComplete(p, at0, d);
    var n := |at0| + 1;
    AttachedFacts(m1, at0, last0, j0, c, n, root0, m, at, last, j, placed, n / 2, SideOf(n), n);
    CompletePlacement(at0, c);
    UniqueAdd(Contents(m1, at0), d);
  }

  /** A record a bag of single records lacks can be added once. */
  lemma UniqueAdd(b: multiset<Data>, d: Data)
    requires Unique(b) && d !in b
    ensures Unique(b + multiset{d})
  {
    forall x ensures (b + multiset{d})[x] <= 1 {
      assert (b + multiset{d})[x] == b[x] + multiset{d}[x];
    }
  }

  /** A push whose walk meets a full node holding the new record answers nil and counts one
   *  more node, but links none: size then exceeds the nodes of the tree by one. (Node#== in
   *  row_wise_insert compares records, not identity.) */
  lemma PushedOntoEqual(m0: map<Id, Node>, at0: map<nat, Id>, root0: Obj, size0: int, last0: Obj, j0: nat,
                        e: Entry, c: Id, placed: Outcome<Obj>,
                        m: map<Id, Node>, at: map<nat, Id>, root: Obj, size: int, last: Obj, j: nat,
                        r: Outcome<Obj>)
    requires Positioned(m0, at0) && MinShaped(m0, at0, root0, size0, last0, j0) && at0 != map[] && !e.Other?
    requires RowPlacement(Payload(m0, at0), at0, EntryNode(e).value, |at0| + 1).Drop?
    requires PushedMin(m0, at0, root0, size0, last0, j0, e, c, placed, m, at, root, size, last, j, r)
    ensures EntryNode(e).value in Contents(m0, at0)
    ensures r == Returned(Nil) && at == at0 && size == |at| + 1 && InNodes(m, at) && Contents(m, at) == Contents(m0, at0)
  {
    var m1, d := PushedOntoTreeFacts(m0, at0, root0, size0, last0, j0, e, c, placed, m, at, root, size, last, j, r);
    var p := Payload(m0, at0);
    var w := RowPlacement(p, at0, d, |at0| + 1);
    assert InsertedRowWise(m1, at0, last0, j0, c, |at0| + 1, root0, m, at, last, j, placed);
    assert m == m1 && at == at0 && placed == Returned(Ref(c));
    assert Contents(m1, at0) == Contents(m0, at0);
    BagOfMember<nat, Data>(p, at0.Keys, d);
    assert w.slot in at0 && p[w.slot] == d;
  }

  // ---------------------------------------------------------------------------------------------
  // pop, delete!, replace!

  /** The two forms of a minimum heap's fields told apart by what the code can see: the one-node
   *  tree whose last_node is an EmptyNode is the one with a valid root and an EmptyNode for
   *  last_node; every other form is HeapBase's. */
  lemma MinCases(nodes: map<Id, Node>, at: map<nat, Id>, root: Obj, size: int, last: Obj, j: nat)
    requires MinShaped(nodes, at, root, size, last, j)
    ensures LoneWithEmptyLast(nodes, at, root, size, last) <==> LinkValid(nodes, root) && last == Sentinel
    ensures !LoneWithEmptyLast(nodes, at, root, size, last) ==> Shaped(nodes, at, root, size, last, j)
  {
    MinRooted(nodes, at, root, size, last, j);
  }

  /** What remove does to a minimum heap for pop, and for delete! of the node at slot k: a heap
   *  without a tree answers its root untouched; on the one-node tree whose last_node is an
   *  EmptyNode `swap_contents(last_node)` asks an EmptyNode for its data and raises
   *  NoMethodError, changing nothing; otherwise remove goes as it does for HeapBase. */
  ghost predicate RemovedMin(m0: map<Id, Node>, at0: map<nat, Id>, root: Obj, size0: int, last0: Obj, j0: nat, k: nat,
                             m: map<Id, Node>, r: Outcome<Removed>, size: int, last: Obj, at: map<nat, Id>, j: nat)
    requires MinShaped(m0, at0, root, size0, last0, j0)
  {
    var same := m == m0 && size == size0 && last == last0 && at == at0 && j == j0;
    && (at0 == map[] ==> r == Returned(Untouched(root)) && same)
    && (LoneWithEmptyLast(m0, at0, root, size0, last0) ==> r == Raised(NoMethodError) && same)
    && (at0 != map[] && !LoneWithEmptyLast(m0, at0, root, size0, last0) ==>
          && k in at0 && Shaped(m0, at0, root, size0, last0, j0)
          && RemovedFrom(m0, m, at0, root, size0, last0, j0, k, r, size, last, at, j))
  }

  /** remove(node) on a minimum heap, the node x being at slot k of the tree (the root when there
   *  is none), as RemovedMin says. */
  method RemoveMin(store: NodeStore, root: Obj, size: int, last: Obj, x: Obj, ghost at: map<nat, Id>, ghost j: nat,
                   ghost k: nat)
    returns (r: Outcome<Removed>, size': int, last': Obj, ghost at': map<nat, Id>, ghost j': nat)
    requires store.Valid() && MinShaped(store.nodes, at, root, size, last, j)
    requires at == map[] ==> x == root
    requires at != map[] ==> k in at && x == Ref(at[k])
    modifies store
    ensures store.Valid()
    ensures RemovedMin(old(store.nodes), at, root, size, last, j, k, store.nodes, r, size', last', at', j')
    ensures r.Returned? ==> MinShaped(store.nodes, at', root, size', last', j')
    ensures r.Returned? && at != map[] ==>
              && 1 in at && k in at && r.value == Record(Payload(old(store.nodes), at)[k]) && size' == size - 1
              && Contents(store.nodes, at') + multiset{Payload(old(store.nodes), at)[k]} == Contents(old(store.nodes), at)
  {
    MinCases(store.nodes, at, root, size, last, j);
    MinRooted(store.nodes, at, root, size, last, j);
    if LinkValid(store.nodes, root) && last == Sentinel {
      // node.swap_contents(last_node): an EmptyNode has no data
      return Raised(NoMethodError), size, last, at, j;
    }
    ghost var m0 := store.nodes;
    r, size', last', at', j' := RemoveNode(store, root, size, last, x, at, j, k);
    assert RemovedMin(m0, at, root, size, last, j, k, store.nodes, r, size', last', at', j');
    if r.Returned? {
      RemovedMinShaped(m0, at, root, size, last, j, k, store.nodes, r, size', last', at', j');
    }
  }

  /** A remove that returns leaves a minimum heap: when the last node goes, size is 0 again. */
  lemma RemovedMinShaped(m0: map<Id, Node>, at0: map<nat, Id>, root: Obj, size0: int, last0: Obj, j0: nat, k: nat,
                         m: map<Id, Node>, r: Outcome<Removed>, size: int, last: Obj, at: map<nat, Id>, j: nat)
    requires MinShaped(m0, at0, root, size0, last0, j0)
    requires RemovedMin(m0, at0, root, size0, last0, j0, k, m, r, size, last, at, j) && r.Returned?
    ensures MinShaped(m, at, root, size, last, j)
    ensures at0 != map[] ==> && 1 in at0 && k in at0 && r.value == Record(Payload(m0, at0)[k]) && size == size0 - 1
                             && Contents(m, at) + multiset{Payload(m0, at0)[k]} == Contents(m0, at0)
  {
    MinRooted(m0, at0, root, size0, last0, j0);
    if at0 != map[] && at == map[] {
      if LastInTree(at0, last0, j0) {
        assert at == at0 - {j0};
        assert |at0 - {j0}| == |at0| - 1;
      } else {
        assert at0.Keys == {1};
        assert |at0| == |at0.Keys|;
      }
    }
  }

  /** pop on a minimum heap whose root is its least record answers a record no other record of
   *  the heap is below. */
  lemma PoppedLeast(m0: map<Id, Node>, at0: map<nat, Id>, root: Obj, size0: int, last0: Obj, j0: nat,
                    m: map<Id, Node>, r: Outcome<Removed>, size: int, last: Obj, at: map<nat, Id>, j: nat)
    requires MinShaped(m0, at0, root, size0, last0, j0) && at0 != map[]
    requires RemovedMin(m0, at0, root, size0, last0, j0, 1, m, r, size, last, at, j) && r.Returned?
    requires RootExtreme(MinimumRepair, Payload(m0, at0))
    ensures r.value.Record? && r.value.data == Payload(m0, at0)[1]
    ensures forall d :: d in Contents(m, at) ==> Rank(MinimumRepair, d) <= Rank(MinimumRepair, r.value.data)
  {
    MinRooted(m0, at0, root, size0, last0, j0);
    PoppedExtreme(m0, m, at0, root, size0, last0, j0, MinimumRepair, r, size, last, at, j);
  }

  /** What delete!(e) does to a minimum heap: anything but an Array or a Hash answers nil; on the
   *  one-node tree whose last_node is an EmptyNode it raises NoMethodError either way (include?
   *  answers false for another record, and remove of the root asks the EmptyNode for its data);
   *  otherwise it goes as HeapBase's delete!. */
  ghost predicate DeletedMin(m0: map<Id, Node>, at0: map<nat, Id>, root: Obj, size0: int, last0: Obj, j0: nat, e: Entry,
                             m: map<Id, Node>, at: map<nat, Id>, size: int, last: Obj, j: nat, r: Outcome<Removed>)
    requires MinShaped(m0, at0, root, size0, last0, j0)
  {
    var same := m == m0 && size == size0 && last == last0 && at == at0 && j == j0;
    && (e.Other? ==> r == Returned(Untouched(Nil)) && same)
    && (LoneWithEmptyLast(m0, at0, root, size0, last0) && !e.Other? ==> r == Raised(NoMethodError) && same)
    && (!LoneWithEmptyLast(m0, at0, root, size0, last0) ==>
          Shaped(m0, at0, root, size0, last0, j0) && DeletedFrom(m0, at0, root, size0, last0, j0, AsUserData(e), m, at, size, last, j, r))
  }

  /** delete!(e) on the fields of a minimum heap, as DeletedMin says. */
  method DeleteEntry(store: NodeStore, root: Obj, size: int, last: Obj, e: Entry, ghost at: map<nat, Id>, ghost j: nat)
    returns (r: Outcome<Removed>, size': int, last': Obj, ghost at': map<nat, Id>, ghost j': nat)
    requires store.Valid() && MinShaped(store.nodes, at, root, size, last, j)
    modifies store
    ensures store.Valid()
    ensures DeletedMin(old(store.nodes), at, root, size, last, j, e, store.nodes, at', size', last', j', r)
    ensures at != map[] && !e.Other? && r.Returned? ==>
              && MinShaped(store.nodes, at', root, size', last', j') && size' == size - 1
              && r.value == Record(EntryNode(e).value)
              && Contents(store.nodes, at') + multiset{EntryNode(e).value} == Contents(old(store.nodes), at)
  {
    MinCases(store.nodes, at, root, size, last, j);
    if e.Other? {
      return Returned(Untouched(Nil)), size, last, at, j;
    }
    if LinkValid(store.nodes, root) && last == Sentinel {
      return Raised(NoMethodError), size, last, at, j;
    }
    ghost var m0 := store.nodes;
    r, size', last', at', j' := DeleteNode(store, root, size, last, AsUserData(e), at, j);
    assert DeletedMin(m0, at, root, size, last, j, e, store.nodes, at', size', last', j', r);
    if at != map[] && r.Returned? {
      DeletedMinShaped(m0, at, root, size, last, j, e, store.nodes, at', size', last', j', r);
    }
  }

  /** delete! on a minimum heap removes one copy of a record it holds and answers it, leaving a
   *  minimum heap. */
  lemma DeletedMinShaped(m0: map<Id, Node>, at0: map<nat, Id>, root: Obj, size0: int, last0: Obj, j0: nat, e: Entry,
                         m: map<Id, Node>, at: map<nat, Id>, size: int, last: Obj, j: nat, r: Outcome<Removed>)
    requires MinShaped(m0, at0, root, size0, last0, j0) && at0 != map[] && !e.Other?
    requires DeletedMin(m0, at0, root, size0, last0, j0, e, m, at, size, last, j, r) && r.Returned?
    ensures EntryNode(e).value in Contents(m0, at0) && r.value == Record(EntryNode(e).value) && size == size0 - 1
    ensures Contents(m, at) + multiset{EntryNode(e).value} == Contents(m0, at0)
    ensures MinShaped(m, at, root, size, last, j)
  {
    var u := AsUserData(e);
    var q := ValidNode(u).value;
    LocateInTree(m0, at0, root, q);
    if q !in Contents(m0, at0) {
      LocateRaises(m0, at0, root, q);
    }
    DeletedRecord(m0, at0, root, size0, last0, j0, u, m, at, size, last, j, r);
    if at == map[] {
      var k := FoundSlot(m0, at0, q);
      assert RemovedFrom(m0, m, at0, root, size0, last0, j0, k, r, size, last, at, j);
      if LastInTree(at0, last0, j0) {
        assert at == at0 - {j0};
        assert |at0 - {j0}| == |at0| - 1;
      } else {
        assert at0.Keys == {1};
        assert |at0| == |at0.Keys|;
      }
    }
  }

  /** The one-node tree whose last_node is an EmptyNode is shaped as HeapBase's once the root is
   *  taken for last_node. */
  lemma LoneAsShaped(nodes: map<Id, Node>, at: map<nat, Id>, root: Obj, size: int, last: Obj)
    requires LoneWithEmptyLast(nodes, at, root, size, last)
    ensures Shaped(nodes, at, root, size, root, 1)
  {
    assert at.Keys == {1};
    assert |at| == |at.Keys|;
    assert 2 !in at && 3 !in at;
  }

  /** The last_node and its slot remove(@root, node) may take on a minimum heap: on the one-node
   *  tree whose last_node is an EmptyNode, the root (remove with a replacement never reads
   *  last_node, and sets it to the root when size is 1). */
  function ReplaceBase(root: Obj, last: Obj): (b: Obj)
    ensures last != Sentinel ==> b == last
  {
    if last == Sentinel then root else last
  }

  /** What replace!(e) does to a minimum heap: as HeapBase's replace!, the one-node tree whose
   *  last_node is an EmptyNode being taken with the root for last_node. */
  ghost predicate ReplacedMin(m0: map<Id, Node>, at0: map<nat, Id>, root: Obj, size: int, last0: Obj, j0: nat, e: Entry,
                              c: Id, m: map<Id, Node>, at: map<nat, Id>, last: Obj, j: nat, r: Outcome<Removed>)
    requires MinShaped(m0, at0, root, size, last0, j0)
  {
    && (e.Other? ==> r == Returned(Untouched(Nil)) && m == m0 && at == at0 && last == last0 && j == j0)
    && (!e.Other? ==>
          var j1 := if LoneWithEmptyLast(m0, at0, root, size, last0) then 1 else j0;
          && Shaped(m0, at0, root, size, ReplaceBase(root, last0), j1)
          && ReplacedWith(m0, at0, root, size, ReplaceBase(root, last0), j1, AsUserData(e), c, m, at, last, j, r))
  }

  /** replace!(e) on the fields of a minimum heap, as ReplacedMin says; c is the node made for e. */
  method ReplaceEntry(store: NodeStore, root: Obj, size: int, last: Obj, e: Entry, ghost at: map<nat, Id>, ghost j: nat)
    returns (r: Outcome<Removed>, last': Obj, ghost at': map<nat, Id>, ghost j': nat, ghost c: Id)
    requires store.Valid() && MinShaped(store.nodes, at, root, size, last, j)
    modifies store
    ensures store.Valid()
    ensures ReplacedMin(old(store.nodes), at, root, size, last, j, e, c, store.nodes, at', last', j', r)
    ensures !e.Other? && r.Returned? && at != map[] ==>
              && 1 in at && r.value == Record(Payload(old(store.nodes), at)[1])
              && (IsValid(EntryNode(e).value) ==>
                    && MinShaped(store.nodes, at', root, size, last', j')
                    && Contents(store.nodes, at') + multiset{r.value.data} == Contents(old(store.nodes), at) + multiset{EntryNode(e).value})
  {
    ghost var m0 := store.nodes;
    r, last', at', j', c := ReplaceFields(store, root, size, last, e, at, j);
    if !e.Other? && r.Returned? {
      ReplacedMinShaped(m0, at, root, size, last, j, e, c, store.nodes, at', last', j', r);
    }
  }

  /** The paths of replace!(e) on the fields of a minimum heap. */
  method ReplaceFields(store: NodeStore, root: Obj, size: int, last: Obj, e: Entry, ghost at: map<nat, Id>, ghost j: nat)
    returns (r: Outcome<Removed>, last': Obj, ghost at': map<nat, Id>, ghost j': nat, ghost c: Id)
    requires store.Valid() && MinShaped(store.nodes, at, root, size, last, j)
    modifies store
    ensures store.Valid()
    ensures ReplacedMin(old(store.nodes), at, root, size, last, j, e, c, store.nodes, at', last', j', r)
  {
    c := 0;
    if e.Other? {
      return Returned(Untouched(Nil)), last, at, j, c;
    }
    MinCases(store.nodes, at, root, size, last, j);
    ghost var j1 := j;
    if LoneWithEmptyLast(store.nodes, at, root, size, last) {
      LoneAsShaped(store.nodes, at, root, size, last);
      j1 := 1;
    }
    r, last', at', j', c := ReplaceRoot(store, root, size, ReplaceBase(root, last), AsUserData(e), at, j1);
  }

  /** replace! on a minimum heap with a tree answers the root's record and leaves e's record in
   *  its place; a valid e leaves a minimum heap. Without a tree the root comes back untouched. */
  lemma ReplacedMinShaped(m0: map<Id, Node>, at0: map<nat, Id>, root: Obj, size: int, last0: Obj, j0: nat, e: Entry,
                          c: Id, m: map<Id, Node>, at: map<nat, Id>, last: Obj, j: nat, r: Outcome<Removed>)
    requires MinShaped(m0, at0, root, size, last0, j0) && !e.Other?
    requires ReplacedMin(m0, at0, root, size, last0, j0, e, c, m, at, last, j, r) && r.Returned?
    ensures at0 == map[] ==> r == Returned(Untouched(root)) && MinShaped(m, at, root, size, last, j)
    ensures at0 != map[] ==> && 1 in at0 && r.value == Record(Payload(m0, at0)[1])
                             && Contents(m, at) + multiset{Payload(m0, at0)[1]} == Contents(m0, at0) + Added(AsUserData(e))
    ensures at0 != map[] && EntryNode(e).value.value.Some? ==> MinShaped(m, at, root, size, last, j)
  {
    var j1 := if LoneWithEmptyLast(m0, at0, root, size, last0) then 1 else j0;
    var d := EntryNode(e).value;
    if at0 == map[] {
      MinRooted(m0, at0, root, size, last0, j0);
      ShapedFresh(m0, at0, root, size, last0, j0, c, FreshNode(d));
    } else {
      ReplacedRecords(m0, at0, root, size, ReplaceBase(root, last0), j1, AsUserData(e), c, m, at, last, j, r);
      if d.value.Some? {
        PositionedFresh(m0, at0, c, FreshNode(d));
        assert at == at0;
      }
    }
  }

  /** peek on a minimum heap with a tree answers the root's record, and no record is below it when
   *  the root is least. */
  lemma PeekedLeast(m: map<Id, Node>, at: map<nat, Id>, root: Obj, size: int, last: Obj, j: nat)
    requires MinShaped(m, at, root, size, last, j)
    ensures Rooted(m, at, root) && (at != map[] <==> LinkValid(m, root)) && (at == map[] ==> size == 0)
    ensures at != map[] ==> 1 in at && root == Ref(at[1]) && size == |at|
    ensures at != map[] && RootExtreme(MinimumRepair, Payload(m, at)) ==>
              forall d :: d in Contents(m, at) ==> Rank(MinimumRepair, d) <= Rank(MinimumRepair, m[at[1]].data)
  {
    MinRooted(m, at, root, size, last, j);
    if at != map[] && RootExtreme(MinimumRepair, Payload(m, at)) {
      PeekedExtreme(m, at, MinimumRepair);
    }
  }

  // ---------------------------------------------------------------------------------------------
  // A run of pushes

  /** The fields of a minimum heap holding the records base and those the pushes us add; with
   *  ext the least record at the root, with comp a complete tree whose records are distinct, with
   *  ord a complete tree that is sorted. */
  ghost predicate GrownMin(m: map<Id, Node>, at: map<nat, Id>, root: Obj, size: int, last: Obj, j: nat,
                           base: multiset<Data>, us: seq<UserData>, ext: bool, comp: bool, ord: bool)
  {
    && MinShaped(m, at, root, size, last, j)
    && Contents(m, at) == base + AddedAll(us)
    && (ext ==> RootExtreme(MinimumRepair, Payload(m, at)))
    && (comp ==> Complete(at) && Unique(Contents(m, at)))
    && (ord ==> comp && SortedTree(Payload(m, at), at, 1))
  }

  /** One push of a run on fields GrownMin from the pushes before it; kept says the model goes on
   *  following the heap. On a complete tree, a valid record it lacks is always followed. */
  method PushGrownMin(store: NodeStore, root: Obj, size: int, last: Obj, e: Entry, ghost at: map<nat, Id>, ghost j: nat,
                      ghost base: multiset<Data>, ghost us: seq<UserData>, ghost grown: seq<UserData>,
                      ghost ext: bool, ghost comp: bool, ghost ord: bool)
    returns (r: Outcome<Obj>, root': Obj, size': int, last': Obj, ghost at': map<nat, Id>, ghost j': nat, kept: bool)
    requires store.Valid() && GrownMin(store.nodes, at, root, size, last, j, base, us, ext, comp, ord)
    requires grown == us + [AsUserData(e)]
    requires comp ==> !e.Other? && IsValid(EntryNode(e).value) && EntryNode(e).value !in base + AddedAll(us)
    modifies store
    ensures store.Valid()
    ensures kept ==> r == Returned(Nil) && GrownMin(store.nodes, at', root', size', last', j', base, grown, ext, comp, ord)
    ensures comp ==> kept
  {
    ghost var m0 := store.nodes;
    MinRooted(m0, at, root, size, last, j);
    if comp {
      CompleteFollowed(m0, at, e);
    }
    ghost var c, placed;
    r, root', size', last', at', j', c, placed, kept := PushEntry(store, root, size, last, e, at, j);
    if kept {
      if comp {
        PushedOntoCompleteHeap(m0, at, root, size, last, j, e, c, placed, store.nodes, at', root', size', last', j', r);
        UniqueAdd(Contents(m0, at), EntryNode(e).value);
      }
      GrownMinStep(store.nodes, at', root', size', last', j', base, us, AsUserData(e), ext, comp, ord);
    }
  }

  /** GrownMin for a run one push longer. */
  lemma GrownMinStep(m: map<Id, Node>, at: map<nat, Id>, root: Obj, size: int, last: Obj, j: nat,
                     base: multiset<Data>, us: seq<UserData>, u: UserData, ext: bool, comp: bool, ord: bool)
    requires MinShaped(m, at, root, size, last, j) && Contents(m, at) == base + AddedAll(us) + Added(u)
    requires ext ==> RootExtreme(MinimumRepair, Payload(m, at))
    requires comp ==> Complete(at) && Unique(Contents(m, at))
    requires ord ==> comp && SortedTree(Payload(m, at), at, 1)
    ensures GrownMin(m, at, root, size, last, j, base, us + [u], ext, comp, ord)
  {
    assert (us + [u])[..|us|] == us;
  }

  /** A push onto a complete tree of distinct records, of a valid record it lacks, leaves a
   *  complete tree. */
  lemma PushedOntoCompleteHeap(m0: map<Id, Node>, at0: map<nat, Id>, root0: Obj, size0: int, last0: Obj, j0: nat,
                               e: Entry, c: Id, placed: Outcome<Obj>,
                               m: map<Id, Node>, at: map<nat, Id>, root: Obj, size: int, last: Obj, j: nat,
                               r: Outcome<Obj>)
    requires MinShaped(m0, at0, root0, size0, last0, j0) && Complete(at0) && Unique(Contents(m0, at0))
    requires !e.Other? && IsValid(EntryNode(e).value) && EntryNode(e).value !in Contents(m0, at0)
    requires PushedMin(m0, at0, root0, size0, last0, j0, e, c, placed, m, at, root, size, last, j, r)
    ensures Complete(at)
  {
    if at0 == map[] {
      assert at == map[1 := c];
    } else {
      PushedOntoCompleteTree(m0, at0, root0, size0, last0, j0, e, c, placed, m, at, root, size, last, j, r);
    }
  }

  /** The push of es[i] in a run whose first i pushes were followed. */
  method PushRunStep(store: NodeStore, root: Obj, size: int, last: Obj, es: seq<Entry>, i: nat, ghost at: map<nat, Id>,
                     ghost j: nat, ghost base: multiset<Data>, ghost us: seq<UserData>, ghost ext: bool, ghost comp: bool,
                     ghost ord: bool)
    returns (r: Outcome<Obj>, root': Obj, size': int, last': Obj, ghost at': map<nat, Id>, ghost j': nat, kept: bool,
             i': nat)
    requires us == AsUserDatas(es) && i < |es|
    requires store.Valid() && GrownMin(store.nodes, at, root, size, last, j, base, us[..i], ext, comp, ord)
    requires comp ==> AllNew(us) && forall k :: 0 <= k < |us| ==> ValidNode(us[k]).value !in base
    modifies store
    ensures store.Valid()
    ensures i' == i + 1
    ensures kept ==> r == Returned(Nil) && GrownMin(store.nodes, at', root', size', last', j', base, us[..i'], ext, comp, ord)
    ensures comp ==> kept
  {
    i' := i + 1;
    if comp {
      NotYetAdded(us, i, base);
    }
    PrefixStep(us, i);
    r, root', size', last', at', j', kept := PushGrownMin(store, root, size, last, es[i], at, j, base, us[..i], us[..i + 1], ext, comp, ord);
  }

  /** The pushes of es one after another on the fields of a minimum heap, stopping at the first
   *  that raises (initialize raises with it) or that leaves a heap the model does not follow;
   *  followed counts the pushes followed. Onto a complete tree of distinct records, distinct
   *  valid records it lacks are all followed and keep it so. */
  method PushRun(store: NodeStore, root: Obj, size: int, last: Obj, es: seq<Entry>, ghost at: map<nat, Id>, ghost j: nat)
    returns (r: Outcome<Obj>, root': Obj, size': int, last': Obj, ghost at': map<nat, Id>, ghost j': nat,
             ghost followed: nat)
    requires store.Valid() && MinShaped(store.nodes, at, root, size, last, j)
    modifies store
    ensures store.Valid() && followed <= |es|
    ensures followed == |es| ==>
              && r == Returned(Nil) && MinShaped(store.nodes, at', root', size', last', j') && InNodes(store.nodes, at')
              && Contents(store.nodes, at') == Contents(old(store.nodes), at) + AddedAll(AsUserDatas(es))
              && (RootExtreme(MinimumRepair, Payload(old(store.nodes), at)) ==> RootExtreme(MinimumRepair, Payload(store.nodes, at')))
    ensures && Complete(at) && Unique(Contents(old(store.nodes), at)) && AllNew(AsUserDatas(es))
            && (forall k :: 0 <= k < |es| ==> EntryNode(es[k]).value !in Contents(old(store.nodes), at))
            ==> && followed == |es| && InNodes(store.nodes, at') && Complete(at') && Unique(Contents(store.nodes, at'))
                && (SortedTree(Payload(old(store.nodes), at), at, 1) ==> SortedTree(Payload(store.nodes, at'), at', 1))
  {
    ghost var m0 := store.nodes;
    StartedRun(m0, at, root, size, last, j, es);
    ghost var base, us, ext, comp := Contents(m0, at), AsUserDatas(es), RootExtreme(MinimumRepair, Payload(m0, at)), FreshRun(m0, at, es);
    ghost var ord := comp && SortedTree(Payload(m0, at), at, 1);
    r, root', size', last', at', j', followed := PushGrownRun(store, root, size, last, es, at, j, base, us, ext, comp, ord);
    FinishedRun(m0, at, es, store.nodes, at', root', size', last', j', r, followed);
  }

  /** The case of PushRun where every push is followed: a complete tree of distinct records, and
   *  distinct valid records none of which it holds. */
  ghost predicate FreshRun(m: map<Id, Node>, at: map<nat, Id>, es: seq<Entry>)
  {
    && Positioned(m, at) && Complete(at) && Unique(Contents(m, at)) && AllNew(AsUserDatas(es))
    && forall k :: 0 <= k < |es| ==> EntryNode(es[k]).value !in Contents(m, at)
  }

  /** A minimum heap is GrownMin from none of the pushes of a run. */
  lemma StartedRun(m: map<Id, Node>, at: map<nat, Id>, root: Obj, size: int, last: Obj, j: nat, es: seq<Entry>)
    requires MinShaped(m, at, root, size, last, j)
    ensures GrownMin(m, at, root, size, last, j, Contents(m, at), [], RootExtreme(MinimumRepair, Payload(m, at)),
                     FreshRun(m, at, es), FreshRun(m, at, es) && SortedTree(Payload(m, at), at, 1))
    ensures FreshRun(m, at, es) ==>
              && AllNew(AsUserDatas(es))
              && forall k :: 0 <= k < |AsUserDatas(es)| ==> ValidNode(AsUserDatas(es)[k]).value !in Contents(m, at)
  {
    MinRooted(m, at, root, size, last, j);
    var us := AsUserDatas(es);
    if FreshRun(m, at, es) {
      forall k | 0 <= k < |us| ensures ValidNode(us[k]).value !in Contents(m, at) {
        assert ValidNode(us[k]) == EntryNode(es[k]);
      }
    }
  }

  /** What a run GrownMin from m0 and at0 states about the heap it leaves. */
  lemma FinishedRun(m0: map<Id, Node>, at0: map<nat, Id>, es: seq<Entry>, m: map<Id, Node>, at: map<nat, Id>,
                    root: Obj, size: int, last: Obj, j: nat, r: Outcome<Obj>, followed: nat)
    requires Positioned(m0, at0)
    requires followed == |es| ==>
               r == Returned(Nil)
               && GrownMin(m, at, root, size, last, j, Contents(m0, at0), AsUserDatas(es),
                           RootExtreme(MinimumRepair, Payload(m0, at0)), FreshRun(m0, at0, es),
                           FreshRun(m0, at0, es) && SortedTree(Payload(m0, at0), at0, 1))
    requires FreshRun(m0, at0, es) ==> followed == |es|
    ensures followed == |es| ==>
              && r == Returned(Nil) && MinShaped(m, at, root, size, last, j) && InNodes(m, at)
              && Contents(m, at) == Contents(m0, at0) + AddedAll(AsUserDatas(es))
              && (RootExtreme(MinimumRepair, Payload(m0, at0)) ==> RootExtreme(MinimumRepair, Payload(m, at)))
    ensures && Complete(at0) && Unique(Contents(m0, at0)) && AllNew(AsUserDatas(es))
            && (forall k :: 0 <= k < |es| ==> EntryNode(es[k]).value !in Contents(m0, at0))
            ==> && followed == |es| && InNodes(m, at) && Complete(at) && Unique(Contents(m, at))
                && (SortedTree(Payload(m0, at0), at0, 1) ==> SortedTree(Payload(m, at), at, 1))
  {
    if followed == |es| {
      MinRooted(m, at, root, size, last, j);
    }
  }

  /** The loop of PushRun: pushes es in order on fields GrownMin from none of them. */
  method PushGrownRun(store: NodeStore, root: Obj, size: int, last: Obj, es: seq<Entry>, ghost at: map<nat, Id>, ghost j: nat,
                      ghost base: multiset<Data>, ghost us: seq<UserData>, ghost ext: bool, ghost comp: bool,
                      ghost ord: bool)
    returns (r: Outcome<Obj>, root': Obj, size': int, last': Obj, ghost at': map<nat, Id>, ghost j': nat,
             ghost followed: nat)
    requires us == AsUserDatas(es)
    requires store.Valid() && GrownMin(store.nodes, at, root, size, last, j, base, [], ext, comp, ord)
    requires comp ==> AllNew(us) && forall k :: 0 <= k < |us| ==> ValidNode(us[k]).value !in base
    modifies store
    ensures store.Valid() && followed <= |es|
    ensures followed == |es| ==> r == Returned(Nil) && GrownMin(store.nodes, at', root', size', last', j', base, us, ext, comp, ord)
    ensures comp ==> followed == |es|
  {
    assert us[..0] == [];
    r, root', size', last', at', j' := Returned(Nil), root, size, last, at, j;
    var i := 0;
    while i < |es|
      invariant 0 <= i <= |es|
      invariant r == Returned(Nil) && store.Valid()
      invariant GrownMin(store.nodes, at', root', size', last', j', base, us[..i], ext, comp, ord)
    {
      var kept;
      r, root', size', last', at', j', kept, i := PushRunStep(store, root', size', last', es, i, at', j', base, us, ext, comp, ord);
      if !kept {
        return r, root', size', last', at', j', i - 1;
      }
    }
    PrefixAll(us);
    followed := |es|;
  }

  // ---------------------------------------------------------------------------------------------
  // The heap

  class MinimumHeap {
    /** The nodes this heap allocates (Node.new) and links. */
    const store: NodeStore
    var root: Obj
    var size: int
    var lastNode: Obj
    /** The slots of the tree's nodes, and last_node's slot. */
    ghost var at: map<nat, Id>
    ghost var lastSlot: nat

    ghost predicate Valid()
      reads this, store
    {
      store.Valid() && MinShaped(store.nodes, at, root, size, lastNode, lastSlot)
    }

    /** The records the heap holds. */
    ghost function Records(): multiset<Data>
      reads this, store
      requires Valid()
    {
      Contents(store.nodes, at)
    }

    /** No record of the heap is below the root's. */
    ghost predicate Least()
      reads this, store
      requires Valid()
    {
      RootExtreme(MinimumRepair, Payload(store.nodes, at))
    }

    /** Every node's record is no greater than its children's, and a left child's no greater
     *  than its right sibling's. */
    ghost predicate Ordered()
      reads this, store
      requires Valid()
    {
      SortedTree(Payload(store.nodes, at), at, 1)
    }

    /** MinimumHeap.new with no arguments: size 0, an EmptyNode for root and last_node. */
    constructor ()
      ensures Valid() && fresh(store) && Records() == multiset{} && Complete(at)
      ensures root == Sentinel && lastNode == Sentinel && size == 0 && at == map[]
    {
      store := new NodeStore();
      root := Sentinel;
      size := 0;
      lastNode := Sentinel;
      at := map[];
      lastSlot := 1;
    }

    /** push(e), as PushedMin says; a push the model follows leaves a minimum heap holding the
     *  pushed record too, with the least record still at the root, and a complete sorted tree
     *  still sorted. */
    method Push(e: Entry) returns (r: Outcome<Obj>, ghost c: Id, ghost placed: Outcome<Obj>)
      requires Valid()
      modifies this, store
      ensures store.Valid()
      ensures PushedMin(old(store.nodes), old(at), old(root), old(size), old(lastNode), old(lastSlot), e, c, placed,
                        store.nodes, at, root, size, lastNode, lastSlot, r)
      ensures Followed(old(store.nodes), old(at), e) ==>
                && r == Returned(Nil) && Valid() && Records() == old(Records()) + Added(AsUserData(e))
                && (old(Least()) ==> Least())
                && (old(Complete(at) && Ordered()) ==> Ordered())
    {
      var kept, root1, size1, last1;
      ghost var at1, j1;
      r, root1, size1, last1, at1, j1, c, placed, kept := PushEntry(store, root, size, lastNode, e, at, lastSlot);
      root, size, lastNode, at, lastSlot := root1, size1, last1, at1, j1;
    }

    /** pop: remove(@root), as RemovedMin says; a pop that returns leaves a minimum heap, and
     *  from a heap whose root is least it answers a record no other is below. */
    method Pop() returns (r: Outcome<Removed>)
      requires Valid()
      modifies this, store
      ensures store.Valid() && root == old(root)
      ensures RemovedMin(old(store.nodes), old(at), old(root), old(size), old(lastNode), old(lastSlot), 1,
                         store.nodes, r, size, lastNode, at, lastSlot)
      ensures r.Returned? ==> Valid()
      ensures r.Returned? && old(at) != map[] ==> && size == old(size) - 1 && r.value.Record?
                                                  && Records() + multiset{r.value.data} == old(Records())
    {
      var size1, last1;
      ghost var at1, j1;
      r, size1, last1, at1, j1 := RemoveMin(store, root, size, lastNode, root, at, lastSlot, 1);
      size, lastNode, at, lastSlot := size1, last1, at1, j1;
    }

    /** peek: the root's record; an EmptyNode has no data. */
    function Peek(): (r: Outcome<Data>)
      reads this, store
      requires Valid()
      ensures at != map[] ==> r == Returned(Payload(store.nodes, at)[1])
      ensures at != map[] && Least() ==> forall d :: d in Records() ==> Rank(MinimumRepair, d) <= Rank(MinimumRepair, r.value)
      ensures at == map[] ==> (r.Raised? <==> root == Sentinel)
    {
      PeekedLeast(store.nodes, at, root, size, lastNode, lastSlot);
      match root
      case Ref(x) => Returned(store.nodes[x].data)
      case _ => Raised(NoMethodError)
    }

    /** delete!(e), as DeletedMin says; a delete! that removes a record leaves a minimum heap
     *  without one copy of it. */
    method Delete(e: Entry) returns (r: Outcome<Removed>)
      requires Valid()
      modifies this, store
      ensures store.Valid() && root == old(root)
      ensures DeletedMin(old(store.nodes), old(at), old(root), old(size), old(lastNode), old(lastSlot), e,
                         store.nodes, at, size, lastNode, lastSlot, r)
      ensures old(at) != map[] && !e.Other? && r.Returned? ==>
                && Valid() && size == old(size) - 1 && r.value == Record(EntryNode(e).value)
                && Records() + multiset{EntryNode(e).value} == old(Records())
    {
      var size1, last1;
      ghost var at1, j1;
      r, size1, last1, at1, j1 := DeleteEntry(store, root, size, lastNode, e, at, lastSlot);
      size, lastNode, at, lastSlot := size1, last1, at1, j1;
    }

    /** replace!(e), as ReplacedMin says, c being the node made for e; on a tree it answers the
     *  root's record, and a record whose value is not nil takes its place. */
    method Replace(e: Entry) returns (r: Outcome<Removed>, ghost c: Id)
      requires Valid()
      modifies this, store
      ensures store.Valid() && root == old(root) && size == old(size)
      ensures ReplacedMin(old(store.nodes), old(at), old(root), old(size), old(lastNode), old(lastSlot), e, c,
                          store.nodes, at, lastNode, lastSlot, r)
      ensures !e.Other? && r.Returned? && old(at) != map[] ==>
                && r.value == Record(old(Payload(store.nodes, at))[1])
                && (IsValid(EntryNode(e).value) ==>
                      Valid() && Records() + multiset{r.value.data} == old(Records()) + multiset{EntryNode(e).value})
    {
      var last1;
      ghost var at1, j1;
      r, last1, at1, j1, c := ReplaceEntry(store, root, size, lastNode, e, at, lastSlot);
      lastNode, at, lastSlot := last1, at1, j1;
    }

    /** clear!: `root.clean(true)` (NoMethodError on an EmptyNode root), then an EmptyNode for
     *  root and last_node and size 0. */
    method Clear() returns (r: Outcome<Obj>)
      requires Valid()
      modifies this, store
      ensures store.Valid()
      ensures old(root) == Sentinel ==> && r == Raised(NoMethodError) && store.nodes == old(store.nodes)
                                        && root == old(root) && size == old(size) && lastNode == old(lastNode) && at == old(at)
      ensures old(root) != Sentinel ==> && r == Returned(Nil) && Valid() && root == Sentinel && lastNode == Sentinel
                                        && size == 0 && Records() == multiset{}
      ensures old(root) != Sentinel ==> forall k :: k in old(at) ==> old(at)[k] in store.nodes && store.nodes[old(at)[k]] == Dead
    {
      MinRooted(store.nodes, at, root, size, lastNode, lastSlot);
      r := ClearRoot(store, at, root);
      if r.Raised? {
        return;
      }
      root := Sentinel;
      lastNode := root;
      size := 0;
      at := map[];
      lastSlot := 1;
    }

    /** include?(e): the record when the root's include? finds a valid node holding it; nil for
     *  anything but an Array or a Hash. */
    function Include(e: Entry): (r: Outcome<Option<Data>>)
      reads this, store
      requires Valid()
      ensures e.Other? ==> r == Returned(None)
      ensures !e.Other? && at != map[] ==> (r.Returned? <==> EntryNode(e).value in Records())
      ensures r.Returned? && r.value.Some? ==> r.value == EntryNode(e) && EntryNode(e).value in Records()
      ensures !e.Other? && at != map[] && r.Raised? ==> r.error == NoMethodError
    {
      MinRooted(store.nodes, at, root, size, lastNode, lastSlot);
      match EntryNode(e)
      case None => Returned(None)
      case Some(q) =>
        LocateFacts(store.nodes, at, root, q);
        Found(Locate(store.nodes, at, root, q), store.nodes)
    }

    /** size: the number of records. */
    function Size(): (n: int)
      reads this, store
      requires Valid()
      ensures n == |Records()|
    {
      MinRooted(store.nodes, at, root, size, lastNode, lastSlot);
      size
    }

    /** empty?: size is 0, exactly when the heap holds no record. */
    function IsEmpty(): (e: bool)
      reads this, store
      requires Valid()
      ensures e <==> Records() == multiset{}
    {
      MinRooted(store.nodes, at, root, size, lastNode, lastSlot);
      size == 0
    }

    /** inspect: the root's inspect. */
    function Inspect(): (s: string)
      reads this, store
      requires Valid()
      ensures at != map[] ==> Count('{', s) == 2 * |Records()| + 1 && Count('}', s) == 2 * |Records()| + 1
      ensures at != map[] ==> Drawings.Read(s) == Some(Drawings.Drawn(store.nodes, at, 1))
      ensures root == Sentinel ==> s == "{}"
    {
      MinRooted(store.nodes, at, root, size, lastNode, lastSlot);
      InspectRoot(store.nodes, at, root)
    }

    /** to_a: `@root.to_a`, which only an EmptyNode answers (with []); a Node has no to_a. */
    function ToA(): (r: Outcome<seq<Data>>)
      reads this
      ensures r.Returned? <==> root == Sentinel
      ensures r.Returned? ==> r.value == []
      ensures r.Raised? ==> r.error == NoMethodError
    {
      if root == Sentinel then Returned([]) else Raised(NoMethodError)
    }

    /** to_a as evidently meant: the root's dfs_pre_order, which lists every record of the heap
     *  once and nothing else, with an EmptyNode answering []. */
    method MendedToA() returns (r: Outcome<seq<Data>>)
      requires Valid()
      ensures r == MendedListing(store.nodes, at, root)
      ensures at != map[] ==> r.Returned? && multiset(r.value) == Records()
      ensures root == Sentinel ==> r == Returned([])
    {
      MinRooted(store.nodes, at, root, size, lastNode, lastSlot);
      ListingContents(store.nodes, at, root);
      if root == Sentinel {
        return Returned([]);
      }
      r := ListRoot(store, at, root);
    }

    /** `each { |udata| push(udata) }` in initialize, as PushRun says. */
    method PushEach(es: seq<Entry>) returns (r: Outcome<Obj>, ghost followed: nat)
      requires Valid()
      modifies this, store
      ensures store.Valid() && followed <= |es|
      ensures followed == |es| ==> && r == Returned(Nil) && Valid()
                                   && Records() == old(Records()) + AddedAll(AsUserDatas(es)) && (old(Least()) ==> Least())
      ensures && old(Complete(at) && Unique(Records())) && AllNew(AsUserDatas(es))
              && (forall k :: 0 <= k < |es| ==> EntryNode(es[k]).value !in old(Records()))
              ==> && followed == |es| && Complete(at) && Unique(Records())
                  && (old(Ordered()) ==> Ordered())
    {
      var root1, size1, last1;
      ghost var at1, j1;
      r, root1, size1, last1, at1, j1, followed := PushRun(store, root, size, lastNode, es, at, lastSlot);
      ghost var shaped := MinShaped(store.nodes, at1, root1, size1, last1, j1);
      root, size, lastNode, at, lastSlot := root1, size1, last1, at1, j1;
      assert shaped == MinShaped(store.nodes, at, root, size, lastNode, lastSlot);
    }

    /** merge(other): nil for anything but a MinimumHeap; otherwise `to_a` of both heaps (the
     *  first raise passed on), and heapify of their records. to_a answers only for an EmptyNode
     *  root, with [], and heapify([]) raises ArgumentError, so merge never builds a heap. */
    method Merge(other: MinimumHeap?) returns (r: Outcome<Option<MinimumHeap>>)
      ensures other == null ==> r == Returned(None)
      ensures other != null ==> r.Raised? && (r.error == ArgumentError <==> root == Sentinel && other.root == Sentinel)
      ensures other != null && r.error != ArgumentError ==> r.error == NoMethodError
    {
      if other == null {
        return Returned(None);
      }
      var l1 := ToA();
      if l1.Raised? {
        return Raised(l1.error);
      }
      var l2 := other.ToA();
      if l2.Raised? {
        return Raised(l2.error);
      }
      // (to_a + other.to_a).flatten.uniq is []
      var h, followed := Heapify(Unlabelled);
      return Raised(h.error);
    }

    /** merge!(other): nil for anything but a MinimumHeap; otherwise `other.to_a` (raising
     *  NoMethodError unless other's root is an EmptyNode), each record of it pushed, and self. */
    method MergeInto(other: MinimumHeap?) returns (r: Outcome<Option<MinimumHeap>>)
      ensures other == null ==> r == Returned(None)
      ensures other != null ==> (r.Returned? <==> other.root == Sentinel)
      ensures other != null && r.Returned? ==> r.value == Some(this)
      ensures other != null && r.Raised? ==> r.error == NoMethodError
    {
      if other == null {
        return Returned(None);
      }
      var l := other.ToA();
      if l.Raised? {
        return Raised(l.error);
      }
      // no record to push
      return Returned(Some(this));
    }

    /** union(other): nil for anything but a MinimumHeap; otherwise `to_a` of both heaps (the
     *  first raise passed on), then other.clear!, which raises NoMethodError on the EmptyNode
     *  root to_a needed: union raises NoMethodError and changes nothing. */
    method Union(other: MinimumHeap?) returns (r: Outcome<Option<MinimumHeap>>)
      requires other != null ==> other.Valid()
      modifies if other == null then {} else {other, other.store}
      ensures other == null ==> r == Returned(None)
      ensures other != null ==> && r == Raised(NoMethodError) && other.store.nodes == old(other.store.nodes)
                                && other.root == old(other.root) && other.size == old(other.size)
                                && other.lastNode == old(other.lastNode) && other.at == old(other.at)
    {
      if other == null {
        return Returned(None);
      }
      var l1 := ToA();
      if l1.Raised? {
        return Raised(l1.error);
      }
      var l2 := other.ToA();
      if l2.Raised? {
        return Raised(l2.error);
      }
      var c := other.Clear();
      if c.Raised? {
        return Raised(c.error);
      }
      // both to_a calls answered, so other's root is an EmptyNode, on which clear! raises
      assert false;
    }
  }

  // ---------------------------------------------------------------------------------------------
  // Building heaps

  /** What MinimumHeap.new (and heapify) receives: nothing; entries pushed one by one (a first
   *  argument that is a list of Arrays or Hashes, or a list of Arrays whose first element is a
   *  String); or a first argument with no first element (an empty list), which sends the
   *  argument list itself to push, where `Node.new(*[[]])` raises ArgumentError. */
  datatype NewArgs = NoArgs | Each(entries: seq<Entry>) | Unlabelled

  /** MinimumHeap.heapify(*args), that is new(*args), as PushEach says; followed says the model
   *  followed every push. */
  method Heapify(args: NewArgs) returns (r: Outcome<MinimumHeap>, ghost followed: bool)
    ensures r.Returned? ==> fresh(r.value) && fresh(r.value.store)
    ensures args.NoArgs? ==> r.Returned? && followed && r.value.Valid() && r.value.Records() == multiset{}
    ensures args.Unlabelled? ==> r == Raised(ArgumentError)
    ensures args.Each? && followed ==> && r.Returned? && r.value.Valid()
                                       && r.value.Records() == AddedAll(AsUserDatas(args.entries)) && r.value.Least()
    ensures args.Each? && AllNew(AsUserDatas(args.entries)) ==> && followed && r.Returned?
                                                                 && Complete(r.value.at) && Unique(r.value.Records())
                                                                 && r.value.Ordered()
  {
    followed := true;
    var h := new MinimumHeap();
    match args {
      case NoArgs =>
      case Unlabelled =>
        return Raised(ArgumentError), followed;
      case Each(es) =>
        assert h.Least() && Unique(h.Records()) && h.Ordered();
        var p, n := h.PushEach(es);
        followed := n == |es|;
        if p.Raised? {
          return Raised(p.error), followed;
        }
    }
    return Returned(h), followed;
  }
}
