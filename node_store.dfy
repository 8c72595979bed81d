/**
 * The in-place methods of Heaps::Node (insert_node, insert_left/insert_right, swap_contents,
 * data=, clean, move_down and dfs_pre_order) as methods of a store of nodes: every Node object a
 * heap reaches lives in the store's map, and a method that assigns a node's fields replaces that
 * node's record in the map.
 */
module NodeStores {
  import opened Wrappers
  import opened HeapSlots
  import opened Bags
  import opened HeapNodes

  /** A link a store may hold: nil, an EmptyNode, or a node of the store (never Ruby false). */
  predicate StoredLink(nodes: map<Id, Node>, o: Obj)
  {
    o != False && LinkIn(nodes, o)
  }

  /** The node with identity id has an identity below `next` and links a store may hold. */
  ghost predicate ClosedAt(nodes: map<Id, Node>, next: Id, id: Id)
    requires id in nodes
  {
    id < next && StoredLink(nodes, nodes[id].left) && StoredLink(nodes, nodes[id].right)
    && StoredLink(nodes, nodes[id].parent)
  }

  /** Every node of the store is closed. The per-node facts are only drawn out where a proof
   *  names the node (see LinksOf). */
  ghost predicate Closed(nodes: map<Id, Node>, next: Id)
  {
    forall id {:trigger ClosedAt(nodes, next, id)} :: id in nodes ==> ClosedAt(nodes, next, id)
  }

  /** The links of a node of a closed store. */
  lemma LinksOf(nodes: map<Id, Node>, next: Id, id: Id)
    requires Closed(nodes, next) && id in nodes
    ensures id < next && StoredLink(nodes, nodes[id].left) && StoredLink(nodes, nodes[id].right)
    ensures StoredLink(nodes, nodes[id].parent)
  {
    assert ClosedAt(nodes, next, id);
  }

  /** Replacing a node by one whose links the store may hold keeps the store closed. */
  lemma ClosedSet(m: map<Id, Node>, next: Id, id: Id, n: Node)
    requires Closed(m, next) && id in m
    requires StoredLink(m, n.left) && StoredLink(m, n.right) && StoredLink(m, n.parent)
    ensures Closed(m[id := n], next)
  {
    var m' := m[id := n];
    forall i | i in m' ensures ClosedAt(m', next, i) {
      LinksOf(m, next, i);
    }
  }

  /** A new node below `next` whose links hold an EmptyNode keeps the store closed. */
  lemma ClosedGrow(m: map<Id, Node>, next: Id, d: Data)
    requires Closed(m, next)
    ensures next !in m && Closed(m[next := FreshNode(d)], next + 1)
  {
    if next in m {
      LinksOf(m, next, next);
    }
    var m' := m[next := FreshNode(d)];
    forall i | i in m' ensures ClosedAt(m', next + 1, i) {
      if i != next {
        LinksOf(m, next, i);
      }
    }
  }

  /** Every node of the tree at the slots of `at` is valid. */
  ghost predicate AllValid(nodes: map<Id, Node>, at: map<nat, Id>)
    requires InNodes(nodes, at)
  {
    forall k :: k in at ==> IsValid(nodes[at[k]].data)
  }

  /** The node id has the same links in m and m'. */
  ghost predicate LinksSame(m: map<Id, Node>, m': map<Id, Node>, id: Id)
    requires id in m && id in m'
  {
    m'[id].left == m[id].left && m'[id].right == m[id].right && m'[id].parent == m[id].parent
  }

  /** The same nodes with the same links: only records may differ. */
  ghost predicate SameLinks(m: map<Id, Node>, m': map<Id, Node>)
  {
    && m'.Keys == m.Keys
    && forall id {:trigger LinksSame(m, m', id)} :: id in m ==> LinksSame(m, m', id)
  }

  /** Changing only records keeps the tree at the slots of `at`. */
  lemma SameLinksPositioned(m: map<Id, Node>, m': map<Id, Node>, at: map<nat, Id>)
    requires Positioned(m, at) && SameLinks(m, m')
    ensures Positioned(m', at)
  {
    forall id | id in m ensures m'[id].left == m[id].left && m'[id].right == m[id].right && m'[id].parent == m[id].parent {
      assert LinksSame(m, m', id);
    }
    LinksKept(m, m', at);
  }

  /** Some node of the subtree of k has a right child but no left child. */
  ghost predicate LoneRightBelow(at: map<nat, Id>, k: nat)
    requires k in at && k >= 1
    decreases Cap(at) - k
  {
    || (2 * k + 1 in at && 2 * k !in at)
    || (2 * k in at && LoneRightBelow(at, 2 * k))
    || (2 * k + 1 in at && LoneRightBelow(at, 2 * k + 1))
  }

  /** A tree filled left slot first has no such node. */
  lemma {:induction false} NoLoneRight(at: map<nat, Id>, k: nat)
    requires NoRightWithoutLeft(at) && k in at && k >= 1
    ensures !LoneRightBelow(at, k)
    decreases Cap(at) - k
  {
    if 2 * k in at {
      NoLoneRight(at, 2 * k);
    }
    if 2 * k + 1 in at {
      NoLoneRight(at, 2 * k + 1);
    }
  }

  // ---------------------------------------------------------------------------------------------
  // Slots outside a subtree

  lemma NotBelowSmaller(j: nat, k: nat)
    requires j < k
    ensures !Below(j, k)
  {
    if Below(j, k) {
      BelowAtLeast(j, k);
    }
  }

  /** The sibling slot of c. */
  function Sibling(c: nat): nat
  {
    if c % 2 == 0 then c + 1 else c - 1
  }

  /** A slot's parent and its sibling lie outside its subtree. */
  lemma OutsideSub(k: nat)
    requires k >= 2
    ensures !Below(k / 2, k) && !Below(Sibling(k), k)
    ensures Sibling(k) / 2 == k / 2 && Sibling(k) != k && Sibling(k) >= 2
  {
    NotBelowSmaller(k / 2, k);
    var s := Sibling(k);
    if s < k {
      NotBelowSmaller(s, k);
    } else {
      assert s / 2 == k / 2;
    }
  }

  /** The children of k are in its subtree, and so is whatever is below them. */
  lemma ChildBelow(m0: map<Id, Node>, m: map<Id, Node>, at: map<nat, Id>, k: nat, c: nat)
    requires InNodes(m0, at) && m.Keys == m0.Keys && k >= 1 && (c == 2 * k || c == 2 * k + 1)
    requires forall j :: j in at && Below(j, k) ==> m[at[j]] == m0[at[j]]
    ensures Below(c, k)
    ensures forall j :: j in at && Below(j, c) ==> m[at[j]] == m0[at[j]]
  {
    forall j | j in at && Below(j, c) ensures Below(j, k) {
      BelowParent(j, k, c);
    }
  }

  /** A slot and its occupied children are in its subtree. */
  lemma ChildrenInSub(at: map<nat, Id>, k: nat)
    requires k in at && k >= 1
    ensures k in Sub(at, k) && (2 * k in at ==> 2 * k in Sub(at, k)) && (2 * k + 1 in at ==> 2 * k + 1 in Sub(at, k))
  {
    assert Below(k, k) && (2 * k) / 2 == k && (2 * k + 1) / 2 == k;
  }

  /** A slot off the subtree of k is neither k, nor a child of k, nor below one. */
  lemma OffSub(j: nat, k: nat)
    requires k >= 1 && !Below(j, k)
    ensures j != k && j != 2 * k && j != 2 * k + 1 && !Below(j, 2 * k) && !Below(j, 2 * k + 1)
  {
    assert Below(k, k) && (2 * k) / 2 == k && (2 * k + 1) / 2 == k;
    if Below(j, 2 * k) {
      BelowParent(j, k, 2 * k);
    }
    if Below(j, 2 * k + 1) {
      BelowParent(j, k, 2 * k + 1);
    }
  }

  /** The subtree of a free slot holds no slot. */
  lemma FreeSub(at: map<nat, Id>, c: nat)
    requires PrefixClosed(at) && c >= 1 && c !in at
    ensures forall j :: j in at ==> !Below(j, c)
  {
    forall j | j in at && Below(j, c) ensures false {
      BelowOccupied(at, j, c);
    }
  }

  // ---------------------------------------------------------------------------------------------
  // Moving records within a subtree

  /** Every record of a slot map is valid. */
  ghost predicate ValidRecords(p: map<nat, Data>)
  {
    forall j :: j in p ==> IsValid(p[j])
  }

  /** The nodes of a tree are all valid exactly when its records are. */
  lemma AllValidRecords(m: map<Id, Node>, at: map<nat, Id>)
    requires InNodes(m, at)
    ensures AllValid(m, at) <==> ValidRecords(Payload(m, at))
  {
    var p := Payload(m, at);
    if ValidRecords(p) {
      forall j | j in at ensures IsValid(m[at[j]].data) {
        assert p[j] == m[at[j]].data;
      }
    }
  }

  /** The records of slots i and j exchanged. */
  function Exchanged(p: map<nat, Data>, i: nat, j: nat): (r: map<nat, Data>)
    requires i in p && j in p
    ensures r.Keys == p.Keys && r[i] == p[j] && r[j] == p[i]
  {
    p[i := p[j]][j := p[i]]
  }

  /** Node#> on two valid records: the first value is the greater. (On an invalid record Node#>
   *  raises; no slot map of valid records reaches that case.) */
  predicate Above(a: Data, b: Data)
  {
    a.value.Some? && b.value.Some? && a.value.value > b.value.value
  }

  /** The two exchanges move_down makes at slot k before it recurses: the node and its left child
   *  when the node's value is greater, then the two children when the left value is greater. */
  ghost function Settled(p: map<nat, Data>, at: map<nat, Id>, k: nat): (r: map<nat, Data>)
    requires k in at && p.Keys == at.Keys
    ensures r.Keys == p.Keys
  {
    var p1 := if 2 * k in at && Above(p[k], p[2 * k]) then Exchanged(p, k, 2 * k) else p;
    if 2 * k + 1 in at && 2 * k in at && Above(p1[2 * k], p1[2 * k + 1]) then Exchanged(p1, 2 * k, 2 * k + 1) else p1
  }

  /** The exchanges touch only slot k and its children. */
  lemma SettledFrame(p: map<nat, Data>, at: map<nat, Id>, k: nat, j: nat)
    requires k in at && p.Keys == at.Keys && j in p && j != k && j != 2 * k && j != 2 * k + 1
    ensures Settled(p, at, k)[j] == p[j]
  {
  }

  /** What move_down does below slot k once the exchanges there are made, p2 being what they
   *  leave: move_down on the left child, then on the right child unless the left one raised. */
  ghost function SiftedChildren(p2: map<nat, Data>, at: map<nat, Id>, k: nat): (r: Sift)
    requires PrefixClosed(at) && k in at && p2.Keys == at.Keys && (2 * k + 1 in at ==> 2 * k in at)
  {
    ParentSlot(at, k);
    if 2 * k !in at then Sift(p2, Returned(k))
    else
      var l := Sifted(p2, at, 2 * k);
      if l.answer.Raised? || 2 * k + 1 !in at then l
      else Sifted(l.records, at, 2 * k + 1)
  }

  /** Sifted at slot k is the exchanges there followed by SiftedChildren. */
  lemma SiftedStep(p: map<nat, Data>, p2: map<nat, Data>, at: map<nat, Id>, k: nat)
    requires PrefixClosed(at) && k in at && p.Keys == at.Keys && (2 * k + 1 in at ==> 2 * k in at)
    requires p2 == Settled(p, at, k)
    ensures Sifted(p, at, k) == SiftedChildren(p2, at, k)
  {
    ParentSlot(at, k);
  }

  /** The exchanges keep the multiset of the tree's records. */
  lemma SettledContents(p: map<nat, Data>, at: map<nat, Id>, k: nat)
    requires k in at && p.Keys == at.Keys
    ensures BagOf(Settled(p, at, k), at.Keys) == BagOf(p, at.Keys)
  {
    var p1 := if 2 * k in at && Above(p[k], p[2 * k]) then Exchanged(p, k, 2 * k) else p;
    if 2 * k in at && Above(p[k], p[2 * k]) {
      BagOfSwap<nat, Data>(p, p1, at.Keys, k, 2 * k);
    }
    var p2 := Settled(p, at, k);
    if 2 * k + 1 in at && 2 * k in at && Above(p1[2 * k], p1[2 * k + 1]) {
      BagOfSwap<nat, Data>(p1, p2, at.Keys, 2 * k, 2 * k + 1);
    }
  }

  /** Exchanging records keeps a map of valid records valid. */
  lemma ExchangedValid(p: map<nat, Data>, i: nat, j: nat)
    requires i in p && j in p && ValidRecords(p)
    ensures ValidRecords(Exchanged(p, i, j))
  {
    var r := Exchanged(p, i, j);
    forall x | x in r ensures IsValid(r[x]) {
      assert r[x] == p[x] || r[x] == p[i] || r[x] == p[j];
    }
  }

  /** The exchanges keep a tree of valid records valid. */
  lemma SettledValid(p: map<nat, Data>, at: map<nat, Id>, k: nat)
    requires k in at && p.Keys == at.Keys && ValidRecords(p)
    ensures ValidRecords(Settled(p, at, k))
  {
    var p1 := if 2 * k in at && Above(p[k], p[2 * k]) then Exchanged(p, k, 2 * k) else p;
    if 2 * k in at && Above(p[k], p[2 * k]) {
      ExchangedValid(p, k, 2 * k);
    }
    if 2 * k + 1 in at && 2 * k in at && Above(p1[2 * k], p1[2 * k + 1]) {
      ExchangedValid(p1, 2 * k, 2 * k + 1);
    }
  }

  /** What move_down leaves of a slot map: the records, and the slot whose node it answers or the
   *  error it raises. */
  datatype Sift = Sift(records: map<nat, Data>, answer: Outcome<nat>)

  /** What move_down does to a tree of valid nodes when called on slot k: the exchanges at k, then
   *  move_down on the left child, then on the right child, answering the right child's answer,
   *  else the left child's, else k itself. At a node with a right child but no left one it raises
   *  NoMethodError (an EmptyNode has no `>`), and the records stay as the exchanges before it
   *  left them. */
  ghost function Sifted(p: map<nat, Data>, at: map<nat, Id>, k: nat): (r: Sift)
    requires PrefixClosed(at) && k in at && p.Keys == at.Keys
    ensures r.records.Keys == p.Keys
    ensures r.answer.Returned? ==> r.answer.value in at
    decreases Cap(at) - k
  {
    ParentSlot(at, k);
    if 2 * k + 1 in at && 2 * k !in at then Sift(p, Raised(NoMethodError))
    else
      var p2 := Settled(p, at, k);
      if 2 * k !in at then Sift(p2, Returned(k))
      else
        var l := Sifted(p2, at, 2 * k);
        if l.answer.Raised? || 2 * k + 1 !in at then l
        else Sifted(l.records, at, 2 * k + 1)
  }

  /** The slot move_down answers, by the shape of the tree alone: NoMethodError when the subtree
   *  has a node with a right child but no left one, and otherwise the leaf reached by preferring
   *  right children. */
  ghost function Descent(at: map<nat, Id>, k: nat): (r: Outcome<nat>)
    requires PrefixClosed(at) && k in at
    ensures r.Returned? ==> r.value in at
  {
    ParentSlot(at, k);
    if LoneRightBelow(at, k) then Raised(NoMethodError) else Returned(RightmostLeaf(at, k))
  }

  /** move_down's answer depends on the shape of the tree only, as Descent says. */
  lemma {:induction false} SiftedAnswer(p: map<nat, Data>, at: map<nat, Id>, k: nat)
    requires PrefixClosed(at) && k in at && p.Keys == at.Keys
    ensures Sifted(p, at, k).answer == Descent(at, k)
    decreases Cap(at) - k
  {
    ParentSlot(at, k);
    if !(2 * k + 1 in at && 2 * k !in at) && 2 * k in at {
      var p2 := Settled(p, at, k);
      SiftedAnswer(p2, at, 2 * k);
      ParentSlot(at, 2 * k);
      var l := Sifted(p2, at, 2 * k);
      if !l.answer.Raised? && 2 * k + 1 in at {
        SiftedAnswer(l.records, at, 2 * k + 1);
        ParentSlot(at, 2 * k + 1);
      }
    }
  }

  /** move_down only moves records: the tree holds the same multiset of records. */
  lemma {:induction false} SiftedContents(p: map<nat, Data>, at: map<nat, Id>, k: nat)
    requires PrefixClosed(at) && k in at && p.Keys == at.Keys
    ensures BagOf(Sifted(p, at, k).records, at.Keys) == BagOf(p, at.Keys)
    decreases Cap(at) - k
  {
    ParentSlot(at, k);
    if !(2 * k + 1 in at && 2 * k !in at) {
      var p2 := Settled(p, at, k);
      SettledContents(p, at, k);
      if 2 * k in at {
        var l := Sifted(p2, at, 2 * k);
        SiftedContents(p2, at, 2 * k);
        if !l.answer.Raised? && 2 * k + 1 in at {
          SiftedContents(l.records, at, 2 * k + 1);
        }
      }
    }
  }

  /** move_down keeps a tree of valid records valid. */
  lemma {:induction false} SiftedValid(p: map<nat, Data>, at: map<nat, Id>, k: nat)
    requires PrefixClosed(at) && k in at && p.Keys == at.Keys && ValidRecords(p)
    ensures ValidRecords(Sifted(p, at, k).records)
    decreases Cap(at) - k
  {
    ParentSlot(at, k);
    if !(2 * k + 1 in at && 2 * k !in at) {
      var p2 := Settled(p, at, k);
      SettledValid(p, at, k);
      if 2 * k in at {
        var l := Sifted(p2, at, 2 * k);
        SiftedValid(p2, at, 2 * k);
        if !l.answer.Raised? && 2 * k + 1 in at {
          SiftedValid(l.records, at, 2 * k + 1);
        }
      }
    }
  }

  /** move_down changes no record outside the subtree of k. */
  lemma {:induction false} SiftedFrame(p: map<nat, Data>, at: map<nat, Id>, k: nat, j: nat)
    requires PrefixClosed(at) && k in at && p.Keys == at.Keys
    requires j in at && !Below(j, k)
    ensures Sifted(p, at, k).records[j] == p[j]
    decreases Cap(at) - k
  {
    ParentSlot(at, k);
    OffSub(j, k);
    if !(2 * k + 1 in at && 2 * k !in at) {
      var p2 := Settled(p, at, k);
      SettledFrame(p, at, k, j);
      if 2 * k in at {
        var l := Sifted(p2, at, 2 * k);
        SiftedFrame(p2, at, 2 * k, j);
        if !l.answer.Raised? && 2 * k + 1 in at {
          SiftedFrame(l.records, at, 2 * k + 1, j);
        }
      }
    }
  }

  /** move_down below slot k changes no record outside the subtrees of k's children. */
  lemma SiftedChildrenFrame(p2: map<nat, Data>, at: map<nat, Id>, k: nat, j: nat)
    requires PrefixClosed(at) && k in at && p2.Keys == at.Keys && (2 * k + 1 in at ==> 2 * k in at)
    requires j in at && !Below(j, 2 * k) && !Below(j, 2 * k + 1)
    ensures SiftedChildren(p2, at, k).records[j] == p2[j]
  {
    ParentSlot(at, k);
    if 2 * k in at {
      var l := Sifted(p2, at, 2 * k);
      SiftedFrame(p2, at, 2 * k, j);
      if !l.answer.Raised? && 2 * k + 1 in at {
        SiftedFrame(l.records, at, 2 * k + 1, j);
      }
    }
  }

  /** After move_down on slot k, the slot holds the smaller of its own and its left child's
   *  records (the node's, when they tie). */
  lemma SiftedRoot(p: map<nat, Data>, at: map<nat, Id>, k: nat)
    requires PrefixClosed(at) && k in at && p.Keys == at.Keys && ValidRecords(p)
    ensures Sifted(p, at, k).records[k] == (if 2 * k in at && p[k].value.value > p[2 * k].value.value then p[2 * k] else p[k])
  {
    ParentSlot(at, k);
    if !(2 * k + 1 in at && 2 * k !in at) {
      var p2 := Settled(p, at, k);
      SiftedStep(p, p2, at, k);
      NotBelowSmaller(k, 2 * k);
      NotBelowSmaller(k, 2 * k + 1);
      SiftedChildrenFrame(p2, at, k, k);
    }
  }

  /** move_down does not restore the order of a heap: on the tree 5, 3, 1 it leaves 3 above 1. */
  lemma SiftedOfThree(at: map<nat, Id>, p: map<nat, Data>)
    requires at.Keys == {1, 2, 3}
    requires p == map[1 := Data(None, Some(5)), 2 := Data(None, Some(3)), 3 := Data(None, Some(1))]
    ensures PrefixClosed(at)
    ensures Sifted(p, at, 1).records == map[1 := Data(None, Some(3)), 2 := Data(None, Some(1)), 3 := Data(None, Some(5))]
  {
    assert ParentIn(at, 2) && ParentIn(at, 3);
    var p2 := map[1 := Data(None, Some(3)), 2 := Data(None, Some(1)), 3 := Data(None, Some(5))];
    assert Settled(p, at, 1) == p2;
    assert Settled(p2, at, 2) == p2;
    assert Sifted(p2, at, 2) == Sift(p2, Returned(2));
  }

  /** The store after a method that changes only records of the tree's nodes: the same nodes and
   *  links, and every node off the tree unchanged. */
  ghost predicate Rewritten(m: map<Id, Node>, m': map<Id, Node>, at: map<nat, Id>)
  {
    && SameLinks(m, m')
    && forall id {:trigger KeptOff(m, m', id)} :: id in m && id !in at.Values ==> KeptOff(m, m', id)
  }

  /** The node id is the same in m and m'. */
  ghost predicate KeptOff(m: map<Id, Node>, m': map<Id, Node>, id: Id)
    requires id in m
  {
    id in m' && m'[id] == m[id]
  }

  lemma RewrittenRefl(m: map<Id, Node>, at: map<nat, Id>)
    ensures Rewritten(m, m, at)
  {
    forall id | id in m ensures LinksSame(m, m, id) {
    }
    forall id | id in m && id !in at.Values ensures KeptOff(m, m, id) {
    }
  }

  lemma RewrittenTrans(m1: map<Id, Node>, m2: map<Id, Node>, m3: map<Id, Node>, at: map<nat, Id>)
    requires Rewritten(m1, m2, at) && Rewritten(m2, m3, at)
    ensures Rewritten(m1, m3, at)
  {
    forall id | id in m1 ensures LinksSame(m1, m3, id) {
      assert LinksSame(m1, m2, id) && LinksSame(m2, m3, id);
    }
    forall id | id in m1 && id !in at.Values ensures KeptOff(m1, m3, id) {
      assert KeptOff(m1, m2, id) && KeptOff(m2, m3, id);
    }
  }

  /** Exchanging the records of two slots rewrites only the tree's records, as Exchanged says. */
  lemma SwappedRewritten(m: map<Id, Node>, at: map<nat, Id>, i: nat, j: nat)
    requires Positioned(m, at) && i in at && j in at
    ensures Rewritten(m, Swapped(m, at[i], at[j]), at)
    ensures Payload(Swapped(m, at[i], at[j]), at) == Exchanged(Payload(m, at), i, j)
  {
    var m' := Swapped(m, at[i], at[j]);
    SwappedSlots(m, at, i, j);
    forall id | id in m ensures LinksSame(m, m', id) {
    }
    forall id | id in m && id !in at.Values ensures KeptOff(m, m', id) {
      assert id != at[i] && id != at[j];
    }
  }

  /** Rewriting records keeps the tree. */
  lemma RewrittenPositioned(m: map<Id, Node>, m': map<Id, Node>, at: map<nat, Id>)
    requires Positioned(m, at) && Rewritten(m, m', at)
    ensures Positioned(m', at)
  {
    SameLinksPositioned(m, m', at);
  }

  /** The node move_down answers, or the error it raises. */
  function AnswerAt(at: map<nat, Id>, o: Outcome<nat>): (r: Outcome<Id>)
    requires o.Returned? ==> o.value in at
    ensures r.Raised? == o.Raised? && (o.Raised? ==> r.error == o.error)
    ensures o.Returned? ==> r.value == at[o.value]
  {
    match o
    case Returned(j) => Returned(at[j])
    case Raised(e) => Raised(e)
  }

  // ---------------------------------------------------------------------------------------------
  // Cleaning a subtree

  /** The link of a node toward its child slot c: left for an even slot, right for an odd one. */
  function SideLink(n: Node, c: nat): Obj
  {
    if c % 2 == 0 then n.left else n.right
  }

  /** The link of a node toward the sibling of its child slot c. */
  function OtherLink(n: Node, c: nat): Obj
  {
    if c % 2 == 0 then n.right else n.left
  }

  /** The parent after clean unlinks its child at slot c: that link holds a fresh EmptyNode. */
  function Unlinked(n: Node, c: nat): (r: Node)
    ensures r.data == n.data && r.parent == n.parent
    ensures SideLink(r, c) == Sentinel && OtherLink(r, c) == OtherLink(n, c)
  {
    if c % 2 == 0 then n.(left := Sentinel) else n.(right := Sentinel)
  }

  /** The parent of slot k is valid and links to k, and its other link holds an EmptyNode or
   *  k's valid sibling: cleaning k unlinks exactly k from it. */
  ghost predicate ParentReady(nodes: map<Id, Node>, at: map<nat, Id>, k: nat)
  {
    && k >= 2 && k in at && k / 2 in at && at[k / 2] in nodes
    && IsValid(nodes[at[k / 2]].data)
    && SideLink(nodes[at[k / 2]], k) == Ref(at[k])
    && var o := OtherLink(nodes[at[k / 2]], k);
       (o == Sentinel || (Sibling(k) in at && o == Ref(at[Sibling(k)]) && o.id in nodes && IsValid(nodes[o.id].data)))
  }

  /** What the recursive clean of the child at slot c needs: a ready parent. */
  lemma CleanAllChild(m0: map<Id, Node>, m: map<Id, Node>, at: map<nat, Id>, k: nat, c: nat)
    requires Positioned(m0, at) && AllValid(m0, at) && k in at && (c == 2 * k || c == 2 * k + 1)
    requires m.Keys == m0.Keys && at[k] in m
    requires LinkValid(m, SideLink(m[at[k]], c))
    requires m[at[k]].data == m0[at[k]].data && SideLink(m[at[k]], c) == SideLink(m0[at[k]], c)
    requires OtherLink(m[at[k]], c) == Sentinel
             || (c == 2 * k && m[at[k]].right == m0[at[k]].right && (2 * k + 1 in at ==> m[at[2 * k + 1]] == m0[at[2 * k + 1]]))
    ensures c in at && SideLink(m[at[k]], c) == Ref(at[c])
    ensures ParentReady(m, at, c)
  {
    LinksAt(m0, at, k);
    assert c / 2 == k;
  }

  /** Where the left subtree is cleaned, the right subtree is still as it was. */
  lemma LeftDone(m0: map<Id, Node>, m1: map<Id, Node>, m2: map<Id, Node>, at: map<nat, Id>, k: nat)
    requires InNodes(m0, at) && k >= 1 && m1.Keys == m0.Keys && m2.Keys == m0.Keys
    requires forall j :: j in at && Below(j, k) ==> m1[at[j]] == m0[at[j]]
    requires forall j :: j in at && !Below(j, 2 * k) && j != k ==> m2[at[j]] == m1[at[j]]
    ensures forall j :: j in at && Below(j, 2 * k + 1) ==> m2[at[j]] == m0[at[j]]
  {
    forall j | j in at && Below(j, 2 * k + 1) ensures m2[at[j]] == m0[at[j]] {
      BelowSeparate(j, k);
      BelowParent(j, k, 2 * k + 1);
    }
  }

  /** With both subtrees cleaned, all of the subtree but its root is cleaned and nothing outside
   *  it changed. */
  lemma RightDone(m1: map<Id, Node>, m2: map<Id, Node>, m3: map<Id, Node>, at: map<nat, Id>, k: nat)
    requires k >= 1 && InNodes(m1, at) && m2.Keys == m1.Keys && m3.Keys == m1.Keys
    requires forall j :: j in at && Below(j, 2 * k) ==> m2[at[j]] == Dead
    requires forall j :: j in at && Below(j, 2 * k + 1) ==> m3[at[j]] == Dead
    requires forall j :: j in at && !Below(j, 2 * k) && j != k ==> m2[at[j]] == m1[at[j]]
    requires forall j :: j in at && !Below(j, 2 * k + 1) && j != k ==> m3[at[j]] == m2[at[j]]
    ensures forall j :: j in at && Below(j, k) && j != k ==> m3[at[j]] == Dead
    ensures forall j :: j in at && !Below(j, k) ==> m3[at[j]] == m1[at[j]]
  {
    forall j | j in at && Below(j, k) && j != k ensures m3[at[j]] == Dead {
      BelowChild(j, k);
      BelowSeparate(j, k);
    }
    forall j | j in at && !Below(j, k) ensures m3[at[j]] == m1[at[j]] {
      if Below(j, 2 * k) {
        BelowParent(j, k, 2 * k);
      }
      if Below(j, 2 * k + 1) {
        BelowParent(j, k, 2 * k + 1);
      }
    }
  }

  /** The last step of clean(true): the node itself is cleaned after its subtrees. */
  lemma SelfCleaned(m0: map<Id, Node>, m1: map<Id, Node>, m3: map<Id, Node>, m4: map<Id, Node>, at: map<nat, Id>, k: nat)
    requires Positioned(m0, at) && AllValid(m0, at) && k in at
    requires m1.Keys == m0.Keys && m3.Keys == m1.Keys && at[k] in m3
    requires m3[at[k]].data == m0[at[k]].data && m3[at[k]].parent == m0[at[k]].parent
    requires forall j :: j in at && Below(j, k) && j != k ==> m3[at[j]] == Dead
    requires forall j :: j in at && !Below(j, k) ==> m3[at[j]] == m1[at[j]]
    requires k >= 2 ==> ParentReady(m1, at, k)
    requires LinkIn(m3, m3[at[k]].parent) && m4 == Cleaned(m3, at[k])
    ensures forall j :: j in at && Below(j, k) ==> m4[at[j]] == Dead
    ensures k >= 2 ==> m4[at[k / 2]] == Unlinked(m1[at[k / 2]], k)
    ensures forall j :: j in at && !Below(j, k) && (k == 1 || j != k / 2) ==> m4[at[j]] == m1[at[j]]
  {
    LinksAt(m0, at, k);
    var x := at[k];
    var p := m3[x].parent;
    var mx := m3[x := Node(DeadData, Nil, Nil, p)];
    if k >= 2 {
      OutsideSub(k);
      var q := at[k / 2];
      assert p == Ref(q) && q != x && m3[q] == m1[q];
      var pn := mx[q];
      assert SameContents(mx, SideLink(pn, k), DeadData);
      var o := OtherLink(pn, k);
      if o != Sentinel {
        assert at[Sibling(k)] != x && m3[at[Sibling(k)]] == m1[at[Sibling(k)]];
      }
      assert !SameContents(mx, o, DeadData);
      assert Detached(mx, pn, DeadData) == Unlinked(m1[q], k);
    } else {
      assert p == Sentinel;
    }
    forall j | j in at && !Below(j, k) && (k == 1 || j != k / 2) ensures m4[at[j]] == m1[at[j]] {
      assert j != k;
    }
  }

  lemma AppendAssoc3<T>(a: seq<T>, b: seq<T>, c: seq<T>, d: seq<T>)
    ensures a + (b + c + d) == a + b + c + d
  {
  }

  /** The arena of Heaps::Node objects. */
  class NodeStore {
    var nodes: map<Id, Node>
    /** The identity the next Node.new receives. */
    var next: Id

    ghost predicate Valid()
      reads this
    {
      Closed(nodes, next)
    }

    constructor ()
      ensures Valid() && nodes == map[]
    {
      nodes := map[];
      next := 0;
    }

    /** Node.new(description, value): a new node whose three links hold an EmptyNode. */
    method NewNode(d: Data) returns (id: Id)
      requires Valid()
      modifies this
      ensures Valid() && id !in old(nodes) && nodes == old(nodes)[id := FreshNode(d)]
    {
      ClosedGrow(nodes, next, d);
      id := next;
      nodes := nodes[id := FreshNode(d)];
      next := next + 1;
    }

    /** Node#data=: description and value from the hash; the links stay. */
    method SetData(x: Id, d: Data)
      requires Valid() && x in nodes
      modifies this
      ensures Valid() && next == old(next) && nodes == old(nodes)[x := old(nodes)[x].(data := d)]
    {
      LinksOf(nodes, next, x);
      ClosedSet(nodes, next, x, nodes[x].(data := d));
      nodes := nodes[x := nodes[x].(data := d)];
    }

    /** Node#swap_contents: the two nodes exchange description and value; it answers self. */
    method SwapContents(x: Id, y: Id) returns (r: Id)
      requires Valid() && x in nodes && y in nodes
      modifies this
      ensures Valid() && next == old(next) && r == x && nodes == Swapped(old(nodes), x, y)
    {
      var saved := nodes[x].data;
      SetData(x, nodes[y].data);
      SetData(y, saved);
      r := x;
    }

    /** insert_left / insert_right: the link on side d becomes the node c, c's parent becomes x,
     *  and c is the answer. */
    method InsertChild(x: Id, c: Id, d: Dir) returns (r: Id)
      requires Valid() && x in nodes && c in nodes
      modifies this
      ensures Valid() && next == old(next) && r == c && nodes == Attached(old(nodes), x, c, d)
    {
      LinksOf(nodes, next, x);
      var n := nodes[x];
      var n' := if d == Left then n.(left := Ref(c)) else n.(right := Ref(c));
      ClosedSet(nodes, next, x, n');
      nodes := nodes[x := n'];
      LinksOf(nodes, next, c);
      ClosedSet(nodes, next, c, nodes[c].(parent := Ref(x)));
      nodes := nodes[c := nodes[c].(parent := Ref(x))];
      r := c;
    }

    /** Node#insert_node: into the left slot unless it holds a valid node, else into the right
     *  slot unless that does too; with both slots taken it answers x and changes nothing.
     *  Asking nil whether it is valid raises NoMethodError. */
    method InsertNode(x: Id, c: Id) returns (r: Outcome<Id>)
      requires Valid() && x in nodes && c in nodes
      modifies this
      ensures Valid() && next == old(next)
      ensures old(nodes)[x].left == Nil ==> r == Raised(NoMethodError) && nodes == old(nodes)
      ensures old(nodes)[x].left != Nil && !LinkValid(old(nodes), old(nodes)[x].left)
              ==> r == Returned(c) && nodes == Attached(old(nodes), x, c, Left)
      ensures LinkValid(old(nodes), old(nodes)[x].left) && old(nodes)[x].right == Nil
              ==> r == Raised(NoMethodError) && nodes == old(nodes)
      ensures LinkValid(old(nodes), old(nodes)[x].left) && old(nodes)[x].right != Nil
              && !LinkValid(old(nodes), old(nodes)[x].right)
              ==> r == Returned(c) && nodes == Attached(old(nodes), x, c, Right)
      ensures LinkValid(old(nodes), old(nodes)[x].left) && LinkValid(old(nodes), old(nodes)[x].right)
              ==> r == Returned(x) && nodes == old(nodes)
    {
      LinksOf(nodes, next, x);
      var n := nodes[x];
      var leftValid := ValidOf(nodes, n.left);
      if leftValid.Raised? {
        return Raised(leftValid.error);
      }
      if leftValid.value {
        var rightValid := ValidOf(nodes, n.right);
        if rightValid.Raised? {
          return Raised(rightValid.error);
        }
        if rightValid.value {
          return Returned(x);
        }
        var c' := InsertChild(x, c, Right);
        return Returned(c');
      }
      var c' := InsertChild(x, c, Left);
      return Returned(c');
    }

    /** Node#clean without children: description, value, left and right become nil; a valid
     *  parent replaces by a fresh EmptyNode each of its links that now `==` this node (Node#==
     *  compares contents); then parent becomes nil. It answers x. */
    method Clean(x: Id) returns (r: Id)
      requires Valid() && x in nodes
      modifies this
      ensures LinkIn(old(nodes), old(nodes)[x].parent)
      ensures Valid() && next == old(next) && r == x && nodes == Cleaned(old(nodes), x)
    {
      LinksOf(nodes, next, x);
      var p := nodes[x].parent;
      ClosedSet(nodes, next, x, Node(DeadData, Nil, Nil, p));
      nodes := nodes[x := Node(DeadData, Nil, Nil, p)];
      if p.Ref? && IsValid(nodes[p.id].data) {
        LinksOf(nodes, next, p.id);
        var pn' := Detached(nodes, nodes[p.id], DeadData);
        ClosedSet(nodes, next, p.id, pn');
        nodes := nodes[p.id := pn'];
      }
      ClosedSet(nodes, next, x, Dead);
      nodes := nodes[x := Dead];
      r := x;
    }

    /** Node#clean(true) on the node at slot k of a tree whose nodes (all valid) were positioned
     *  in m0: the nodes of the subtree are still as in m0, and k's parent is valid and links to
     *  k. Children are cleaned first, left then right; every node of the subtree ends with all
     *  fields nil, the parent's link to k becomes an EmptyNode, and every other node of the tree
     *  is unchanged. */
    method CleanAll(x: Id, ghost m0: map<Id, Node>, ghost at: map<nat, Id>, ghost k: nat) returns (r: Id)
      requires Valid() && Positioned(m0, at) && AllValid(m0, at) && k in at && at[k] == x
      requires nodes.Keys == m0.Keys
      requires forall j :: j in at && Below(j, k) ==> nodes[at[j]] == m0[at[j]]
      requires k >= 2 ==> ParentReady(nodes, at, k)
      modifies this
      ensures Valid() && next == old(next) && r == x && nodes.Keys == old(nodes).Keys
      ensures forall j :: j in at && Below(j, k) ==> nodes[at[j]] == Dead
      ensures k >= 2 ==> nodes[at[k / 2]] == Unlinked(old(nodes)[at[k / 2]], k)
      ensures forall j :: j in at && !Below(j, k) && (k == 1 || j != k / 2) ==> nodes[at[j]] == old(nodes)[at[j]]
      decreases Cap(at) - k, 1
    {
      LinksAt(m0, at, k);
      ghost var m1 := nodes;
      assert Below(k, k) && (2 * k) / 2 == k && (2 * k + 1) / 2 == k;
      ChildBelow(m0, m1, at, k, 2 * k);
      ChildBelow(m0, m1, at, k, 2 * k + 1);
      CleanChild(x, Left, m0, at, k);
      ghost var m2 := nodes;
      LeftDone(m0, m1, m2, at, k);
      CleanChild(x, Right, m0, at, k);
      ghost var m3 := nodes;
      RightDone(m1, m2, m3, at, k);
      LinksOf(nodes, next, x);
      r := Clean(x);
      SelfCleaned(m0, m1, m3, nodes, at, k);
    }

    /** One step of Node#clean(true): the child on side d is cleaned when it is valid (the store
     *  holds no Ruby false, and `&.` skips nil). Its subtree ends all fields nil, the node's link
     *  to it becomes an EmptyNode, and no other node of the tree changes. */
    method CleanChild(x: Id, d: Dir, ghost m0: map<Id, Node>, ghost at: map<nat, Id>, ghost k: nat)
      requires Valid() && Positioned(m0, at) && AllValid(m0, at) && k in at && at[k] == x
      requires nodes.Keys == m0.Keys
      requires forall j :: j in at && Below(j, Child(k, d)) ==> nodes[at[j]] == m0[at[j]]
      requires nodes[x].data == m0[x].data && nodes[x].parent == m0[x].parent
      requires SideLink(nodes[x], Child(k, d)) == SideLink(m0[x], Child(k, d))
      requires OtherLink(nodes[x], Child(k, d)) == Sentinel
               || (d == Left && nodes[x].right == m0[x].right && (2 * k + 1 in at ==> nodes[at[2 * k + 1]] == m0[at[2 * k + 1]]))
      modifies this
      ensures Valid() && next == old(next) && nodes.Keys == old(nodes).Keys
      ensures forall j :: j in at && Below(j, Child(k, d)) ==> nodes[at[j]] == Dead
      ensures nodes[x] == if Child(k, d) in at then Unlinked(old(nodes)[x], Child(k, d)) else old(nodes)[x]
      ensures forall j :: j in at && !Below(j, Child(k, d)) && j != k ==> nodes[at[j]] == old(nodes)[at[j]]
      decreases Cap(at) - k, 0
    {
      ghost var c := Child(k, d);
      LinksAt(m0, at, k);
      var o := if d == Left then nodes[x].left else nodes[x].right;
      if LinkValid(nodes, o) {
        CleanAllChild(m0, nodes, at, k, c);
        assert c / 2 == k;
        var _ := CleanAll(o.id, m0, at, c);
      } else {
        FreeSub(at, c);
      }
    }

    /** `swap_contents` when the record of a is above that of b, by Node#>: the records of the
     *  two slots are exchanged when the first value is the greater. */
    method SwapIfAbove(a: Id, b: Id, ghost at: map<nat, Id>, ghost i: nat, ghost j: nat)
      requires Valid() && Positioned(nodes, at) && i in at && j in at && at[i] == a && at[j] == b
      requires IsValid(nodes[a].data) && IsValid(nodes[b].data)
      modifies this
      ensures Valid() && next == old(next) && Rewritten(old(nodes), nodes, at)
      ensures var p := Payload(old(nodes), at);
        Payload(nodes, at) == if Above(p[i], p[j]) then Exchanged(p, i, j) else p
    {
      LinksAt(nodes, at, i);
      LinksAt(nodes, at, j);
      ghost var p := Payload(nodes, at);
      assert p[i] == nodes[a].data && p[j] == nodes[b].data;
      if Greater(nodes[a].data, nodes[b].data) == Returned(true) {
        SwappedRewritten(nodes, at, i, j);
        var _ := SwapContents(a, b);
      } else {
        RewrittenRefl(nodes, at);
      }
    }

    /** The two exchanges that open Node#move_down at slot k: the node and its left child when the
     *  node's value is greater, then the two children when the left value is greater. It fails,
     *  changing nothing, when a valid right child has an EmptyNode beside it, which has no `>`. */
    method Settle(x: Id, ghost at: map<nat, Id>, ghost k: nat) returns (ok: bool)
      requires Valid() && Positioned(nodes, at) && ValidRecords(Payload(nodes, at)) && k in at && at[k] == x
      modifies this
      ensures Valid() && next == old(next) && Rewritten(old(nodes), nodes, at)
      ensures ok <==> (2 * k + 1 in at ==> 2 * k in at)
      ensures ok ==> Payload(nodes, at) == Settled(Payload(old(nodes), at), at, k)
      ensures !ok ==> nodes == old(nodes)
    {
      LinksAt(nodes, at, k);
      ghost var m0 := nodes;
      ghost var p0 := Payload(nodes, at);
      AllValidRecords(nodes, at);
      RewrittenRefl(nodes, at);
      var n := nodes[x];
      if ValidOf(nodes, n.left) == Returned(true) {
        SwapIfAbove(x, n.left.id, at, k, 2 * k);
      }
      ghost var m1 := nodes;
      ghost var p1 := Payload(nodes, at);
      assert p1 == if 2 * k in at && Above(p0[k], p0[2 * k]) then Exchanged(p0, k, 2 * k) else p0;
      ok := true;
      if ValidOf(nodes, n.right) == Returned(true) {
        if !n.left.Ref? {
          // an EmptyNode has no `>`
          return false;
        }
        RewrittenPositioned(m0, m1, at);
        AllValidRecords(m1, at);
        SwapIfAbove(n.left.id, n.right.id, at, 2 * k, 2 * k + 1);
        RewrittenTrans(m0, m1, nodes, at);
      }
    }

    /** Node#move_down on the node at slot k of a tree of valid nodes: only the records of the
     *  tree's nodes change, and both the records and the answer are those of Sifted. */
    method MoveDown(x: Id, ghost at: map<nat, Id>, ghost k: nat) returns (r: Outcome<Id>)
      requires Valid() && Positioned(nodes, at) && ValidRecords(Payload(nodes, at)) && k in at && at[k] == x
      modifies this
      ensures Valid() && next == old(next) && Rewritten(old(nodes), nodes, at)
      ensures Payload(nodes, at) == Sifted(Payload(old(nodes), at), at, k).records
      ensures r == AnswerAt(at, Sifted(Payload(old(nodes), at), at, k).answer)
      decreases Cap(at) - k, 2
    {
      ghost var m0 := nodes;
      ghost var p0 := Payload(nodes, at);
      var ok := Settle(x, at, k);
      if !ok {
        return Raised(NoMethodError);
      }
      ghost var m2 := nodes;
      SiftedStep(p0, Payload(m2, at), at, k);
      SettledValid(p0, at, k);
      RewrittenPositioned(m0, m2, at);
      AllValidRecords(m2, at);
      r := MoveDownChildren(x, at, k);
      RewrittenTrans(m0, m2, nodes, at);
    }

    /** The rest of Node#move_down once the exchanges at slot k are made: move_down on the valid
     *  left child, then on the valid right child, answering the right child's answer, else the
     *  left child's, else the node itself; an error raised on the left ends it. */
    method MoveDownChildren(x: Id, ghost at: map<nat, Id>, ghost k: nat) returns (r: Outcome<Id>)
      requires Valid() && Positioned(nodes, at) && ValidRecords(Payload(nodes, at)) && k in at && at[k] == x
      requires 2 * k + 1 in at ==> 2 * k in at
      modifies this
      ensures Valid() && next == old(next) && Rewritten(old(nodes), nodes, at)
      ensures Payload(nodes, at) == SiftedChildren(Payload(old(nodes), at), at, k).records
      ensures r == AnswerAt(at, SiftedChildren(Payload(old(nodes), at), at, k).answer)
      decreases Cap(at) - k, 1
    {
      LinksAt(nodes, at, k);
      ParentSlot(at, k);
      ghost var m2 := nodes;
      ghost var p2 := Payload(nodes, at);
      ghost var s := SiftedChildren(p2, at, k);
      var n := nodes[x];
      assert n.left == (if 2 * k in at then Ref(at[2 * k]) else Sentinel);
      if 2 * k in at {
        AllValidRecords(nodes, at);
      }
      var nleft := x;
      if ValidOf(nodes, n.left) == Returned(true) {
        assert 2 * k in at;
        ParentSlot(at, 2 * k);
        var rl := MoveDown(n.left.id, at, 2 * k);
        if rl.Raised? {
          assert s == Sifted(p2, at, 2 * k);
          assert Payload(nodes, at) == s.records;
          return rl;
        }
        nleft := rl.value;
      } else {
        assert 2 * k !in at;
        RewrittenRefl(nodes, at);
      }
      ghost var m3 := nodes;
      ghost var p3 := Payload(m3, at);
      assert p3 == (if 2 * k in at then Sifted(p2, at, 2 * k).records else p2);
      RewrittenPositioned(m2, m3, at);
      if 2 * k in at {
        SiftedValid(p2, at, 2 * k);
      }
      r := MoveDownRight(x, nleft, at, k);
      RewrittenTrans(m2, m3, nodes, at);
      assert Payload(nodes, at) == s.records;
    }

    /** The last step of Node#move_down: move_down on the valid right child of the node at slot
     *  k, answering what it answers; without one, the answer found so far, here `fallback`. */
    method MoveDownRight(x: Id, fallback: Id, ghost at: map<nat, Id>, ghost k: nat) returns (r: Outcome<Id>)
      requires Valid() && Positioned(nodes, at) && ValidRecords(Payload(nodes, at)) && k in at && at[k] == x
      modifies this
      ensures Valid() && next == old(next) && Rewritten(old(nodes), nodes, at)
      ensures 2 * k + 1 !in at ==> nodes == old(nodes) && r == Returned(fallback)
      ensures 2 * k + 1 in at ==> Payload(nodes, at) == Sifted(Payload(old(nodes), at), at, 2 * k + 1).records
      ensures 2 * k + 1 in at ==> r == AnswerAt(at, Sifted(Payload(old(nodes), at), at, 2 * k + 1).answer)
      decreases Cap(at) - k, 0
    {
      LinksAt(nodes, at, k);
      ParentSlot(at, k);
      var n := nodes[x];
      if ValidOf(nodes, n.right) == Returned(true) {
        assert 2 * k + 1 in at;
        AllValidRecords(nodes, at);
        r := MoveDown(n.right.id, at, 2 * k + 1);
      } else {
        RewrittenRefl(nodes, at);
        r := Returned(fallback);
      }
    }

    /** Node#dfs_pre_order: the collector gains the node's record, then what the valid children
     *  collect, left first. */
    method DfsPreOrder(x: Id, collector: seq<Data>, ghost at: map<nat, Id>, ghost k: nat) returns (c: seq<Data>)
      requires Positioned(nodes, at) && k in at && at[k] == x
      ensures c == collector + Collected(nodes, at, k)
      decreases Cap(at) - k, 1
    {
      CollectedStep(nodes, at, k);
      c := collector + [nodes[x].data];
      ghost var c0 := c;
      c := DfsChild(x, Left, c, at, k);
      ghost var c1 := c;
      c := DfsChild(x, Right, c, at, k);
      AppendAssoc3(collector, [nodes[x].data], c1[|c0|..], c[|c1|..]);
    }

    /** One step of Node#dfs_pre_order: the child on side d adds what it collects when it is
     *  valid. */
    method DfsChild(x: Id, d: Dir, collector: seq<Data>, ghost at: map<nat, Id>, ghost k: nat) returns (c: seq<Data>)
      requires Positioned(nodes, at) && k in at && at[k] == x
      ensures c == collector + if Child(k, d) in at && IsValid(nodes[at[Child(k, d)]].data) then Collected(nodes, at, Child(k, d)) else []
      decreases Cap(at) - k, 0
    {
      LinksAt(nodes, at, k);
      var o := if d == Left then nodes[x].left else nodes[x].right;
      c := collector;
      if ValidOf(nodes, o) == Returned(true) {
        c := DfsPreOrder(o.id, c, at, Child(k, d));
      }
    }
  }
}
