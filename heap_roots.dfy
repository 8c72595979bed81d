/**
 * What Heaps::HeapBase and Heaps::MinimumHeap do alike once a node is built: remove (behind pop,
 * replace! and delete!), and the messages both send to their root (include?, dfs_pre_order,
 * inspect and clean(true)). A heap is its three fields (root, size, last_node) over a store of
 * nodes, with a ghost map from level-order slots to the nodes of its tree.
 */
module HeapRoots {
  import opened Wrappers
  import opened HeapSlots
  import opened Bags
  import opened HeapNodes
  import opened NodeStores
  import opened SiftUps
  import Drawings

  // ---------------------------------------------------------------------------------------------
  // The fields of a heap

  /** A root that holds no tree: an EmptyNode; a node a pop or clear! has cleaned (all fields
   *  nil); or a node without a value whose links all hold an EmptyNode (a record pushed with a
   *  nil value, or a one-node tree whose last record was popped). */
  ghost predicate Husk(nodes: map<Id, Node>, o: Obj)
  {
    || o == Sentinel
    || (&& o.Ref? && o.id in nodes && !IsValid(nodes[o.id].data)
        && (|| nodes[o.id] == Dead
            || (nodes[o.id].left == Sentinel && nodes[o.id].right == Sentinel && nodes[o.id].parent == Sentinel)))
  }

  /** last_node: a leaf of the tree at slot j; or a husk node outside a one-node tree (the node
   *  cleaned when the last of two nodes was deleted, or a former husk root). */
  ghost predicate LastLeaf(nodes: map<Id, Node>, at: map<nat, Id>, last: Obj, j: nat)
  {
    || (j in at && last == Ref(at[j]) && 2 * j !in at && 2 * j + 1 !in at)
    || (at.Keys == {1} && last.Ref? && Husk(nodes, last) && last.id !in at.Values)
  }

  /** The fields of a heap over the store `nodes`, its tree being at the slots of `at`: a tree of
   *  valid nodes whose root is the root field, size counting its nodes and last_node a leaf; or
   *  no tree, a husk for root (size 1 when a nil-valued record was pushed onto an empty heap)
   *  and last_node the root. */
  ghost predicate Shaped(nodes: map<Id, Node>, at: map<nat, Id>, root: Obj, size: int, last: Obj, j: nat)
  {
    && Positioned(nodes, at) && AllValid(nodes, at)
    && (at != map[] ==> 1 in at && size == |at| && root == Ref(at[1]) && LastLeaf(nodes, at, last, j))
    && (at == map[] ==> (size == 0 || size == 1) && Husk(nodes, root) && last == root)
  }

  /** A tree whose root is a leaf is the root alone, so a two-node tree has a child of the root. */
  lemma SmallTrees(at: map<nat, Id>)
    requires PrefixClosed(at) && 1 in at
    ensures 2 !in at && 3 !in at ==> at.Keys == {1}
    ensures |at| == 2 ==> 2 in at || 3 in at
  {
    if 2 !in at && 3 !in at {
      forall m | m in at ensures m == 1 {
        ParentSlot(at, m);
        if m >= 2 {
          NoDeepSlot(at, m);
        }
      }
      assert at.Keys == {1};
      assert |at.Keys| == |at|;
    }
  }

  /** With both children of the root free, no deeper slot is occupied. */
  lemma {:induction false} NoDeepSlot(at: map<nat, Id>, m: nat)
    requires PrefixClosed(at) && 2 !in at && 3 !in at && m >= 2
    ensures m !in at
    decreases m
  {
    if m in at {
      ParentSlot(at, m);
      if m >= 4 {
        NoDeepSlot(at, m / 2);
      }
    }
  }

  // ---------------------------------------------------------------------------------------------
  // remove

  /** What remove answers: the removed record (Node#data), or the node it was handed when that
   *  node is not valid. */
  datatype Removed = Record(data: Data) | Untouched(node: Obj)

  /** remove without a replacement on the node at slot k, last_node being the leaf at slot j:
   *  the two exchange records, slot j leaves the tree, and when more than one node is left
   *  move_down runs from slot k. When k is j that node has just been cleaned, and move_down sent
   *  to it raises NoMethodError (its left link is nil). */
  ghost function Removal(p: map<nat, Data>, at: map<nat, Id>, k: nat, j: nat): (s: Sift)
    requires PrefixClosed(at) && p.Keys == at.Keys && k in at && j in at && 2 * j !in at && 2 * j + 1 !in at
    ensures s.records.Keys == at.Keys - {j}
    ensures s.answer.Returned? ==> s.answer.value in at
  {
    var at' := at - {j};
    var p' := Exchanged(p, k, j) - {j};
    if |at'| <= 1 then Sift(p', Returned(k))
    else if k == j then Sift(p', Raised(NoMethodError))
    else
      PrefixClosedWithoutLeaf(at, j);
      Sifted(p', at', k)
  }

  /** Exchanging the records of slots k and j and dropping slot j loses exactly the record at k. */
  lemma ExchangedDropped(p: map<nat, Data>, at: map<nat, Id>, k: nat, j: nat)
    requires p.Keys == at.Keys && k in at && j in at
    ensures BagOf(Exchanged(p, k, j) - {j}, at.Keys - {j}) + multiset{p[k]} == BagOf(p, at.Keys)
    ensures ValidRecords(p) ==> ValidRecords(Exchanged(p, k, j) - {j})
  {
    var e := Exchanged(p, k, j);
    ExchangedBag(p, at, k, j);
    BagOfRemove<nat, Data>(e, at.Keys, j);
    BagOfFrame<nat, Data>(e, e - {j}, at.Keys - {j});
    if ValidRecords(p) {
      ExchangedValid(p, k, j);
    }
  }

  /** Removal keeps the other records: the tree loses exactly the record at slot k. */
  lemma RemovalContents(p: map<nat, Data>, at: map<nat, Id>, k: nat, j: nat)
    requires PrefixClosed(at) && p.Keys == at.Keys && k in at && j in at && 2 * j !in at && 2 * j + 1 !in at
    ensures BagOf(Removal(p, at, k, j).records, at.Keys - {j}) + multiset{p[k]} == BagOf(p, at.Keys)
    ensures ValidRecords(p) ==> ValidRecords(Removal(p, at, k, j).records)
  {
    var at' := at - {j};
    var p' := Exchanged(p, k, j) - {j};
    ExchangedDropped(p, at, k, j);
    if |at'| > 1 && k != j {
      PrefixClosedWithoutLeaf(at, j);
      assert at'.Keys == at.Keys - {j};
      SiftedContents(p', at', k);
      if ValidRecords(p) {
        SiftedValid(p', at', k);
      }
    }
  }

  /** last_node is the leaf at slot j of the tree (not a node cleaned beside it). */
  ghost predicate LastInTree(at: map<nat, Id>, last: Obj, j: nat)
  {
    j in at && last == Ref(at[j]) && 2 * j !in at && 2 * j + 1 !in at
  }

  /** What remove does to a tree holding the valid node at slot k: size drops by one; a
   *  returned answer is the node's record, the heap is shaped again and has lost exactly that
   *  record; beside a cleaned node no tree is left, and otherwise the tree loses slot j and
   *  keeps the records Removal computes, or raises what Removal says. */
  ghost predicate RemovedFrom(m0: map<Id, Node>, m: map<Id, Node>, at: map<nat, Id>, root: Obj, size: int,
                              last: Obj, j: nat, k: nat,
                              r: Outcome<Removed>, size': int, last': Obj, at': map<nat, Id>, j': nat)
    requires Shaped(m0, at, root, size, last, j) && at != map[] && k in at
  {
    var p := Payload(m0, at);
    && size' == size - 1
    && (r.Returned? ==>
          && r.value == Record(p[k]) && Shaped(m, at', root, size', last', j')
          && Contents(m, at') + multiset{p[k]} == Contents(m0, at))
    && (!LastInTree(at, last, j) ==> r.Returned? && at' == map[])
    && (LastInTree(at, last, j) ==>
          var s := Removal(p, at, k, j);
          && r == (if s.answer.Raised? then Raised(s.answer.error) else Returned(Record(p[k])))
          && (r.Returned? ==> && at' == at - {j} && Payload(m, at') == s.records
                              && (|at'| > 1 ==> last' == Ref(at[s.answer.value]))))
  }

  /** remove(node) without a replacement, the node x being at slot k of the tree, or the root of a
   *  heap without one. A node that is not valid comes back untouched. Otherwise x and last_node
   *  exchange records, last_node is cleaned, size drops by one and, with more than one node left,
   *  move_down from x gives the new last_node; the answer is x's record. */
  method RemoveNode(store: NodeStore, root: Obj, size: int, last: Obj, x: Obj,
                    ghost at: map<nat, Id>, ghost j: nat, ghost k: nat)
    returns (r: Outcome<Removed>, size': int, last': Obj, ghost at': map<nat, Id>, ghost j': nat)
    requires store.Valid() && Shaped(store.nodes, at, root, size, last, j)
    requires at == map[] ==> x == root
    requires at != map[] ==> k in at && x == Ref(at[k])
    modifies store
    ensures store.Valid()
    ensures at == map[] ==> && r == Returned(Untouched(x)) && store.nodes == old(store.nodes)
                            && size' == size && last' == last && at' == at && j' == j
    ensures at != map[] ==> RemovedFrom(old(store.nodes), store.nodes, at, root, size, last, j, k,
                                        r, size', last', at', j')
  {
    // `node&.valid?`: no husk is valid, and the nodes of a tree all are
    if !LinkValid(store.nodes, x) {
      return Returned(Untouched(x)), size, last, at, j;
    }
    if size - 1 > 1 {
      r, size', last', at', j' := RemoveAndSift(store, root, size, last, x, at, j, k);
    } else {
      r, size', last', at', j' := RemoveSmall(store, root, size, last, x, at, j, k);
    }
  }

  /** remove leaving at most one node: that node becomes last_node. */
  method RemoveSmall(store: NodeStore, root: Obj, size: int, last: Obj, x: Obj,
                     ghost at: map<nat, Id>, ghost j: nat, ghost k: nat)
    returns (r: Outcome<Removed>, size': int, last': Obj, ghost at': map<nat, Id>, ghost j': nat)
    requires store.Valid() && Shaped(store.nodes, at, root, size, last, j) && size - 1 <= 1
    requires at != map[] && k in at && x == Ref(at[k])
    modifies store
    ensures store.Valid()
    ensures RemovedFrom(old(store.nodes), store.nodes, at, root, size, last, j, k, r, size', last', at', j')
  {
    ghost var m0 := store.nodes;
    ghost var beside := !LastInTree(at, last, j);
    if beside {
      RemovedBeside(m0, at, root, size, last, j);
    } else {
      RemovedSmallTree(m0, at, root, size, last, j, k);
    }
    LinksAt(m0, at, k);
    var value := store.nodes[x.id].data;
    var _ := store.SwapContents(x.id, last.id);
    var _ := store.Clean(last.id);
    assert !beside ==> store.nodes == Dropped(m0, at, k, j);
    size' := size - 1;
    at' := if beside then map[] else at - {j};
    last', j' := x, 1;
    r := Returned(Record(value));
  }

  /** RemoveSmall beside the node cleaned by the last delete!. */
  lemma RemovedBeside(m0: map<Id, Node>, at: map<nat, Id>, root: Obj, size: int, last: Obj, j: nat)
    requires Shaped(m0, at, root, size, last, j) && at != map[] && !LastInTree(at, last, j)
    ensures last.Ref? && last.id in m0 && at[1] in m0
    ensures var m1 := Swapped(m0, at[1], last.id);
            && LinkIn(m1, m1[last.id].parent)
            && RemovedFrom(m0, Cleaned(m1, last.id), at, root, size, last, j, 1,
                           Returned(Record(m0[at[1]].data)), size - 1, Ref(at[1]), map[], 1)
  {
    BesideCleanedFacts(m0, at, root, size, last, j);
  }

  /** RemoveSmall on a tree of one or two nodes whose leaf is last_node. */
  lemma RemovedSmallTree(m0: map<Id, Node>, at: map<nat, Id>, root: Obj, size: int, last: Obj, j: nat, k: nat)
    requires Shaped(m0, at, root, size, last, j) && LastInTree(at, last, j) && k in at && size - 1 <= 1
    ensures at[k] in m0 && last == Ref(at[j])
    ensures RemovedFrom(m0, Dropped(m0, at, k, j), at, root, size, last, j, k,
                        Returned(Record(m0[at[k]].data)), size - 1, Ref(at[k]), at - {j}, 1)
  {
    var p := Payload(m0, at);
    DroppedTree(m0, at, k, j);
    DroppedShape(m0, at, root, size, last, j, k);
    RemovalContents(p, at, k, j);
    var m2 := Dropped(m0, at, k, j);
    var at' := at - {j};
    var s := Removal(p, at, k, j);
    assert s == Sift(Exchanged(p, k, j) - {j}, Returned(k));
    assert Payload(m2, at') == s.records;
    assert Shaped(m2, at', root, size - 1, Ref(at[k]), 1);
    assert Contents(m2, at') == BagOf(s.records, at.Keys - {j});
    assert Contents(m2, at') + multiset{p[k]} == Contents(m0, at);
  }

  /** remove leaving more than one node: move_down from x, sent to the node just cleaned when x
   *  was the last node, and its answer becomes last_node. */
  method RemoveAndSift(store: NodeStore, root: Obj, size: int, last: Obj, x: Obj,
                       ghost at: map<nat, Id>, ghost j: nat, ghost k: nat)
    returns (r: Outcome<Removed>, size': int, last': Obj, ghost at': map<nat, Id>, ghost j': nat)
    requires store.Valid() && Shaped(store.nodes, at, root, size, last, j) && size - 1 > 1
    requires at != map[] && k in at && x == Ref(at[k])
    modifies store
    ensures store.Valid()
    ensures RemovedFrom(old(store.nodes), store.nodes, at, root, size, last, j, k, r, size', last', at', j')
  {
    ghost var m0 := store.nodes;
    ghost var p := Payload(m0, at);
    assert LastInTree(at, last, j);
    DroppedTree(m0, at, k, j);
    DroppedStart(m0, at, k, j);
    DroppedShape(m0, at, root, size, last, j, k);
    RemovalContents(p, at, k, j);
    LinksAt(m0, at, k);
    var value := store.nodes[x.id].data;
    var _ := store.SwapContents(x.id, last.id);
    var _ := store.Clean(last.id);
    assert store.nodes == Dropped(m0, at, k, j);
    size' := size - 1;
    at' := at - {j};
    // move_down sent to the node just cleaned fails on its nil left link
    if store.nodes[x.id].left == Nil {
      StuckRemoval(m0, at, root, size, last, j, k);
      return Raised(NoMethodError), size', last, at', j;
    }
    ghost var m1 := store.nodes;
    r, last', j' := SiftFrom(store, x.id, at', k);
    SiftedRemoval(m0, at, root, size, last, j, k, m1, store.nodes, r, last', j');
    if r.Returned? {
      r := Returned(Record(value));
    }
  }

  /** RemoveAndSift when the node at slot k is the leaf just cleaned: move_down raises. */
  lemma StuckRemoval(m0: map<Id, Node>, at: map<nat, Id>, root: Obj, size: int, last: Obj, j: nat, k: nat)
    requires Shaped(m0, at, root, size, last, j) && LastInTree(at, last, j) && size - 1 > 1 && k in at
    requires Positioned(m0, at) && AllValid(m0, at) && j in at && 2 * j !in at && 2 * j + 1 !in at
    requires Dropped(m0, at, k, j)[at[k]].left == Nil
    ensures RemovedFrom(m0, Dropped(m0, at, k, j), at, root, size, last, j, k, Raised(NoMethodError), size - 1, last,
                        at - {j}, j)
  {
    DroppedTree(m0, at, k, j);
    DroppedStart(m0, at, k, j);
    DroppedShape(m0, at, root, size, last, j, k);
    RemovalContents(Payload(m0, at), at, k, j);
    LinksAt(m0, at, k);
  }

  /** RemoveAndSift once move_down has run from slot k on the store m1 where slot j was dropped:
   *  the removal as RemovedFrom says, the answer being the record of slot k. */
  lemma SiftedRemoval(m0: map<Id, Node>, at: map<nat, Id>, root: Obj, size: int, last: Obj, j: nat, k: nat,
                      m1: map<Id, Node>, m: map<Id, Node>, r: Outcome<Removed>, last': Obj, j': nat)
    requires Shaped(m0, at, root, size, last, j) && LastInTree(at, last, j) && size - 1 > 1 && k in at && k != j
    requires Positioned(m0, at) && AllValid(m0, at) && j in at && 2 * j !in at && 2 * j + 1 !in at
    requires m1 == Dropped(m0, at, k, j) && Positioned(m1, at - {j}) && k in at - {j}
    requires Payload(m1, at - {j}) == Exchanged(Payload(m0, at), k, j) - {j}
    requires Positioned(m, at - {j}) && ValidRecords(Payload(m, at - {j})) && Rewritten(m1, m, at - {j})
    requires var s := Sifted(Payload(m1, at - {j}), at - {j}, k);
             && Payload(m, at - {j}) == s.records
             && r.Raised? == s.answer.Raised? && (r.Raised? ==> r.error == s.answer.error)
             && (r.Returned? ==> j' == s.answer.value && last' == Ref((at - {j})[j']) && 2 * j' !in at - {j}
                                 && 2 * j' + 1 !in at - {j})
    ensures RemovedFrom(m0, m, at, root, size, last, j, k, if r.Returned? then Returned(Record(m0[at[k]].data)) else r,
                        size - 1, last', at - {j}, j')
  {
    var p := Payload(m0, at);
    var at' := at - {j};
    DroppedShape(m0, at, root, size, last, j, k);
    RemovalContents(p, at, k, j);
    var s := Removal(p, at, k, j);
    assert |at'| > 1;
    assert s == Sifted(Payload(m1, at'), at', k);
    if r.Returned? {
      AllValidRecords(m, at');
      assert j' in at' && (at - {j})[j'] == at[j'];
      assert LastLeaf(m, at', last', j');
      assert Shaped(m, at', root, size - 1, last', j');
      assert Contents(m, at') == BagOf(s.records, at.Keys - {j});
    }
  }

  /** The one-node tree beside the node cleaned by the last delete!: after the exchange and the
   *  clean the root is a husk holding that node's nil record. */
  lemma BesideCleanedFacts(m0: map<Id, Node>, at: map<nat, Id>, root: Obj, size: int, last: Obj, j: nat)
    requires Shaped(m0, at, root, size, last, j) && at != map[] && !LastInTree(at, last, j)
    ensures at.Keys == {1} && size == 1 && root == Ref(at[1]) && last.Ref? && last.id in m0 && last.id != at[1]
    ensures var m1 := Swapped(m0, at[1], last.id);
            && LinkIn(m1, m1[last.id].parent)
            && Husk(Cleaned(m1, last.id), root)
    ensures Contents(m0, at) == multiset{Payload(m0, at)[1]}
  {
    LinksAt(m0, at, 1);
    var p := Payload(m0, at);
    assert at.Keys - {1} == {};
    BagOfRemove<nat, Data>(p, at.Keys, 1);
    var m1 := Swapped(m0, at[1], last.id);
    assert Cleaned(m1, last.id)[at[1]] == m1[at[1]];
  }

  /** The store once the record at slot k has been exchanged with the leaf at slot j and the
   *  leaf has been cleaned. */
  ghost function Dropped(m: map<Id, Node>, at: map<nat, Id>, k: nat, j: nat): (r: map<Id, Node>)
    requires Positioned(m, at) && AllValid(m, at) && k in at && j in at && 2 * j !in at && 2 * j + 1 !in at
    ensures r.Keys == m.Keys
  {
    DroppedReady(m, at, k, j);
    Cleaned(Swapped(m, at[k], at[j]), at[j])
  }

  lemma DroppedReady(m: map<Id, Node>, at: map<nat, Id>, k: nat, j: nat)
    requires Positioned(m, at) && AllValid(m, at) && k in at && j in at && 2 * j !in at && 2 * j + 1 !in at
    ensures at[k] in m && at[j] in m
    ensures var m1 := Swapped(m, at[k], at[j]);
            && Positioned(m1, at) && AllValid(m1, at) && LinkIn(m1, m1[at[j]].parent)
            && Payload(m1, at) == Exchanged(Payload(m, at), k, j)
  {
    var m1 := Swapped(m, at[k], at[j]);
    SwappedRewritten(m, at, k, j);
    SwappedSlots(m, at, k, j);
    AllValidRecords(m, at);
    ExchangedValid(Payload(m, at), k, j);
    AllValidRecords(m1, at);
    CleanedLeaf(m1, at, j);
  }

  /** Dropped leaves a tree on the other slots, holding the exchanged records but the leaf's. */
  lemma DroppedTree(m: map<Id, Node>, at: map<nat, Id>, k: nat, j: nat)
    requires Positioned(m, at) && AllValid(m, at) && k in at && j in at && 2 * j !in at && 2 * j + 1 !in at
    ensures Positioned(Dropped(m, at, k, j), at - {j})
    ensures Payload(Dropped(m, at, k, j), at - {j}) == Exchanged(Payload(m, at), k, j) - {j}
    ensures ValidRecords(Payload(Dropped(m, at, k, j), at - {j}))
  {
    DroppedReady(m, at, k, j);
    var m1 := Swapped(m, at[k], at[j]);
    CleanedLeaf(m1, at, j);
    AllValidRecords(m, at);
    ExchangedDropped(Payload(m, at), at, k, j);
  }

  /** The node move_down starts from: cleaned when it was the leaf, still in the tree otherwise. */
  lemma DroppedStart(m: map<Id, Node>, at: map<nat, Id>, k: nat, j: nat)
    requires Positioned(m, at) && AllValid(m, at) && k in at && j in at && 2 * j !in at && 2 * j + 1 !in at
    ensures k == j ==> Dropped(m, at, k, j)[at[k]] == Dead
    ensures k != j ==> k in at - {j} && Dropped(m, at, k, j)[at[k]].left != Nil
  {
    if k != j {
      DroppedTree(m, at, k, j);
      LinksAt(Dropped(m, at, k, j), at - {j}, k);
    }
  }

  /** What is left of the tree keeps its root, and with at most one node it is already shaped,
   *  x being the last node. */
  lemma DroppedShape(m: map<Id, Node>, at: map<nat, Id>, root: Obj, size: int, last: Obj, j: nat, k: nat)
    requires Shaped(m, at, root, size, last, j) && LastInTree(at, last, j) && k in at
    ensures |at - {j}| == size - 1
    ensures at - {j} != map[] ==> 1 in at - {j} && root == Ref((at - {j})[1])
    ensures |at - {j}| <= 1 ==> Shaped(Dropped(m, at, k, j), at - {j}, root, size - 1, Ref(at[k]), 1)
  {
    var at' := at - {j};
    SmallTrees(at);
    assert |at'.Keys| == |at.Keys - {j}| == |at.Keys| - 1;
    if |at'| == 0 {
      assert j == 1 && k == 1;
      DroppedStart(m, at, k, j);
    } else if |at'| == 1 {
      assert j != 1;
      DroppedOneLeft(m, at, j, k);
    }
  }

  /** A two-node tree that loses its leaf: the root is the last node, or the node cleaned beside it. */
  lemma DroppedOneLeft(m: map<Id, Node>, at: map<nat, Id>, j: nat, k: nat)
    requires Positioned(m, at) && AllValid(m, at) && k in at && j in at && 2 * j !in at && 2 * j + 1 !in at
    requires j != 1 && 1 in at && |at - {j}| == 1
    ensures (at - {j}).Keys == {1} && Positioned(Dropped(m, at, k, j), at - {j})
    ensures LastLeaf(Dropped(m, at, k, j), at - {j}, Ref(at[k]), 1)
    ensures AllValid(Dropped(m, at, k, j), at - {j})
  {
    var at' := at - {j};
    var m2 := Dropped(m, at, k, j);
    assert |at'.Keys - {1}| == |at'.Keys| - 1 == 0;
    assert at'.Keys == {1} by {
      assert at'.Keys - {1} == {};
    }
    DroppedTree(m, at, k, j);
    DroppedStart(m, at, k, j);
    AllValidRecords(m2, at');
    if k != j {
      LinksAt(m2, at', 1);
    } else {
      assert at[k] !in at'.Values;
    }
  }

  /** move_down from the node x at slot k, its answer becoming last_node. */
  method SiftFrom(store: NodeStore, x: Id, ghost at: map<nat, Id>, ghost k: nat)
    returns (r: Outcome<Removed>, last': Obj, ghost j': nat)
    requires store.Valid() && Positioned(store.nodes, at) && ValidRecords(Payload(store.nodes, at))
    requires k in at && at[k] == x
    modifies store
    ensures store.Valid() && Positioned(store.nodes, at) && ValidRecords(Payload(store.nodes, at))
    ensures Rewritten(old(store.nodes), store.nodes, at)
    ensures var s := Sifted(Payload(old(store.nodes), at), at, k);
            && Payload(store.nodes, at) == s.records
            && r.Raised? == s.answer.Raised? && (r.Raised? ==> r.error == s.answer.error)
            && (r.Returned? ==> j' == s.answer.value && last' == Ref(at[j']) && 2 * j' !in at && 2 * j' + 1 !in at)
  {
    ghost var p := Payload(store.nodes, at);
    ghost var m0 := store.nodes;
    SiftedAnswer(p, at, k);
    SiftedValid(p, at, k);
    var a := store.MoveDown(x, at, k);
    RewrittenPositioned(m0, store.nodes, at);
    if a.Raised? {
      return Raised(a.error), Sentinel, 0;
    }
    j' := Sifted(p, at, k).answer.value;
    last' := Ref(a.value);
    r := Returned(Untouched(last'));
  }

  /** What replace! does to a tree: the replacement node is cleaned; with more than one node,
   *  move_down raises on a nil replacement value, and on a node with a right child but no left
   *  one (which delete! can leave behind); otherwise the answer is the old root record and the
   *  heap is shaped again, holding the new record instead of the old one. A valid replacement
   *  keeps the slots, and the records are those move_down leaves from the root once the root
   *  holds the new record; a nil one on a single node leaves a husk root. */
  ghost predicate ReplacedIn(m0: map<Id, Node>, m: map<Id, Node>, at: map<nat, Id>, root: Obj, size: int,
                             c: Id, r: Outcome<Removed>, last': Obj, at': map<nat, Id>, j': nat)
    requires Positioned(m0, at) && 1 in at && c in m0
  {
    var p := Payload(m0, at);
    var d := m0[c].data;
    && c in m && m[c] == Dead
    && (size > 1 && !IsValid(d) ==> r == Raised(NoMethodError))
    && (size > 1 && IsValid(d) ==> (r.Raised? <==> LoneRightBelow(at, 1)) && (r.Raised? ==> r.error == NoMethodError))
    && (size <= 1 ==> r.Returned?)
    && (r.Returned? ==>
          && r.value == Record(p[1]) && Shaped(m, at', root, size, last', j')
          && Contents(m, at') + multiset{p[1]} == Contents(m0, at) + (if IsValid(d) then multiset{d} else multiset{}))
    && (IsValid(d) && r.Returned? ==>
          at' == at && Payload(m, at) == (if size > 1 then Sifted(p[1 := d], at, 1).records else p[1 := d]))
    && (size <= 1 && !IsValid(d) ==> at' == map[])
  }

  /** remove(root, replacement) for replace!: a husk root comes back untouched; otherwise the root
   *  and the fresh replacement node c exchange records, c is cleaned, size stays, and with more
   *  than one node move_down from the root gives the new last_node, else the root is last_node. */
  method ReplaceNode(store: NodeStore, root: Obj, size: int, last: Obj, c: Id,
                     ghost at: map<nat, Id>, ghost j: nat)
    returns (r: Outcome<Removed>, last': Obj, ghost at': map<nat, Id>, ghost j': nat)
    requires store.Valid() && Shaped(store.nodes, at, root, size, last, j)
    requires c in store.nodes && c !in at.Values && root != Ref(c)
    requires store.nodes[c].left == Sentinel && store.nodes[c].right == Sentinel && store.nodes[c].parent == Sentinel
    modifies store
    ensures store.Valid()
    ensures at == map[] ==> && r == Returned(Untouched(root)) && store.nodes == old(store.nodes)
                            && last' == last && at' == at && j' == j
    ensures at != map[] ==> 1 in at && ReplacedIn(old(store.nodes), store.nodes, at, root, size, c, r, last', at', j')
  {
    if !LinkValid(store.nodes, root) {
      return Returned(Untouched(root)), last, at, j;
    }
    if size > 1 {
      r, last', at', j' := ReplaceAndSift(store, root, size, last, c, at, j);
    } else {
      r, last', at', j' := ReplaceSmall(store, root, size, last, c, at, j);
    }
  }

  /** replace! on more than one node. */
  method ReplaceAndSift(store: NodeStore, root: Obj, size: int, last: Obj, c: Id,
                        ghost at: map<nat, Id>, ghost j: nat)
    returns (r: Outcome<Removed>, last': Obj, ghost at': map<nat, Id>, ghost j': nat)
    requires store.Valid() && Shaped(store.nodes, at, root, size, last, j) && at != map[] && size > 1
    requires c in store.nodes && c !in at.Values && root != Ref(c)
    requires store.nodes[c].left == Sentinel && store.nodes[c].right == Sentinel && store.nodes[c].parent == Sentinel
    modifies store
    ensures store.Valid()
    ensures 1 in at && ReplacedIn(old(store.nodes), store.nodes, at, root, size, c, r, last', at', j')
  {
    ghost var m0 := store.nodes;
    ReplacedFacts(m0, at, c);
    var value := store.nodes[root.id].data;
    var _ := store.SwapContents(root.id, c);
    var _ := store.Clean(c);
    ghost var m2 := store.nodes;
    // move_down compares the root with its left child, `self > left`, on a nil value
    if !IsValid(store.nodes[root.id].data) {
      return Raised(NoMethodError), last, at, j;
    }
    ReplacedSift(m0, m2, at, root, size, last, j, c);
    r, last', j' := SiftFrom(store, root.id, at, 1);
    assert KeptOff(m2, store.nodes, c);
    at' := at;
    if r.Returned? {
      ReplacedSifted(m0, store.nodes, at, root, size, last, j, c, last', j');
      assert value == Payload(m0, at)[1];
      r := Returned(Record(value));
    }
  }

  /** replace! on a single node. */
  method ReplaceSmall(store: NodeStore, root: Obj, size: int, last: Obj, c: Id,
                      ghost at: map<nat, Id>, ghost j: nat)
    returns (r: Outcome<Removed>, last': Obj, ghost at': map<nat, Id>, ghost j': nat)
    requires store.Valid() && Shaped(store.nodes, at, root, size, last, j) && at != map[] && size <= 1
    requires c in store.nodes && c !in at.Values && root != Ref(c)
    requires store.nodes[c].left == Sentinel && store.nodes[c].right == Sentinel && store.nodes[c].parent == Sentinel
    modifies store
    ensures store.Valid()
    ensures 1 in at && ReplacedIn(old(store.nodes), store.nodes, at, root, size, c, r, last', at', j')
  {
    ghost var m0 := store.nodes;
    ReplacedFacts(m0, at, c);
    var value := store.nodes[root.id].data;
    var _ := store.SwapContents(root.id, c);
    var _ := store.Clean(c);
    ReplacedSmall(m0, store.nodes, at, root, size, last, j, c);
    last', j' := root, 1;
    at' := if IsValid(store.nodes[root.id].data) then at else map[];
    assert value == Payload(m0, at)[1];
    r := Returned(Record(value));
  }

  /** Cleaning a node without a parent node only turns it Dead. */
  lemma CleanedOrphan(m: map<Id, Node>, x: Id)
    requires x in m && !m[x].parent.Ref?
    ensures LinkIn(m, m[x].parent) && Cleaned(m, x) == m[x := Dead]
  {
  }

  /** Changing only nodes off the tree, and the record of one node on it, keeps the tree. */
  lemma RecordRewritten(m: map<Id, Node>, m': map<Id, Node>, at: map<nat, Id>, k: nat, d: Data)
    requires Positioned(m, at) && k in at && at[k] in m'
    requires forall i :: i in at && i != k ==> at[i] in m' && m'[at[i]] == m[at[i]]
    requires m'[at[k]] == m[at[k]].(data := d)
    ensures Positioned(m', at) && Payload(m', at) == Payload(m, at)[k := d]
  {
    RecordRewrittenLinks(m, m', at, k, d);
    var p := Payload(m, at);
    forall i | i in at ensures Payload(m', at)[i] == p[k := d][i] {
    }
  }

  lemma RecordRewrittenLinks(m: map<Id, Node>, m': map<Id, Node>, at: map<nat, Id>, k: nat, d: Data)
    requires Positioned(m, at) && k in at && at[k] in m'
    requires forall i :: i in at && i != k ==> at[i] in m' && m'[at[i]] == m[at[i]]
    requires m'[at[k]] == m[at[k]].(data := d)
    ensures Positioned(m', at)
  {
    forall i | i in at ensures Linked(m', at, i) {
      LinksAt(m, at, i);
    }
  }

  /** The tree once the root and the fresh node c have exchanged records and c is cleaned. */
  lemma ReplacedFacts(m0: map<Id, Node>, at: map<nat, Id>, c: Id)
    requires Positioned(m0, at) && 1 in at && c in m0 && c !in at.Values && m0[c].parent == Sentinel
    ensures at[1] in m0
    ensures var m1 := Swapped(m0, at[1], c);
            && LinkIn(m1, m1[c].parent)
            && var m2 := Cleaned(m1, c);
               && m2[c] == Dead && Positioned(m2, at)
               && Payload(m2, at) == Payload(m0, at)[1 := m0[c].data]
  {
    LinksAt(m0, at, 1);
    var m1 := Swapped(m0, at[1], c);
    CleanedOrphan(m1, c);
    var m2 := m1[c := Dead];
    assert forall i :: i in at ==> at[i] != c;
    RecordRewritten(m0, m2, at, 1, m0[c].data);
  }

  /** After the exchange, a heap of more than one node with a valid new root record is ready for
   *  move_down, and what move_down leaves meets ReplacedIn. */
  lemma ReplacedSift(m0: map<Id, Node>, m2: map<Id, Node>, at: map<nat, Id>, root: Obj, size: int, last: Obj, j: nat,
                     c: Id)
    requires Shaped(m0, at, root, size, last, j) && at != map[] && c in m0 && c !in at.Values
    requires m0[c].parent == Sentinel && size > 1 && IsValid(m0[c].data)
    requires at[1] in m0 && m2 == Cleaned(Swapped(m0, at[1], c), c)
    requires Positioned(m2, at) && Payload(m2, at) == Payload(m0, at)[1 := m0[c].data]
    ensures at[1] in m2 && root == Ref(at[1]) && ValidRecords(Payload(m2, at))
    ensures Sifted(Payload(m2, at), at, 1).answer == Descent(at, 1)
  {
    AllValidRecords(m0, at);
    SiftedAnswer(Payload(m2, at), at, 1);
  }

  /** What move_down from the root leaves once the root holds the new record meets ReplacedIn. */
  lemma ReplacedSifted(m0: map<Id, Node>, m: map<Id, Node>, at: map<nat, Id>, root: Obj, size: int, last: Obj,
                       j: nat, c: Id, last': Obj, j': nat)
    requires Shaped(m0, at, root, size, last, j) && at != map[] && c in m0 && IsValid(m0[c].data)
    requires Positioned(m, at) && ValidRecords(Payload(m, at))
    requires Payload(m, at) == Sifted(Payload(m0, at)[1 := m0[c].data], at, 1).records
    requires j' in at && last' == Ref(at[j']) && 2 * j' !in at && 2 * j' + 1 !in at
    ensures Shaped(m, at, root, size, last', j')
    ensures Contents(m, at) + multiset{Payload(m0, at)[1]} == Contents(m0, at) + multiset{m0[c].data}
  {
    var p2 := Payload(m0, at)[1 := m0[c].data];
    SiftedContents(p2, at, 1);
    AllValidRecords(m, at);
    BagOfUpdate<nat, Data>(Payload(m0, at), at.Keys, 1, m0[c].data);
  }

  /** After the exchange, a single node holds the new record: a tree when it is valid, a husk
   *  otherwise. */
  lemma ReplacedSmall(m0: map<Id, Node>, m2: map<Id, Node>, at: map<nat, Id>, root: Obj, size: int, last: Obj, j: nat,
                      c: Id)
    requires Shaped(m0, at, root, size, last, j) && at != map[] && c in m0 && c !in at.Values
    requires m0[c].parent == Sentinel && size <= 1
    requires at[1] in m0 && m2 == Cleaned(Swapped(m0, at[1], c), c)
    requires Positioned(m2, at) && Payload(m2, at) == Payload(m0, at)[1 := m0[c].data]
    ensures root == Ref(at[1]) && at[1] in m2 && m2[at[1]].data == m0[c].data
    ensures var at' := if IsValid(m0[c].data) then at else map[];
            && Shaped(m2, at', root, size, root, 1)
            && Contents(m2, at') + multiset{Payload(m0, at)[1]}
               == Contents(m0, at) + (if IsValid(m0[c].data) then multiset{m0[c].data} else multiset{})
  {
    var p := Payload(m0, at);
    var d := m0[c].data;
    SmallTrees(at);
    assert at.Keys == {1} by {
      assert |at.Keys| == 1;
      assert |at.Keys - {1}| == 0;
      assert at.Keys - {1} == {};
    }
    assert Payload(m2, at)[1] == d;
    LinksAt(m2, at, 1);
    BagOfUpdate<nat, Data>(p, at.Keys, 1, d);
    if IsValid(d) {
      AllValidRecords(m2, at);
    } else {
      BagOfRemove<nat, Data>(p, at.Keys, 1);
      assert at.Keys - {1} == {};
    }
  }

  /** remove's answer is NoMethodError exactly when more than one node is left and move_down
   *  meets the node just cleaned or a node with a right child but no left one. */
  lemma RemovalRaises(p: map<nat, Data>, at: map<nat, Id>, k: nat, j: nat)
    requires PrefixClosed(at) && p.Keys == at.Keys && k in at && j in at && 2 * j !in at && 2 * j + 1 !in at
    ensures Removal(p, at, k, j).answer.Raised? ==> Removal(p, at, k, j).answer.error == NoMethodError
    ensures Removal(p, at, k, j).answer.Raised?
            <==> |at - {j}| > 1 && (k == j || (k in at - {j} && LoneRightBelow(at - {j}, k)))
  {
    var at' := at - {j};
    if |at'| > 1 && k != j {
      PrefixClosedWithoutLeaf(at, j);
      SiftedAnswer(Exchanged(p, k, j) - {j}, at', k);
    }
  }

  /** The root and the tree below it, without what last_node and size say. */
  ghost predicate Rooted(nodes: map<Id, Node>, at: map<nat, Id>, root: Obj)
  {
    && Positioned(nodes, at) && AllValid(nodes, at)
    && (at != map[] ==> 1 in at && root == Ref(at[1]))
    && (at == map[] ==> Husk(nodes, root))
  }

  /** HeapBase#include?: the root's include? answers the first node in pre-order holding q, or
   *  false; `&.valid?` then raises NoMethodError on false and answers nil for a node that is not
   *  valid (a husk root holding q). */
  function Locate(nodes: map<Id, Node>, ghost at: map<nat, Id>, root: Obj, q: Data): (r: Outcome<Option<Id>>)
    requires Rooted(nodes, at, root)
    ensures r.Returned? && r.value.Some? ==> at != map[] && r.value.value in nodes && nodes[r.value.value].data == q
  {
    match root
    case Ref(x) =>
      if IsValid(nodes[x].data) then
        SearchFinds(nodes, at, 1, q);
        match Search(nodes, x, at, 1, q)
        case Some(y) => Returned(Some(y))
        case None => Raised(NoMethodError)
      else if nodes[x].data == q then Returned(None)
      else Raised(NoMethodError)
    case _ => Raised(NoMethodError)
  }

  /** What Search answers is a node holding q. */
  lemma SearchFinds(nodes: map<Id, Node>, at: map<nat, Id>, k: nat, q: Data)
    requires Positioned(nodes, at) && k in at
    ensures var s := Search(nodes, at[k], at, k, q);
            s.Some? ==> s.value in nodes && nodes[s.value].data == q
  {
    SearchIsFirstInPreOrder(nodes, at, k, q);
  }

  /** On a tree, include? finds q exactly when the tree holds it, and then answers the first node
   *  holding it in pre-order. */
  lemma LocateInTree(nodes: map<Id, Node>, at: map<nat, Id>, root: Obj, q: Data)
    requires Rooted(nodes, at, root) && at != map[]
    ensures Locate(nodes, at, root, q).Returned? <==> q in Contents(nodes, at)
    ensures Locate(nodes, at, root, q).Returned? ==>
              var f := FirstWith(Payload(nodes, at), PreOrder(at, 1), q);
              f.Some? && Locate(nodes, at, root, q).value == Some(at[f.value])
  {
    var p, s := Payload(nodes, at), PreOrder(at, 1);
    SearchIsFirstInPreOrder(nodes, at, 1, q);
    PreOrderCovers(at, 1);
    SubRoot(at);
    var f := FirstWith(p, s, q);
    assert IsValid(nodes[at[1]].data);
    assert Locate(nodes, at, root, q) == if f.Some? then Returned(Some(at[f.value])) else Raised(NoMethodError);
    BagOfMember<nat, Data>(p, at.Keys, q);
    if q in Contents(nodes, at) {
      var x :| x in at.Keys && p[x] == q;
      assert x in Elements(s);
      var i :| 0 <= i < |s| && s[i] == x;
      assert p[s[i]] == q;
    }
  }

  /** HeapBase#to_a: the root's dfs_pre_order. An EmptyNode has no dfs_pre_order, so an EmptyNode
   *  root raises NoMethodError; a cleaned root raises NoMethodError on its nil left link, and a
   *  husk leaf lists its own record. */
  ghost function Listing(nodes: map<Id, Node>, at: map<nat, Id>, root: Obj): (r: Outcome<seq<Data>>)
    requires Rooted(nodes, at, root)
  {
    if at != map[] then Returned(Collected(nodes, at, 1))
    else if root == Sentinel then Raised(NoMethodError)
    else if nodes[root.id] == Dead then Raised(NoMethodError)
    else Returned([nodes[root.id].data])
  }

  /** to_a as evidently meant: an EmptyNode answering dfs_pre_order with [], otherwise Listing. */
  ghost function MendedListing(nodes: map<Id, Node>, at: map<nat, Id>, root: Obj): (r: Outcome<seq<Data>>)
    requires Rooted(nodes, at, root)
  {
    if root == Sentinel then Returned([]) else Listing(nodes, at, root)
  }

  /** to_a on an empty heap raises as written, where the mended listing answers []. */
  lemma EmptyListingRaises(nodes: map<Id, Node>)
    ensures Rooted(nodes, map[], Sentinel)
    ensures Listing(nodes, map[], Sentinel) == Raised(NoMethodError)
    ensures MendedListing(nodes, map[], Sentinel) == Returned([])
  {
  }

  /** The mended to_a of a tree or of an EmptyNode root returns, listing each record of the heap
   *  once and nothing else. */
  lemma MendedListingContents(nodes: map<Id, Node>, at: map<nat, Id>, root: Obj)
    requires Rooted(nodes, at, root) && (at != map[] || root == Sentinel)
    ensures MendedListing(nodes, at, root).Returned?
    ensures multiset(MendedListing(nodes, at, root).value) == Contents(nodes, at)
    ensures |MendedListing(nodes, at, root).value| == |at|
  {
    if at != map[] {
      CollectedContents(nodes, at);
    }
  }

  /** to_a of a tree lists each record the tree holds once, and nothing else. */
  lemma ListingContents(nodes: map<Id, Node>, at: map<nat, Id>, root: Obj)
    requires Rooted(nodes, at, root)
    ensures Listing(nodes, at, root).Returned? ==>
              && |Listing(nodes, at, root).value| == |at| + (if at == map[] && root.Ref? then 1 else 0)
              && (at != map[] ==> multiset(Listing(nodes, at, root).value) == Contents(nodes, at))
    ensures at != map[] ==> Listing(nodes, at, root).Returned?
  {
    if at != map[] {
      CollectedContents(nodes, at);
    }
  }

  /** to_a on the root. */
  method ListRoot(store: NodeStore, ghost at: map<nat, Id>, root: Obj) returns (r: Outcome<seq<Data>>)
    requires Rooted(store.nodes, at, root)
    ensures r == Listing(store.nodes, at, root)
  {
    match root {
      case Ref(x) =>
        if IsValid(store.nodes[x].data) {
          assert at != map[];
          var c := store.DfsPreOrder(x, [], at, 1);
          assert c == Collected(store.nodes, at, 1);
          return Returned(c);
        }
        // a husk: its record, then `left.valid?` on its left link
        if store.nodes[x].left == Nil {
          return Raised(NoMethodError);
        }
        return Returned([store.nodes[x].data]);
      case _ =>
        // an EmptyNode has no dfs_pre_order
        return Raised(NoMethodError);
    }
  }

  /** Node#inspect of a link that is not a node of the tree: an EmptyNode, or nil. */
  function LinkText(o: Obj): string
  {
    if o == Nil then "nil" else "{}"
  }

  /** HeapBase#inspect: the root's inspect, "{}" for an EmptyNode root. */
  function InspectRoot(nodes: map<Id, Node>, ghost at: map<nat, Id>, root: Obj): (s: string)
    requires Rooted(nodes, at, root)
    ensures at != map[] ==> Count('{', s) == 2 * |at| + 1 && Count('}', s) == 2 * |at| + 1
    ensures at != map[] ==> Drawings.Read(s) == Some(Drawings.Drawn(nodes, at, 1))
    ensures at == map[] && root == Sentinel ==> s == "{}"
  {
    match root
    case Ref(x) =>
      if IsValid(nodes[x].data) then
        InspectBraces(nodes, at, 1);
        Drawings.InspectReads(nodes, at, 1);
        SubRoot(at);
        assert |at.Keys| == |at|;
        Inspect(nodes, x, at, 1)
      else
        "{" + ValueText(nodes[x].data.value) + ":" + LinkText(nodes[x].left) + "|" + LinkText(nodes[x].right) + "}"
    case _ => "{}"
  }

  /** The husk roots' inspect: "{:nil|nil}" for a cleaned node, "{:{}|{}}" for a nil record. */
  lemma InspectHusk(nodes: map<Id, Node>, at: map<nat, Id>, root: Obj)
    requires Rooted(nodes, at, root) && at == map[] && root.Ref?
    ensures nodes[root.id] == Dead ==> InspectRoot(nodes, at, root) == "{:nil|nil}"
    ensures nodes[root.id] != Dead ==> InspectRoot(nodes, at, root) == "{:{}|{}}"
  {
  }

  /** clear!'s `root.clean(true)`: an EmptyNode root has no clean and raises NoMethodError; a tree
   *  has every node cleaned, children first; a husk root is cleaned. The answer is nil. */
  method ClearRoot(store: NodeStore, ghost at: map<nat, Id>, root: Obj) returns (r: Outcome<Obj>)
    requires store.Valid() && Rooted(store.nodes, at, root)
    modifies store
    ensures store.Valid()
    ensures root == Sentinel ==> r == Raised(NoMethodError) && store.nodes == old(store.nodes)
    ensures root != Sentinel ==> r == Returned(Nil) && root.Ref? && root.id in store.nodes && store.nodes[root.id] == Dead
    ensures root != Sentinel ==> forall j :: j in at ==> at[j] in store.nodes && store.nodes[at[j]] == Dead
  {
    match root {
      case Ref(x) =>
        if IsValid(store.nodes[x].data) {
          ghost var m0 := store.nodes;
          SubRoot(at);
          var _ := store.CleanAll(x, m0, at, 1);
          return Returned(Nil);
        }
        var _ := store.Clean(x);
        return Returned(Nil);
      case _ =>
        return Raised(NoMethodError);
    }
  }

  /** Array#uniq: the first occurrence of each element, in order. */
  function Uniq(s: seq<Data>): (r: seq<Data>)
    ensures forall x :: x in r <==> x in s
    ensures Distinct(r)
    ensures |r| <= |s|
  {
    if s == [] then []
    else
      var u := Uniq(s[..|s| - 1]);
      var x := s[|s| - 1];
      assert forall y :: y in s <==> y in s[..|s| - 1] || y == x by {
        assert s == s[..|s| - 1] + [x];
      }
      if x in u then u else u + [x]
  }
}
