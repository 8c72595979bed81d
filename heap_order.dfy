/**
 * Heap order on the records of a tree, and what pop, replace! and delete! leave of it. The order
 * is the one heap_base.rb's comment states: no record ranks above its parent's (a parent smaller
 * than either child in a minimum heap, larger in a maximum heap). move_down compares values in
 * ascending order whatever the comparator, so in a maximum heap a pop can leave a smaller record
 * at the root; and remove never lets the record it moves into an inner slot climb, so delete! of
 * an inner node can leave a record below a greater one in a minimum heap too. The sift-down and
 * sift-up a heap of either kind needs are defined here, with the order they keep proved.
 */
module HeapOrders {
  import opened Wrappers
  import opened Bags
  import opened HeapNodes
  import opened NodeStores
  import opened SiftUps
  import opened HeapRoots

  // ---------------------------------------------------------------------------------------------
  // Heap order

  /** No record ranks above its parent's. */
  ghost predicate HeapOrdered(d: Repair, p: map<nat, Data>)
  {
    forall c :: c in p && c >= 2 && c / 2 in p ==> Rank(d, p[c]) <= Rank(d, p[c / 2])
  }

  /** Heap order but for the edges out of slot k, whose children rank no higher than k's parent:
   *  what a sift-down at k starts from. */
  ghost predicate OrderedDownFrom(d: Repair, p: map<nat, Data>, k: nat)
  {
    && (forall c :: c in p && c >= 2 && c / 2 in p && c / 2 != k ==> Rank(d, p[c]) <= Rank(d, p[c / 2]))
    && (k >= 2 && k / 2 in p && 2 * k in p ==> Rank(d, p[2 * k]) <= Rank(d, p[k / 2]))
    && (k >= 2 && k / 2 in p && 2 * k + 1 in p ==> Rank(d, p[2 * k + 1]) <= Rank(d, p[k / 2]))
  }

  /** Heap order but for the edge into slot k, whose children rank no higher than k's parent: what
   *  a sift-up at k starts from. */
  ghost predicate OrderedUpFrom(d: Repair, p: map<nat, Data>, k: nat)
  {
    && (forall c :: c in p && c >= 2 && c / 2 in p && c != k ==> Rank(d, p[c]) <= Rank(d, p[c / 2]))
    && (k >= 2 && k / 2 in p && 2 * k in p ==> Rank(d, p[2 * k]) <= Rank(d, p[k / 2]))
    && (k >= 2 && k / 2 in p && 2 * k + 1 in p ==> Rank(d, p[2 * k + 1]) <= Rank(d, p[k / 2]))
  }

  /** Every record of a heap-ordered tree ranks no higher than the root's. */
  lemma {:induction false} OrderedRanks(d: Repair, p: map<nat, Data>, at: map<nat, Id>, c: nat)
    requires PrefixClosed(at) && p.Keys == at.Keys && HeapOrdered(d, p) && c in at
    ensures 1 in p && Rank(d, p[c]) <= Rank(d, p[1])
    decreases c
  {
    ParentSlot(at, c);
    if c >= 2 {
      OrderedRanks(d, p, at, c / 2);
    }
  }

  /** A heap-ordered tree has its extreme record at the root. */
  lemma OrderedExtreme(d: Repair, p: map<nat, Data>, at: map<nat, Id>)
    requires PrefixClosed(at) && p.Keys == at.Keys && HeapOrdered(d, p)
    ensures RootExtreme(d, p)
  {
    if 1 in p {
      forall c | c in p ensures Rank(d, p[c]) <= Rank(d, p[1]) {
        OrderedRanks(d, p, at, c);
      }
    }
  }

  // ---------------------------------------------------------------------------------------------
  // The sift-down and sift-up a heap needs

  /** The child of slot k a sift-down would move up: the higher-ranking of the two, or the only
   *  one. (2k + 1 when k has no child; the caller checks.) */
  ghost function Favoured(d: Repair, p: map<nat, Data>, k: nat): (b: nat)
    ensures b == 2 * k || b == 2 * k + 1
    ensures b in p <==> 2 * k in p || 2 * k + 1 in p
    ensures b in p && 2 * k in p ==> Rank(d, p[2 * k]) <= Rank(d, p[b])
    ensures b in p && 2 * k + 1 in p ==> Rank(d, p[2 * k + 1]) <= Rank(d, p[b])
  {
    if 2 * k + 1 in p && (2 * k !in p || Rank(d, p[2 * k]) < Rank(d, p[2 * k + 1])) then 2 * k + 1 else 2 * k
  }

  /** Sift-down from slot k by the heap's own comparator: while a child ranks above the record at
   *  k, the higher-ranking child and k exchange records and the sift goes on from that child. */
  ghost function SiftDown(d: Repair, p: map<nat, Data>, at: map<nat, Id>, k: nat): (r: map<nat, Data>)
    requires p.Keys == at.Keys && k in at && k >= 1
    ensures r.Keys == p.Keys
    decreases Cap(at) - k
  {
    var b := Favoured(d, p, k);
    if b in p && Rank(d, p[k]) < Rank(d, p[b]) then SiftDown(d, Exchanged(p, k, b), at, b) else p
  }

  /** Sift-up from slot k by the heap's own comparator: while the record at k ranks above its
   *  parent's, the two exchange records and the sift goes on from the parent. */
  ghost function SiftUp(d: Repair, p: map<nat, Data>, k: nat): (r: map<nat, Data>)
    requires k in p
    ensures r.Keys == p.Keys
    decreases k
  {
    if k >= 2 && k / 2 in p && Rank(d, p[k / 2]) < Rank(d, p[k]) then SiftUp(d, Exchanged(p, k / 2, k), k / 2) else p
  }

  /** One exchange of a sift-down keeps its starting condition, one slot further down. */
  lemma SiftDownStep(d: Repair, p: map<nat, Data>, k: nat, b: nat)
    requires k >= 1 && k in p && b == Favoured(d, p, k) && b in p && Rank(d, p[k]) < Rank(d, p[b])
    requires OrderedDownFrom(d, p, k)
    ensures OrderedDownFrom(d, Exchanged(p, k, b), b)
  {
    var q := Exchanged(p, k, b);
    forall c | c in q && c >= 2 && c / 2 in q && c / 2 != b ensures Rank(d, q[c]) <= Rank(d, q[c / 2]) {
      if c == b {
      } else if c / 2 == k {
        assert c == 2 * k || c == 2 * k + 1;
      } else if c == k {
      } else {
        assert q[c] == p[c];
      }
    }
    // b's children rank no higher than b did, and b's record is now at k.
    if 2 * b in q {
      assert (2 * b) / 2 == b != k;
    }
    if 2 * b + 1 in q {
      assert (2 * b + 1) / 2 == b != k;
    }
  }

  /** A sift-down from k orders a tree that is in order but for the edges out of k. */
  lemma {:induction false} SiftDownOrders(d: Repair, p: map<nat, Data>, at: map<nat, Id>, k: nat)
    requires p.Keys == at.Keys && k in at && k >= 1 && OrderedDownFrom(d, p, k)
    ensures HeapOrdered(d, SiftDown(d, p, at, k))
    decreases Cap(at) - k
  {
    var b := Favoured(d, p, k);
    if b in p && Rank(d, p[k]) < Rank(d, p[b]) {
      SiftDownStep(d, p, k, b);
      SiftDownOrders(d, Exchanged(p, k, b), at, b);
    } else {
      forall c | c in p && c >= 2 && c / 2 in p ensures Rank(d, p[c]) <= Rank(d, p[c / 2]) {
        if c / 2 == k {
          assert c == 2 * k || c == 2 * k + 1;
        }
      }
    }
  }

  /** A sift-down only moves records. */
  lemma {:induction false} SiftDownBag(d: Repair, p: map<nat, Data>, at: map<nat, Id>, k: nat)
    requires p.Keys == at.Keys && k in at && k >= 1
    ensures BagOf(SiftDown(d, p, at, k), at.Keys) == BagOf(p, at.Keys)
    decreases Cap(at) - k
  {
    var b := Favoured(d, p, k);
    if b in p && Rank(d, p[k]) < Rank(d, p[b]) {
      var q := Exchanged(p, k, b);
      assert SiftDown(d, p, at, k) == SiftDown(d, q, at, b);
      ExchangedBag(p, at, k, b);
      SiftDownBag(d, q, at, b);
    } else {
      assert SiftDown(d, p, at, k) == p;
    }
  }

  /** One exchange of a sift-up keeps its starting condition, one slot further up. */
  lemma SiftUpStep(d: Repair, p: map<nat, Data>, k: nat)
    requires k >= 2 && k in p && k / 2 in p && Rank(d, p[k / 2]) < Rank(d, p[k])
    requires OrderedUpFrom(d, p, k)
    ensures OrderedUpFrom(d, Exchanged(p, k / 2, k), k / 2)
  {
    var q := Exchanged(p, k / 2, k);
    var h := k / 2;
    forall c | c in q && c >= 2 && c / 2 in q && c != h ensures Rank(d, q[c]) <= Rank(d, q[c / 2]) {
      if c == k {
      } else if c / 2 == h {
        assert c == 2 * h || c == 2 * h + 1;
      } else if c / 2 == k {
        assert c == 2 * k || c == 2 * k + 1;
      } else {
        assert q[c] == p[c];
      }
    }
    // The parent's old record is now at k, and both of the parent's children rank no higher than
    // the grandparent.
    if h >= 2 && h / 2 in q {
      assert Rank(d, p[h]) <= Rank(d, p[h / 2]);
      if 2 * h in q {
        assert (2 * h) / 2 == h;
      }
      if 2 * h + 1 in q {
        assert (2 * h + 1) / 2 == h;
      }
    }
  }

  /** A sift-up from k orders a tree that is in order but for the edge into k. */
  lemma {:induction false} SiftUpOrders(d: Repair, p: map<nat, Data>, k: nat)
    requires k >= 1 && k in p && OrderedUpFrom(d, p, k)
    ensures HeapOrdered(d, SiftUp(d, p, k))
    decreases k
  {
    if k >= 2 && k / 2 in p && Rank(d, p[k / 2]) < Rank(d, p[k]) {
      SiftUpStep(d, p, k);
      SiftUpOrders(d, Exchanged(p, k / 2, k), k / 2);
    }
  }

  /** A sift-up only moves records. */
  lemma {:induction false} SiftUpBag(d: Repair, p: map<nat, Data>, at: map<nat, Id>, k: nat)
    requires p.Keys == at.Keys && k in at
    ensures BagOf(SiftUp(d, p, k), at.Keys) == BagOf(p, at.Keys)
    decreases k
  {
    if k >= 2 && k / 2 in p && Rank(d, p[k / 2]) < Rank(d, p[k]) {
      ExchangedBag(p, at, k / 2, k);
      SiftUpBag(d, Exchanged(p, k / 2, k), at, k / 2);
    }
  }

  // ---------------------------------------------------------------------------------------------
  // remove and replace! as a heap needs them

  /** remove without a replacement, at slot k with the last leaf at slot j, as a heap of either
   *  kind needs it: the two exchange records and slot j leaves the tree, as in remove; then the
   *  record now at k sifts up when it ranks above its parent's, and down otherwise. */
  ghost function Reheaped(d: Repair, p: map<nat, Data>, at: map<nat, Id>, k: nat, j: nat): (r: map<nat, Data>)
    requires p.Keys == at.Keys && k in at && j in at && k >= 1
    ensures r.Keys == at.Keys - {j}
  {
    var p' := Exchanged(p, k, j) - {j};
    if k == j then p'
    else if k >= 2 && k / 2 in p' && Rank(d, p'[k / 2]) < Rank(d, p'[k]) then SiftUp(d, p', k)
    else SiftDown(d, p', at - {j}, k)
  }

  /** The record moved into slot k starts the sift Reheaped chooses in the order that sift needs. */
  lemma DroppedOrder(d: Repair, p: map<nat, Data>, at: map<nat, Id>, k: nat, j: nat)
    requires p.Keys == at.Keys && k in at && j in at && k >= 1 && k != j && HeapOrdered(d, p)
    ensures var p' := Exchanged(p, k, j) - {j};
            if k >= 2 && k / 2 in p' && Rank(d, p'[k / 2]) < Rank(d, p'[k]) then OrderedUpFrom(d, p', k)
            else OrderedDownFrom(d, p', k)
  {
    var p' := Exchanged(p, k, j) - {j};
    forall c | c in p' && c != k ensures p'[c] == p[c] {
    }
    if k >= 2 && k / 2 in p' {
      assert Rank(d, p[k]) <= Rank(d, p[k / 2]);
      if 2 * k in p' {
        assert (2 * k) / 2 == k;
      }
      if 2 * k + 1 in p' {
        assert (2 * k + 1) / 2 == k;
      }
    }
    if k >= 2 && k / 2 in p' && Rank(d, p'[k / 2]) < Rank(d, p'[k]) {
      forall c | c in p' && c >= 2 && c / 2 in p' && c != k ensures Rank(d, p'[c]) <= Rank(d, p'[c / 2]) {
        if c / 2 == k {
          assert Rank(d, p[c]) <= Rank(d, p[k]) <= Rank(d, p[k / 2]);
        }
      }
    }
  }

  /** Reheaped keeps a heap in order, so its root extreme, and loses exactly the record at k. */
  lemma ReheapedOrders(d: Repair, p: map<nat, Data>, at: map<nat, Id>, k: nat, j: nat)
    requires PrefixClosed(at) && p.Keys == at.Keys && k in at && j in at && 2 * j !in at && 2 * j + 1 !in at
    requires HeapOrdered(d, p)
    ensures k >= 1
    ensures HeapOrdered(d, Reheaped(d, p, at, k, j)) && RootExtreme(d, Reheaped(d, p, at, k, j))
    ensures BagOf(Reheaped(d, p, at, k, j), at.Keys - {j}) + multiset{p[k]} == BagOf(p, at.Keys)
  {
    ParentSlot(at, k);
    var p' := Exchanged(p, k, j) - {j};
    var at' := at - {j};
    ExchangedDropped(p, at, k, j);
    PrefixClosedWithoutLeaf(at, j);
    if k != j {
      DroppedOrder(d, p, at, k, j);
      if k >= 2 && k / 2 in p' && Rank(d, p'[k / 2]) < Rank(d, p'[k]) {
        SiftUpOrders(d, p', k);
        SiftUpBag(d, p', at', k);
      } else {
        SiftDownOrders(d, p', at', k);
        SiftDownBag(d, p', at', k);
      }
    } else {
      forall c | c in p' && c >= 2 && c / 2 in p' ensures Rank(d, p'[c]) <= Rank(d, p'[c / 2]) {
        assert p'[c] == p[c] && p'[c / 2] == p[c / 2];
      }
    }
    OrderedExtreme(d, Reheaped(d, p, at, k, j), at');
  }

  /** remove with a replacement for replace!, as a heap of either kind needs it: the replacement's
   *  record x goes to the root and sifts down. */
  ghost function RootReplaced(d: Repair, p: map<nat, Data>, at: map<nat, Id>, x: Data): (r: map<nat, Data>)
    requires p.Keys == at.Keys && 1 in at
    ensures r.Keys == at.Keys
  {
    SiftDown(d, p[1 := x], at, 1)
  }

  /** RootReplaced keeps a heap in order, so its root extreme, and trades the root's record for x. */
  lemma RootReplacedOrders(d: Repair, p: map<nat, Data>, at: map<nat, Id>, x: Data)
    requires PrefixClosed(at) && p.Keys == at.Keys && 1 in at && HeapOrdered(d, p)
    ensures HeapOrdered(d, RootReplaced(d, p, at, x)) && RootExtreme(d, RootReplaced(d, p, at, x))
    ensures BagOf(RootReplaced(d, p, at, x), at.Keys) + multiset{p[1]} == BagOf(p, at.Keys) + multiset{x}
  {
    var q := p[1 := x];
    forall c | c in q && c >= 2 && c / 2 in q && c / 2 != 1 ensures Rank(d, q[c]) <= Rank(d, q[c / 2]) {
      assert q[c] == p[c] && q[c / 2] == p[c / 2];
    }
    SiftDownOrders(d, q, at, 1);
    SiftDownBag(d, q, at, 1);
    BagOfUpdate<nat, Data>(p, at.Keys, 1, x);
    OrderedExtreme(d, RootReplaced(d, p, at, x), at);
  }

  // ---------------------------------------------------------------------------------------------
  // What remove does to the order, as written

  /** A record holding value v. */
  function Valued(v: int): (r: Data)
    ensures IsValid(r) && r.value.value == v
  {
    Data(None, Some(v))
  }

  /** A maximum heap with 3 at the root over 1 and 2 (what pushing 1, 2 and 3 builds): pop moves 2
   *  to the root, and move_down, comparing ascending values, sends it below 1, so the root of
   *  the heap left is its smallest record. The order Reheaped keeps puts 2 at the root. */
  lemma MaxPopLosesTop(p: map<nat, Data>, at: map<nat, Id>)
    requires at.Keys == {1, 2, 3} && p.Keys == at.Keys
    requires p[1] == Valued(3) && p[2] == Valued(1) && p[3] == Valued(2)
    ensures PrefixClosed(at) && HeapOrdered(BaseRepair(true), p)
    ensures var s := Removal(p, at, 1, 3);
            && s.answer.Returned? && s.records[1] == Valued(1) && s.records[2] == Valued(2)
            && !RootExtreme(BaseRepair(true), s.records)
    ensures Reheaped(BaseRepair(true), p, at, 1, 3)[1] == Valued(2)
  {
    var d := BaseRepair(true);
    assert ParentIn(at, 1) && ParentIn(at, 2) && ParentIn(at, 3);
    var p' := Exchanged(p, 1, 3) - {3};
    assert p'[1] == Valued(2) && p'[2] == Valued(1) && p'.Keys == {1, 2};
    ThreePopped(p, at, p');
    assert Favoured(d, p', 1) == 2;
    assert Reheaped(d, p, at, 1, 3) == SiftDown(d, p', at - {3}, 1) == p';
  }

  /** What remove at the root does to the heap of MaxPopLosesTop. */
  lemma ThreePopped(p: map<nat, Data>, at: map<nat, Id>, p': map<nat, Data>)
    requires PrefixClosed(at) && at.Keys == {1, 2, 3} && p.Keys == at.Keys && p' == Exchanged(p, 1, 3) - {3}
    requires p'[1] == Valued(2) && p'[2] == Valued(1)
    ensures Removal(p, at, 1, 3) == Sift(Exchanged(p', 1, 2), Returned(2))
  {
    var at' := at - {3};
    assert at'.Keys == {1, 2} && |at'| == 2;
    PrefixClosedWithoutLeaf(at, 3);
    var p2 := Settled(p', at', 1);
    assert p2 == Exchanged(p', 1, 2);
    var l := Sifted(p2, at', 2);
    assert l == Sift(Settled(p2, at', 2), Returned(2));
    assert Sifted(p', at', 1) == l;
  }

  /** A minimum heap with 20 over 27 and 32 and a last leaf 19 under 13: delete! of 27 moves 19 into
   *  its slot, below 20, and move_down, which only looks down, leaves it there. Reheaped sifts 19
   *  up above 20. */
  lemma InnerDeleteBreaksOrder(p: map<nat, Data>, at: map<nat, Id>)
    requires at.Keys == {1, 2, 3, 4, 5, 6, 7, 8} && p.Keys == at.Keys
    requires p[1] == Valued(8) && p[2] == Valued(11) && p[3] == Valued(20) && p[4] == Valued(13)
    requires p[5] == Valued(21) && p[6] == Valued(27) && p[7] == Valued(32) && p[8] == Valued(19)
    ensures PrefixClosed(at) && HeapOrdered(MinimumRepair, p)
    ensures var s := Removal(p, at, 6, 8);
            && s.answer.Returned? && s.records[3] == Valued(20) && s.records[6] == Valued(19)
            && !HeapOrdered(MinimumRepair, s.records)
    ensures Reheaped(MinimumRepair, p, at, 6, 8)[3] == Valued(19) && Reheaped(MinimumRepair, p, at, 6, 8)[6] == Valued(20)
  {
    var d := MinimumRepair;
    EightSlots(at);
    EightOrdered(d, p);
    var p' := Exchanged(p, 6, 8) - {8};
    assert p'[6] == Valued(19) && p'[3] == Valued(20) && p'[1] == Valued(8);
    EightDeleted(p, at, p');
    EightReheaped(d, p, at, p');
    OutOfOrder(d, p', 6);
  }

  /** A record ranking above its parent's breaks heap order. */
  lemma OutOfOrder(d: Repair, p: map<nat, Data>, c: nat)
    requires c >= 2 && c in p && c / 2 in p && Rank(d, p[c / 2]) < Rank(d, p[c])
    ensures !HeapOrdered(d, p)
  {
  }

  /** What remove at slot 6 does to the heap of InnerDeleteBreaksOrder: move_down finds 6 a leaf. */
  lemma EightDeleted(p: map<nat, Data>, at: map<nat, Id>, p': map<nat, Data>)
    requires PrefixClosed(at) && at.Keys == {1, 2, 3, 4, 5, 6, 7, 8} && p.Keys == at.Keys
    requires p' == Exchanged(p, 6, 8) - {8}
    ensures Removal(p, at, 6, 8) == Sift(p', Returned(6))
  {
    var at' := at - {8};
    PrefixClosedWithoutLeaf(at, 8);
    assert 1 in at' && 6 in at' && 12 !in at' && 13 !in at';
    var rest := at'.Keys - {1};
    assert 6 in rest && |at'.Keys| == |rest| + 1;
    assert Settled(p', at', 6) == p';
  }

  /** Reheaped on the heap of InnerDeleteBreaksOrder: 19 climbs one slot and stops below 8. */
  lemma EightReheaped(d: Repair, p: map<nat, Data>, at: map<nat, Id>, p': map<nat, Data>)
    requires d == MinimumRepair && at.Keys == {1, 2, 3, 4, 5, 6, 7, 8} && p.Keys == at.Keys
    requires p' == Exchanged(p, 6, 8) - {8}
    requires p'[6] == Valued(19) && p'[3] == Valued(20) && p'[1] == Valued(8)
    ensures Reheaped(d, p, at, 6, 8) == Exchanged(p', 3, 6)
  {
    var q := Exchanged(p', 3, 6);
    assert 6 / 2 == 3 && 3 in p' && Rank(d, p'[3]) < Rank(d, p'[6]);
    assert Reheaped(d, p, at, 6, 8) == SiftUp(d, p', 6) == SiftUp(d, q, 3);
    assert q[1] == Valued(8) && q[3] == Valued(19) && 3 / 2 == 1;
  }

  /** Slots 1 to 8 make a tree. */
  lemma EightSlots(at: map<nat, Id>)
    requires at.Keys == {1, 2, 3, 4, 5, 6, 7, 8}
    ensures PrefixClosed(at) && 8 in at && 16 !in at && 17 !in at
  {
    forall k | k in at ensures ParentIn(at, k) {
    }
  }

  /** The heap InnerDeleteBreaksOrder starts from is in order. */
  lemma EightOrdered(d: Repair, p: map<nat, Data>)
    requires d == MinimumRepair && p.Keys == {1, 2, 3, 4, 5, 6, 7, 8}
    requires p[1] == Valued(8) && p[2] == Valued(11) && p[3] == Valued(20) && p[4] == Valued(13)
    requires p[5] == Valued(21) && p[6] == Valued(27) && p[7] == Valued(32) && p[8] == Valued(19)
    ensures HeapOrdered(d, p)
  {
  }

  // ---------------------------------------------------------------------------------------------
  // What push does to the order, as written

  /** A maximum heap 100 over 40 and 20, 40 over 10 and 35, with 30 just placed at slot 6 under
   *  20: maintain_heap_property exchanges 30 and 20, then balance_subtree, comparing values in
   *  ascending order, exchanges 30 with its greater sibling 40, so 35 ends below 30. A sift-up by
   *  the heap's own comparator leaves 30 over 20 and the tree in order. */
  lemma MaxPushBreaksOrder(p: map<nat, Data>, at: map<nat, Id>)
    requires at.Keys == {1, 2, 3, 4, 5, 6} && p.Keys == at.Keys
    requires p[1] == Valued(100) && p[2] == Valued(40) && p[3] == Valued(20) && p[4] == Valued(10)
    requires p[5] == Valued(35) && p[6] == Valued(30)
    ensures PrefixClosed(at) && HeapOrdered(BaseRepair(true), p - {6})
    ensures var b := Repaired(BaseRepair(true), p, at, 6);
            && b.records[2] == Valued(30) && b.records[3] == Valued(40) && b.records[5] == Valued(35)
            && !HeapOrdered(BaseRepair(true), b.records)
    ensures HeapOrdered(BaseRepair(true), SiftUp(BaseRepair(true), p, 6))
  {
    var d := BaseRepair(true);
    MaxPushMoves(p, at);
    var b := Repaired(d, p, at, 6);
    assert b.records[5] == p[5];
    OutOfOrder(d, b.records, 5);
    MaxPushSiftedOrders(p, at);
  }

  /** Before MaxPushBreaksOrder's push the maximum heap is in order, and a sift-up by its own
   *  comparator keeps it so. */
  lemma MaxPushSiftedOrders(p: map<nat, Data>, at: map<nat, Id>)
    requires at.Keys == {1, 2, 3, 4, 5, 6} && p.Keys == at.Keys
    requires p[1] == Valued(100) && p[2] == Valued(40) && p[3] == Valued(20) && p[4] == Valued(10)
    requires p[5] == Valued(35) && p[6] == Valued(30)
    ensures HeapOrdered(BaseRepair(true), p - {6}) && HeapOrdered(BaseRepair(true), SiftUp(BaseRepair(true), p, 6))
  {
    var d := BaseRepair(true);
    forall c | c in p - {6} && c >= 2 && c / 2 in p - {6} ensures Rank(d, (p - {6})[c]) <= Rank(d, (p - {6})[c / 2]) {
      assert c == 2 || c == 3 || c == 4 || c == 5;
    }
    PushedSiftUpOrders(d, p, at, 6);
  }

  /** The moves of MaxPushBreaksOrder's push: the placed 30 and its parent 20 exchange, the parent
   *  being smaller; balance_subtree then finds the left sibling 40 greater and exchanges again;
   *  the next parent 100 is greater, so the loop climbs to the root and stops. */
  lemma MaxPushMoves(p: map<nat, Data>, at: map<nat, Id>)
    requires at.Keys == {1, 2, 3, 4, 5, 6} && p.Keys == at.Keys
    requires p[1] == Valued(100) && p[2] == Valued(40) && p[3] == Valued(20) && p[4] == Valued(10)
    requires p[5] == Valued(35) && p[6] == Valued(30)
    ensures PrefixClosed(at)
    ensures Repaired(BaseRepair(true), p, at, 6) == Balanced(Exchanged(Exchanged(p, 3, 6), 2, 3), 2)
  {
    var d := BaseRepair(true);
    forall k | k in at ensures ParentIn(at, k) {
    }
    var q := Exchanged(p, 3, 6);
    assert Balance(d, p, at, 6) == Balanced(p, 6);
    var b := Balance(d, q, at, 3);
    assert q[2] != q[3] && Greater(q[2], q[3]) == Returned(true);
    assert b == Balanced(Exchanged(q, 2, 3), 2);
    var c := Step(d, at, Climb(p, 6, 3));
    assert c == Climb(b.records, 2, 1);
    assert Balance(d, b.records, at, 0) == Balanced(b.records, 0);
    var e := Step(d, at, c);
    assert e == Climb(b.records, 2, 0);
    assert Maintained(d, at, e) == b;
    assert Maintained(d, at, c) == Maintained(d, at, e);
    assert Maintained(d, at, Climb(p, 6, 3)) == Maintained(d, at, c);
    assert Repaired(d, p, at, 6) == Maintained(d, at, Climb(p, 6, 3));
  }

  /** A record placed at a leaf of a heap-ordered tree and sifted up by the heap's own comparator
   *  leaves the tree heap-ordered. */
  lemma PushedSiftUpOrders(d: Repair, p: map<nat, Data>, at: map<nat, Id>, s: nat)
    requires PrefixClosed(at) && p.Keys == at.Keys && s in at && 2 * s !in at && 2 * s + 1 !in at
    requires HeapOrdered(d, p - {s})
    ensures HeapOrdered(d, SiftUp(d, p, s))
  {
    ParentSlot(at, s);
    forall c | c in p && c >= 2 && c / 2 in p && c != s ensures Rank(d, p[c]) <= Rank(d, p[c / 2]) {
      assert c / 2 != s;
      assert c in p - {s} && c / 2 in p - {s};
    }
    SiftUpOrders(d, p, s);
  }

  // ---------------------------------------------------------------------------------------------
  // What move_down keeps in a minimum heap

  /** The records at slot c and its children in the order a minimum heap's push leaves them, by
   *  the comparison move_down makes: neither child's value is below c's, and the right child's
   *  value is not below the left one's. */
  ghost predicate SortedAt(p: map<nat, Data>, c: nat)
  {
    && (c in p && 2 * c in p ==> !Above(p[c], p[2 * c]))
    && (c in p && 2 * c + 1 in p ==> !Above(p[c], p[2 * c + 1]))
    && (c in p && 2 * c in p && 2 * c + 1 in p ==> !Above(p[2 * c], p[2 * c + 1]))
  }

  /** The subtree of slot k is sorted: each of its slots is sorted with its children. */
  ghost predicate SortedTree(p: map<nat, Data>, at: map<nat, Id>, k: nat)
    decreases Cap(at) - k
  {
    k >= 1 && k in at ==>
      && SortedAt(p, k)
      && (2 * k in at ==> SortedTree(p, at, 2 * k))
      && (2 * k + 1 in at ==> SortedTree(p, at, 2 * k + 1))
  }

  /** Every occupied slot of a sorted subtree is sorted with its children. */
  lemma {:induction false} SortedTreeAt(p: map<nat, Data>, at: map<nat, Id>, k: nat, c: nat)
    requires PrefixClosed(at) && k >= 1 && SortedTree(p, at, k) && c in at && Below(c, k)
    ensures SortedAt(p, c)
    decreases c - k
  {
    BelowAtLeast(c, k);
    BelowOccupied(at, c, k);
    if c != k {
      BelowChild(c, k);
      if Below(c, 2 * k) {
        BelowOccupied(at, c, 2 * k);
        BelowAtLeast(c, 2 * k);
        SortedTreeAt(p, at, 2 * k, c);
      } else {
        BelowOccupied(at, c, 2 * k + 1);
        BelowAtLeast(c, 2 * k + 1);
        SortedTreeAt(p, at, 2 * k + 1, c);
      }
    }
  }

  /** A sorted tree is heap-ordered, so its root is extreme. */
  lemma SortedOrdered(d: Repair, p: map<nat, Data>, at: map<nat, Id>)
    requires d != BaseRepair(true) && PrefixClosed(at) && p.Keys == at.Keys && ValidRecords(p)
    requires SortedTree(p, at, 1)
    ensures HeapOrdered(d, p) && RootExtreme(d, p)
  {
    forall c | c in p && c >= 2 && c / 2 in p ensures Rank(d, p[c]) <= Rank(d, p[c / 2]) {
      BelowRoot(c / 2);
      SortedTreeAt(p, at, 1, c / 2);
      assert c == 2 * (c / 2) || c == 2 * (c / 2) + 1;
      assert IsValid(p[c]) && IsValid(p[c / 2]);
    }
    OrderedExtreme(d, p, at);
  }

  /** The record move_down leaves at slot k once the subtree of k's left child is done: the
   *  smaller of k's and the left child's. */
  function Smaller(a: Data, b: Data): Data
    requires IsValid(a) && IsValid(b)
  {
    if a.value.value > b.value.value then b else a
  }

  /** The exchanges at k and move_down on k's children leave k sorted with its children: what
   *  reaches k is the smaller of k's and the left child's records, and each child's slot ends with
   *  the smaller of what the exchanges left there and its own left child's record. */
  lemma SettledTop(p: map<nat, Data>, at: map<nat, Id>, k: nat, p2: map<nat, Data>, q: map<nat, Data>)
    requires k >= 1 && k in at && 2 * k in at && p.Keys == at.Keys && ValidRecords(p) && p2 == Settled(p, at, k)
    requires q.Keys == at.Keys && ValidRecords(q)
    requires SortedAt(p, 2 * k) && SortedAt(p, 2 * k + 1)
    requires 2 * k + 1 in at ==> !Above(p[2 * k], p[2 * k + 1])
    requires q[k] == p2[k]
    requires q[2 * k] == (if 4 * k in at then Smaller(p2[2 * k], p2[4 * k]) else p2[2 * k])
    requires 2 * k + 1 in at ==>
               q[2 * k + 1] == (if 4 * k + 2 in at then Smaller(p2[2 * k + 1], p2[4 * k + 2]) else p2[2 * k + 1])
    ensures SortedAt(q, k)
  {
    assert IsValid(p[k]) && IsValid(p[2 * k]);
    if 2 * k + 1 in at {
      assert IsValid(p[2 * k + 1]);
    }
    if 4 * k in at {
      SettledFrame(p, at, k, 4 * k);
      assert IsValid(p[4 * k]) && (4 * k) / 2 == 2 * k;
    }
    if 4 * k + 2 in at {
      SettledFrame(p, at, k, 4 * k + 2);
      assert IsValid(p[4 * k + 2]) && (4 * k + 2) / 2 == 2 * k + 1;
    }
  }

  /** Neither of two slots lies below the other: then the same holds of the first one's children. */
  lemma ChildrenAside(c: nat, j: nat)
    requires c >= 1 && !Below(c, j) && !Below(j, c)
    ensures !Below(2 * c, j) && !Below(j, 2 * c) && !Below(2 * c + 1, j) && !Below(j, 2 * c + 1)
  {
    assert (2 * c) / 2 == c && (2 * c + 1) / 2 == c;
    assert Below(c, c);
    if Below(j, 2 * c) {
      BelowParent(j, c, 2 * c);
    }
    if Below(j, 2 * c + 1) {
      BelowParent(j, c, 2 * c + 1);
    }
  }

  /** The exchanges at slot k leave a subtree sorted that lies below k's children. */
  lemma {:induction false} SettledAside(p: map<nat, Data>, at: map<nat, Id>, k: nat, c: nat)
    requires k in at && p.Keys == at.Keys && c > 2 * k + 1 && SortedTree(p, at, c)
    ensures SortedTree(Settled(p, at, k), at, c)
    decreases Cap(at) - c
  {
    if c in at {
      SettledFrame(p, at, k, c);
      if 2 * c in at {
        SettledFrame(p, at, k, 2 * c);
        SettledAside(p, at, k, 2 * c);
      }
      if 2 * c + 1 in at {
        SettledFrame(p, at, k, 2 * c + 1);
        SettledAside(p, at, k, 2 * c + 1);
      }
    }
  }

  /** move_down from slot j leaves a subtree sorted that is apart from j's subtree. */
  lemma {:induction false} SiftedAside(p: map<nat, Data>, at: map<nat, Id>, j: nat, c: nat)
    requires PrefixClosed(at) && j in at && p.Keys == at.Keys && c >= 1 && !Below(c, j) && !Below(j, c)
    requires SortedTree(p, at, c)
    ensures SortedTree(Sifted(p, at, j).records, at, c)
    decreases Cap(at) - c
  {
    if c in at {
      ChildrenAside(c, j);
      SiftedFrame(p, at, j, c);
      if 2 * c in at {
        SiftedFrame(p, at, j, 2 * c);
        SiftedAside(p, at, j, 2 * c);
      }
      if 2 * c + 1 in at {
        SiftedFrame(p, at, j, 2 * c + 1);
        SiftedAside(p, at, j, 2 * c + 1);
      }
    }
  }

  /** The records of a tree are valid, and below slot k the children's subtrees are sorted and
   *  the children in order: what move_down from k needs. */
  ghost predicate Ready(p: map<nat, Data>, at: map<nat, Id>, k: nat)
  {
    && p.Keys == at.Keys && ValidRecords(p)
    && SortedTree(p, at, 2 * k) && SortedTree(p, at, 2 * k + 1)
    && (2 * k in at && 2 * k + 1 in at ==> !Above(p[2 * k], p[2 * k + 1]))
  }

  /** move_down from slot k, in a minimum heap whose subtrees below k's children are sorted and
   *  whose children of k are in order, leaves the subtree of k sorted. */
  lemma {:induction false} SiftedSorts(p: map<nat, Data>, at: map<nat, Id>, k: nat)
    requires PrefixClosed(at) && k in at && Ready(p, at, k)
    ensures Sifted(p, at, k).answer.Returned? ==> SortedTree(Sifted(p, at, k).records, at, k)
    decreases Cap(at) - k, 2
  {
    ParentSlot(at, k);
    if 2 * k + 1 in at && 2 * k !in at {
    } else if 2 * k !in at {
      assert SortedAt(Sifted(p, at, k).records, k);
    } else {
      var p2 := Settled(p, at, k);
      SiftedStep(p, p2, at, k);
      ChildrenSorted(p, at, k, p2);
    }
  }

  /** The step of SiftedSorts below slot k, once the exchanges there leave p2. */
  lemma {:induction false} ChildrenSorted(p: map<nat, Data>, at: map<nat, Id>, k: nat, p2: map<nat, Data>)
    requires PrefixClosed(at) && k in at && p.Keys == at.Keys && ValidRecords(p) && 2 * k in at
    requires SortedTree(p, at, 2 * k) && SortedTree(p, at, 2 * k + 1)
    requires 2 * k + 1 in at ==> !Above(p[2 * k], p[2 * k + 1])
    requires p2 == Settled(p, at, k)
    ensures SiftedChildren(p2, at, k).answer.Returned? ==> SortedTree(SiftedChildren(p2, at, k).records, at, k)
    decreases Cap(at) - k, 1
  {
    ParentSlot(at, k);
    SettledReady(p, at, k, 2 * k, p2);
    SiftedSorts(p2, at, 2 * k);
    var l := Sifted(p2, at, 2 * k);
    if l.answer.Returned? {
      if 2 * k + 1 in at {
        RightSorts(p, at, k, p2, l.records);
      } else {
        LeftTop(p, at, k, p2, l.records);
      }
    }
  }

  /** The two-children case of SiftedSorts, once move_down on the left child leaves q. */
  lemma {:induction false} RightSorts(p: map<nat, Data>, at: map<nat, Id>, k: nat, p2: map<nat, Data>, q: map<nat, Data>)
    requires PrefixClosed(at) && k in at && p.Keys == at.Keys && ValidRecords(p) && 2 * k in at && 2 * k + 1 in at
    requires SortedTree(p, at, 2 * k) && SortedTree(p, at, 2 * k + 1) && !Above(p[2 * k], p[2 * k + 1])
    requires p2 == Settled(p, at, k) && q == Sifted(p2, at, 2 * k).records && SortedTree(q, at, 2 * k)
    ensures Sifted(q, at, 2 * k + 1).answer.Returned? ==> SortedTree(Sifted(q, at, 2 * k + 1).records, at, k)
    decreases Cap(at) - k, 0
  {
    ParentSlot(at, k);
    RightReady(p, at, k, p2, q);
    SiftedSorts(q, at, 2 * k + 1);
    var r := Sifted(q, at, 2 * k + 1);
    if r.answer.Returned? {
      BothTop(p, at, k, p2, q, r.records);
      RightSorted(at, k, q, r.records);
    }
  }

  /** After the exchanges at k, the subtree of k's child c is ready for move_down. */
  lemma SettledReady(p: map<nat, Data>, at: map<nat, Id>, k: nat, c: nat, p2: map<nat, Data>)
    requires PrefixClosed(at) && k in at && p.Keys == at.Keys && ValidRecords(p)
    requires (c == 2 * k || c == 2 * k + 1) && c in at && SortedTree(p, at, c) && p2 == Settled(p, at, k)
    ensures Ready(p2, at, c)
  {
    ParentSlot(at, k);
    SettledValid(p, at, k);
    var l, r := 2 * c, 2 * c + 1;
    assert l > 2 * k + 1 && r > 2 * k + 1;
    assert SortedTree(p, at, l) && SortedTree(p, at, r);
    SettledAside(p, at, k, l);
    SettledAside(p, at, k, r);
    if l in at && r in at {
      assert SortedAt(p, c);
      SettledFrame(p, at, k, l);
      SettledFrame(p, at, k, r);
    }
  }

  /** After the exchanges at k and move_down on the left child, the right child's subtree is
   *  ready for move_down. */
  lemma RightReady(p: map<nat, Data>, at: map<nat, Id>, k: nat, p2: map<nat, Data>, q: map<nat, Data>)
    requires PrefixClosed(at) && k in at && p.Keys == at.Keys && ValidRecords(p)
    requires 2 * k in at && 2 * k + 1 in at && SortedTree(p, at, 2 * k + 1)
    requires p2 == Settled(p, at, k) && q == Sifted(p2, at, 2 * k).records
    ensures Ready(q, at, 2 * k + 1)
  {
    ParentSlot(at, k);
    SettledReady(p, at, k, 2 * k + 1, p2);
    LeftSiftAside(p2, at, k, q);
  }

  /** move_down on the left child of k leaves the right child ready for move_down. */
  lemma LeftSiftAside(p2: map<nat, Data>, at: map<nat, Id>, k: nat, q: map<nat, Data>)
    requires PrefixClosed(at) && k >= 1 && 2 * k in at && Ready(p2, at, 2 * k + 1) && q == Sifted(p2, at, 2 * k).records
    ensures Ready(q, at, 2 * k + 1)
  {
    assert (2 * (2 * k + 1)) / 2 == 2 * k + 1 && (2 * (2 * k + 1) + 1) / 2 == 2 * k + 1;
    SiftedValid(p2, at, 2 * k);
    LeftSiftKeeps(p2, at, k, 2 * (2 * k + 1));
    LeftSiftKeeps(p2, at, k, 2 * (2 * k + 1) + 1);
  }

  /** move_down on the left child of k keeps a subtree below the right child, sorted, and its
   *  top record. */
  lemma LeftSiftKeeps(p2: map<nat, Data>, at: map<nat, Id>, k: nat, g: nat)
    requires PrefixClosed(at) && k >= 1 && 2 * k in at && p2.Keys == at.Keys && g / 2 == 2 * k + 1
    requires SortedTree(p2, at, g)
    ensures SortedTree(Sifted(p2, at, 2 * k).records, at, g)
    ensures g in at ==> Sifted(p2, at, 2 * k).records[g] == p2[g]
  {
    assert Below(g, 2 * k + 1);
    BelowSeparate(g, k);
    NotBelowSmaller(2 * k, g);
    SiftedAside(p2, at, 2 * k, g);
    if g in at {
      SiftedFrame(p2, at, 2 * k, g);
    }
  }

  /** move_down on the left child of k: the left child's slot ends with the smaller of its record
   *  and its own left child's, and slot k, the right child and the right child's left child keep
   *  theirs. */
  lemma LeftSiftRoots(p2: map<nat, Data>, at: map<nat, Id>, k: nat, q: map<nat, Data>)
    requires PrefixClosed(at) && k in at && 2 * k in at && p2.Keys == at.Keys && ValidRecords(p2)
    requires q == Sifted(p2, at, 2 * k).records
    ensures ValidRecords(q) && q[k] == p2[k]
    ensures q[2 * k] == (if 4 * k in at then Smaller(p2[2 * k], p2[4 * k]) else p2[2 * k])
    ensures 2 * k + 1 in at ==> q[2 * k + 1] == p2[2 * k + 1]
    ensures 4 * k + 2 in at ==> q[4 * k + 2] == p2[4 * k + 2]
  {
    ParentSlot(at, k);
    SiftedValid(p2, at, 2 * k);
    SiftedRoot(p2, at, 2 * k);
    if 4 * k in at {
      assert IsValid(p2[2 * k]) && IsValid(p2[4 * k]);
    }
    NotBelowSmaller(k, 2 * k);
    SiftedFrame(p2, at, 2 * k, k);
    if 2 * k + 1 in at {
      LeftSiftSibling(p2, at, k);
    }
    if 4 * k + 2 in at {
      LeftSiftNephew(p2, at, k);
    }
  }

  /** move_down on the left child of k keeps the right child's record. */
  lemma LeftSiftSibling(p2: map<nat, Data>, at: map<nat, Id>, k: nat)
    requires PrefixClosed(at) && k >= 1 && 2 * k in at && 2 * k + 1 in at && p2.Keys == at.Keys
    ensures Sifted(p2, at, 2 * k).records[2 * k + 1] == p2[2 * k + 1]
  {
    BelowSeparate(2 * k + 1, k);
    assert Below(2 * k + 1, 2 * k + 1);
    SiftedFrame(p2, at, 2 * k, 2 * k + 1);
  }

  /** move_down on the left child of k keeps the record of the right child's left child. */
  lemma LeftSiftNephew(p2: map<nat, Data>, at: map<nat, Id>, k: nat)
    requires PrefixClosed(at) && k >= 1 && 2 * k in at && 4 * k + 2 in at && p2.Keys == at.Keys
    ensures Sifted(p2, at, 2 * k).records[4 * k + 2] == p2[4 * k + 2]
  {
    BelowSeparate(4 * k + 2, k);
    assert (4 * k + 2) / 2 == 2 * k + 1 && Below(4 * k + 2, 2 * k + 1);
    SiftedFrame(p2, at, 2 * k, 4 * k + 2);
  }

  /** move_down on the right child of k: the right child's slot ends with the smaller of its
   *  record and its own left child's, and slot k and the left child keep theirs. */
  lemma RightSiftRoots(q: map<nat, Data>, at: map<nat, Id>, k: nat, r: map<nat, Data>)
    requires PrefixClosed(at) && k in at && 2 * k + 1 in at && q.Keys == at.Keys && ValidRecords(q)
    requires r == Sifted(q, at, 2 * k + 1).records
    ensures ValidRecords(r) && r[k] == q[k] && (2 * k in at ==> r[2 * k] == q[2 * k])
    ensures r[2 * k + 1] == (if 4 * k + 2 in at then Smaller(q[2 * k + 1], q[4 * k + 2]) else q[2 * k + 1])
  {
    ParentSlot(at, k);
    SiftedValid(q, at, 2 * k + 1);
    SiftedRoot(q, at, 2 * k + 1);
    if 4 * k + 2 in at {
      assert IsValid(q[2 * k + 1]) && IsValid(q[4 * k + 2]);
    }
    NotBelowSmaller(k, 2 * k + 1);
    SiftedFrame(q, at, 2 * k + 1, k);
    if 2 * k in at {
      BelowSeparate(2 * k, k);
      assert Below(2 * k, 2 * k);
      SiftedFrame(q, at, 2 * k + 1, 2 * k);
    }
  }

  /** The one-child case of SiftedSorts: slot k ends sorted with its left child. */
  lemma LeftTop(p: map<nat, Data>, at: map<nat, Id>, k: nat, p2: map<nat, Data>, q: map<nat, Data>)
    requires PrefixClosed(at) && k in at && p.Keys == at.Keys && ValidRecords(p)
    requires 2 * k in at && 2 * k + 1 !in at && SortedTree(p, at, 2 * k)
    requires p2 == Settled(p, at, k) && q == Sifted(p2, at, 2 * k).records
    ensures SortedAt(q, k)
  {
    ParentSlot(at, k);
    SettledValid(p, at, k);
    LeftSiftRoots(p2, at, k, q);
    SettledTop(p, at, k, p2, q);
  }

  /** In the two-children case of SiftedSorts, slot k ends sorted with its children. */
  lemma BothTop(p: map<nat, Data>, at: map<nat, Id>, k: nat, p2: map<nat, Data>, q: map<nat, Data>,
                r: map<nat, Data>)
    requires PrefixClosed(at) && k in at && p.Keys == at.Keys && ValidRecords(p)
    requires 2 * k in at && 2 * k + 1 in at && !Above(p[2 * k], p[2 * k + 1])
    requires SortedTree(p, at, 2 * k) && SortedTree(p, at, 2 * k + 1)
    requires p2 == Settled(p, at, k) && q == Sifted(p2, at, 2 * k).records && r == Sifted(q, at, 2 * k + 1).records
    ensures SortedAt(r, k)
  {
    ParentSlot(at, k);
    SettledValid(p, at, k);
    LeftSiftRoots(p2, at, k, q);
    RightSiftRoots(q, at, k, r);
    SettledTop(p, at, k, p2, r);
  }

  /** move_down on the right child of k leaves the left child's subtree sorted. */
  lemma RightSorted(at: map<nat, Id>, k: nat, q: map<nat, Data>, r: map<nat, Data>)
    requires PrefixClosed(at) && k >= 1 && 2 * k + 1 in at && q.Keys == at.Keys && r == Sifted(q, at, 2 * k + 1).records
    requires SortedTree(q, at, 2 * k)
    ensures SortedTree(r, at, 2 * k)
  {
    BelowSeparate(2 * k, k);
    BelowSeparate(2 * k + 1, k);
    assert Below(2 * k, 2 * k);
    SiftedAside(q, at, 2 * k + 1, 2 * k);
  }

  // ---------------------------------------------------------------------------------------------
  // pop and replace! on a sorted minimum heap

  /** Dropping slot j and moving its record to the root leaves every subtree below the root sorted
   *  that was. */
  lemma {:induction false} DropSorted(p: map<nat, Data>, at: map<nat, Id>, j: nat, c: nat)
    requires p.Keys == at.Keys && 1 in at && j in at && c >= 2 && SortedTree(p, at, c)
    ensures SortedTree(Exchanged(p, 1, j) - {j}, at - {j}, c)
    decreases Cap(at) - c
  {
    if c in at && c != j {
      if 2 * c in at && 2 * c != j {
        DropSorted(p, at, j, 2 * c);
      }
      if 2 * c + 1 in at && 2 * c + 1 != j {
        DropSorted(p, at, j, 2 * c + 1);
      }
    }
  }

  /** A new record at the root leaves every subtree below the root sorted that was. */
  lemma {:induction false} RootSetSorted(p: map<nat, Data>, at: map<nat, Id>, x: Data, c: nat)
    requires p.Keys == at.Keys && c >= 2 && SortedTree(p, at, c)
    ensures SortedTree(p[1 := x], at, c)
    decreases Cap(at) - c
  {
    if c in at {
      if 2 * c in at {
        RootSetSorted(p, at, x, 2 * c);
      }
      if 2 * c + 1 in at {
        RootSetSorted(p, at, x, 2 * c + 1);
      }
    }
  }

  /** A tree of at most one slot is sorted. */
  lemma SingleSorted(p: map<nat, Data>, at: map<nat, Id>)
    requires p.Keys == at.Keys && |at| <= 1
    ensures SortedTree(p, at, 1)
  {
    if 1 in at {
      var rest := at.Keys - {1};
      assert at.Keys == rest + {1} && |at.Keys| == |rest| + 1;
      assert rest == {};
    }
  }

  /** pop on a sorted minimum heap, last_node being the leaf at slot j: what Removal leaves from the
   *  root is sorted again. */
  lemma RemovalSorts(p: map<nat, Data>, at: map<nat, Id>, j: nat)
    requires PrefixClosed(at) && p.Keys == at.Keys && ValidRecords(p) && 1 in at
    requires j in at && 2 * j !in at && 2 * j + 1 !in at && SortedTree(p, at, 1)
    ensures Removal(p, at, 1, j).answer.Returned? ==> SortedTree(Removal(p, at, 1, j).records, at - {j}, 1)
  {
    var at' := at - {j};
    var p' := Exchanged(p, 1, j) - {j};
    if |at'| <= 1 {
      SingleSorted(p', at');
    } else if j != 1 {
      PrefixClosedWithoutLeaf(at, j);
      ExchangedDropped(p, at, 1, j);
      DropSorted(p, at, j, 2);
      DropSorted(p, at, j, 3);
      assert Ready(p', at', 1);
      SiftedSorts(p', at', 1);
    }
  }

  /** replace! on a sorted minimum heap of two or more nodes: what move_down leaves from the root,
   *  once the new record is there, is sorted again. */
  lemma ReplacementSorts(p: map<nat, Data>, at: map<nat, Id>, x: Data)
    requires PrefixClosed(at) && p.Keys == at.Keys && ValidRecords(p) && 1 in at && IsValid(x)
    requires SortedTree(p, at, 1)
    ensures SortedTree(p[1 := x], at, 2) && SortedTree(p[1 := x], at, 3)
    ensures Sifted(p[1 := x], at, 1).answer.Returned? ==> SortedTree(Sifted(p[1 := x], at, 1).records, at, 1)
  {
    var p' := p[1 := x];
    RootSetSorted(p, at, x, 2);
    RootSetSorted(p, at, x, 3);
    assert Ready(p', at, 1);
    SiftedSorts(p', at, 1);
  }

  /** pop from the root of a sorted minimum heap (MinimumHeap, or HeapBase with max_type false), as
   *  RemovedFrom says: the heap left is sorted, heap-ordered and has its least record at the root. */
  lemma PoppedSorted(d: Repair, m0: map<Id, Node>, m: map<Id, Node>, at: map<nat, Id>, root: Obj, size: int,
                     last: Obj, j: nat, r: Outcome<Removed>, size': int, last': Obj, at': map<nat, Id>, j': nat)
    requires d != BaseRepair(true) && Shaped(m0, at, root, size, last, j) && at != map[] && 1 in at
    requires RemovedFrom(m0, m, at, root, size, last, j, 1, r, size', last', at', j') && r.Returned?
    requires SortedTree(Payload(m0, at), at, 1)
    ensures Shaped(m, at', root, size', last', j')
    ensures SortedTree(Payload(m, at'), at', 1) && HeapOrdered(d, Payload(m, at')) && RootExtreme(d, Payload(m, at'))
  {
    var p := Payload(m0, at);
    AllValidRecords(m0, at);
    AllValidRecords(m, at');
    if LastInTree(at, last, j) {
      RemovalSorts(p, at, j);
    }
    SortedOrdered(d, Payload(m, at'), at');
  }

  /** replace! on a sorted minimum heap, as ReplacedIn says (c being the node made for the new
   *  record): the heap left is sorted, heap-ordered and has its least record at the root. */
  lemma ReplacedSorted(d: Repair, m0: map<Id, Node>, m: map<Id, Node>, at: map<nat, Id>, root: Obj, size: int,
                       c: Id, r: Outcome<Removed>, last': Obj, at': map<nat, Id>, j': nat)
    requires d != BaseRepair(true) && Positioned(m0, at) && AllValid(m0, at) && 1 in at && c in m0 && size == |at|
    requires ReplacedIn(m0, m, at, root, size, c, r, last', at', j') && r.Returned?
    requires SortedTree(Payload(m0, at), at, 1)
    ensures SortedTree(Payload(m, at'), at', 1) && HeapOrdered(d, Payload(m, at')) && RootExtreme(d, Payload(m, at'))
  {
    var p := Payload(m0, at);
    var x := m0[c].data;
    AllValidRecords(m0, at);
    AllValidRecords(m, at');
    if IsValid(x) {
      if size > 1 {
        SiftedAnswer(p[1 := x], at, 1);
        ReplacementSorts(p, at, x);
      } else {
        SingleSorted(p[1 := x], at);
      }
    }
    SortedOrdered(d, Payload(m, at'), at');
  }

  // ---------------------------------------------------------------------------------------------
  // What the sift-up keeps in a minimum heap

  /** Every slot is sorted with its children. */
  ghost predicate Sorted(p: map<nat, Data>)
  {
    forall k {:trigger SortedAt(p, k)} :: k in p ==> SortedAt(p, k)
  }

  /** A tree is sorted from the root exactly when each of its slots is sorted with its children. */
  lemma SortedEverywhere(p: map<nat, Data>, at: map<nat, Id>)
    requires PrefixClosed(at) && p.Keys == at.Keys
    ensures SortedTree(p, at, 1) <==> Sorted(p)
  {
    if SortedTree(p, at, 1) {
      forall k | k in p ensures SortedAt(p, k) {
        BelowRoot(k);
        SortedTreeAt(p, at, 1, k);
      }
    }
    if Sorted(p) {
      SortedFrom(p, at, 1);
    }
  }

  lemma {:induction false} SortedFrom(p: map<nat, Data>, at: map<nat, Id>, k: nat)
    requires p.Keys == at.Keys && Sorted(p)
    ensures SortedTree(p, at, k)
    decreases Cap(at) - k
  {
    if k >= 1 && k in at {
      if 2 * k in at {
        SortedFrom(p, at, 2 * k);
      }
      if 2 * k + 1 in at {
        SortedFrom(p, at, 2 * k + 1);
      }
    }
  }

  /** Slot k sorted with its children but for the edge from k down to slot n. */
  ghost predicate SortedBut(p: map<nat, Data>, k: nat, n: nat)
  {
    && (k in p && 2 * k in p && 2 * k != n ==> !Above(p[k], p[2 * k]))
    && (k in p && 2 * k + 1 in p && 2 * k + 1 != n ==> !Above(p[k], p[2 * k + 1]))
    && (k in p && 2 * k in p && 2 * k + 1 in p ==> !Above(p[2 * k], p[2 * k + 1]))
  }

  /** The records while the pushed record climbs from slot n: every slot is sorted with its
   *  children but for the edge from n's parent down to n, and n's parent is no greater than n's
   *  children, so that its record may come down into n's slot. */
  ghost predicate Rising(p: map<nat, Data>, n: nat)
  {
    && (forall k {:trigger SortedAt(p, k)} :: k in p && k != n / 2 ==> SortedAt(p, k))
    && SortedBut(p, n / 2, n)
    && (n / 2 in p && 2 * n in p ==> !Above(p[n / 2], p[2 * n]))
    && (n / 2 in p && 2 * n + 1 in p ==> !Above(p[n / 2], p[2 * n + 1]))
  }

  /** The loop once the pushed record has stopped: the tree is sorted, and eval_node (when it is a
   *  node) holds a record no greater than the pushed one. */
  ghost predicate Calm(c: Climb)
  {
    Sorted(c.records) && (c.eval in c.records && c.node in c.records ==> !Above(c.records[c.eval], c.records[c.node]))
  }

  /** balance_subtree on valid records, for either heap: a right child exchanges records with a
   *  greater left sibling and answers it; a right child no smaller than its left sibling, a left
   *  child no greater than its right sibling and a node without a sibling stay where they are. */
  lemma BalanceValues(r: Repair, p: map<nat, Data>, at: map<nat, Id>, s: nat)
    requires p.Keys == at.Keys && ValidRecords(p)
    ensures Balanceable(at, s) && s % 2 == 1 ==>
              Balance(r, p, at, s) == if Above(p[s - 1], p[s]) then Balanced(Exchanged(p, s - 1, s), s - 1) else Balanced(p, s)
    ensures !Balanceable(at, s) || (s % 2 == 0 && !Above(p[s], p[s + 1])) ==> Balance(r, p, at, s) == Balanced(p, s)
  {
    if Balanceable(at, s) {
      assert IsValid(p[s]) && IsValid(p[2 * (s / 2)]) && IsValid(p[2 * (s / 2) + 1]);
    }
  }

  /** In a sorted tree balance_subtree changes nothing. */
  lemma SortedBalance(r: Repair, p: map<nat, Data>, at: map<nat, Id>, k: nat)
    requires PrefixClosed(at) && p.Keys == at.Keys && ValidRecords(p) && Sorted(p)
    ensures Balance(r, p, at, k) == Balanced(p, k)
  {
    BalanceValues(r, p, at, k);
    if Balanceable(at, k) {
      ParentSlot(at, k);
      assert SortedAt(p, k / 2);
    }
  }

  /** Slot k is sorted with its children in q when it is in p and q agrees with p there. */
  lemma SortedAtSame(p: map<nat, Data>, q: map<nat, Data>, k: nat)
    requires p.Keys == q.Keys && k in p && SortedAt(p, k)
    requires q[k] == p[k] && (2 * k in p ==> q[2 * k] == p[2 * k]) && (2 * k + 1 in p ==> q[2 * k + 1] == p[2 * k + 1])
    ensures SortedAt(q, k)
  {
  }

  /** A round in which the pushed record at slot n is smaller than its parent's: the two exchange
   *  records, and where balance_subtree then leaves it the climb goes on from the parent's slot. */
  lemma RisingExchanged(p: map<nat, Data>, q: map<nat, Data>, n: nat)
    requires ValidRecords(p) && n >= 2 && n in p && n / 2 in p && Rising(p, n) && Above(p[n / 2], p[n])
    requires n / 2 >= 2 ==> n / 2 / 2 in p
    requires n / 2 % 2 == 1 && n / 2 - 1 in p ==> !Above(p[n / 2 - 1], p[n])
    requires q == Exchanged(p, n / 2, n)
    ensures Rising(q, n / 2)
  {
    RisingLifted(p, q, n);
  }

  /** The records after that round: the pushed record at n in its parent's slot e, e's record at n. */
  lemma RisingLifted(p: map<nat, Data>, q: map<nat, Data>, n: nat)
    requires ValidRecords(p) && n >= 2 && n in p && n / 2 in p && Rising(p, n) && Above(p[n / 2], p[n])
    requires n / 2 >= 2 ==> n / 2 / 2 in p
    requires n / 2 % 2 == 1 && n / 2 - 1 in p ==> !Above(p[n / 2 - 1], p[n])
    requires q.Keys == p.Keys && q[n / 2] == p[n] && q[n] == p[n / 2]
    requires forall i :: i in p && i != n / 2 && i != n ==> q[i] == p[i]
    ensures Rising(q, n / 2)
  {
    var e := n / 2;
    assert SortedBut(p, e, n);
    forall k | k in q && k != e / 2 ensures SortedAt(q, k) {
      if k == e {
        if 2 * e in p {
          assert IsValid(p[2 * e]);
        }
        if 2 * e + 1 in p {
          assert IsValid(p[2 * e + 1]);
        }
      } else if k == n {
        assert SortedAt(p, n);
      } else {
        assert 2 * k != e && 2 * k + 1 != e && 2 * k != n && 2 * k + 1 != n;
        SortedAtSame(p, q, k);
      }
    }
    if e >= 2 {
      var g := e / 2;
      assert SortedAt(p, g);
      assert g in p && IsValid(p[g]);
      if 2 * g in p && 2 * g + 1 in p {
        assert IsValid(p[2 * g]) && IsValid(p[2 * g + 1]);
        if e == 2 * g {
          assert 2 * g + 1 != n;
        }
      }
      assert SortedBut(q, g, e);
      if 2 * e + 1 in p {
        assert IsValid(p[2 * e + 1]);
      }
    }
  }

  /** A round in which balance_subtree then moves the pushed record on to the greater left sibling
   *  of its parent's slot: the climb goes on from that sibling's slot. */
  lemma RisingExchangedTwice(p: map<nat, Data>, q: map<nat, Data>, n: nat)
    requires ValidRecords(p) && n >= 2 && n in p && n / 2 in p && Rising(p, n) && Above(p[n / 2], p[n])
    requires n / 2 >= 2 && n / 2 % 2 == 1 && n / 2 - 1 in p && n / 2 / 2 in p && Above(p[n / 2 - 1], p[n])
    requires q == Exchanged(Exchanged(p, n / 2, n), n / 2 - 1, n / 2)
    ensures Rising(q, n / 2 - 1)
  {
    var e := n / 2;
    assert q[e - 1] == p[n] && q[e] == p[e - 1] && q[n] == p[e];
    RisingRotated(p, q, n);
  }

  /** The records after that round: the pushed record at n in the left sibling f of its parent's
   *  slot e, f's record at e and e's at n. */
  lemma RisingRotated(p: map<nat, Data>, q: map<nat, Data>, n: nat)
    requires ValidRecords(p) && n >= 2 && n in p && n / 2 in p && Rising(p, n) && Above(p[n / 2], p[n])
    requires n / 2 >= 2 && n / 2 % 2 == 1 && n / 2 - 1 in p && n / 2 / 2 in p && Above(p[n / 2 - 1], p[n])
    requires var e := n / 2; var f := e - 1;
             && q.Keys == p.Keys && q[f] == p[n] && q[e] == p[f] && q[n] == p[e]
             && forall i :: i in p && i != e && i != n && i != f ==> q[i] == p[i]
    ensures Rising(q, n / 2 - 1)
  {
    var e := n / 2;
    var f: nat := e - 1;
    var g := e / 2;
    assert e >= 3 && f / 2 == g && 2 * g == f && 2 * g + 1 == e;
    assert SortedBut(p, e, n) && SortedAt(p, g) && SortedAt(p, f);
    assert IsValid(p[g]) && IsValid(p[f]) && IsValid(p[e]) && IsValid(p[n]);
    forall k | k in q && k != g ensures SortedAt(q, k) {
      if k == e {
        if 2 * e in p {
          assert IsValid(p[2 * e]);
        }
        if 2 * e + 1 in p {
          assert IsValid(p[2 * e + 1]);
        }
      } else if k == n {
        assert SortedAt(p, n);
      } else if k == f {
        if 2 * f in p {
          assert IsValid(p[2 * f]);
        }
        if 2 * f + 1 in p {
          assert IsValid(p[2 * f + 1]);
        }
      } else {
        assert 2 * k != e && 2 * k + 1 != e && 2 * k != n && 2 * k + 1 != n && 2 * k != f && 2 * k + 1 != f;
        SortedAtSame(p, q, k);
      }
    }
    assert SortedBut(q, g, f);
    if 2 * f in p {
      assert IsValid(p[2 * f]);
    }
    if 2 * f + 1 in p {
      assert IsValid(p[2 * f + 1]);
    }
  }

  /** Once the pushed record has stopped, every further round only balances sorted slots and moves
   *  eval_node up: the records stay as they are. */
  lemma {:induction false} CalmClimb(r: Repair, at: map<nat, Id>, c: Climb)
    requires r != BaseRepair(true) && ClimbIn(at, c) && ValidRecords(c.records) && Calm(c)
    ensures Maintained(r, at, c).records == c.records
    decreases c.eval
  {
    if c.eval != 0 {
      var p, n, e := c.records, c.node, c.eval;
      assert IsValid(p[e]) && IsValid(p[n]);
      SortedBalance(r, p, at, e / 2);
      ParentSlot(at, e);
      var c' := Step(r, at, c);
      assert c' == Climb(p, n, e / 2);
      if e >= 2 {
        assert SortedAt(p, e / 2) && IsValid(p[e / 2]);
      }
      CalmClimb(r, at, c');
    }
  }

  /** A round from a Rising state whose pushed record is smaller than its parent's: the climb
   *  goes on, Rising, from the slot the record reaches. */
  lemma RisingRound(r: Repair, at: map<nat, Id>, c: Climb)
    requires r != BaseRepair(true) && ClimbIn(at, c) && ValidRecords(c.records)
    requires c.eval == c.node / 2 && c.eval != 0 && Rising(c.records, c.node)
    requires Above(c.records[c.eval], c.records[c.node])
    ensures var c' := Step(r, at, c); c'.eval == c'.node / 2 && Rising(c'.records, c'.node)
  {
    var p, n, e := c.records, c.node, c.eval;
    ParentSlot(at, e);
    if e % 2 == 0 && e + 1 in p {
      assert e / 2 in p && e / 2 != n / 2 && SortedAt(p, e / 2);
      assert !Above(p[e], p[e + 1]) && IsValid(p[e + 1]);
    }
    if e % 2 == 1 && e - 1 in p && Above(p[e - 1], p[n]) {
      RisingRoundTwice(r, at, c);
    } else {
      RisingRoundOnce(r, at, c);
    }
  }

  /** RisingRound when the pushed record also passes the left sibling of its parent. */
  lemma RisingRoundTwice(r: Repair, at: map<nat, Id>, c: Climb)
    requires r != BaseRepair(true) && ClimbIn(at, c) && ValidRecords(c.records)
    requires c.eval == c.node / 2 && c.eval != 0 && Rising(c.records, c.node)
    requires Above(c.records[c.eval], c.records[c.node]) && c.eval / 2 in c.records
    requires c.eval % 2 == 1 && c.eval - 1 in c.records && Above(c.records[c.eval - 1], c.records[c.node])
    ensures var c' := Step(r, at, c); c'.eval == c'.node / 2 && Rising(c'.records, c'.node)
  {
    RoundMoves(r, at, c);
    RisingExchangedTwice(c.records, Step(r, at, c).records, c.node);
  }

  /** RisingRound when the pushed record stays on its side of the tree. */
  lemma RisingRoundOnce(r: Repair, at: map<nat, Id>, c: Climb)
    requires r != BaseRepair(true) && ClimbIn(at, c) && ValidRecords(c.records)
    requires c.eval == c.node / 2 && c.eval != 0 && Rising(c.records, c.node)
    requires Above(c.records[c.eval], c.records[c.node]) && (c.eval >= 2 ==> c.eval / 2 in c.records)
    requires c.eval % 2 == 0 && c.eval + 1 in c.records ==> !Above(c.records[c.node], c.records[c.eval + 1])
    requires !(c.eval % 2 == 1 && c.eval - 1 in c.records && Above(c.records[c.eval - 1], c.records[c.node]))
    ensures var c' := Step(r, at, c); c'.eval == c'.node / 2 && Rising(c'.records, c'.node)
  {
    RoundMoves(r, at, c);
    RisingExchanged(c.records, Step(r, at, c).records, c.node);
  }

  /** The records a round moves when the pushed record is smaller than its parent's: the two
   *  are exchanged, and then the parent's record is exchanged with its left sibling's when that
   *  one is larger still. */
  lemma RoundMoves(r: Repair, at: map<nat, Id>, c: Climb)
    requires r != BaseRepair(true) && ClimbIn(at, c) && ValidRecords(c.records)
    requires c.eval == c.node / 2 && c.eval != 0 && Above(c.records[c.eval], c.records[c.node])
    requires c.eval % 2 == 0 && c.eval + 1 in c.records ==> !Above(c.records[c.node], c.records[c.eval + 1])
    ensures var p, n, e := c.records, c.node, c.eval;
            var q := Exchanged(p, e, n);
            Step(r, at, c) == if e % 2 == 1 && e - 1 in p && Above(p[e - 1], p[n])
                              then Climb(Exchanged(q, e - 1, e), e - 1, (e - 1) / 2)
                              else Climb(q, e, e / 2)
  {
    var p, n, e := c.records, c.node, c.eval;
    var q := Exchanged(p, e, n);
    assert IsValid(p[e]) && IsValid(p[n]) && Rank(r, p[e]) < Rank(r, p[n]);
    ParentSlot(at, e);
    ExchangedValid(p, e, n);
    BalanceValues(r, q, at, e);
    if e % 2 == 1 && e - 1 in p {
      assert Balanceable(at, e) && q[e - 1] == p[e - 1];
    } else if e % 2 == 0 && e + 1 in p {
      assert q[e] == p[n] && q[e + 1] == p[e + 1];
    }
  }

  /** A round from a Rising state whose pushed record is no smaller than its parent's: the tree
   *  is sorted, and the climb goes on Calm. */
  lemma StoppedRound(r: Repair, at: map<nat, Id>, c: Climb)
    requires r != BaseRepair(true) && ClimbIn(at, c) && ValidRecords(c.records)
    requires c.eval == c.node / 2 && c.eval != 0 && Rising(c.records, c.node)
    requires !Above(c.records[c.eval], c.records[c.node])
    ensures Calm(Step(r, at, c))
  {
    var p, n, e := c.records, c.node, c.eval;
    assert IsValid(p[e]) && IsValid(p[n]);
    assert SortedBut(p, e, n);
    forall k | k in p ensures SortedAt(p, k) {
      if k == e {
        assert SortedAt(p, e);
      }
    }
    SortedBalance(r, p, at, e / 2);
    ParentSlot(at, e);
    assert Step(r, at, c) == Climb(p, n, e / 2);
    if e >= 2 {
      assert SortedAt(p, e / 2) && IsValid(p[e / 2]);
    }
  }

  /** The loop of maintain_heap_property from a Rising state leaves a sorted tree. */
  lemma {:induction false} RisingClimb(r: Repair, at: map<nat, Id>, c: Climb)
    requires r != BaseRepair(true) && ClimbIn(at, c) && ValidRecords(c.records)
    requires c.eval == c.node / 2 && Rising(c.records, c.node)
    ensures Sorted(Maintained(r, at, c).records)
    decreases c.eval
  {
    var p, n, e := c.records, c.node, c.eval;
    if e == 0 {
      assert n == 1;
      forall k | k in p ensures SortedAt(p, k) {
        ParentSlot(at, k);
      }
    } else {
      StepBag(r, at, c);
      var c' := Step(r, at, c);
      if Above(p[e], p[n]) {
        RisingRound(r, at, c);
        RisingClimb(r, at, c');
      } else {
        StoppedRound(r, at, c);
        CalmClimb(r, at, c');
      }
    }
  }

  /** The first balance_subtree of a push, the record d at the last slot s of a tree whose other
   *  slots are sorted: the climb starts from a Rising state. */
  lemma RisingStart(r: Repair, p: map<nat, Data>, at: map<nat, Id>, s: nat, d: Data, c: Id)
    requires PrefixClosed(at[s := c]) && p.Keys == at.Keys && ValidRecords(p) && IsValid(d)
    requires s >= 2 && s !in at && (forall k :: k in at ==> k < s) && Sorted(p)
    ensures var b := Balance(r, p[s := d], at[s := c], s); b.slot / 2 == s / 2 && Rising(b.records, b.slot)
  {
    var at', q := at[s := c], p[s := d];
    ParentSlot(at', s);
    var g := s / 2;
    assert g in p && SortedAt(p, g) && IsValid(p[g]);
    forall k | k in q && k != g ensures SortedAt(q, k) {
      if k != s {
        assert SortedAt(p, k) && 2 * k != s && 2 * k + 1 != s;
      }
    }
    BalanceValues(r, q, at', s);
    if s % 2 == 1 && s - 1 in at {
      var l := s - 1;
      assert Balanceable(at', s) && 2 * g == l && IsValid(p[l]);
      if Above(q[l], q[s]) {
        var q' := Exchanged(q, l, s);
        forall k | k in q' && k != g ensures SortedAt(q', k) {
          if k != s && k != l {
            assert SortedAt(q, k) && 2 * k != s && 2 * k + 1 != s && 2 * k != l && 2 * k + 1 != l;
          }
        }
      }
    }
  }

  /** A push onto a sorted minimum heap (MinimumHeap, or HeapBase with max_type false), the new
   *  valid record d put at the slot s after every slot of the tree and sifted up by
   *  maintain_heap_property, leaves the tree sorted. */
  lemma RepairedSorts(r: Repair, p: map<nat, Data>, at: map<nat, Id>, s: nat, d: Data, c: Id)
    requires r != BaseRepair(true) && PrefixClosed(at) && PrefixClosed(at[s := c]) && p.Keys == at.Keys
    requires ValidRecords(p) && IsValid(d) && s !in at && (forall k :: k in at ==> k < s)
    requires SortedTree(p, at, 1)
    ensures SortedTree(Repaired(r, p[s := d], at[s := c], s).records, at[s := c], 1)
  {
    var at', q := at[s := c], p[s := d];
    SortedEverywhere(p, at);
    ParentSlot(at', s);
    var b := Repaired(r, q, at', s);
    if s < 2 {
      assert at == map[];
      assert b.records == q;
      forall k | k in q ensures SortedAt(q, k) {
        assert k == 1;
      }
    } else {
      RisingStart(r, p, at, s, d, c);
      var b0 := Balance(r, q, at', s);
      BalanceBag(r, q, at', s);
      RisingClimb(r, at', Climb(b0.records, b0.slot, b0.slot / 2));
    }
    SortedEverywhere(b.records, at');
  }
}
