/**
 * The sift-up that ends a push: maintain_heap_property and balance_subtree, in the two forms the
 * repository has them (Heaps::HeapBase, whose comparator is fixed at construction, and the older
 * Heaps::MinimumHeap). Both move records only: swap_contents exchanges descriptions and values
 * and leaves every link alone.
 *
 * The records are first followed as a map from level-order slots to records (Balance,
 * Maintained, Repaired); the methods at the end do the same moves on a store of nodes.
 */
module SiftUps {
  import opened Wrappers
  import opened Bags
  import opened HeapNodes
  import opened NodeStores

  /** Whose repair: HeapBase with a maximum (true) or minimum comparator, or MinimumHeap. */
  datatype Repair = BaseRepair(max: bool) | MinimumRepair

  /** How good a record is for the root: its value in a maximum heap, minus its value in the
   *  others. */
  function Rank(r: Repair, d: Data): int
  {
    if d.value.None? then 0 else if r == BaseRepair(true) then d.value.value else -d.value.value
  }

  /** The sift-up's test on the records of eval_node (a) and node (b). HeapBase's call
   *  `eval_node.compare(node)` applies the comparator to the two values (`a < b` for a maximum
   *  heap, `a > b` otherwise); MinimumHeap asks whether (a <=> b) > 0. It holds exactly when the
   *  node's record would be better placed above. */
  function Compare(r: Repair, a: Data, b: Data): (out: bool)
    requires IsValid(a) && IsValid(b)
    ensures out <==> Rank(r, a) < Rank(r, b)
  {
    match r
    case BaseRepair(max) => if max then a.value.value < b.value.value else a.value.value > b.value.value
    case MinimumRepair => Spaceship(a, b) == Returned(1)
  }

  // ---------------------------------------------------------------------------------------------
  // The moves on a slot map

  /** Records after a balancing or repair step, and the slot of the node it answers. */
  datatype Balanced = Balanced(records: map<nat, Data>, slot: nat)

  /** balance_subtree does something only when the node at slot s is valid, its parent is valid,
   *  and the parent has both children. Slot 0 stands for an EmptyNode. */
  ghost predicate Balanceable(at: map<nat, Id>, s: nat)
  {
    s in at && s >= 2 && 2 * (s / 2) in at && 2 * (s / 2) + 1 in at
  }

  /** balance_subtree on the node at slot s (or an EmptyNode, s = 0), the parent's children being
   *  at l and l + 1. HeapBase: when the left child's contents differ from the node's and the left
   *  value is greater (ascending Node#>), the two exchange records and the left child is the
   *  answer. MinimumHeap: when the node's contents are the left child's, a smaller right child
   *  exchanges records with it and is the answer; otherwise a greater left child does. */
  ghost function Balance(r: Repair, p: map<nat, Data>, at: map<nat, Id>, s: nat): (b: Balanced)
    requires p.Keys == at.Keys
    ensures b.records.Keys == p.Keys
    ensures b.slot == s || (Balanceable(at, s) && b.slot in at && b.slot >= 2 && b.slot / 2 == s / 2)
  {
    if !Balanceable(at, s) then Balanced(p, s)
    else
      var l := 2 * (s / 2);
      var rt := l + 1;
      match r
      case BaseRepair(_) =>
        if p[l] != p[s] && Greater(p[l], p[s]) == Returned(true) then Balanced(Exchanged(p, l, s), l)
        else Balanced(p, s)
      case MinimumRepair =>
        if p[l] == p[s] then
          if Spaceship(p[rt], p[s]) == Returned(-1) then Balanced(Exchanged(p, rt, s), rt) else Balanced(p, s)
        else if Spaceship(p[l], p[s]) == Returned(1) then Balanced(Exchanged(p, l, s), l)
        else Balanced(p, s)
  }

  /** A balancing step changes nothing, or exchanges the node's record with its sibling's and
   *  answers the sibling, which now holds the node's record. The root is never touched. */
  lemma BalanceShape(r: Repair, p: map<nat, Data>, at: map<nat, Id>, s: nat)
    requires p.Keys == at.Keys
    ensures var b := Balance(r, p, at, s);
            || b == Balanced(p, s)
            || (&& Balanceable(at, s) && b.slot in at && b.slot >= 2 && b.slot != s && b.slot / 2 == s / 2
                && b.records == Exchanged(p, b.slot, s))
  {
  }

  /** Where a step applies, the two children of the parent end in ascending order of value: in
   *  MinimumHeap always, in HeapBase when the node is the right child (a left child is left as it
   *  is). */
  lemma BalanceOrdersSiblings(r: Repair, p: map<nat, Data>, at: map<nat, Id>, s: nat)
    requires p.Keys == at.Keys && ValidRecords(p) && Balanceable(at, s)
    requires r.BaseRepair? ==> s % 2 == 1
    ensures var b := Balance(r, p, at, s);
            var l := 2 * (s / 2);
            b.records[l].value.value <= b.records[l + 1].value.value
  {
    var l := 2 * (s / 2);
    assert IsValid(p[l]) && IsValid(p[l + 1]) && IsValid(p[s]);
    assert s == l || s == l + 1;
  }

  /** The state of maintain_heap_property's loop: the records, the node's slot and eval_node's
   *  slot (0 for an EmptyNode). */
  datatype Climb = Climb(records: map<nat, Data>, node: nat, eval: nat)

  ghost predicate ClimbIn(at: map<nat, Id>, c: Climb)
  {
    PrefixClosed(at) && c.records.Keys == at.Keys && c.node in at && (c.eval == 0 || c.eval in at)
  }

  /** One round of the loop, eval_node being valid: when the two are out of order they exchange
   *  records, eval_node's slot is balanced and its answer becomes the node, whose parent is the
   *  next eval_node; otherwise the parent of eval_node is balanced and its answer is the next
   *  eval_node. */
  ghost function Step(r: Repair, at: map<nat, Id>, c: Climb): (c': Climb)
    requires ClimbIn(at, c) && c.eval != 0
    ensures ClimbIn(at, c') && c'.eval < c.eval
  {
    var p, ns, es := c.records, c.node, c.eval;
    if Rank(r, p[es]) < Rank(r, p[ns]) then
      var b := Balance(r, Exchanged(p, es, ns), at, es);
      ParentSlot(at, b.slot);
      Climb(b.records, b.slot, b.slot / 2)
    else
      ParentSlot(at, es);
      var b := Balance(r, p, at, es / 2);
      Climb(b.records, ns, b.slot)
  }

  /** The loop run until eval_node is an EmptyNode; the answer is the node. */
  ghost function Maintained(r: Repair, at: map<nat, Id>, c: Climb): (b: Balanced)
    requires ClimbIn(at, c)
    ensures b.records.Keys == at.Keys && b.slot in at
    decreases c.eval
  {
    if c.eval == 0 then Balanced(c.records, c.node) else Maintained(r, at, Step(r, at, c))
  }

  /** maintain_heap_property on the node at slot s: nothing at the root (its parent is an
   *  EmptyNode); otherwise the node's slot is balanced and the loop starts from the answer and
   *  its parent. */
  ghost function Repaired(r: Repair, p: map<nat, Data>, at: map<nat, Id>, s: nat): (b: Balanced)
    requires PrefixClosed(at) && p.Keys == at.Keys && s in at
    ensures b.records.Keys == p.Keys && b.slot in at
  {
    ParentSlot(at, s);
    if s < 2 then Balanced(p, s)
    else
      var b := Balance(r, p, at, s);
      ParentSlot(at, b.slot);
      Maintained(r, at, Climb(b.records, b.slot, b.slot / 2))
  }

  // ---------------------------------------------------------------------------------------------
  // What the moves keep

  /** Exchanging two records keeps the tree's multiset of records. */
  lemma ExchangedBag(p: map<nat, Data>, at: map<nat, Id>, i: nat, j: nat)
    requires p.Keys == at.Keys && i in at && j in at
    ensures BagOf(Exchanged(p, i, j), at.Keys) == BagOf(p, at.Keys)
  {
    BagOfSwap<nat, Data>(p, Exchanged(p, i, j), at.Keys, i, j);
  }

  /** A balancing step keeps the multiset of records, and keeps valid records valid. */
  lemma BalanceBag(r: Repair, p: map<nat, Data>, at: map<nat, Id>, s: nat)
    requires p.Keys == at.Keys
    ensures BagOf(Balance(r, p, at, s).records, at.Keys) == BagOf(p, at.Keys)
    ensures ValidRecords(p) ==> ValidRecords(Balance(r, p, at, s).records)
  {
    BalanceShape(r, p, at, s);
    var b := Balance(r, p, at, s);
    if b != Balanced(p, s) {
      ExchangedBag(p, at, b.slot, s);
      if ValidRecords(p) {
        ExchangedValid(p, b.slot, s);
      }
    }
  }

  /** A round keeps the multiset of records, and keeps valid records valid. */
  lemma StepBag(r: Repair, at: map<nat, Id>, c: Climb)
    requires ClimbIn(at, c) && c.eval != 0
    ensures BagOf(Step(r, at, c).records, at.Keys) == BagOf(c.records, at.Keys)
    ensures ValidRecords(c.records) ==> ValidRecords(Step(r, at, c).records)
  {
    var p, ns, es := c.records, c.node, c.eval;
    if Rank(r, p[es]) < Rank(r, p[ns]) {
      var q := Exchanged(p, es, ns);
      assert Step(r, at, c).records == Balance(r, q, at, es).records;
      ExchangedStepBag(r, at, p, q, es, ns);
    } else {
      assert Step(r, at, c).records == Balance(r, p, at, es / 2).records;
      BalanceBag(r, p, at, es / 2);
    }
  }

  /** The exchange of a round, then balance_subtree, keep the records. */
  lemma ExchangedStepBag(r: Repair, at: map<nat, Id>, p: map<nat, Data>, q: map<nat, Data>, es: nat, ns: nat)
    requires p.Keys == at.Keys && es in at && ns in at && q == Exchanged(p, es, ns)
    ensures BagOf(Balance(r, q, at, es).records, at.Keys) == BagOf(p, at.Keys)
    ensures ValidRecords(p) ==> ValidRecords(Balance(r, q, at, es).records)
  {
    ExchangedBag(p, at, es, ns);
    if ValidRecords(p) {
      ExchangedValid(p, es, ns);
    }
    BalanceBag(r, q, at, es);
  }

  /** The repair loop keeps the tree's multiset of records, and keeps valid records valid. */
  lemma {:induction false} MaintainedBag(r: Repair, at: map<nat, Id>, c: Climb)
    requires ClimbIn(at, c)
    ensures BagOf(Maintained(r, at, c).records, at.Keys) == BagOf(c.records, at.Keys)
    ensures ValidRecords(c.records) ==> ValidRecords(Maintained(r, at, c).records)
    decreases c.eval
  {
    if c.eval != 0 {
      StepBag(r, at, c);
      MaintainedBag(r, at, Step(r, at, c));
    }
  }

  /** The sift-up keeps the tree's multiset of records, and keeps valid records valid. */
  lemma RepairedBag(r: Repair, p: map<nat, Data>, at: map<nat, Id>, s: nat)
    requires PrefixClosed(at) && p.Keys == at.Keys && s in at
    ensures BagOf(Repaired(r, p, at, s).records, at.Keys) == BagOf(p, at.Keys)
    ensures ValidRecords(p) ==> ValidRecords(Repaired(r, p, at, s).records)
  {
    ParentSlot(at, s);
    if s >= 2 {
      var b := Balance(r, p, at, s);
      BalanceBag(r, p, at, s);
      ParentSlot(at, b.slot);
      MaintainedBag(r, at, Climb(b.records, b.slot, b.slot / 2));
    }
  }

  /** A round keeps eval_node above the node, and the node's record where the node is: a
   *  balancing step above the node never reaches its slot. */
  lemma StepKeepsRecord(r: Repair, at: map<nat, Id>, c: Climb)
    requires ClimbIn(at, c) && c.eval != 0 && c.eval < c.node
    ensures var c' := Step(r, at, c); c'.eval < c'.node && c'.records[c'.node] == c.records[c.node]
  {
    var p, ns, es := c.records, c.node, c.eval;
    if Rank(r, p[es]) < Rank(r, p[ns]) {
      BalanceShape(r, Exchanged(p, es, ns), at, es);
    } else {
      BalanceShape(r, p, at, es / 2);
    }
  }

  /** The loop ends at a node holding the record it started with. */
  lemma {:induction false} MaintainedKeepsRecord(r: Repair, at: map<nat, Id>, c: Climb)
    requires ClimbIn(at, c) && c.eval < c.node
    ensures var b := Maintained(r, at, c); b.records[b.slot] == c.records[c.node]
    decreases c.eval
  {
    if c.eval != 0 {
      StepKeepsRecord(r, at, c);
      MaintainedKeepsRecord(r, at, Step(r, at, c));
    }
  }

  /** The sift-up answers the node that now holds the pushed record. */
  lemma RepairedKeepsRecord(r: Repair, p: map<nat, Data>, at: map<nat, Id>, s: nat)
    requires PrefixClosed(at) && p.Keys == at.Keys && s in at
    ensures var b := Repaired(r, p, at, s); b.records[b.slot] == p[s]
  {
    ParentSlot(at, s);
    if s >= 2 {
      var b := Balance(r, p, at, s);
      BalanceShape(r, p, at, s);
      ParentSlot(at, b.slot);
      MaintainedKeepsRecord(r, at, Climb(b.records, b.slot, b.slot / 2));
    }
  }

  // ---------------------------------------------------------------------------------------------
  // The root after a push

  /** No record of the tree ranks above the root's: peek answers a maximum (a minimum). */
  ghost predicate RootExtreme(r: Repair, p: map<nat, Data>)
  {
    1 in p ==> forall j :: j in p ==> Rank(r, p[j]) <= Rank(r, p[1])
  }

  /** No record but the one at slot s ranks above the root's. */
  ghost predicate RootExtremeBut(r: Repair, p: map<nat, Data>, s: nat)
  {
    1 in p && forall j :: j in p && j != s ==> Rank(r, p[j]) <= Rank(r, p[1])
  }

  /** An exchange below the root keeps the root extreme. */
  lemma ExchangedExtreme(r: Repair, p: map<nat, Data>, i: nat, j: nat)
    requires i in p && j in p && i >= 2 && j >= 2 && RootExtreme(r, p)
    ensures RootExtreme(r, Exchanged(p, i, j))
  {
    var q := Exchanged(p, i, j);
    if 1 in q {
      forall h | h in q ensures Rank(r, q[h]) <= Rank(r, q[1]) {
        assert q[h] == p[h] || q[h] == p[i] || q[h] == p[j];
      }
    }
  }

  /** An exchange below the root carries the one record that may rank above the root along. */
  lemma ExchangedExtremeBut(r: Repair, p: map<nat, Data>, i: nat, j: nat)
    requires i in p && j in p && i >= 2 && j >= 2 && RootExtremeBut(r, p, j)
    ensures RootExtremeBut(r, Exchanged(p, i, j), i)
  {
    var q := Exchanged(p, i, j);
    forall h | h in q && h != i ensures Rank(r, q[h]) <= Rank(r, q[1]) {
      assert q[h] == p[h] || (h == j && q[h] == p[i]);
    }
  }

  /** An exchange of the root with a record ranking above it, when no other record does, leaves
   *  the root extreme. */
  lemma ExchangedIntoRoot(r: Repair, p: map<nat, Data>, j: nat)
    requires j in p && RootExtremeBut(r, p, j) && Rank(r, p[1]) < Rank(r, p[j])
    ensures RootExtreme(r, Exchanged(p, 1, j))
  {
    var q := Exchanged(p, 1, j);
    forall h | h in q ensures Rank(r, q[h]) <= Rank(r, q[1]) {
      assert h == 1 || q[h] == p[h] || (h == j && q[h] == p[1]);
    }
  }

  /** The loop's root invariant: the root is extreme, or only the node's record may rank above
   *  the root's and eval_node is the node's parent. */
  ghost predicate RootReady(r: Repair, c: Climb)
  {
    (RootExtreme(r, c.records) && 1 in c.records) || (c.eval == c.node / 2 && RootExtremeBut(r, c.records, c.node))
  }

  /** A round keeps the root invariant. */
  lemma StepRoot(r: Repair, at: map<nat, Id>, c: Climb)
    requires ClimbIn(at, c) && c.eval != 0 && c.eval < c.node && RootReady(r, c)
    ensures RootReady(r, Step(r, at, c))
  {
    var p, ns, es := c.records, c.node, c.eval;
    if Rank(r, p[es]) < Rank(r, p[ns]) {
      var q := Exchanged(p, es, ns);
      var b := Balance(r, q, at, es);
      assert Step(r, at, c) == Climb(b.records, b.slot, b.slot / 2);
      ExchangedStepRoot(r, at, c, q);
    } else {
      assert RootExtreme(r, p);
      var b := Balance(r, p, at, es / 2);
      assert Step(r, at, c) == Climb(b.records, ns, b.slot);
      BalanceShape(r, p, at, es / 2);
      if b.records != p {
        ExchangedExtreme(r, p, b.slot, es / 2);
      }
    }
  }

  /** A round that exchanges eval_node's and node's records keeps the root invariant. */
  lemma ExchangedStepRoot(r: Repair, at: map<nat, Id>, c: Climb, q: map<nat, Data>)
    requires ClimbIn(at, c) && c.eval != 0 && c.eval < c.node && RootReady(r, c)
    requires Rank(r, c.records[c.eval]) < Rank(r, c.records[c.node]) && q == Exchanged(c.records, c.eval, c.node)
    ensures RootReady(r, Climb(Balance(r, q, at, c.eval).records, Balance(r, q, at, c.eval).slot,
                               Balance(r, q, at, c.eval).slot / 2))
  {
    var p, ns, es := c.records, c.node, c.eval;
    var b := Balance(r, q, at, es);
    BalanceShape(r, q, at, es);
    if es == 1 {
      ExchangedIntoRoot(r, p, ns);
    } else if RootExtreme(r, p) {
      ExchangedExtreme(r, p, es, ns);
      if b.records != q {
        ExchangedExtreme(r, q, b.slot, es);
      }
    } else {
      ExchangedExtremeBut(r, p, es, ns);
      if b.records != q {
        ExchangedExtremeBut(r, q, b.slot, es);
      }
    }
  }

  /** The loop ends with the root extreme. */
  lemma {:induction false} MaintainedRoot(r: Repair, at: map<nat, Id>, c: Climb)
    requires ClimbIn(at, c) && c.eval < c.node && RootReady(r, c)
    ensures RootExtreme(r, Maintained(r, at, c).records)
    decreases c.eval
  {
    if c.eval == 0 {
      ParentSlot(at, c.node);
    } else {
      StepRoot(r, at, c);
      StepKeepsRecord(r, at, c);
      MaintainedRoot(r, at, Step(r, at, c));
    }
  }

  /** A push keeps the root extreme: when every record but the pushed one (at slot s) ranks no
   *  higher than the root's, the sift-up leaves no record ranking higher than the root's, for
   *  either heap and either comparator. */
  lemma RepairedRoot(r: Repair, p: map<nat, Data>, at: map<nat, Id>, s: nat)
    requires PrefixClosed(at) && p.Keys == at.Keys && s in at && RootExtremeBut(r, p, s)
    ensures RootExtreme(r, Repaired(r, p, at, s).records)
  {
    ParentSlot(at, s);
    if s >= 2 {
      var b := Balance(r, p, at, s);
      BalanceShape(r, p, at, s);
      if b.records != p {
        ExchangedExtremeBut(r, p, b.slot, s);
      }
      ParentSlot(at, b.slot);
      MaintainedRoot(r, at, Climb(b.records, b.slot, b.slot / 2));
    }
  }

  // ---------------------------------------------------------------------------------------------
  // The same moves on the store

  /** The node at a slot, or an EmptyNode for slot 0 (above the root). */
  ghost function SlotObj(at: map<nat, Id>, j: nat): Obj
  {
    if j in at then Ref(at[j]) else Sentinel
  }

  /** The node at a slot of a tree of valid records answers true to valid?. */
  lemma SlotValid(m: map<Id, Node>, at: map<nat, Id>, k: nat)
    requires Positioned(m, at) && ValidRecords(Payload(m, at)) && (k == 0 || k in at)
    ensures k != 0 ==> LinkValid(m, SlotObj(at, k))
  {
    if k != 0 {
      LinksAt(m, at, k);
      assert Payload(m, at)[k] == m[at[k]].data;
    }
  }

  /** balance_subtree on x, the node at slot s or an EmptyNode (s = 0), of a tree of valid nodes. */
  method BalanceSubtree(store: NodeStore, r: Repair, x: Obj, ghost at: map<nat, Id>, ghost s: nat) returns (y: Obj)
    requires store.Valid() && Positioned(store.nodes, at) && ValidRecords(Payload(store.nodes, at))
    requires (s == 0 && x == Sentinel) || (s in at && x == Ref(at[s]))
    modifies store
    ensures store.Valid() && store.next == old(store.next) && Rewritten(old(store.nodes), store.nodes, at)
    ensures Payload(store.nodes, at) == Balance(r, Payload(old(store.nodes), at), at, s).records
    ensures y == SlotObj(at, Balance(r, Payload(old(store.nodes), at), at, s).slot)
  {
    ghost var p := Payload(store.nodes, at);
    RewrittenRefl(store.nodes, at);
    y := x;
    if !x.Ref? {
      return;
    }
    LinksAt(store.nodes, at, s);
    var par := store.nodes[x.id].parent;
    if !LinkValid(store.nodes, par) {
      assert Balance(r, p, at, s) == Balanced(p, s);
      return;
    }
    ghost var k := s / 2;
    LinksAt(store.nodes, at, k);
    var pn := store.nodes[par.id];
    if 2 * k in at {
      SlotValid(store.nodes, at, 2 * k);
    }
    if 2 * k + 1 in at {
      SlotValid(store.nodes, at, 2 * k + 1);
    }
    if !LinkValid(store.nodes, pn.left) || !LinkValid(store.nodes, pn.right) {
      assert !Balanceable(at, s);
      return;
    }
    y := BalanceSiblings(store, r, pn.left.id, pn.right.id, x.id, at, s);
  }

  /** The exchange balance_subtree makes, if any, once the node at slot s, its parent and the
   *  parent's children l and rt are all present. */
  method BalanceSiblings(store: NodeStore, r: Repair, l: Id, rt: Id, x: Id, ghost at: map<nat, Id>, ghost s: nat)
    returns (y: Obj)
    requires store.Valid() && Positioned(store.nodes, at) && Balanceable(at, s)
    requires at[s] == x && at[2 * (s / 2)] == l && at[2 * (s / 2) + 1] == rt
    modifies store
    ensures store.Valid() && store.next == old(store.next) && Rewritten(old(store.nodes), store.nodes, at)
    ensures Payload(store.nodes, at) == Balance(r, Payload(old(store.nodes), at), at, s).records
    ensures y == SlotObj(at, Balance(r, Payload(old(store.nodes), at), at, s).slot)
  {
    if r.MinimumRepair? {
      y := BalanceMinimum(store, l, rt, x, at, s);
      return;
    }
    ghost var p := Payload(store.nodes, at);
    ghost var b := Balance(r, p, at, s);
    ghost var k := s / 2;
    RewrittenRefl(store.nodes, at);
    y := Ref(x);
    LinksAt(store.nodes, at, s);
    LinksAt(store.nodes, at, 2 * k);
    var dl, dx := store.nodes[l].data, store.nodes[x].data;
    assert p[2 * k] == dl && p[s] == dx;
    // the comparator's `>`
    if dl != dx && Greater(dl, dx) == Returned(true) {
      assert b == Balanced(Exchanged(p, 2 * k, s), 2 * k);
      y := ExchangeRecords(store, l, x, at, 2 * k, s);
    } else {
      assert b == Balanced(p, s);
    }
  }

  /** balance_subtree's exchange in a minimum heap, whose nodes compare by `<=>`. */
  method BalanceMinimum(store: NodeStore, l: Id, rt: Id, x: Id, ghost at: map<nat, Id>, ghost s: nat)
    returns (y: Obj)
    requires store.Valid() && Positioned(store.nodes, at) && Balanceable(at, s)
    requires at[s] == x && at[2 * (s / 2)] == l && at[2 * (s / 2) + 1] == rt
    modifies store
    ensures store.Valid() && store.next == old(store.next) && Rewritten(old(store.nodes), store.nodes, at)
    ensures Payload(store.nodes, at) == Balance(MinimumRepair, Payload(old(store.nodes), at), at, s).records
    ensures y == SlotObj(at, Balance(MinimumRepair, Payload(old(store.nodes), at), at, s).slot)
  {
    ghost var p := Payload(store.nodes, at);
    ghost var ls, rs := 2 * (s / 2), 2 * (s / 2) + 1;
    RewrittenRefl(store.nodes, at);
    y := Ref(x);
    LinksAt(store.nodes, at, s);
    LinksAt(store.nodes, at, ls);
    LinksAt(store.nodes, at, rs);
    var dl, dr, dx := store.nodes[l].data, store.nodes[rt].data, store.nodes[x].data;
    MinimumBalance(p, at, s, dl, dr, dx);
    if dl == dx {
      if Spaceship(dr, dx) == Returned(-1) {
        y := ExchangeRecords(store, rt, x, at, rs, s);
      }
    } else if Spaceship(dl, dx) == Returned(1) {
      y := ExchangeRecords(store, l, x, at, ls, s);
    }
  }

  /** Balance in a minimum heap, by the records dl, dr and dx of the left child, the right child
   *  and the node at s. */
  lemma MinimumBalance(p: map<nat, Data>, at: map<nat, Id>, s: nat, dl: Data, dr: Data, dx: Data)
    requires p.Keys == at.Keys && Balanceable(at, s)
    requires p[2 * (s / 2)] == dl && p[2 * (s / 2) + 1] == dr && p[s] == dx
    ensures dl == dx && Spaceship(dr, dx) == Returned(-1) ==>
              Balance(MinimumRepair, p, at, s) == Balanced(Exchanged(p, 2 * (s / 2) + 1, s), 2 * (s / 2) + 1)
    ensures dl != dx && Spaceship(dl, dx) == Returned(1) ==>
              Balance(MinimumRepair, p, at, s) == Balanced(Exchanged(p, 2 * (s / 2), s), 2 * (s / 2))
    ensures (dl == dx && Spaceship(dr, dx) != Returned(-1)) || (dl != dx && Spaceship(dl, dx) != Returned(1)) ==>
              Balance(MinimumRepair, p, at, s) == Balanced(p, s)
  {
  }

  /** swap_contents on the nodes at slots i and j, answering the first. */
  method ExchangeRecords(store: NodeStore, a: Id, b: Id, ghost at: map<nat, Id>, ghost i: nat, ghost j: nat)
    returns (y: Obj)
    requires store.Valid() && Positioned(store.nodes, at) && i in at && j in at && at[i] == a && at[j] == b
    modifies store
    ensures store.Valid() && store.next == old(store.next) && Rewritten(old(store.nodes), store.nodes, at)
    ensures Payload(store.nodes, at) == Exchanged(Payload(old(store.nodes), at), i, j) && y == Ref(a)
  {
    LinksAt(store.nodes, at, i);
    LinksAt(store.nodes, at, j);
    SwappedRewritten(store.nodes, at, i, j);
    var z := store.SwapContents(a, b);
    y := Ref(z);
  }

  /** maintain_heap_property on the node x at slot s of a tree whose other nodes are valid. At
   *  the root it answers x. Below it, an invalid node raises ArgumentError (the comparison of a
   *  value with nil), changing nothing; otherwise the records and the answer are Repaired's. */
  method MaintainHeapProperty(store: NodeStore, r: Repair, x: Id, ghost at: map<nat, Id>, ghost s: nat)
    returns (y: Outcome<Obj>)
    requires store.Valid() && Positioned(store.nodes, at) && s in at && at[s] == x
    requires forall j :: j in at && j != s ==> IsValid(store.nodes[at[j]].data)
    modifies store
    ensures store.Valid() && store.next == old(store.next) && Rewritten(old(store.nodes), store.nodes, at)
    ensures var p := Payload(old(store.nodes), at);
            s >= 2 && !IsValid(p[s]) ==> y == Raised(ArgumentError) && store.nodes == old(store.nodes)
    ensures var p := Payload(old(store.nodes), at);
            s == 1 || IsValid(p[s]) ==>
              Payload(store.nodes, at) == Repaired(r, p, at, s).records
              && y == Returned(Ref(at[Repaired(r, p, at, s).slot]))
  {
    ghost var p0 := Payload(store.nodes, at);
    ghost var goal := Repaired(r, p0, at, s);
    ghost var m0 := store.nodes;
    LinksAt(store.nodes, at, s);
    RewrittenRefl(store.nodes, at);
    var par := store.nodes[x].parent;
    if !LinkValid(store.nodes, par) {
      return Returned(Ref(x));
    }
    if !IsValid(store.nodes[x].data) {
      return Raised(ArgumentError);
    }
    assert ValidRecords(p0) by {
      forall j | j in p0 ensures IsValid(p0[j]) {
        assert p0[j] == store.nodes[at[j]].data;
      }
    }
    var first := BalanceSubtree(store, r, Ref(x), at, s);
    ghost var b := Balance(r, p0, at, s);
    BalanceBag(r, p0, at, s);
    RewrittenPositioned(m0, store.nodes, at);
    ParentSlot(at, b.slot);
    ghost var c := Climb(Payload(store.nodes, at), b.slot, b.slot / 2);
    LinksAt(store.nodes, at, b.slot);
    assert 0 !in at;
    ghost var m1 := store.nodes;
    var node := Climbing(store, r, first.id, store.nodes[first.id].parent, at, c);
    RewrittenTrans(m0, m1, store.nodes, at);
    return Returned(Ref(node));
  }

  /** maintain_heap_property's loop from the node `node` and eval_node `eval` of a tree of valid
   *  nodes: the records and the answer are Maintained's. */
  method Climbing(store: NodeStore, r: Repair, node: Id, eval: Obj, ghost at: map<nat, Id>, ghost c: Climb)
    returns (y: Id)
    requires store.Valid() && Positioned(store.nodes, at) && ClimbIn(at, c)
    requires c.records == Payload(store.nodes, at) && ValidRecords(c.records)
    requires node == at[c.node] && eval == SlotObj(at, c.eval)
    modifies store
    ensures store.Valid() && store.next == old(store.next) && Rewritten(old(store.nodes), store.nodes, at)
    ensures Payload(store.nodes, at) == Maintained(r, at, c).records && y == at[Maintained(r, at, c).slot]
  {
    ghost var m0 := store.nodes;
    ghost var goal := Maintained(r, at, c);
    ghost var cur := c;
    RewrittenRefl(store.nodes, at);
    y := node;
    var e := eval;
    while LinkValid(store.nodes, e)
      invariant store.Valid() && store.next == old(store.next) && Positioned(store.nodes, at)
      invariant Rewritten(m0, store.nodes, at)
      invariant ClimbIn(at, cur) && cur.records == Payload(store.nodes, at) && ValidRecords(cur.records)
      invariant y == at[cur.node] && e == SlotObj(at, cur.eval)
      invariant Maintained(r, at, cur) == goal
      decreases cur.eval
    {
      ghost var m1 := store.nodes;
      StepBag(r, at, cur);
      y, e, cur := ClimbRound(store, r, y, e.id, at, cur);
      RewrittenTrans(m0, m1, store.nodes, at);
      RewrittenPositioned(m1, store.nodes, at);
    }
    SlotValid(store.nodes, at, cur.eval);
  }

  /** One round of maintain_heap_property's loop on the store: the records and slots Step gives,
   *  with node the node and eval the next eval_node. */
  method ClimbRound(store: NodeStore, r: Repair, node: Id, eval: Id, ghost at: map<nat, Id>, ghost c: Climb)
    returns (node': Id, eval': Obj, ghost c': Climb)
    requires store.Valid() && Positioned(store.nodes, at) && ClimbIn(at, c) && c.eval != 0
    requires c.records == Payload(store.nodes, at) && ValidRecords(c.records)
    requires node == at[c.node] && eval == at[c.eval]
    modifies store
    ensures store.Valid() && store.next == old(store.next) && Rewritten(old(store.nodes), store.nodes, at)
    ensures c' == Step(r, at, c) && Payload(store.nodes, at) == c'.records
    ensures node' == at[c'.node] && eval' == SlotObj(at, c'.eval)
  {
    ghost var p, ns, es := c.records, c.node, c.eval;
    LinksAt(store.nodes, at, es);
    LinksAt(store.nodes, at, ns);
    assert p[es] == store.nodes[eval].data && p[ns] == store.nodes[node].data;
    if Compare(r, store.nodes[eval].data, store.nodes[node].data) {
      node', eval', c' := ClimbSwap(store, r, node, eval, at, c);
    } else {
      var up := store.nodes[eval].parent;
      ParentSlot(at, es);
      assert 0 !in at;
      eval' := BalanceSubtree(store, r, up, at, es / 2);
      node' := node;
      c' := Step(r, at, c);
    }
  }

  /** A round of ClimbRound in which eval_node compares above node: swap_contents, then
   *  balance_subtree on eval_node, which becomes node. */
  method ClimbSwap(store: NodeStore, r: Repair, node: Id, eval: Id, ghost at: map<nat, Id>, ghost c: Climb)
    returns (node': Id, eval': Obj, ghost c': Climb)
    requires store.Valid() && Positioned(store.nodes, at) && ClimbIn(at, c) && c.eval != 0
    requires c.records == Payload(store.nodes, at) && ValidRecords(c.records)
    requires node == at[c.node] && eval == at[c.eval]
    requires Compare(r, c.records[c.eval], c.records[c.node])
    modifies store
    ensures store.Valid() && store.next == old(store.next) && Rewritten(old(store.nodes), store.nodes, at)
    ensures c' == Step(r, at, c) && Payload(store.nodes, at) == c'.records
    ensures node' == at[c'.node] && eval' == SlotObj(at, c'.eval)
  {
    ghost var p, ns, es := c.records, c.node, c.eval;
    ghost var m1 := store.nodes;
    LinksAt(store.nodes, at, es);
    LinksAt(store.nodes, at, ns);
    c' := Step(r, at, c);
    SwappedRewritten(m1, at, es, ns);
    ExchangedValid(p, es, ns);
    var e := store.SwapContents(eval, node);
    RewrittenPositioned(m1, store.nodes, at);
    ghost var m2 := store.nodes;
    var y := BalanceSubtree(store, r, Ref(e), at, es);
    RewrittenTrans(m1, m2, store.nodes, at);
    RewrittenPositioned(m2, store.nodes, at);
    node' := y.id;
    LinksAt(store.nodes, at, c'.node);
    ParentSlot(at, c'.node);
    eval' := store.nodes[node'].parent;
    assert 0 !in at;
  }
}
