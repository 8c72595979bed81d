/**
 * Heap order after the operations of HeapBase and MinimumHeap that go through remove: a pop or a
 * replace! on a minimum heap whose records are sorted (each parent no greater than its children,
 * a left child no greater than its sibling, as balance_subtree arranges them) leaves the records
 * sorted, heap-ordered and with the least one at the root.
 */
module HeapSorts {
  import opened Wrappers
  import opened HeapSlots
  import opened Bags
  import opened HeapNodes
  import opened SiftUps
  import opened NodeStores
  import opened HeapRoots
  import opened HeapOrders
  import opened HeapBases
  import opened MinimumHeaps

  /** replace! on a sorted minimum heap, as ReplacedWith says: what it leaves is sorted,
   *  heap-ordered and has its least record at the root. */
  lemma ReplacedWithSorted(d: Repair, m0: map<Id, Node>, at0: map<nat, Id>, root: Obj, size: int, last0: Obj, j0: nat,
                           u: UserData, c: Id, m: map<Id, Node>, at: map<nat, Id>, last: Obj, j: nat,
                           r: Outcome<Removed>)
    requires d != BaseRepair(true) && Shaped(m0, at0, root, size, last0, j0)
    requires ReplacedWith(m0, at0, root, size, last0, j0, u, c, m, at, last, j, r) && r.Returned?
    requires SortedTree(Payload(m0, at0), at0, 1)
    ensures SortedTree(Payload(m, at), at, 1) && HeapOrdered(d, Payload(m, at)) && RootExtreme(d, Payload(m, at))
  {
    if u.Other? {
      AllValidRecords(m0, at0);
      SortedOrdered(d, Payload(m, at), at);
    } else if at0 == map[] {
      SortedOrdered(d, Payload(m, at), at);
    } else {
      var m1 := m0[c := FreshNode(ValidNode(u).value)];
      PositionedFresh(m0, at0, c, FreshNode(ValidNode(u).value));
      AllValidRecords(m0, at0);
      AllValidRecords(m1, at0);
      ReplacedSorted(d, m1, m, at0, root, size, c, r, last, at, j);
    }
  }

  /** pop on a sorted MinimumHeap, as RemovedMin says: what it leaves is sorted, heap-ordered and
   *  has its least record at the root. */
  lemma PoppedMinSorted(m0: map<Id, Node>, at0: map<nat, Id>, root: Obj, size0: int, last0: Obj, j0: nat,
                        m: map<Id, Node>, r: Outcome<Removed>, size: int, last: Obj, at: map<nat, Id>, j: nat)
    requires MinShaped(m0, at0, root, size0, last0, j0)
    requires RemovedMin(m0, at0, root, size0, last0, j0, 1, m, r, size, last, at, j) && r.Returned?
    requires SortedTree(Payload(m0, at0), at0, 1)
    ensures MinShaped(m, at, root, size, last, j)
    ensures SortedTree(Payload(m, at), at, 1) && HeapOrdered(MinimumRepair, Payload(m, at))
    ensures RootExtreme(MinimumRepair, Payload(m, at))
  {
    MinCases(m0, at0, root, size0, last0, j0);
    RemovedMinShaped(m0, at0, root, size0, last0, j0, 1, m, r, size, last, at, j);
    if at0 == map[] {
      SortedOrdered(MinimumRepair, Payload(m, at), at);
    } else {
      PoppedSorted(MinimumRepair, m0, m, at0, root, size0, last0, j0, r, size, last, at, j);
    }
  }

  /** replace!(e) on a sorted MinimumHeap, as ReplacedMin says: what it leaves is sorted,
   *  heap-ordered and has its least record at the root. */
  lemma ReplacedMinSorted(m0: map<Id, Node>, at0: map<nat, Id>, root: Obj, size: int, last0: Obj, j0: nat, e: Entry,
                          c: Id, m: map<Id, Node>, at: map<nat, Id>, last: Obj, j: nat, r: Outcome<Removed>)
    requires MinShaped(m0, at0, root, size, last0, j0)
    requires ReplacedMin(m0, at0, root, size, last0, j0, e, c, m, at, last, j, r) && r.Returned?
    requires SortedTree(Payload(m0, at0), at0, 1)
    ensures SortedTree(Payload(m, at), at, 1) && HeapOrdered(MinimumRepair, Payload(m, at))
    ensures RootExtreme(MinimumRepair, Payload(m, at))
  {
    MinCases(m0, at0, root, size, last0, j0);
    if e.Other? {
      MinRooted(m0, at0, root, size, last0, j0);
      AllValidRecords(m0, at0);
      SortedOrdered(MinimumRepair, Payload(m, at), at);
    } else {
      var j1 := if LoneWithEmptyLast(m0, at0, root, size, last0) then 1 else j0;
      ReplacedWithSorted(MinimumRepair, m0, at0, root, size, ReplaceBase(root, last0), j1, AsUserData(e), c,
                         m, at, last, j, r);
    }
  }
}
