/**
 * Heaps::HeapBase: a binary heap of records over linked nodes, a minimum heap or, with
 * max_min_type, a maximum heap. push attaches a node at the next level-order slot found by
 * following left/right links from the root and sifts it up; pop, replace! and delete! go through
 * remove; the rest ask the root.
 */
module HeapBases {
  import opened Wrappers
  import opened HeapSlots
  import opened Bags
  import opened HeapNodes
  import opened NodeStores
  import opened SiftUps
  import opened HeapRoots
  import opened HeapOrders
  import Drawings

  // ---------------------------------------------------------------------------------------------
  // User data

  /** What push and the other public methods receive: an Array (only its first and last
   *  elements are read), a Hash (its :description and :value), a Heaps::Node that no tree links
   *  (all three links an EmptyNode, as Node.new leaves them), or anything else. */
  datatype UserData =
    | Pair(first: Option<string>, last: Option<int>)
    | Keyed(description: Option<string>, value: Option<int>)
    | Loose(description: Option<string>, value: Option<int>)
    | Other

  /** valid_node: the record of the node built from the user data, or of the Heaps::Node given
   *  (which push then links into the tree as it is); none for anything else. */
  function ValidNode(u: UserData): (r: Option<Data>)
    ensures r.None? <==> u.Other?
    ensures u.Pair? ==> r == Some(Data(u.first, u.last))
    ensures u.Keyed? || u.Loose? ==> r == Some(Data(u.description, u.value))
  {
    match u
    case Pair(first, last) => Some(Data(first, last))
    case Keyed(description, value) => Some(Data(description, value))
    case Loose(description, value) => Some(Data(description, value))
    case Other => None
  }

  /** The records a push of u adds to a heap once it returns: the node's record when it is valid. */
  function Added(u: UserData): multiset<Data>
  {
    match ValidNode(u)
    case Some(d) => if IsValid(d) then multiset{d} else multiset{}
    case None => multiset{}
  }

  /** The records a run of pushes adds. */
  function AddedAll(us: seq<UserData>): multiset<Data>
  {
    if us == [] then multiset{} else AddedAll(us[..|us| - 1]) + Added(us[|us| - 1])
  }

  /** The user data to_a's records make once heapify pushes them: each a Hash. */
  function AsHashes(s: seq<Data>): (us: seq<UserData>)
    ensures |us| == |s| && forall i :: 0 <= i < |s| ==> ValidNode(us[i]) == Some(s[i])
  {
    if s == [] then [] else AsHashes(s[..|s| - 1]) + [Keyed(s[|s| - 1].description, s[|s| - 1].value)]
  }

  // ---------------------------------------------------------------------------------------------
  // Navigation

  /** What following left/right links from the root toward slot q reaches on the tree at the slots
   *  of `at`: the node at q; an EmptyNode when q is free and its parent is not; false (what an
   *  EmptyNode answers) one level further; below that, false has no left or right. */
  ghost function Reached(at: map<nat, Id>, q: nat): Outcome<Obj>
  {
    if q in at then Returned(Ref(at[q]))
    else if q / 2 in at then Returned(Sentinel)
    else if q / 4 in at then Returned(False)
    else Raised(NoMethodError)
  }

  /** The slot node_path_navigation aims at: the root for at most one node, node n, or in insert
   *  mode its parent. */
  function NavTarget(n: int, insertMode: bool): (q: nat)
    ensures q >= 1
  {
    if n <= 1 then 1 else if insertMode then n / 2 else n
  }

  /** One `send(nav)`: from what was reached at slot q, the link toward the child of q is what is
   *  reached at the child. */
  lemma ReachedStep(nodes: map<Id, Node>, at: map<nat, Id>, q: nat, d: Dir)
    requires Positioned(nodes, at) && q >= 1 && Reached(at, q).Returned?
    ensures LinkIn(nodes, Reached(at, q).value)
    ensures Send(nodes, Reached(at, q).value, d) == Reached(at, Child(q, d))
  {
    var c := Child(q, d);
    assert c / 2 == q && c / 4 == q / 2;
    if q in at {
      LinksAt(nodes, at, q);
    } else {
      ChildrenFree(at, q);
    }
  }

  /** Once navigation has raised, no slot below raises less. */
  lemma ReachedRaised(at: map<nat, Id>, q: nat, d: Dir)
    requires PrefixClosed(at) && q >= 1 && Reached(at, q).Raised?
    ensures Reached(at, Child(q, d)) == Raised(NoMethodError)
  {
    var c := Child(q, d);
    assert c / 2 == q && c / 4 == q / 2;
    ChildrenFree(at, q);
  }

  lemma {:induction false} ReachedRaisedFollow(at: map<nat, Id>, q: nat, p: seq<Dir>)
    requires PrefixClosed(at) && q >= 1 && Reached(at, q).Raised?
    ensures Reached(at, Follow(q, p)) == Raised(NoMethodError)
    decreases |p|
  {
    if p == [] {
      assert q / 2 !in at && q / 4 !in at;
    } else {
      ReachedRaised(at, q, p[0]);
      ReachedRaisedFollow(at, Child(q, p[0]), p[1..]);
    }
  }

  /** Following a path is following its first i turns, then the rest. */
  lemma {:induction false} FollowSplit(k: nat, p: seq<Dir>, i: nat)
    requires i <= |p|
    ensures Follow(k, p) == Follow(Follow(k, p[..i]), p[i..])
    decreases |p|
  {
    if i > 0 {
      assert p[..i][1..] == p[1..][..i - 1];
      assert p[1..][i - 1..] == p[i..];
      FollowSplit(Child(k, p[0]), p[1..], i - 1);
    }
  }

  /** Where insert_node_on_path attaches a node when size becomes pos: the located parent must
   *  be a valid node (an EmptyNode fails with ArgumentError, false has no valid?), and the node
   *  goes to its left slot if free, else its right slot; a parent with both is ArgumentError. */
  ghost function Placement(at: map<nat, Id>, pos: int): (r: Outcome<nat>)
    requires PrefixClosed(at)
    ensures r.Returned? ==> r.value !in at && r.value >= 2 && r.value / 2 == NavTarget(pos, true)
                            && r.value / 2 in at
  {
    var q := NavTarget(pos, true);
    match Reached(at, q)
    case Raised(e) => Raised(e)
    case Returned(o) =>
      if o == False then Raised(NoMethodError)
      else if !o.Ref? then Raised(ArgumentError)
      else if 2 * q !in at then Returned(2 * q)
      else if 2 * q + 1 !in at then Returned(2 * q + 1)
      else Raised(ArgumentError)
  }

  /** What a push onto the tree at `at` holding the records p does with record d: the slot the
   *  node takes, or the error raised. Besides Placement's errors: the check `nav_node == node`
   *  (Node#== compares contents) fails when the parent holds the same record, and the sift-up
   *  fails on a nil value. */
  ghost function Insertion(p: map<nat, Data>, at: map<nat, Id>, d: Data, pos: int): (r: Outcome<nat>)
    requires PrefixClosed(at) && p.Keys == at.Keys
    ensures r.Returned? ==> Placement(at, pos) == r && IsValid(d) && p[r.value / 2] != d
    ensures Placement(at, pos).Raised? ==> r == Placement(at, pos)
  {
    match Placement(at, pos)
    case Raised(e) => Raised(e)
    case Returned(s) => if p[s / 2] == d || !IsValid(d) then Raised(ArgumentError) else Returned(s)
  }

  /** A tree filled top to bottom, left to right: the slots 1 to |at|. */
  ghost predicate Complete(at: map<nat, Id>)
  {
    forall k :: k in at <==> 1 <= k <= |at|
  }

  /** On a complete tree the next node goes to slot |at| + 1, which keeps it complete; so a push
   *  fails only on a nil value or a record its parent already holds. */
  lemma CompletePlacement(at: map<nat, Id>, c: Id)
    requires PrefixClosed(at) && Complete(at) && at != map[]
    ensures Placement(at, |at| + 1) == Returned(|at| + 1)
    ensures Complete(at[|at| + 1 := c])
  {
    var n := |at|;
    assert 1 in at;
    var q := NavTarget(n + 1, true);
    assert q == (n + 1) / 2 && 1 <= q <= n;
    assert q in at;
    assert n + 1 !in at;
    if 2 * q <= n {
      assert 2 * q in at && 2 * q + 1 == n + 1;
    }
    var at' := at[n + 1 := c];
    assert |at'| == n + 1;
  }

  // ---------------------------------------------------------------------------------------------
  // Facts about the fields

  /** A fresh node in the store leaves the tree as it was. */
  lemma PositionedFresh(m: map<Id, Node>, at: map<nat, Id>, c: Id, n: Node)
    requires Positioned(m, at) && c !in m
    ensures Positioned(m[c := n], at) && c !in at.Values
    ensures Payload(m[c := n], at) == Payload(m, at)
  {
    var m' := m[c := n];
    forall k | k in at ensures at[k] in m && at[k] != c && at[k] in m' && m'[at[k]] == m[at[k]] {
      assert at[k] in m;
    }
    PositionedAgree(m, m', at);
  }

  /** Stores that agree on the tree's nodes place the same tree. */
  lemma PositionedAgree(m: map<Id, Node>, m': map<Id, Node>, at: map<nat, Id>)
    requires Positioned(m, at)
    requires forall k :: k in at ==> at[k] in m && at[k] in m' && m'[at[k]] == m[at[k]]
    ensures Positioned(m', at) && Payload(m', at) == Payload(m, at)
  {
    forall k | k in at ensures Linked(m', at, k) {
      LinksAt(m, at, k);
    }
  }

  /** A fresh node in the store leaves the heap's fields as they were. */
  lemma ShapedFresh(m: map<Id, Node>, at: map<nat, Id>, root: Obj, size: int, last: Obj, j: nat, c: Id, n: Node)
    requires Shaped(m, at, root, size, last, j) && c !in m
    ensures Shaped(m[c := n], at, root, size, last, j)
    ensures Payload(m[c := n], at) == Payload(m, at) && Contents(m[c := n], at) == Contents(m, at) && c !in at.Values
  {
    PositionedFresh(m, at, c, n);
    var m' := m[c := n];
    AllValidRecords(m, at);
    AllValidRecords(m', at);
    assert Husk(m, root) ==> Husk(m', root);
    assert LastLeaf(m, at, last, j) ==> LastLeaf(m', at, last, j);
  }

  /** The fields just after a push onto a heap without a tree: the node c is the root, size 1 and
   *  last_node the root; a nil value leaves a husk. */
  lemma PushedOntoHusk(m: map<Id, Node>, c: Id, d: Data, r: Repair)
    requires c in m && m[c] == FreshNode(d)
    ensures var at := if IsValid(d) then map[1 := c] else map[];
            && Shaped(m, at, Ref(c), 1, Ref(c), 1) && Complete(at)
            && Contents(m, at) == (if IsValid(d) then multiset{d} else multiset{})
            && RootExtreme(r, Payload(m, at))
  {
    if IsValid(d) {
      SingleNode(m, c, d, r);
    } else {
      assert Husk(m, Ref(c));
    }
  }

  /** A valid record pushed onto a heap without a tree makes a one-node tree. */
  lemma SingleNode(m: map<Id, Node>, c: Id, d: Data, r: Repair)
    requires c in m && m[c] == FreshNode(d) && IsValid(d)
    ensures var at := map[1 := c];
            && Shaped(m, at, Ref(c), 1, Ref(c), 1) && Complete(at)
            && Contents(m, at) == multiset{d} && RootExtreme(r, Payload(m, at))
  {
    var at := map[1 := c];
    assert Linked(m, at, 1);
    assert Positioned(m, at);
    assert Payload(m, at) == map[1 := d];
    SingletonBag(map[1 := d]);
    assert LastLeaf(m, at, Ref(c), 1);
  }

  lemma SingletonBag(p: map<nat, Data>)
    requires p.Keys == {1}
    ensures BagOf(p, {1}) == multiset{p[1]}
  {
    BagOfRemove<nat, Data>(p, {1}, 1);
    assert {1} - {1} == {};
  }

  /** The fields once insert_node_on_path has attached the fresh node c at the free slot s below
   *  slot s / 2 and the sift-up has left the records Repaired gives: a heap again, holding d on
   *  top of the old records, with the root still extreme if it was, and in a minimum heap a
   *  sorted tree still sorted when s is past every slot. */
  lemma PushedIntoTree(m0: map<Id, Node>, m1: map<Id, Node>, m2: map<Id, Node>, at: map<nat, Id>, root: Obj,
                       last: Obj, j: nat, s: nat, c: Id, r: Repair)
    requires Positioned(m0, at) && AllValid(m0, at) && 1 in at && root == Ref(at[1])
    requires s !in at && s >= 2 && s / 2 in at && c in m0 && c !in at.Values && m0[c] == FreshNode(m0[c].data)
    requires IsValid(m0[c].data)
    requires m1 == Attached(m0, at[s / 2], c, if s % 2 == 0 then Left else Right)
    requires Rewritten(m1, m2, at[s := c])
    requires Positioned(m1, at[s := c])
    requires Payload(m2, at[s := c]) == Repaired(r, Payload(m0, at)[s := m0[c].data], at[s := c], s).records
    ensures Shaped(m2, at[s := c], root, |at| + 1, Ref(c), s)
    ensures Contents(m2, at[s := c]) == Contents(m0, at) + multiset{m0[c].data}
    ensures RootExtreme(r, Payload(m0, at)) ==> RootExtreme(r, Payload(m2, at[s := c]))
  {
    PushedRecords(m0, m1, m2, at, s, c, r);
    var at' := at[s := c];
    ChildrenFree(at, s);
    assert |at'| == |at| + 1;
    assert 1 in at' && at'[1] == at[1];
    assert LastLeaf(m2, at', Ref(c), s);
    assert Shaped(m2, at', root, |at| + 1, Ref(c), s);
    PushedExtreme(Payload(m0, at), Payload(m2, at'), at, s, c, m0[c].data, r);
  }

  /** The records after the push: the tree's, valid, and d besides. */
  lemma PushedRecords(m0: map<Id, Node>, m1: map<Id, Node>, m2: map<Id, Node>, at: map<nat, Id>,
                      s: nat, c: Id, r: Repair)
    requires Positioned(m0, at) && AllValid(m0, at)
    requires s !in at && s >= 2 && s / 2 in at && c in m0 && c !in at.Values && m0[c] == FreshNode(m0[c].data)
    requires IsValid(m0[c].data)
    requires m1 == Attached(m0, at[s / 2], c, if s % 2 == 0 then Left else Right)
    requires Rewritten(m1, m2, at[s := c])
    requires Positioned(m1, at[s := c])
    requires Payload(m2, at[s := c]) == Repaired(r, Payload(m0, at)[s := m0[c].data], at[s := c], s).records
    ensures Positioned(m2, at[s := c]) && AllValid(m2, at[s := c])
    ensures Contents(m2, at[s := c]) == Contents(m0, at) + multiset{m0[c].data}
  {
    var at' := at[s := c];
    var p1 := Payload(m0, at)[s := m0[c].data];
    AttachedRecords(m0, m1, at, s, c);
    RewrittenPositioned(m1, m2, at');
    PushedValid(m2, at', p1, r, s);
    RepairedBag(r, p1, at', s);
  }

  /** Attaching the fresh valid node c at the free slot s gives s c's record; every record is
   *  still valid. */
  lemma AttachedRecords(m0: map<Id, Node>, m1: map<Id, Node>, at: map<nat, Id>, s: nat, c: Id)
    requires Positioned(m0, at) && AllValid(m0, at)
    requires s !in at && s >= 2 && s / 2 in at && c in m0 && c !in at.Values && m0[c] == FreshNode(m0[c].data)
    requires IsValid(m0[c].data)
    requires m1 == Attached(m0, at[s / 2], c, if s % 2 == 0 then Left else Right)
    ensures Payload(m1, at[s := c]) == Payload(m0, at)[s := m0[c].data]
    ensures ValidRecords(Payload(m0, at)[s := m0[c].data])
    ensures Contents(m1, at[s := c]) == Contents(m0, at) + multiset{m0[c].data}
  {
    var p1 := Payload(m0, at)[s := m0[c].data];
    var k := s / 2;
    var dir := if s % 2 == 0 then Left else Right;
    assert Child(k, dir) == s;
    AttachedContents(m0, at, k, dir, c);
    AllValidRecords(m0, at);
    forall i | i in p1 ensures IsValid(p1[i]) {
      if i != s {
        assert p1[i] == Payload(m0, at)[i];
      }
    }
  }

  /** The sift-up keeps every record valid. */
  lemma PushedValid(m2: map<Id, Node>, at': map<nat, Id>, p1: map<nat, Data>, r: Repair, s: nat)
    requires InNodes(m2, at') && PrefixClosed(at') && s in at' && p1.Keys == at'.Keys && ValidRecords(p1)
    requires Payload(m2, at') == Repaired(r, p1, at', s).records
    ensures AllValid(m2, at')
  {
    RepairedBag(r, p1, at', s);
    AllValidRecords(m2, at');
  }

  /** The push keeps the root extreme: only the pushed record could rank above it, and the
   *  sift-up settles that. */
  lemma PushedExtreme(p: map<nat, Data>, p2: map<nat, Data>, at: map<nat, Id>, s: nat, c: Id, d: Data, r: Repair)
    requires PrefixClosed(at) && PrefixClosed(at[s := c]) && p.Keys == at.Keys && 1 in at && s !in at && s >= 2
    requires p2 == Repaired(r, p[s := d], at[s := c], s).records
    ensures RootExtreme(r, p) ==> RootExtreme(r, p2)
  {
    var at', q := at[s := c], p[s := d];
    if RootExtreme(r, p) {
      forall j | j in q && j != s ensures Rank(r, q[j]) <= Rank(r, q[1]) {
        assert q[j] == p[j] && q[1] == p[1];
      }
      RepairedRoot(r, q, at', s);
    }
  }

  /** What insert_node_on_path does to the tree at0 over the store m0 with the fresh node c:
   *  Placement's errors change nothing; otherwise c is attached below the located parent, a
   *  parent holding c's record fails `nav_node == node` with ArgumentError, and else c becomes
   *  last_node and maintain_heap_property sifts it up (raising ArgumentError on a nil value).
   *  When Insertion returns, the records are those Repaired gives, the answer is the node
   *  Repaired names, the heap holds the old records and c's with one more node, and its root
   *  is still extreme if it was. */
  ghost predicate InsertedOnPath(m0: map<Id, Node>, at0: map<nat, Id>, last0: Obj, j0: nat, c: Id, pos: int,
                                 rep: Repair, root: Obj,
                                 m: map<Id, Node>, at: map<nat, Id>, last: Obj, j: nat, r: Outcome<Obj>, s: nat)
    requires Positioned(m0, at0) && c in m0
  {
    var p := Payload(m0, at0);
    var d := m0[c].data;
    var pl := Placement(at0, pos);
    var ins := Insertion(p, at0, d, pos);
    && (ins.Raised? ==> r == Raised(ins.error))
    && (pl.Raised? ==> m == m0)
    && (pl.Raised? || p[pl.value / 2] == d ==> at == at0 && last == last0 && j == j0)
    && (pl.Returned? && p[pl.value / 2] != d ==> at == at0[pl.value := c] && last == Ref(c) && j == pl.value)
    && (ins.Returned? ==>
          && s == ins.value
          && Shaped(m, at, root, |at0| + 1, last, j)
          && Payload(m, at) == Repaired(rep, p[s := d], at, s).records
          && r == Returned(Ref(at[Repaired(rep, p[s := d], at, s).slot]))
          && Contents(m, at) == Contents(m0, at0) + multiset{d}
          && (RootExtreme(rep, p) ==> RootExtreme(rep, Payload(m, at)))
          && (rep != BaseRepair(true) && (forall k :: k in at0 ==> k < s) && SortedTree(p, at0, 1)
              ==> SortedTree(Payload(m, at), at, 1)))
  }

  /** What push(u) does to the fields of a heap (root0, size0, last0, the tree at0 over the
   *  store m0): anything but an Array or a Hash changes nothing. Onto a heap without a tree the
   *  new node becomes root and last_node with size 1. Otherwise size grows by one even when
   *  insert_node_on_path then raises what Insertion says. */
  ghost predicate PushedFields(m0: map<Id, Node>, at0: map<nat, Id>, root0: Obj, size0: int, last0: Obj, j0: nat,
                               u: UserData, m: map<Id, Node>, at: map<nat, Id>, root: Obj, size: int, last: Obj,
                               j: nat, r: Outcome<Obj>)
    requires Positioned(m0, at0)
  {
    && (u.Other? ==> r == Returned(Nil) && m == m0 && at == at0 && root == root0 && size == size0
                     && last == last0 && j == j0)
    && (!u.Other? && at0 == map[] ==> r == Returned(Nil) && size == 1 && root.Ref? && root.id !in m0 && last == root)
    && (!u.Other? && at0 != map[] ==>
          var ins := Insertion(Payload(m0, at0), at0, ValidNode(u).value, size0 + 1);
          && size == size0 + 1 && root == root0
          && (ins.Raised? ==> r == Raised(ins.error))
          && (ins.Returned? ==> r == Returned(Nil) && last.Ref? && last.id !in m0 && at == at0[ins.value := last.id]))
  }

  /** A push that returns leaves a heap holding the old records and the new valid one, its root
   *  still extreme if it was, a complete tree still complete, and in a minimum heap a complete
   *  sorted tree still sorted. */
  ghost predicate PushedHeap(m0: map<Id, Node>, at0: map<nat, Id>, u: UserData, rep: Repair,
                             m: map<Id, Node>, at: map<nat, Id>, root: Obj, size: int, last: Obj, j: nat,
                             r: Outcome<Obj>)
    requires Positioned(m0, at0)
  {
    r.Returned? ==>
      && Shaped(m, at, root, size, last, j)
      && Contents(m, at) == Contents(m0, at0) + Added(u)
      && (RootExtreme(rep, Payload(m0, at0)) ==> RootExtreme(rep, Payload(m, at)))
      && (Complete(at0) ==> Complete(at))
      && (rep != BaseRepair(true) && Complete(at0) && SortedTree(Payload(m0, at0), at0, 1)
          ==> SortedTree(Payload(m, at), at, 1))
  }

  /** On a complete tree a push fails only on a nil value or a record the heap already holds. */
  ghost predicate PushedNoFail(m0: map<Id, Node>, at0: map<nat, Id>, u: UserData, r: Outcome<Obj>)
    requires Positioned(m0, at0)
  {
    Complete(at0) && !u.Other? && IsValid(ValidNode(u).value) && ValidNode(u).value !in Contents(m0, at0)
    ==> r.Returned?
  }

  /** What push(u) does to a heap. */
  ghost predicate PushedInto(m0: map<Id, Node>, at0: map<nat, Id>, root0: Obj, size0: int, last0: Obj, j0: nat,
                             u: UserData, rep: Repair,
                             m: map<Id, Node>, at: map<nat, Id>, root: Obj, size: int, last: Obj, j: nat,
                             r: Outcome<Obj>)
    requires Shaped(m0, at0, root0, size0, last0, j0)
  {
    && PushedFields(m0, at0, root0, size0, last0, j0, u, m, at, root, size, last, j, r)
    && PushedHeap(m0, at0, u, rep, m, at, root, size, last, j, r)
    && PushedNoFail(m0, at0, u, r)
  }

  // ---------------------------------------------------------------------------------------------
  // Push on the store

  /** node_path_navigation: `send(nav)` from the root along the turns to slot numberNodes, or
   *  its parent in insert mode. */
  method NodePathNavigation(store: NodeStore, root: Obj, ghost at: map<nat, Id>, numberNodes: int, insertMode: bool)
    returns (r: Outcome<Obj>)
    requires Rooted(store.nodes, at, root) && at != map[]
    ensures r == Reached(at, NavTarget(numberNodes, insertMode))
    ensures r.Returned? ==> LinkIn(store.nodes, r.value)
  {
    if numberNodes <= 1 {
      return Returned(root);
    }
    var navList := NavigationTurns(numberNodes, insertMode);
    FollowPathTo(NavTarget(numberNodes, insertMode));
    var navNode := root;
    var i := 0;
    while i < |navList|
      invariant 0 <= i <= |navList|
      invariant Follow(1, navList[..i]) >= 1
      invariant Reached(at, Follow(1, navList[..i])) == Returned(navNode)
    {
      ghost var k := Follow(1, navList[..i]);
      ReachedStep(store.nodes, at, k, navList[i]);
      FollowAppend(1, navList[..i], navList[i]);
      assert navList[..i + 1] == navList[..i] + [navList[i]];
      var next := Send(store.nodes, navNode, navList[i]);
      if next.Raised? {
        FollowSplit(1, navList, i + 1);
        ReachedRaisedFollow(at, Follow(1, navList[..i + 1]), navList[i + 1..]);
        return Raised(next.error);
      }
      navNode := next.value;
      i := i + 1;
    }
    assert navList[..i] == navList;
    ReachedStep(store.nodes, at, NavTarget(numberNodes, insertMode), Left);
    return Returned(navNode);
  }

  /** Placement once the located parent is the node at slot q. */
  lemma PlacedBelow(at: map<nat, Id>, pos: int, q: nat)
    requires PrefixClosed(at) && q == NavTarget(pos, true) && q in at
    ensures Placement(at, pos) == if 2 * q !in at then Returned(2 * q)
                                  else if 2 * q + 1 !in at then Returned(2 * q + 1)
                                  else Raised(ArgumentError)
  {
  }

  /** insert_node_on_path when Placement fails: nothing changes. */
  lemma InsertedUnplaced(m0: map<Id, Node>, at0: map<nat, Id>, last0: Obj, j0: nat, c: Id, pos: int,
                         rep: Repair, root: Obj, s: nat)
    requires Positioned(m0, at0) && c in m0 && Placement(at0, pos).Raised?
    ensures InsertedOnPath(m0, at0, last0, j0, c, pos, rep, root, m0, at0, last0, j0,
                           Raised(Placement(at0, pos).error), s)
  {
  }

  /** insert_node_on_path when the located parent holds c's record: `nav_node == node` fails
   *  with c already attached. */
  lemma InsertedSame(m0: map<Id, Node>, at0: map<nat, Id>, last0: Obj, j0: nat, c: Id, pos: int,
                     rep: Repair, root: Obj, m: map<Id, Node>, s: nat)
    requires Positioned(m0, at0) && c in m0 && Placement(at0, pos).Returned?
    requires Payload(m0, at0)[Placement(at0, pos).value / 2] == m0[c].data
    ensures InsertedOnPath(m0, at0, last0, j0, c, pos, rep, root, m, at0, last0, j0, Raised(ArgumentError), s)
  {
  }

  /** insert_node_on_path once c is attached at slot s and sifted up. */
  lemma InsertedSifted(m0: map<Id, Node>, at0: map<nat, Id>, last0: Obj, j0: nat, c: Id, pos: int,
                       rep: Repair, root: Obj, m: map<Id, Node>, at: map<nat, Id>, last: Obj, j: nat,
                       r: Outcome<Obj>, s: nat)
    requires Positioned(m0, at0) && c in m0 && Placement(at0, pos) == Returned(s)
    requires Payload(m0, at0)[s / 2] != m0[c].data
    requires var p := Payload(m0, at0);
             var d := m0[c].data;
             && at == at0[s := c] && last == Ref(c) && j == s
             && (!IsValid(d) ==> r == Raised(ArgumentError))
             && (IsValid(d) ==>
                   && Shaped(m, at, root, |at0| + 1, last, j)
                   && Payload(m, at) == Repaired(rep, p[s := d], at, s).records
                   && r == Returned(Ref(at[Repaired(rep, p[s := d], at, s).slot]))
                   && Contents(m, at) == Contents(m0, at0) + multiset{d}
                   && (RootExtreme(rep, p) ==> RootExtreme(rep, Payload(m, at)))
                   && (rep != BaseRepair(true) && (forall k :: k in at0 ==> k < s) && SortedTree(p, at0, 1)
                       ==> SortedTree(Payload(m, at), at, 1)))
    ensures InsertedOnPath(m0, at0, last0, j0, c, pos, rep, root, m, at, last, j, r, s)
  {
  }

  /** insert_node_on_path(node, pos) on the heap fields root, last_node and the tree at, the
   *  fresh node c not yet linked, as InsertedOnPath says. */
  method InsertNodeOnPath(store: NodeStore, rep: Repair, root: Obj, last: Obj, c: Id, pos: int,
                          ghost at: map<nat, Id>, ghost j: nat)
    returns (r: Outcome<Obj>, last': Obj, ghost at': map<nat, Id>, ghost j': nat, ghost s: nat)
    requires store.Valid() && Shaped(store.nodes, at, root, |at|, last, j) && at != map[]
    requires c in store.nodes && c !in at.Values && store.nodes[c] == FreshNode(store.nodes[c].data)
    modifies store
    ensures store.Valid()
    ensures InsertedOnPath(old(store.nodes), at, last, j, c, pos, rep, root, store.nodes, at', last', j', r, s)
  {
    s := 0;
    ghost var m0 := store.nodes;
    ghost var pl := Placement(at, pos);
    var nav := NodePathNavigation(store, root, at, pos, true);
    if nav.Raised? {
      InsertedUnplaced(m0, at, last, j, c, pos, rep, root, s);
      return Raised(nav.error), last, at, j, s;
    }
    var navNode := nav.value;
    // `nav_node.nil? or !nav_node.valid?`, where false has no valid?
    if navNode == False {
      InsertedUnplaced(m0, at, last, j, c, pos, rep, root, s);
      return Raised(NoMethodError), last, at, j, s;
    }
    if navNode == Nil || !LinkValid(store.nodes, navNode) {
      InsertedUnplaced(m0, at, last, j, c, pos, rep, root, s);
      return Raised(ArgumentError), last, at, j, s;
    }
    ghost var q := NavTarget(pos, true);
    var x := navNode.id;
    LinksAt(store.nodes, at, q);
    PlacedBelow(at, pos, q);
    var node := store.InsertNode(x, c);
    // `nav_node == node`: Node#== compares the records
    if node.Raised? || store.nodes[x].data == store.nodes[node.value].data {
      if pl.Returned? {
        InsertedSame(m0, at, last, j, c, pos, rep, root, store.nodes, s);
      } else {
        InsertedUnplaced(m0, at, last, j, c, pos, rep, root, s);
      }
      return Raised(ArgumentError), last, at, j, s;
    }
    s := pl.value;
    r, last', at', j' := SiftAttached(store, rep, root, last, c, m0, at, j, q, s);
    InsertedSifted(m0, at, last, j, c, pos, rep, root, store.nodes, at', last', j', r, s);
  }

  /** The rest of insert_node_on_path once c is attached at the free slot s below the node at
   *  slot q, holding another record: c becomes last_node and is sifted up. */
  method SiftAttached(store: NodeStore, rep: Repair, root: Obj, last: Obj, c: Id,
                      ghost m0: map<Id, Node>, ghost at: map<nat, Id>, ghost j: nat, ghost q: nat, ghost s: nat)
    returns (r: Outcome<Obj>, last': Obj, ghost at': map<nat, Id>, ghost j': nat)
    requires Shaped(m0, at, root, |at|, last, j) && at != map[]
    requires c in m0 && c !in at.Values && m0[c] == FreshNode(m0[c].data)
    requires q in at && s / 2 == q && s >= 2 && s !in at
    requires store.Valid() && store.nodes == Attached(m0, at[q], c, if s % 2 == 0 then Left else Right)
    modifies store
    ensures store.Valid()
    ensures var p := Payload(m0, at);
            var d := m0[c].data;
            && at' == at[s := c] && last' == Ref(c) && j' == s
            && (!IsValid(d) ==> r == Raised(ArgumentError))
            && (IsValid(d) ==>
                  && Shaped(store.nodes, at', root, |at| + 1, last', j')
                  && Payload(store.nodes, at') == Repaired(rep, p[s := d], at', s).records
                  && r == Returned(Ref(at'[Repaired(rep, p[s := d], at', s).slot]))
                  && Contents(store.nodes, at') == Contents(m0, at) + multiset{d}
                  && (RootExtreme(rep, p) ==> RootExtreme(rep, Payload(store.nodes, at')))
                  && (rep != BaseRepair(true) && (forall k :: k in at ==> k < s) && SortedTree(p, at, 1)
                      ==> SortedTree(Payload(store.nodes, at'), at', 1)))
  {
    ghost var p := Payload(m0, at);
    ghost var dir := if s % 2 == 0 then Left else Right;
    assert Child(q, dir) == s;
    last' := Ref(c);
    AttachedPositioned(m0, at, q, dir, c);
    AttachedContents(m0, at, q, dir, c);
    at' := at[s := c];
    j' := s;
    ghost var m1 := store.nodes;
    forall i | i in at' && i != s ensures IsValid(m1[at'[i]].data) {
      assert m1[at'[i]].data == Payload(m1, at')[i] == p[i];
    }
    r := MaintainHeapProperty(store, rep, c, at', s);
    if IsValid(m0[c].data) {
      SiftedIntoTree(m0, m1, store.nodes, at, root, last, j, s, c, rep, r, at', m0[c].data, p[s := m0[c].data]);
    }
  }

  /** SiftAttached's conclusion for a valid record d, from what maintain_heap_property leaves:
   *  at1 is the tree with c at s and p1 its records before the sift-up. */
  lemma SiftedIntoTree(m0: map<Id, Node>, m1: map<Id, Node>, m2: map<Id, Node>, at: map<nat, Id>, root: Obj,
                       last: Obj, j: nat, s: nat, c: Id, rep: Repair, r: Outcome<Obj>,
                       at1: map<nat, Id>, d: Data, p1: map<nat, Data>)
    requires Shaped(m0, at, root, |at|, last, j) && at != map[]
    requires c in m0 && c !in at.Values && m0[c] == FreshNode(d) && IsValid(d)
    requires s / 2 in at && s >= 2 && s !in at && at1 == at[s := c]
    requires m1 == Attached(m0, at[s / 2], c, if s % 2 == 0 then Left else Right)
    requires Positioned(m1, at1) && Rewritten(m1, m2, at1) && PrefixClosed(at1)
    requires p1 == Payload(m0, at)[s := d] && p1 == Payload(m1, at1)
    requires Payload(m2, at1) == Repaired(rep, p1, at1, s).records
    requires r == Returned(Ref(at1[Repaired(rep, p1, at1, s).slot]))
    ensures Shaped(m2, at1, root, |at| + 1, Ref(c), s)
    ensures Contents(m2, at1) == Contents(m0, at) + multiset{d}
    ensures RootExtreme(rep, Payload(m0, at)) ==> RootExtreme(rep, Payload(m2, at1))
    ensures rep != BaseRepair(true) && (forall k :: k in at ==> k < s) && SortedTree(Payload(m0, at), at, 1)
            ==> SortedTree(Payload(m2, at1), at1, 1)
  {
    PushedIntoTree(m0, m1, m2, at, root, last, j, s, c, rep);
    if rep != BaseRepair(true) && (forall k :: k in at ==> k < s) && SortedTree(Payload(m0, at), at, 1) {
      AllValidRecords(m0, at);
      RepairedSorts(rep, Payload(m0, at), at, s, d, c);
    }
  }

  /** push(user_data) on the heap fields, as PushedInto says. */
  method PushNode(store: NodeStore, rep: Repair, root: Obj, size: int, last: Obj, u: UserData,
                  ghost at: map<nat, Id>, ghost j: nat)
    returns (r: Outcome<Obj>, root': Obj, size': int, last': Obj, ghost at': map<nat, Id>, ghost j': nat)
    requires store.Valid() && Shaped(store.nodes, at, root, size, last, j)
    modifies store
    ensures store.Valid()
    ensures PushedInto(old(store.nodes), at, root, size, last, j, u, rep, store.nodes, at', root', size', last', j', r)
  {
    var v := ValidNode(u);
    if v.None? {
      r, root', size', last', at', j' := Returned(Nil), root, size, last, at, j;
      PushedNothing(store.nodes, at, root, size, last, j, u, rep);
      return;
    }
    ghost var m0 := store.nodes;
    var c := store.NewNode(v.value);
    // `unless root.nil? or root.valid?`
    if !LinkValid(store.nodes, root) {
      at' := if IsValid(v.value) then map[1 := c] else map[];
      r, root', size', last', j' := Returned(Nil), Ref(c), 1, Ref(c), 1;
      PushedOntoHuskInto(m0, store.nodes, at, root, size, last, j, u, rep, c, at', root', size', last', j', r);
      return;
    }
    r, root', size', last', at', j' := PushOnPath(store, rep, root, size, last, u, c, m0, at, j);
  }

  /** The rest of push once the node c is made for u and the root is valid:
   *  insert_node_on_path(node, size + 1), then size + 1. */
  method PushOnPath(store: NodeStore, rep: Repair, root: Obj, size: int, last: Obj, u: UserData, c: Id,
                    ghost m0: map<Id, Node>, ghost at: map<nat, Id>, ghost j: nat)
    returns (r: Outcome<Obj>, root': Obj, size': int, last': Obj, ghost at': map<nat, Id>, ghost j': nat)
    requires Shaped(m0, at, root, size, last, j) && !u.Other? && LinkValid(m0, root)
    requires store.Valid() && c !in m0 && store.nodes == m0[c := FreshNode(ValidNode(u).value)]
    modifies store
    ensures store.Valid()
    ensures PushedInto(m0, at, root, size, last, j, u, rep, store.nodes, at', root', size', last', j', r)
  {
    ShapedFresh(m0, at, root, size, last, j, c, FreshNode(ValidNode(u).value));
    ghost var m1 := store.nodes;
    ghost var s;
    var r0;
    r0, last', at', j', s := InsertNodeOnPath(store, rep, root, last, c, size + 1, at, j);
    root' := root;
    size' := size + 1;
    r := if r0.Returned? then Returned(Nil) else r0;
    PushedOnPathInto(m0, m1, store.nodes, at, root, size, last, j, u, rep, c, r0, s, at', root', size', last', j', r);
  }


  /** push onto a heap without a tree. */
  lemma PushedOntoHuskInto(m0: map<Id, Node>, m: map<Id, Node>, at: map<nat, Id>, root: Obj, size: int, last: Obj,
                           j: nat, u: UserData, rep: Repair, c: Id,
                           at': map<nat, Id>, root': Obj, size': int, last': Obj, j': nat, r: Outcome<Obj>)
    requires Shaped(m0, at, root, size, last, j) && !u.Other? && !LinkValid(m0, root)
    requires c !in m0 && m == m0[c := FreshNode(ValidNode(u).value)]
    requires at' == (if IsValid(ValidNode(u).value) then map[1 := c] else map[])
    requires root' == Ref(c) && size' == 1 && last' == Ref(c) && j' == 1 && r == Returned(Nil)
    ensures PushedInto(m0, at, root, size, last, j, u, rep, m, at', root', size', last', j', r)
  {
    var d := ValidNode(u).value;
    PushedOntoHusk(m, c, d, rep);
    assert at == map[];
    assert Contents(m0, at) == multiset{};
    SingleSorted(Payload(m, at'), at');
  }

  /** push of anything but an Array or a Hash. */
  lemma PushedNothing(m: map<Id, Node>, at: map<nat, Id>, root: Obj, size: int, last: Obj, j: nat,
                      u: UserData, rep: Repair)
    requires Shaped(m, at, root, size, last, j) && u.Other?
    ensures PushedInto(m, at, root, size, last, j, u, rep, m, at, root, size, last, j, Returned(Nil))
  {
  }


  /** push onto a tree, once insert_node_on_path has done what InsertedOnPath says: the fields. */
  lemma PushedOnPathFields(m0: map<Id, Node>, m1: map<Id, Node>, m: map<Id, Node>, at: map<nat, Id>, root: Obj,
                           size: int, last: Obj, j: nat, u: UserData, rep: Repair, c: Id,
                           r0: Outcome<Obj>, s: nat, at': map<nat, Id>, last': Obj, j': nat)
    requires Positioned(m0, at) && !u.Other? && at != map[] && size == |at|
    requires c !in m0 && m1 == m0[c := FreshNode(ValidNode(u).value)]
    requires Positioned(m1, at) && Payload(m1, at) == Payload(m0, at) && Contents(m1, at) == Contents(m0, at)
    requires InsertedOnPath(m1, at, last, j, c, size + 1, rep, root, m, at', last', j', r0, s)
    ensures PushedFields(m0, at, root, size, last, j, u, m, at', root, size + 1, last', j',
                         if r0.Returned? then Returned(Nil) else r0)
  {
    var d := ValidNode(u).value;
    assert m1[c].data == d;
    assert Insertion(Payload(m1, at), at, m1[c].data, size + 1) == Insertion(Payload(m0, at), at, d, size + 1);
  }

  /** The heap after a push onto a tree that returns. */
  lemma PushedOnPathHeap(m0: map<Id, Node>, m1: map<Id, Node>, m: map<Id, Node>, at: map<nat, Id>, root: Obj,
                         size: int, last: Obj, j: nat, u: UserData, rep: Repair, c: Id,
                         r0: Outcome<Obj>, s: nat, at': map<nat, Id>, last': Obj, j': nat)
    requires Positioned(m0, at) && !u.Other? && at != map[] && size == |at|
    requires c !in m0 && m1 == m0[c := FreshNode(ValidNode(u).value)]
    requires Positioned(m1, at) && Payload(m1, at) == Payload(m0, at) && Contents(m1, at) == Contents(m0, at)
    requires InsertedOnPath(m1, at, last, j, c, size + 1, rep, root, m, at', last', j', r0, s)
    ensures PushedHeap(m0, at, u, rep, m, at', root, size + 1, last', j',
                       if r0.Returned? then Returned(Nil) else r0)
  {
    var d := ValidNode(u).value;
    assert m1[c].data == d;
    assert Insertion(Payload(m1, at), at, m1[c].data, size + 1) == Insertion(Payload(m0, at), at, d, size + 1);
    if r0.Returned? {
      assert Added(u) == multiset{d};
      if Complete(at) {
        CompletePlacement(at, c);
        assert Complete(at');
        assert forall k :: k in at ==> k < s;
      }
    }
  }

  /** A push of a new valid record onto a complete tree returns. */
  lemma PushedOnPathNoFail(m0: map<Id, Node>, m1: map<Id, Node>, m: map<Id, Node>, at: map<nat, Id>, root: Obj,
                           size: int, last: Obj, j: nat, u: UserData, rep: Repair, c: Id,
                           r0: Outcome<Obj>, s: nat, at': map<nat, Id>, last': Obj, j': nat)
    requires Positioned(m0, at) && !u.Other? && at != map[] && size == |at|
    requires c !in m0 && m1 == m0[c := FreshNode(ValidNode(u).value)]
    requires Positioned(m1, at) && Payload(m1, at) == Payload(m0, at) && Contents(m1, at) == Contents(m0, at)
    requires InsertedOnPath(m1, at, last, j, c, size + 1, rep, root, m, at', last', j', r0, s)
    ensures PushedNoFail(m0, at, u, if r0.Returned? then Returned(Nil) else r0)
  {
    var d := ValidNode(u).value;
    assert m1[c].data == d;
    assert Insertion(Payload(m1, at), at, m1[c].data, size + 1) == Insertion(Payload(m0, at), at, d, size + 1);
    if Complete(at) && IsValid(d) && d !in Contents(m0, at) {
      CompletePlacement(at, c);
      BagOfMember<nat, Data>(Payload(m0, at), at.Keys, d);
      assert Insertion(Payload(m0, at), at, d, size + 1).Returned?;
    }
  }

  /** push onto a tree, as PushedInto says. */
  lemma PushedOnPathInto(m0: map<Id, Node>, m1: map<Id, Node>, m: map<Id, Node>, at: map<nat, Id>, root: Obj,
                         size: int, last: Obj, j: nat, u: UserData, rep: Repair, c: Id,
                         r0: Outcome<Obj>, s: nat, at': map<nat, Id>, root': Obj, size': int, last': Obj, j': nat,
                         r: Outcome<Obj>)
    requires Shaped(m0, at, root, size, last, j) && !u.Other? && at != map[] && size == |at|
    requires c !in m0 && m1 == m0[c := FreshNode(ValidNode(u).value)]
    requires Positioned(m1, at) && Payload(m1, at) == Payload(m0, at) && Contents(m1, at) == Contents(m0, at)
    requires InsertedOnPath(m1, at, last, j, c, size + 1, rep, root, m, at', last', j', r0, s)
    requires root' == root && size' == size + 1 && r == if r0.Returned? then Returned(Nil) else r0
    ensures PushedInto(m0, at, root, size, last, j, u, rep, m, at', root', size', last', j', r)
  {
    PushedOnPathFields(m0, m1, m, at, root, size, last, j, u, rep, c, r0, s, at', last', j');
    PushedOnPathHeap(m0, m1, m, at, root, size, last, j, u, rep, c, r0, s, at', last', j');
    PushedOnPathNoFail(m0, m1, m, at, root, size, last, j, u, rep, c, r0, s, at', last', j');
  }

  // ---------------------------------------------------------------------------------------------
  // Pop, peek, delete!, replace!

  /** On a heap whose root is extreme, the record pop answers ranks at least as high as every
   *  record left behind. */
  lemma PoppedExtreme(m0: map<Id, Node>, m: map<Id, Node>, at: map<nat, Id>, root: Obj, size: int,
                      last: Obj, j: nat, rep: Repair,
                      r: Outcome<Removed>, size': int, last': Obj, at': map<nat, Id>, j': nat)
    requires Shaped(m0, at, root, size, last, j) && at != map[] && 1 in at
    requires RemovedFrom(m0, m, at, root, size, last, j, 1, r, size', last', at', j')
    requires RootExtreme(rep, Payload(m0, at)) && r.Returned?
    ensures r.value.Record? && Shaped(m, at', root, size', last', j')
    ensures forall d :: d in Contents(m, at') ==> Rank(rep, d) <= Rank(rep, r.value.data)
  {
    var p := Payload(m0, at);
    forall d | d in Contents(m, at') ensures Rank(rep, d) <= Rank(rep, r.value.data) {
      assert d in Contents(m0, at);
      BagOfMember<nat, Data>(p, at.Keys, d);
    }
  }

  /** peek on a heap whose root is extreme answers a record that ranks at least as high as every
   *  record the heap holds. */
  lemma PeekedExtreme(m: map<Id, Node>, at: map<nat, Id>, rep: Repair)
    requires InNodes(m, at) && 1 in at && RootExtreme(rep, Payload(m, at))
    ensures forall d :: d in Contents(m, at) ==> Rank(rep, d) <= Rank(rep, m[at[1]].data)
  {
    var p := Payload(m, at);
    forall d | d in Contents(m, at) ensures Rank(rep, d) <= Rank(rep, m[at[1]].data) {
      BagOfMember<nat, Data>(p, at.Keys, d);
    }
  }

  /** The slot include? finds q at, on a tree holding q. */
  ghost function FoundSlot(m: map<Id, Node>, at: map<nat, Id>, q: Data): (k: nat)
    requires Positioned(m, at) && 1 in at && q in Contents(m, at)
    ensures k in at && Payload(m, at)[k] == q
  {
    PreOrderCovers(at, 1);
    SubRoot(at);
    BagOfMember<nat, Data>(Payload(m, at), at.Keys, q);
    var x :| x in at.Keys && Payload(m, at)[x] == q;
    assert x in Elements(PreOrder(at, 1));
    FirstWith(Payload(m, at), PreOrder(at, 1), q).value
  }

  /** What delete!(u) does: anything but an Array or a Hash answers nil; otherwise include?
   *  locates the record. A raise (false has no valid?, so an absent record raises NoMethodError)
   *  or a nil answer changes nothing; a found node is removed as RemovedFrom says. */
  ghost predicate DeletedFrom(m0: map<Id, Node>, at0: map<nat, Id>, root: Obj, size0: int, last0: Obj, j0: nat,
                              u: UserData, m: map<Id, Node>, at: map<nat, Id>, size: int, last: Obj, j: nat,
                              r: Outcome<Removed>)
    requires Shaped(m0, at0, root, size0, last0, j0)
  {
    var same := m == m0 && at == at0 && size == size0 && last == last0 && j == j0;
    && (u.Other? ==> r == Returned(Untouched(Nil)) && same)
    && (!u.Other? ==>
          var loc := Locate(m0, at0, root, ValidNode(u).value);
          && (loc.Raised? ==> r == Raised(loc.error) && same)
          && (loc == Returned(None) ==> r == Returned(Untouched(Nil)) && same)
          && (loc.Returned? && loc.value.Some? ==>
                && at0 != map[] && ValidNode(u).value in Contents(m0, at0)
                && RemovedFrom(m0, m, at0, root, size0, last0, j0, FoundSlot(m0, at0, ValidNode(u).value),
                               r, size, last, at, j)))
  }

  /** delete! of a record the tree holds removes one copy of it and answers it; delete! of a
   *  record it does not hold raises NoMethodError and changes nothing. */
  lemma DeletedRecord(m0: map<Id, Node>, at0: map<nat, Id>, root: Obj, size0: int, last0: Obj, j0: nat,
                      u: UserData, m: map<Id, Node>, at: map<nat, Id>, size: int, last: Obj, j: nat,
                      r: Outcome<Removed>)
    requires Shaped(m0, at0, root, size0, last0, j0) && at0 != map[] && !u.Other?
    requires DeletedFrom(m0, at0, root, size0, last0, j0, u, m, at, size, last, j, r)
    ensures var q := ValidNode(u).value;
            && (q in Contents(m0, at0) && r.Returned? ==>
                  r.value == Record(q) && size == size0 - 1 && Contents(m, at) + multiset{q} == Contents(m0, at0))
            && (q !in Contents(m0, at0) ==> r == Raised(NoMethodError) && m == m0 && at == at0 && size == size0)
  {
    var q := ValidNode(u).value;
    LocateInTree(m0, at0, root, q);
    if q !in Contents(m0, at0) {
      LocateRaises(m0, at0, root, q);
    }
  }

  /** include? on a tree raises only NoMethodError. */
  lemma LocateRaises(m: map<Id, Node>, at: map<nat, Id>, root: Obj, q: Data)
    requires Rooted(m, at, root) && at != map[]
    ensures Locate(m, at, root, q).Raised? ==> Locate(m, at, root, q).error == NoMethodError
  {
  }

  /** include? on a tree answers exactly for the records it holds, and raises NoMethodError
   *  otherwise. */
  lemma LocateFacts(m: map<Id, Node>, at: map<nat, Id>, root: Obj, q: Data)
    requires Rooted(m, at, root)
    ensures at != map[] ==> (Locate(m, at, root, q).Returned? <==> q in Contents(m, at))
    ensures at != map[] && Locate(m, at, root, q).Raised? ==> Locate(m, at, root, q).error == NoMethodError
  {
    if at != map[] {
      LocateInTree(m, at, root, q);
      LocateRaises(m, at, root, q);
    }
  }

  /** delete!(u) on the heap fields, as DeletedFrom says. */
  method DeleteNode(store: NodeStore, root: Obj, size: int, last: Obj, u: UserData,
                    ghost at: map<nat, Id>, ghost j: nat)
    returns (r: Outcome<Removed>, size': int, last': Obj, ghost at': map<nat, Id>, ghost j': nat)
    requires store.Valid() && Shaped(store.nodes, at, root, size, last, j)
    modifies store
    ensures store.Valid()
    ensures DeletedFrom(old(store.nodes), at, root, size, last, j, u, store.nodes, at', size', last', j', r)
  {
    var v := ValidNode(u);
    if v.None? {
      return Returned(Untouched(Nil)), size, last, at, j;
    }
    var loc := Locate(store.nodes, at, root, v.value);
    if loc.Raised? {
      return Raised(loc.error), size, last, at, j;
    }
    if loc.value.None? {
      return Returned(Untouched(Nil)), size, last, at, j;
    }
    LocateInTree(store.nodes, at, root, v.value);
    ghost var k := FoundSlot(store.nodes, at, v.value);
    r, size', last', at', j' := RemoveNode(store, root, size, last, Ref(loc.value.value), at, j, k);
  }

  /** What replace!(u) does: anything but an Array or a Hash answers nil and changes nothing;
   *  otherwise a fresh node c is made for u's record and remove(@root, c) runs: a heap without a
   *  tree answers its root untouched, and a tree goes as ReplacedIn says. */
  ghost predicate ReplacedWith(m0: map<Id, Node>, at0: map<nat, Id>, root: Obj, size: int, last0: Obj, j0: nat,
                               u: UserData, c: Id, m: map<Id, Node>, at: map<nat, Id>, last: Obj, j: nat,
                               r: Outcome<Removed>)
    requires Shaped(m0, at0, root, size, last0, j0)
  {
    && (u.Other? ==> r == Returned(Untouched(Nil)) && m == m0 && at == at0 && last == last0 && j == j0)
    && (!u.Other? ==>
          var m1 := m0[c := FreshNode(ValidNode(u).value)];
          && c !in m0
          && (at0 == map[] ==> r == Returned(Untouched(root)) && m == m1 && at == at0 && last == last0 && j == j0)
          && (at0 != map[] ==> 1 in at0 && Positioned(m1, at0) && ReplacedIn(m1, m, at0, root, size, c, r, last, at, j)))
  }

  /** replace! on a tree answers the old root record and leaves the heap holding u's record (when
   *  valid) instead of it. */
  lemma ReplacedRecords(m0: map<Id, Node>, at0: map<nat, Id>, root: Obj, size: int, last0: Obj, j0: nat,
                        u: UserData, c: Id, m: map<Id, Node>, at: map<nat, Id>, last: Obj, j: nat,
                        r: Outcome<Removed>)
    requires Shaped(m0, at0, root, size, last0, j0) && at0 != map[] && !u.Other?
    requires ReplacedWith(m0, at0, root, size, last0, j0, u, c, m, at, last, j, r)
    requires r.Returned?
    ensures 1 in at0 && r.value == Record(Payload(m0, at0)[1]) && Shaped(m, at, root, size, last, j)
    ensures Contents(m, at) + multiset{Payload(m0, at0)[1]} == Contents(m0, at0) + Added(u)
  {
    PositionedFresh(m0, at0, c, FreshNode(ValidNode(u).value));
  }

  /** replace!(u) on the heap fields, as ReplacedWith says. */
  method ReplaceRoot(store: NodeStore, root: Obj, size: int, last: Obj, u: UserData,
                     ghost at: map<nat, Id>, ghost j: nat)
    returns (r: Outcome<Removed>, last': Obj, ghost at': map<nat, Id>, ghost j': nat, ghost c: Id)
    requires store.Valid() && Shaped(store.nodes, at, root, size, last, j)
    modifies store
    ensures store.Valid()
    ensures ReplacedWith(old(store.nodes), at, root, size, last, j, u, c, store.nodes, at', last', j', r)
  {
    c := 0;
    var v := ValidNode(u);
    if v.None? {
      return Returned(Untouched(Nil)), last, at, j, c;
    }
    ghost var m0 := store.nodes;
    var n := store.NewNode(v.value);
    c := n;
    ShapedFresh(m0, at, root, size, last, j, n, FreshNode(v.value));
    assert root != Ref(n);
    r, last', at', j' := ReplaceNode(store, root, size, last, n, at, j);
  }

  /** `node&.valid? ? node.to_s : nil` on what include? answers: the node's record. */
  function Found(loc: Outcome<Option<Id>>, m: map<Id, Node>): (r: Outcome<Option<Data>>)
    requires loc.Returned? && loc.value.Some? ==> loc.value.value in m
    ensures loc.Raised? ==> r == Raised(loc.error)
    ensures loc.Returned? ==> r.Returned? && (r.value.Some? <==> loc.value.Some?)
    ensures loc.Returned? && loc.value.Some? ==> r.value.value == m[loc.value.value].data
  {
    match loc
    case Raised(e) => Raised(e)
    case Returned(None) => Returned(None)
    case Returned(Some(y)) => Returned(Some(m[y].data))
  }

  // ---------------------------------------------------------------------------------------------
  // The heap

  class HeapBase {
    /** The nodes this heap allocates (Node.new) and links. */
    const store: NodeStore
    /** max_min_type: true for a maximum heap, fixing the comparator of the sift-up. */
    const maxType: bool
    var root: Obj
    var size: int
    var lastNode: Obj
    /** The slots of the tree's nodes, and last_node's slot. */
    ghost var at: map<nat, Id>
    ghost var lastSlot: nat

    ghost predicate Valid()
      reads this, store
    {
      store.Valid() && Shaped(store.nodes, at, root, size, lastNode, lastSlot)
    }

    /** The records the heap holds. */
    ghost function Records(): multiset<Data>
      reads this, store
      requires Valid()
    {
      Contents(store.nodes, at)
    }

    /** No record ranks above the root's for this heap's comparator. */
    ghost predicate Extreme()
      reads this, store
      requires Valid()
    {
      RootExtreme(BaseRepair(maxType), Payload(store.nodes, at))
    }

    /** Every node's record is no greater than its children's, and a left child's no greater
     *  than its right sibling's: the order a minimum heap's push keeps. */
    ghost predicate Ordered()
      reads this, store
      requires Valid()
    {
      SortedTree(Payload(store.nodes, at), at, 1)
    }

    /** HeapBase.new with no arguments: size 0, an EmptyNode for root and last_node. */
    constructor (maxType: bool)
      ensures Valid() && fresh(store) && this.maxType == maxType
      ensures root == Sentinel && lastNode == Sentinel && size == 0 && at == map[]
    {
      store := new NodeStore();
      this.maxType := maxType;
      root := Sentinel;
      size := 0;
      lastNode := Sentinel;
      at := map[];
      lastSlot := 1;
    }

    /** push(user_data), as PushedInto says. */
    method Push(u: UserData) returns (r: Outcome<Obj>)
      requires Valid()
      modifies this, store
      ensures store.Valid()
      ensures PushedInto(old(store.nodes), old(at), old(root), old(size), old(lastNode), old(lastSlot), u, BaseRepair(maxType),
                         store.nodes, at, root, size, lastNode, lastSlot, r)
    {
      var root', size', last';
      ghost var at', j';
      r, root', size', last', at', j' := PushNode(store, BaseRepair(maxType), root, size, lastNode, u, at, lastSlot);
      root, size, lastNode, at, lastSlot := root', size', last', at', j';
    }

    /** pop: remove(@root). A heap without a tree answers its root untouched. */
    method Pop() returns (r: Outcome<Removed>)
      requires Valid()
      modifies this, store
      ensures store.Valid() && root == old(root)
      ensures old(at) == map[] ==> && r == Returned(Untouched(old(root))) && store.nodes == old(store.nodes)
                                   && size == old(size) && lastNode == old(lastNode) && at == old(at)
      ensures old(at) != map[] ==> 1 in old(at) && RemovedFrom(old(store.nodes), store.nodes, old(at), old(root), old(size),
                                                               old(lastNode), old(lastSlot), 1, r, size, lastNode, at, lastSlot)
    {
      ghost var m0, at0, size0, last0, j0 := store.nodes, at, size, lastNode, lastSlot;
      var size1, last1;
      ghost var at1, j1;
      r, size1, last1, at1, j1 := RemoveNode(store, root, size, lastNode, root, at, lastSlot, 1);
      ghost var removed := at0 != map[] && RemovedFrom(m0, store.nodes, at0, root, size0, last0, j0, 1, r, size1, last1, at1, j1);
      size, lastNode, at, lastSlot := size1, last1, at1, j1;
      assert at0 != map[] ==> removed && RemovedFrom(m0, store.nodes, at0, root, size0, last0, j0, 1, r, size, lastNode, at, lastSlot);
    }

    /** peek: the root's record; an EmptyNode has no data. */
    function Peek(): (r: Outcome<Data>)
      reads this, store
      requires Valid()
      ensures at != map[] ==> r == Returned(Payload(store.nodes, at)[1])
      ensures at == map[] ==> (r.Raised? <==> root == Sentinel)
    {
      match root
      case Ref(x) => Returned(store.nodes[x].data)
      case _ => Raised(NoMethodError)
    }

    /** delete!(u), as DeletedFrom says. */
    method Delete(u: UserData) returns (r: Outcome<Removed>)
      requires Valid()
      modifies this, store
      ensures store.Valid() && root == old(root)
      ensures DeletedFrom(old(store.nodes), old(at), old(root), old(size), old(lastNode), old(lastSlot), u,
                          store.nodes, at, size, lastNode, lastSlot, r)
    {
      var size', last';
      ghost var at', j';
      r, size', last', at', j' := DeleteNode(store, root, size, lastNode, u, at, lastSlot);
      size, lastNode, at, lastSlot := size', last', at', j';
    }

    /** replace!(u), as ReplacedWith says, c being the node made for u. */
    method Replace(u: UserData) returns (r: Outcome<Removed>, ghost c: Id)
      requires Valid()
      modifies this, store
      ensures store.Valid() && root == old(root) && size == old(size)
      ensures ReplacedWith(old(store.nodes), old(at), old(root), old(size), old(lastNode), old(lastSlot), u, c,
                           store.nodes, at, lastNode, lastSlot, r)
    {
      var last';
      ghost var at', j';
      r, last', at', j', c := ReplaceRoot(store, root, size, lastNode, u, at, lastSlot);
      lastNode, at, lastSlot := last', at', j';
    }

    /** clear!: `root.clean(true)` (NoMethodError on an EmptyNode root), then an EmptyNode for
     *  root and last_node and size 0. */
    method Clear() returns (r: Outcome<Obj>)
      requires Valid()
      modifies this, store
      ensures store.Valid()
      ensures old(root) == Sentinel ==> && r == Raised(NoMethodError) && store.nodes == old(store.nodes)
                                        && root == old(root) && size == old(size) && lastNode == old(lastNode) && at == old(at)
      ensures old(root) != Sentinel ==> && r == Returned(Nil) && Valid() && root == Sentinel && lastNode == Sentinel
                                        && size == 0 && IsEmpty() && Records() == multiset{}
      ensures old(root) != Sentinel ==> forall k :: k in old(at) ==> old(at)[k] in store.nodes && store.nodes[old(at)[k]] == Dead
    {
      r := ClearRoot(store, at, root);
      if r.Raised? {
        return;
      }
      root := Sentinel;
      lastNode := root;
      size := 0;
      at := map[];
      lastSlot := 1;
    }

    /** include?(u): the record when the heap's include? finds a valid node holding it; nil for
     *  anything but an Array or a Hash and for a husk root holding it. */
    function Include(u: UserData): (r: Outcome<Option<Data>>)
      reads this, store
      requires Valid()
      ensures u.Other? ==> r == Returned(None)
      ensures !u.Other? && at != map[] ==> (r.Returned? <==> ValidNode(u).value in Records())
      ensures r.Returned? && r.value.Some? ==> r.value == ValidNode(u) && ValidNode(u).value in Records()
      ensures !u.Other? && at != map[] && r.Raised? ==> r.error == NoMethodError
    {
      match ValidNode(u)
      case None => Returned(None)
      case Some(q) =>
        LocateFacts(store.nodes, at, root, q);
        Found(Locate(store.nodes, at, root, q), store.nodes)
    }

    /** size. */
    function Size(): (n: int)
      reads this, store
      requires Valid()
      ensures at != map[] ==> n == |Records()|
      ensures at == map[] ==> n == 0 || n == 1
    {
      size
    }

    /** empty?: size is 0. A pushed record with a nil value on an empty heap leaves size 1 and no
     *  record. */
    function IsEmpty(): (e: bool)
      reads this, store
      requires Valid()
      ensures e <==> Size() == 0
      ensures e ==> Records() == multiset{}
    {
      size == 0
    }

    /** inspect: the root's inspect. */
    function Inspect(): (s: string)
      reads this, store
      requires Valid()
      ensures at != map[] ==> Count('{', s) == 2 * |Records()| + 1 && Count('}', s) == 2 * |Records()| + 1
      ensures at != map[] ==> Drawings.Read(s) == Some(Drawings.Drawn(store.nodes, at, 1))
      ensures root == Sentinel ==> s == "{}"
    {
      InspectRoot(store.nodes, at, root)
    }

    /** to_a: the root's dfs_pre_order, as Listing says; an EmptyNode root has none. */
    method ToA() returns (r: Outcome<seq<Data>>)
      requires Valid()
      ensures r == Listing(store.nodes, at, root)
      ensures at != map[] ==> r.Returned? && multiset(r.value) == Records() && |r.value| == size
      ensures root == Sentinel ==> r == Raised(NoMethodError)
    {
      r := ListRoot(store, at, root);
      ListingContents(store.nodes, at, root);
    }

    /** A tree: to_a lists its valid records. */
    ghost predicate Whole()
      reads this
    {
      at != map[]
    }

    /** merge(other): nil unless other is a heap; otherwise a new heap that heapify (a minimum
     *  heap) builds from both listings, duplicates dropped, as Rebuilt says; both operands are
     *  left as they were. The to_a of an empty operand raises NoMethodError. */
    method Merge(other: HeapBase?) returns (r: Outcome<Option<HeapBase>>)
      requires Valid() && (other != null ==> other.Valid())
      ensures other == null ==> r == Returned(None)
      ensures other != null ==>
                Rebuilt(Combined(Listing(store.nodes, at, root), Listing(other.store.nodes, other.at, other.root)), r)
      ensures r.Returned? && r.value.Some? ==> fresh(r.value.value) && fresh(r.value.value.store)
      ensures other != null && (root == Sentinel || other.root == Sentinel) ==> r == Raised(NoMethodError)
      ensures other != null && Whole() && other.Whole() ==>
                && r.Returned? && r.value.Some? && r.value.value.Valid()
                && (forall d :: d in r.value.value.Records() <==> d in Records() || d in other.Records())
                && (forall d :: r.value.value.Records()[d] <= 1)
                && !r.value.value.maxType && r.value.value.Ordered()
    {
      if other == null {
        return Returned(None);
      }
      ghost var m1, at1, root1, m2, at2, root2 := store.nodes, at, root, other.store.nodes, other.at, other.root;
      var l1 := ToA();
      var l2 := other.ToA();
      r := Rebuild(l1, l2);
      if Whole() && other.Whole() {
        MergedHeap(m1, at1, root1, m2, at2, root2, r);
        assert Records() == Contents(m1, at1) && other.Records() == Contents(m2, at2);
      }
    }

    /** merge!(other): nil unless other is a heap; otherwise each record of other's to_a pushed
     *  into this heap as MergedInto says, and this heap answered. The records of a tree other
     *  are all added, so the sizes add up; an empty other raises in its to_a. */
    method MergeInto(other: HeapBase?) returns (r: Outcome<Option<HeapBase>>)
      requires Valid() && (other != null ==> other.Valid())
      modifies this, store
      ensures other == null ==> r == Returned(None) && unchanged(this) && unchanged(store)
      ensures other != null ==> Listing(old(other.store.nodes), old(other.at), old(other.root)).Raised? ==>
                                  unchanged(this) && unchanged(store)
      ensures other != null && old(other.root) == Sentinel ==> r == Raised(NoMethodError)
      ensures other != null ==>
                MergedInto(Listing(old(other.store.nodes), old(other.at), old(other.root)), old(Records()), old(Extreme()),
                           Complete(old(at)), Complete(old(at)) && !maxType && old(Ordered()), this, r)
      ensures other != null && old(other.at) != map[] && r.Returned? ==> Records() == old(Records()) + old(other.Records())
      ensures other != null && other != this ==> unchanged(other)
      ensures other != null && other.store != store ==> unchanged(other.store)
    {
      if other == null {
        return Returned(None);
      }
      ghost var om, oat, oroot := other.store.nodes, other.at, other.root;
      var l := other.ToA();
      if oat != map[] {
        ListedValid(om, oat, oroot);
      }
      r := PushListing(l);
    }

    /** The pushes of merge! for the listing l of the other heap, as MergedInto says. */
    method PushListing(l: Outcome<seq<Data>>) returns (r: Outcome<Option<HeapBase>>)
      requires Valid()
      modifies this, store
      ensures l.Raised? ==> unchanged(this) && unchanged(store)
      ensures MergedInto(l, old(Records()), old(Extreme()), Complete(old(at)), Complete(old(at)) && !maxType && old(Ordered()),
                         this, r)
    {
      ghost var base, ext, comp := Records(), Extreme(), Complete(at);
      ghost var ord := comp && !maxType && Ordered();
      if l.Raised? {
        return Raised(l.error);
      }
      assert Grown(this, base, [], ext, comp, ord);
      var p := PushAll(this, AsHashes(l.value), base, ext, comp, ord);
      if p.Raised? {
        return Raised(p.error);
      }
      if forall i :: 0 <= i < |l.value| ==> IsValid(l.value[i]) {
        AddedHashes(l.value);
      }
      return Returned(Some(this));
    }

    /** The rest of union! once both listings returned: other.clear!, clear!, then heapify, as
     *  ClearedRebuilt says. */
    method ClearAndRebuild(other: HeapBase, l1: Outcome<seq<Data>>, l2: Outcome<seq<Data>>)
      returns (r: Outcome<Option<HeapBase>>)
      requires Valid() && other.Valid() && (other == this || other.store != store)
      modifies this, store, other, other.store
      ensures ClearedRebuilt(old(root), old(other.root), other == this, Combined(l1, l2), this, other, r)
      ensures r.Returned? && r.value.Some? ==> fresh(r.value.value) && fresh(r.value.value.store)
    {
      var c := other.Clear();
      if c.Raised? {
        return Raised(c.error);
      }
      c := Clear();
      if c.Raised? {
        return Raised(c.error);
      }
      r := Rebuild(l1, l2);
    }

    /** union!(other): nil unless other is a heap; otherwise both listings are taken, other is
     *  cleared, then this heap, and heapify builds the new heap from the listings as merge does.
     *  The to_a of an empty heap raises NoMethodError before anything is cleared, and a union
     *  with itself raises in the second clear!, on the EmptyNode root the first one left. */
    method Union(other: HeapBase?) returns (r: Outcome<Option<HeapBase>>)
      requires Valid() && (other != null ==> other.Valid() && (other == this || other.store != store))
      modifies this, store, if other != null then {other, other.store} else {}
      ensures other == null ==> r == Returned(None) && unchanged(this) && unchanged(store)
      ensures other != null ==> Unioned(old(store.nodes), old(at), old(root), old(other.store.nodes), old(other.at),
                                        old(other.root), other == this, this, other, r)
      ensures r.Returned? && r.value.Some? ==> fresh(r.value.value) && fresh(r.value.value.store)
      ensures other != null && (old(root) == Sentinel || old(other.root) == Sentinel) ==>
                && r == Raised(NoMethodError)
                && unchanged(this) && unchanged(store) && unchanged(other) && unchanged(other.store)
      ensures other != null && other != this && old(at) != map[] && old(other.at) != map[] ==>
                && r.Returned? && r.value.Some? && r.value.value.Valid()
                && (forall d :: d in r.value.value.Records() <==> d in old(Records()) || d in old(other.Records()))
                && (forall d :: r.value.value.Records()[d] <= 1)
                && !r.value.value.maxType && r.value.value.Ordered()
    {
      if other == null {
        return Returned(None);
      }
      if at != map[] && other.at != map[] {
        MergedRecords(store.nodes, at, root, other.store.nodes, other.at, other.root);
      }
      var l1 := ToA();
      var l2 := other.ToA();
      if l1.Raised? {
        return Raised(l1.error);
      }
      if l2.Raised? {
        return Raised(l2.error);
      }
      r := ClearAndRebuild(other, l1, l2);
    }
  }

  // ---------------------------------------------------------------------------------------------
  // Building heaps

  /** What HeapBase.new receives: one pair whose first element is a String (pushed as it is),
   *  or a list whose entries are pushed one by one. */
  datatype Args = Flat(description: string, value: Option<int>) | Items(items: seq<UserData>)

  /** The pushes initialize makes. */
  function Pushes(args: Args): (us: seq<UserData>)
    ensures args.Flat? ==> us == [Pair(Some(args.description), args.value)]
    ensures args.Items? ==> us == args.items
  {
    match args
    case Flat(d, v) => [Pair(Some(d), v)]
    case Items(items) => items
  }

  /** Pushes that cannot fail one after another: each a valid record, no two the same. */
  ghost predicate AllNew(us: seq<UserData>)
  {
    && (forall i :: 0 <= i < |us| ==> ValidNode(us[i]).Some? && IsValid(ValidNode(us[i]).value))
    && (forall i, k :: 0 <= i < k < |us| ==> ValidNode(us[i]) != ValidNode(us[k]))
  }

  /** A record none of the pushes makes is not added. */
  lemma {:induction false} NotAdded(us: seq<UserData>, d: Data)
    requires forall i :: 0 <= i < |us| ==> ValidNode(us[i]) != Some(d)
    ensures d !in AddedAll(us)
    decreases |us|
  {
    if us != [] {
      var n := |us| - 1;
      forall i | 0 <= i < n ensures ValidNode(us[..n][i]) != Some(d) {
        assert us[..n][i] == us[i];
      }
      NotAdded(us[..n], d);
    }
  }

  /** Among pushes that cannot fail, the next record is not yet in the heap. */
  lemma NotYetAdded(us: seq<UserData>, i: nat, base: multiset<Data>)
    requires AllNew(us) && i < |us| && forall k :: 0 <= k < |us| ==> ValidNode(us[k]).value !in base
    ensures !us[i].Other? && IsValid(ValidNode(us[i]).value) && ValidNode(us[i]).value !in base + AddedAll(us[..i])
  {
    var d := ValidNode(us[i]).value;
    forall k | 0 <= k < i ensures ValidNode(us[..i][k]) != Some(d) {
      assert us[..i][k] == us[k];
    }
    NotAdded(us[..i], d);
  }

  /** The records pushing each of the Hashes of s adds: those of s that are valid. */
  lemma {:induction false} AddedHashes(s: seq<Data>)
    requires forall i :: 0 <= i < |s| ==> IsValid(s[i])
    ensures AddedAll(AsHashes(s)) == multiset(s)
    decreases |s|
  {
    if s != [] {
      var n := |s| - 1;
      var us := AsHashes(s);
      assert us[..n] == AsHashes(s[..n]);
      AddedHashes(s[..n]);
      assert s == s[..n] + [s[n]];
    }
  }

  /** Distinct valid records make pushes that cannot fail. */
  lemma HashesNew(s: seq<Data>)
    requires Distinct(s) && forall i :: 0 <= i < |s| ==> IsValid(s[i])
    ensures AllNew(AsHashes(s))
  {
  }

  /** to_a of a tree lists valid records only. */
  lemma ListedValid(m: map<Id, Node>, at: map<nat, Id>, root: Obj)
    requires Rooted(m, at, root) && at != map[]
    ensures Listing(m, at, root).Returned?
    ensures forall i :: 0 <= i < |Listing(m, at, root).value| ==> IsValid(Listing(m, at, root).value[i])
  {
    ListingContents(m, at, root);
    var l := Listing(m, at, root).value;
    forall i | 0 <= i < |l| ensures IsValid(l[i]) {
      if at != map[] {
        assert l[i] in multiset(l);
        BagOfMember<nat, Data>(Payload(m, at), at.Keys, l[i]);
      }
    }
  }

  /** A heap holding the records base and those the pushes us add; with ext its root extreme,
   *  with comp its tree complete, with ord a minimum heap whose complete tree is sorted. */
  ghost predicate Grown(h: HeapBase, base: multiset<Data>, us: seq<UserData>, ext: bool, comp: bool, ord: bool)
    reads h, h.store
  {
    && h.Valid() && h.Records() == base + AddedAll(us) && (ext ==> h.Extreme()) && (comp ==> Complete(h.at))
    && (ord ==> comp && !h.maxType && h.Ordered())
  }

  /** A heap of the given type holding the records the pushes us add, its root extreme, its
   *  tree complete, and sorted when it is a minimum heap. */
  ghost predicate Built(h: HeapBase, us: seq<UserData>, maxType: bool)
    reads h, h.store
  {
    h.maxType == maxType && Grown(h, multiset{}, us, true, true, !maxType)
  }

  /** The prefix of i + 1 elements extends the prefix of i by one. */
  lemma PrefixStep<T>(s: seq<T>, i: nat)
    requires i < |s|
    ensures s[..i + 1] == s[..i] + [s[i]]
  {
  }

  /** The prefix of all the elements is the sequence. */
  lemma PrefixAll<T>(s: seq<T>)
    ensures s[..|s|] == s
  {
  }

  /** A returning push extends what Grown says by the pushed record. */
  lemma GrownStep(m0: map<Id, Node>, at0: map<nat, Id>, root0: Obj, size0: int, last0: Obj, j0: nat,
                  u: UserData, rep: Repair, m: map<Id, Node>, at: map<nat, Id>, root: Obj, size: int,
                  last: Obj, j: nat, r: Outcome<Obj>, base: multiset<Data>, us: seq<UserData>, ext: bool, comp: bool,
                  ord: bool)
    requires Shaped(m0, at0, root0, size0, last0, j0)
    requires PushedInto(m0, at0, root0, size0, last0, j0, u, rep, m, at, root, size, last, j, r) && r.Returned?
    requires Contents(m0, at0) == base + AddedAll(us)
    requires ext ==> RootExtreme(rep, Payload(m0, at0))
    requires comp ==> Complete(at0)
    requires ord ==> comp && rep == BaseRepair(false) && SortedTree(Payload(m0, at0), at0, 1)
    ensures Shaped(m, at, root, size, last, j) && Contents(m, at) == base + AddedAll(us + [u])
    ensures ext ==> RootExtreme(rep, Payload(m, at))
    ensures comp ==> Complete(at)
    ensures ord ==> SortedTree(Payload(m, at), at, 1)
  {
    assert (us + [u])[..|us|] == us;
  }

  /** One push of a run, on a heap Grown from the pushes before it. */
  method PushGrown(h: HeapBase, u: UserData, ghost base: multiset<Data>, ghost us: seq<UserData>,
                   ghost ext: bool, ghost comp: bool, ghost ord: bool)
    returns (r: Outcome<Obj>)
    requires Grown(h, base, us, ext, comp, ord)
    modifies h, h.store
    ensures r.Returned? ==> Grown(h, base, us + [u], ext, comp, ord)
    ensures comp && !u.Other? && IsValid(ValidNode(u).value) && ValidNode(u).value !in base + AddedAll(us)
            ==> r.Returned?
  {
    ghost var m0, at0, root0, size0, last0, j0 := h.store.nodes, h.at, h.root, h.size, h.lastNode, h.lastSlot;
    r := h.Push(u);
    if r.Returned? {
      GrownStep(m0, at0, root0, size0, last0, j0, u, BaseRepair(h.maxType), h.store.nodes, h.at, h.root, h.size,
                h.lastNode, h.lastSlot, r, base, us, ext, comp, ord);
    }
  }

  /** The push of the i-th element of a run, on a heap Grown from the i before it. */
  method PushNext(h: HeapBase, us: seq<UserData>, i: nat, ghost base: multiset<Data>, ghost ext: bool, ghost comp: bool,
                  ghost ord: bool)
    returns (r: Outcome<Obj>)
    requires i < |us| && Grown(h, base, us[..i], ext, comp, ord)
    modifies h, h.store
    ensures r.Returned? ==> Grown(h, base, us[..i + 1], ext, comp, ord)
    ensures comp && AllNew(us) && (forall k :: 0 <= k < |us| ==> ValidNode(us[k]).value !in base) ==> r.Returned?
  {
    PrefixStep(us, i);
    if AllNew(us) && forall k :: 0 <= k < |us| ==> ValidNode(us[k]).value !in base {
      NotYetAdded(us, i, base);
    }
    r := PushGrown(h, us[i], base, us[..i], ext, comp, ord);
  }

  /** `each { |user_data| push(user_data) }`: the pushes one after another, stopping at the first
   *  that raises. On a complete tree, distinct valid records the heap does not hold never raise. */
  method PushAll(h: HeapBase, us: seq<UserData>, ghost base: multiset<Data>, ghost ext: bool, ghost comp: bool,
                 ghost ord: bool)
    returns (r: Outcome<Obj>)
    requires Grown(h, base, [], ext, comp, ord)
    modifies h, h.store
    ensures r.Returned? ==> Grown(h, base, us, ext, comp, ord)
    ensures comp && AllNew(us) && (forall k :: 0 <= k < |us| ==> ValidNode(us[k]).value !in base) ==> r.Returned?
  {
    r := Returned(Nil);
    var i := 0;
    while i < |us| && r.Returned?
      invariant 0 <= i <= |us|
      invariant r.Returned? ==> Grown(h, base, us[..i], ext, comp, ord)
      invariant comp && AllNew(us) && (forall k :: 0 <= k < |us| ==> ValidNode(us[k]).value !in base) ==> r.Returned?
    {
      r := PushNext(h, us, i, base, ext, comp, ord);
      i := i + 1;
    }
    PrefixAll(us);
  }

  /** HeapBase.new(args, max_min_type): a String first element pushes args as one pair, anything
   *  else pushes each entry; a raising push is passed on. Distinct valid records never raise. */
  method New(args: Args, maxType: bool) returns (r: Outcome<HeapBase>)
    ensures r.Returned? ==> fresh(r.value) && fresh(r.value.store) && Built(r.value, Pushes(args), maxType)
    ensures AllNew(Pushes(args)) ==> r.Returned?
  {
    var h := new HeapBase(maxType);
    assert h.Records() == multiset{} + AddedAll([]);
    assert h.Ordered();
    var p := PushAll(h, Pushes(args), multiset{}, true, true, !maxType);
    if p.Raised? {
      return Raised(p.error);
    }
    return Returned(h);
  }

  // ---------------------------------------------------------------------------------------------
  // merge and union!

  /** `(to_a + other.to_a).flatten.uniq`: both listings, the first raise passed on, duplicates
   *  dropped. */
  function Combined(l1: Outcome<seq<Data>>, l2: Outcome<seq<Data>>): (c: Outcome<seq<Data>>)
    ensures l1.Raised? ==> c == Raised(l1.error)
    ensures l1.Returned? && l2.Raised? ==> c == Raised(l2.error)
    ensures c.Returned? ==> && l1.Returned? && l2.Returned? && Distinct(c.value)
                            && forall d :: d in c.value <==> d in l1.value || d in l2.value
  {
    if l1.Raised? then Raised(l1.error)
    else if l2.Raised? then Raised(l2.error)
    else
      var u := Uniq(l1.value + l2.value);
      assert forall d :: d in l1.value + l2.value <==> d in l1.value || d in l2.value;
      Returned(u)
  }

  /** heapify of combined records: a new minimum heap holding the valid ones, each once. A
   *  raising listing is passed on; valid records never raise. */
  ghost predicate Rebuilt(c: Outcome<seq<Data>>, r: Outcome<Option<HeapBase>>)
    reads if r.Returned? && r.value.Some? then {r.value.value, r.value.value.store} else {}
  {
    && (c.Raised? ==> r == Raised(c.error))
    && (r.Returned? ==> c.Returned? && r.value.Some? && Built(r.value.value, AsHashes(c.value), false))
    && (c.Returned? && (forall i :: 0 <= i < |c.value| ==> IsValid(c.value[i])) ==> r.Returned?)
  }

  /** A rebuild from records that are all valid answers a sorted minimum heap holding exactly
   *  them. */
  lemma RebuiltHeap(c: Outcome<seq<Data>>, r: Outcome<Option<HeapBase>>)
    requires Rebuilt(c, r) && c.Returned? && forall i :: 0 <= i < |c.value| ==> IsValid(c.value[i])
    ensures r.Returned? && r.value.Some? && r.value.value.Valid()
    ensures r.value.value.Records() == AddedAll(AsHashes(c.value))
    ensures !r.value.value.maxType && Complete(r.value.value.at) && r.value.value.Ordered()
  {
  }

  /** A rebuild from the listings of two trees holds each record of either once, in a sorted
   *  minimum heap. */
  lemma MergedHeap(m1: map<Id, Node>, at1: map<nat, Id>, root1: Obj, m2: map<Id, Node>, at2: map<nat, Id>, root2: Obj,
                   r: Outcome<Option<HeapBase>>)
    requires Rooted(m1, at1, root1) && at1 != map[]
    requires Rooted(m2, at2, root2) && at2 != map[]
    requires Rebuilt(Combined(Listing(m1, at1, root1), Listing(m2, at2, root2)), r)
    ensures r.Returned? && r.value.Some? && r.value.value.Valid()
    ensures forall d :: d in r.value.value.Records() <==> d in Contents(m1, at1) || d in Contents(m2, at2)
    ensures forall d :: r.value.value.Records()[d] <= 1
    ensures !r.value.value.maxType && r.value.value.Ordered()
  {
    MergedRecords(m1, at1, root1, m2, at2, root2);
    RebuiltHeap(Combined(Listing(m1, at1, root1), Listing(m2, at2, root2)), r);
  }

  /** `self.class.heapify(combined)` for merge and union!. */
  method Rebuild(l1: Outcome<seq<Data>>, l2: Outcome<seq<Data>>) returns (r: Outcome<Option<HeapBase>>)
    ensures Rebuilt(Combined(l1, l2), r)
    ensures r.Returned? && r.value.Some? ==> fresh(r.value.value) && fresh(r.value.value.store)
  {
    var c := Combined(l1, l2);
    if c.Raised? {
      return Raised(c.error);
    }
    if forall i :: 0 <= i < |c.value| ==> IsValid(c.value[i]) {
      HashesNew(c.value);
    }
    var n := New(Items(AsHashes(c.value)), false);
    if n.Raised? {
      return Raised(n.error);
    }
    return Returned(Some(n.value));
  }

  /** union! as its outcome depends on the listings and the roots of both heaps: a raising
   *  listing (an empty heap's among them) raises before anything is cleared, and a clear! of an
   *  EmptyNode root raises (other is cleared first); otherwise both heaps are left empty and the
   *  new heap is Rebuilt from both listings. */
  ghost predicate Unioned(m1: map<Id, Node>, at1: map<nat, Id>, root1: Obj, m2: map<Id, Node>, at2: map<nat, Id>,
                          root2: Obj, same: bool, h: HeapBase, other: HeapBase, r: Outcome<Option<HeapBase>>)
    requires Rooted(m1, at1, root1) && Rooted(m2, at2, root2)
    reads h, h.store, other, other.store
    reads if r.Returned? && r.value.Some? then {r.value.value, r.value.value.store} else {}
  {
    var c := Combined(Listing(m1, at1, root1), Listing(m2, at2, root2));
    && (c.Raised? ==> r == Raised(c.error))
    && (c.Returned? ==> ClearedRebuilt(root1, root2, same, c, h, other, r))
  }

  /** union! after both listings returned the records c: clear! of an EmptyNode root raises
   *  (other is cleared first); otherwise both heaps are left empty and the new heap is Rebuilt
   *  from c. */
  ghost predicate ClearedRebuilt(root1: Obj, root2: Obj, same: bool, c: Outcome<seq<Data>>, h: HeapBase, other: HeapBase,
                                 r: Outcome<Option<HeapBase>>)
    reads h, h.store, other, other.store
    reads if r.Returned? && r.value.Some? then {r.value.value, r.value.value.store} else {}
  {
    && (root2 == Sentinel ==> r == Raised(NoMethodError))
    && (root2 != Sentinel ==> other.Valid() && other.root == Sentinel && other.IsEmpty())
    && (root2 != Sentinel && (same || root1 == Sentinel) ==> r == Raised(NoMethodError))
    && (root2 != Sentinel && !same && root1 != Sentinel ==> h.Valid() && h.root == Sentinel && h.IsEmpty() && Rebuilt(c, r))
  }

  /** A single record is listed once at most. */
  lemma {:induction false} DistinctOnce(s: seq<Data>, d: Data)
    requires Distinct(s)
    ensures multiset(s)[d] <= 1
    decreases |s|
  {
    if s != [] {
      var n := |s| - 1;
      assert s == s[..n] + [s[n]];
      assert Distinct(s[..n]) by {
        forall i, j | 0 <= i < j < n ensures s[..n][i] != s[..n][j] {
          assert s[..n][i] == s[i] && s[..n][j] == s[j];
        }
      }
      DistinctOnce(s[..n], d);
      if d == s[n] {
        assert d !in s[..n] by {
          forall i | 0 <= i < n ensures s[..n][i] != d {
            assert s[..n][i] == s[i];
          }
        }
      }
    }
  }

  /** to_a of a tree lists exactly the heap's records, all valid. */
  lemma ListedRecords(m: map<Id, Node>, at: map<nat, Id>, root: Obj)
    requires Rooted(m, at, root) && at != map[]
    ensures Listing(m, at, root).Returned?
    ensures forall i :: 0 <= i < |Listing(m, at, root).value| ==> IsValid(Listing(m, at, root).value[i])
    ensures forall d :: d in Listing(m, at, root).value <==> d in Contents(m, at)
  {
    ListedValid(m, at, root);
    ListingContents(m, at, root);
    var l := Listing(m, at, root).value;
    forall d ensures d in l <==> d in Contents(m, at) {
      assert d in l <==> d in multiset(l);
    }
  }

  /** What merge and union! rebuild from two trees: the pushes of the combined listings never
   *  raise and add every record of either heap, each once, and nothing else. */
  lemma MergedRecords(m1: map<Id, Node>, at1: map<nat, Id>, root1: Obj, m2: map<Id, Node>, at2: map<nat, Id>, root2: Obj)
    requires Rooted(m1, at1, root1) && at1 != map[]
    requires Rooted(m2, at2, root2) && at2 != map[]
    ensures Combined(Listing(m1, at1, root1), Listing(m2, at2, root2)).Returned?
    ensures var c := Combined(Listing(m1, at1, root1), Listing(m2, at2, root2)).value;
            && (forall i :: 0 <= i < |c| ==> IsValid(c[i]))
            && (forall d :: d in AddedAll(AsHashes(c)) <==> d in Contents(m1, at1) || d in Contents(m2, at2))
            && (forall d :: AddedAll(AsHashes(c))[d] <= 1)
  {
    ListedRecords(m1, at1, root1);
    ListedRecords(m2, at2, root2);
    CombinedRecords(Listing(m1, at1, root1).value, Listing(m2, at2, root2).value);
  }

  /** Combining two listings of valid records gives valid records whose pushes add each record
   *  of either listing once. */
  lemma CombinedRecords(s1: seq<Data>, s2: seq<Data>)
    requires forall i :: 0 <= i < |s1| ==> IsValid(s1[i])
    requires forall i :: 0 <= i < |s2| ==> IsValid(s2[i])
    ensures Combined(Returned(s1), Returned(s2)).Returned?
    ensures var c := Combined(Returned(s1), Returned(s2)).value;
            && (forall i :: 0 <= i < |c| ==> IsValid(c[i]))
            && (forall d :: d in AddedAll(AsHashes(c)) <==> d in s1 || d in s2)
            && (forall d :: AddedAll(AsHashes(c))[d] <= 1)
  {
    var c := Combined(Returned(s1), Returned(s2)).value;
    forall i | 0 <= i < |c| ensures IsValid(c[i]) {
      assert c[i] in c;
      if c[i] in s1 {
        var k :| 0 <= k < |s1| && s1[k] == c[i];
      } else {
        var k :| 0 <= k < |s2| && s2[k] == c[i];
      }
    }
    AddedHashes(c);
    forall d ensures AddedAll(AsHashes(c))[d] <= 1 {
      DistinctOnce(c, d);
    }
    forall d ensures d in AddedAll(AsHashes(c)) <==> d in s1 || d in s2 {
      assert d in multiset(c) <==> d in c;
    }
  }

  /** merge! on the listing l of other: a raising listing is passed on; otherwise the pushes of
   *  its records grow this heap from base, adding all of a listing of valid records; on a
   *  complete tree, valid records new to the heap never raise. */
  ghost predicate MergedInto(l: Outcome<seq<Data>>, base: multiset<Data>, ext: bool, comp: bool, ord: bool,
                             h: HeapBase, r: Outcome<Option<HeapBase>>)
    reads h, h.store
  {
    && (l.Raised? ==> r == Raised(l.error))
    && (r.Returned? ==> l.Returned? && r == Returned(Some(h)) && Grown(h, base, AsHashes(l.value), ext, comp, ord))
    && (r.Returned? && (forall i :: 0 <= i < |l.value| ==> IsValid(l.value[i])) ==>
          h.Valid() && h.Records() == base + multiset(l.value))
    && (&& l.Returned? && comp && AllNew(AsHashes(l.value))
        && (forall k :: 0 <= k < |l.value| ==> l.value[k] !in base)
        ==> r.Returned?)
  }
}
