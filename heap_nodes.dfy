/**
 * Heaps::Node and Heaps::EmptyNode as values.
 *
 * Nodes live in a store (a map from node identities to node records, see NodeStores). A link
 * field holds an Obj: Ruby nil, Ruby false (what EmptyNode#left/right/parent answer), an
 * EmptyNode sentinel, or a reference to a Node. All EmptyNode objects answer alike, and the code
 * never compares two of them, so one Sentinel value stands for every one of them.
 *
 * A heap's tree is tied to the store by a positional map `at` from level-order slots (1 at the
 * root, children 2k and 2k+1) to node identities; `Positioned` says the links agree with it.
 */
module HeapNodes {
  import opened Wrappers
  import opened HeapSlots
  import opened Bags

  type Id = nat

  /** What a link or a variable that should hold a heap node can hold. */
  datatype Obj = Nil | False | Sentinel | Ref(id: Id)

  /** The hash Node#data returns: description and value, each possibly nil. */
  datatype Data = Data(description: Option<string>, value: Option<int>)

  /** A Heaps::Node: its contents and its three links. */
  datatype Node = Node(data: Data, left: Obj, right: Obj, parent: Obj)

  /** The contents of a node after `clean`. */
  const DeadData: Data := Data(None, None)

  /** A node after `clean`: every field nil. */
  const Dead: Node := Node(DeadData, Nil, Nil, Nil)

  /** Node.new(description, value): all three links hold an EmptyNode. */
  function FreshNode(d: Data): (n: Node)
    ensures n.data == d && n.left == n.right == n.parent == Sentinel
  {
    Node(d, Sentinel, Sentinel, Sentinel)
  }

  /** Node#valid?: the value is not nil. */
  predicate IsValid(d: Data)
  {
    d.value.Some?
  }

  // ---------------------------------------------------------------------------------------------
  // Comparisons

  /** Node#<=> on contents: nil on the left has no `>` (NoMethodError), an Integer compared with
   *  nil fails (ArgumentError), otherwise the three-way comparison of the values. */
  function Spaceship(a: Data, b: Data): (r: Outcome<int>)
    ensures r.Raised? <==> !IsValid(a) || !IsValid(b)
    ensures !IsValid(a) ==> r == Raised(NoMethodError)
    ensures IsValid(a) && !IsValid(b) ==> r == Raised(ArgumentError)
    ensures r.Returned? ==> r.value in {-1, 0, 1}
    ensures r.Returned? ==> (r.value > 0 <==> a.value.value > b.value.value)
    ensures r.Returned? ==> (r.value < 0 <==> a.value.value < b.value.value)
  {
    if a.value.None? then Raised(NoMethodError)
    else if b.value.None? then Raised(ArgumentError)
    else if a.value.value > b.value.value then Returned(1)
    else if a.value.value < b.value.value then Returned(-1)
    else Returned(0)
  }

  /** Node#>: (self <=> other) > 0. */
  function Greater(a: Data, b: Data): (r: Outcome<bool>)
    ensures r.Raised? <==> !IsValid(a) || !IsValid(b)
    ensures r.Returned? ==> (r.value <==> a.value.value > b.value.value)
  {
    match Spaceship(a, b)
    case Returned(c) => Returned(c > 0)
    case Raised(e) => Raised(e)
  }

  /** Node#<: (self <=> other) < 0. */
  function Less(a: Data, b: Data): (r: Outcome<bool>)
    ensures r.Raised? <==> !IsValid(a) || !IsValid(b)
    ensures r.Returned? ==> (r.value <==> a.value.value < b.value.value)
  {
    match Spaceship(a, b)
    case Returned(c) => Returned(c < 0)
    case Raised(e) => Raised(e)
  }

  /** A valid node compares equal to itself and is not less than itself. */
  lemma SpaceshipReflexive(d: Data)
    requires IsValid(d)
    ensures Spaceship(d, d) == Returned(0)
    ensures Less(d, d) == Returned(false) && Greater(d, d) == Returned(false)
  {
  }

  /** Swapping the operands negates the comparison. */
  lemma SpaceshipAntisymmetric(a: Data, b: Data)
    requires IsValid(a) && IsValid(b)
    ensures Spaceship(a, b).Returned? && Spaceship(b, a).Returned?
    ensures Spaceship(a, b).value == -Spaceship(b, a).value
    ensures Greater(a, b) == Less(b, a)
  {
  }

  // ---------------------------------------------------------------------------------------------
  // Messages sent to whatever a link holds

  /** The link points into the store. */
  predicate LinkIn(nodes: map<Id, Node>, o: Obj)
  {
    o.Ref? ==> o.id in nodes
  }

  /** `valid?` sent to a link: Node#valid?, EmptyNode#valid? (always false); nil and false have
   *  no such method. */
  function ValidOf(nodes: map<Id, Node>, o: Obj): (r: Outcome<bool>)
    requires LinkIn(nodes, o)
    ensures r.Raised? <==> o.Nil? || o.False?
    ensures r.Raised? ==> r.error == NoMethodError
    ensures o.Sentinel? ==> r == Returned(false)
    ensures o.Ref? ==> r == Returned(IsValid(nodes[o.id].data))
  {
    match o
    case Nil => Raised(NoMethodError)
    case False => Raised(NoMethodError)
    case Sentinel => Returned(false)
    case Ref(id) => Returned(IsValid(nodes[id].data))
  }

  /** `valid?` on a link known to hold a Node or an EmptyNode. */
  predicate LinkValid(nodes: map<Id, Node>, o: Obj)
  {
    o.Ref? && o.id in nodes && IsValid(nodes[o.id].data)
  }

  /** `left` or `right` (the `send(nav)` of node_path_navigation) sent to a link: a Node answers
   *  its field, an EmptyNode answers false, nil and false have no such method. */
  function Send(nodes: map<Id, Node>, o: Obj, d: Dir): (r: Outcome<Obj>)
    requires LinkIn(nodes, o)
    ensures r.Raised? <==> o.Nil? || o.False?
    ensures o.Sentinel? ==> r == Returned(False)
    ensures o.Ref? ==> r == Returned(if d == Left then nodes[o.id].left else nodes[o.id].right)
  {
    match o
    case Nil => Raised(NoMethodError)
    case False => Raised(NoMethodError)
    case Sentinel => Returned(False)
    case Ref(id) => Returned(if d == Left then nodes[id].left else nodes[id].right)
  }

  /** `parent` sent to a link. */
  function ParentOf(nodes: map<Id, Node>, o: Obj): (r: Outcome<Obj>)
    requires LinkIn(nodes, o)
    ensures r.Raised? <==> o.Nil? || o.False?
    ensures o.Sentinel? ==> r == Returned(False)
    ensures o.Ref? ==> r == Returned(nodes[o.id].parent)
  {
    match o
    case Nil => Raised(NoMethodError)
    case False => Raised(NoMethodError)
    case Sentinel => Returned(False)
    case Ref(id) => Returned(nodes[id].parent)
  }

  /** Node#== (content equality: same description and value) as sent to a link; an EmptyNode
   *  compares by identity, so it never equals a Node. */
  predicate SameContents(nodes: map<Id, Node>, o: Obj, d: Data)
  {
    o.Ref? && o.id in nodes && nodes[o.id].data == d
  }

  /** Every link-level message an EmptyNode answers without raising. */
  lemma SentinelMessages(nodes: map<Id, Node>, d: Dir)
    ensures ValidOf(nodes, Sentinel) == Returned(false) && !LinkValid(nodes, Sentinel)
    ensures Send(nodes, Sentinel, d) == Returned(False) && ParentOf(nodes, Sentinel) == Returned(False)
    ensures forall x: Data :: !SameContents(nodes, Sentinel, x)
  {
  }

  // ---------------------------------------------------------------------------------------------
  // Level-order slots of a tree

  /** A bound above every slot: Cap(at) - k is the measure for recursion down a tree. */
  ghost function Cap(at: map<nat, Id>): (c: nat)
    ensures forall j :: j in at ==> j < c
    decreases at.Keys
  {
    if at.Keys == {} then 0
    else
      var j :| j in at;
      var rest := at - {j};
      assert rest.Keys < at.Keys;
      var c := Cap(rest);
      assert forall i :: i in at && i != j ==> i in rest;
      if j < c then c else j + 1
  }

  /** The parent slot of slot k is occupied. */
  ghost predicate ParentIn(at: map<nat, Id>, k: nat)
  {
    k >= 2 ==> k / 2 in at
  }

  /** Slots count from 1 and every slot's parent slot is occupied. The parent facts are only
   *  drawn out where a proof names the slot (see ParentSlot). */
  ghost predicate PrefixClosed(at: map<nat, Id>)
  {
    && (forall k :: k in at ==> k >= 1)
    && (forall k {:trigger ParentIn(at, k)} :: k in at ==> ParentIn(at, k))
  }

  lemma ParentSlot(at: map<nat, Id>, k: nat)
    requires PrefixClosed(at) && k in at
    ensures k >= 1 && (k >= 2 ==> k / 2 in at)
  {
    assert ParentIn(at, k);
  }

  /** A free slot has free children. */
  lemma ChildrenFree(at: map<nat, Id>, k: nat)
    requires PrefixClosed(at) && k !in at && k >= 1
    ensures 2 * k !in at && 2 * k + 1 !in at
  {
    assert (2 * k) / 2 == k && (2 * k + 1) / 2 == k;
    if 2 * k in at {
      ParentSlot(at, 2 * k);
      assert false;
    }
    if 2 * k + 1 in at {
      ParentSlot(at, 2 * k + 1);
      assert false;
    }
  }

  ghost predicate Injective(at: map<nat, Id>)
  {
    forall k, j :: k in at && j in at && k != j ==> at[k] != at[j]
  }

  /** A right child only next to a left child: how push fills a tree. */
  ghost predicate NoRightWithoutLeft(at: map<nat, Id>)
  {
    forall k :: k in at && 2 * k + 1 in at ==> 2 * k in at
  }

  ghost predicate InNodes(nodes: map<Id, Node>, at: map<nat, Id>)
  {
    forall k :: k in at ==> at[k] in nodes
  }

  /** The links of the node at slot k agree with the slots: children at 2k and 2k+1 or an
   *  EmptyNode where a slot is free, the parent at k/2 and an EmptyNode above the root. */
  ghost predicate Linked(nodes: map<Id, Node>, at: map<nat, Id>, k: nat)
    requires InNodes(nodes, at) && k in at
  {
    && nodes[at[k]].left == (if 2 * k in at then Ref(at[2 * k]) else Sentinel)
    && nodes[at[k]].right == (if 2 * k + 1 in at then Ref(at[2 * k + 1]) else Sentinel)
    && (if k == 1 then nodes[at[k]].parent == Sentinel else k / 2 in at && nodes[at[k]].parent == Ref(at[k / 2]))
  }

  /** The links of the nodes placed at the slots of `at` form that tree. The per-slot facts are
   *  only drawn out where a proof names the slot (see LinksAt). */
  ghost predicate Positioned(nodes: map<Id, Node>, at: map<nat, Id>)
  {
    && PrefixClosed(at) && Injective(at) && InNodes(nodes, at)
    && (forall k {:trigger Linked(nodes, at, k)} :: k in at ==> Linked(nodes, at, k))
  }

  /** The links of the node at slot k, as Positioned gives them. */
  lemma LinksAt(nodes: map<Id, Node>, at: map<nat, Id>, k: nat)
    requires Positioned(nodes, at) && k in at
    ensures at[k] in nodes && k >= 1 && (k >= 2 ==> k / 2 in at)
    ensures nodes[at[k]].left == (if 2 * k in at then Ref(at[2 * k]) else Sentinel)
    ensures nodes[at[k]].right == (if 2 * k + 1 in at then Ref(at[2 * k + 1]) else Sentinel)
    ensures nodes[at[k]].parent == (if k == 1 then Sentinel else Ref(at[k / 2]))
  {
    ParentSlot(at, k);
    assert Linked(nodes, at, k);
  }

  /** The record held at each slot. */
  ghost function Payload(nodes: map<Id, Node>, at: map<nat, Id>): (p: map<nat, Data>)
    requires InNodes(nodes, at)
    ensures p.Keys == at.Keys
  {
    map k | k in at :: nodes[at[k]].data
  }

  /** The multiset of records a tree holds. */
  ghost function Contents(nodes: map<Id, Node>, at: map<nat, Id>): (b: multiset<Data>)
    requires InNodes(nodes, at)
    ensures |b| == |at|
  {
    assert |at.Keys| == |at|;
    BagOf(Payload(nodes, at), at.Keys)
  }

  /** Slot j lies in the subtree of slot k. */
  ghost predicate Below(j: nat, k: nat)
    decreases j
  {
    j == k || (j > k && Below(j / 2, k))
  }

  /** The occupied slots of the subtree of slot k. */
  ghost function Sub(at: map<nat, Id>, k: nat): set<nat>
  {
    set j | j in at && Below(j, k)
  }

  lemma {:induction false} BelowAtLeast(j: nat, k: nat)
    requires Below(j, k)
    ensures j >= k
    decreases j
  {
    if j != k {
      BelowAtLeast(j / 2, k);
    }
  }

  lemma {:induction false} BelowRoot(j: nat)
    requires j >= 1
    ensures Below(j, 1)
    decreases j
  {
    if j > 1 {
      BelowRoot(j / 2);
    }
  }

  /** The subtree of a child lies in the subtree of its parent. */
  lemma {:induction false} BelowParent(j: nat, k: nat, c: nat)
    requires k >= 1 && (c == 2 * k || c == 2 * k + 1) && Below(j, c)
    ensures Below(j, k)
    decreases j
  {
    if j != c {
      BelowParent(j / 2, k, c);
      BelowAtLeast(j / 2, c);
    }
  }

  /** Below k and not k itself means below one of its two children. */
  lemma {:induction false} BelowChild(j: nat, k: nat)
    requires k >= 1 && Below(j, k) && j != k
    ensures Below(j, 2 * k) || Below(j, 2 * k + 1)
    decreases j
  {
    if j / 2 != k {
      BelowChild(j / 2, k);
      if Below(j / 2, 2 * k) {
        BelowAtLeast(j / 2, 2 * k);
      } else {
        BelowAtLeast(j / 2, 2 * k + 1);
      }
    }
  }

  /** The ancestors of a slot form a chain. */
  lemma {:induction false} BelowChain(j: nat, a: nat, b: nat)
    requires Below(j, a) && Below(j, b) && a <= b
    ensures Below(b, a)
    decreases j
  {
    if j == a {
      BelowAtLeast(j, b);
    } else if j != b {
      BelowAtLeast(j, b);
      BelowChain(j / 2, a, b);
    }
  }

  /** The two child subtrees are disjoint and neither holds the parent. */
  lemma BelowSeparate(j: nat, k: nat)
    requires k >= 1
    ensures !(Below(j, 2 * k) && Below(j, 2 * k + 1))
    ensures !Below(k, 2 * k) && !Below(k, 2 * k + 1)
  {
    if Below(j, 2 * k) && Below(j, 2 * k + 1) {
      BelowChain(j, 2 * k, 2 * k + 1);
      assert false;
    }
  }

  /** An occupied slot below k means k is occupied. */
  lemma {:induction false} BelowOccupied(at: map<nat, Id>, j: nat, k: nat)
    requires PrefixClosed(at) && j in at && Below(j, k) && k >= 1
    ensures k in at
    decreases j
  {
    if j != k {
      ParentSlot(at, j);
      BelowOccupied(at, j / 2, k);
    }
  }

  /** A subtree is its root slot and the two disjoint subtrees of its children. */
  lemma SubSplit(at: map<nat, Id>, k: nat)
    requires PrefixClosed(at) && k in at
    ensures Sub(at, k) == {k} + Sub(at, 2 * k) + Sub(at, 2 * k + 1)
    ensures k !in Sub(at, 2 * k) && k !in Sub(at, 2 * k + 1) && Sub(at, 2 * k) !! Sub(at, 2 * k + 1)
    ensures 2 * k !in at ==> Sub(at, 2 * k) == {}
    ensures 2 * k + 1 !in at ==> Sub(at, 2 * k + 1) == {}
  {
    ParentSlot(at, k);
    forall j | j in Sub(at, k) && j != k
      ensures j in Sub(at, 2 * k) || j in Sub(at, 2 * k + 1)
    {
      BelowChild(j, k);
    }
    forall j | j in Sub(at, 2 * k) || j in Sub(at, 2 * k + 1)
      ensures j in Sub(at, k) && j != k
    {
      if Below(j, 2 * k) {
        BelowParent(j, k, 2 * k);
      } else {
        BelowParent(j, k, 2 * k + 1);
      }
      BelowSeparate(j, k);
    }
    forall j ensures !(j in Sub(at, 2 * k) && j in Sub(at, 2 * k + 1)) {
      BelowSeparate(j, k);
    }
    var l, r := 2 * k, 2 * k + 1;
    forall j | j in Sub(at, l) ensures l in at {
      BelowOccupied(at, j, l);
    }
    forall j | j in Sub(at, r) ensures r in at {
      BelowOccupied(at, j, r);
    }
    BelowSeparate(k, k);
  }

  /** A subtree's size is one more than its children's subtrees' sizes together. */
  lemma SubSize(at: map<nat, Id>, k: nat)
    requires PrefixClosed(at) && k in at
    ensures |Sub(at, k)| == 1 + |Sub(at, 2 * k)| + |Sub(at, 2 * k + 1)|
    ensures 2 * k !in at ==> |Sub(at, 2 * k)| == 0
    ensures 2 * k + 1 !in at ==> |Sub(at, 2 * k + 1)| == 0
  {
    SubSplit(at, k);
    var a, b := Sub(at, 2 * k), Sub(at, 2 * k + 1);
    assert |a + b| == |a| + |b|;
    assert {k} !! (a + b);
    assert Sub(at, k) == {k} + (a + b);
  }

  /** The subtree of the root is the whole tree. */
  lemma SubRoot(at: map<nat, Id>)
    requires PrefixClosed(at)
    ensures Sub(at, 1) == at.Keys
  {
    forall j | j in at ensures Below(j, 1) {
      ParentSlot(at, j);
      BelowRoot(j);
    }
  }

  // ---------------------------------------------------------------------------------------------
  // Traversals

  /** The slots of the subtree of k in pre-order: k, then the left subtree, then the right one. */
  ghost function PreOrder(at: map<nat, Id>, k: nat): (s: seq<nat>)
    requires k in at && k >= 1
    ensures |s| >= 1 && s[0] == k
    ensures forall i :: 0 <= i < |s| ==> s[i] in at
    decreases Cap(at) - k
  {
    var l := if 2 * k in at then PreOrder(at, 2 * k) else [];
    var r := if 2 * k + 1 in at then PreOrder(at, 2 * k + 1) else [];
    [k] + l + r
  }

  ghost predicate Distinct<T>(s: seq<T>)
  {
    forall i, j :: 0 <= i < j < |s| ==> s[i] != s[j]
  }

  ghost function Elements<T>(s: seq<T>): set<T>
  {
    set i | 0 <= i < |s| :: s[i]
  }

  lemma ElementsConcat<T>(a: seq<T>, b: seq<T>)
    ensures Elements(a + b) == Elements(a) + Elements(b)
  {
    forall x | x in Elements(a + b) ensures x in Elements(a) + Elements(b) {
      var i :| 0 <= i < |a + b| && (a + b)[i] == x;
      if i >= |a| {
        assert b[i - |a|] == x;
      }
    }
    forall x | x in Elements(a) + Elements(b) ensures x in Elements(a + b) {
      if x in Elements(a) {
        var i :| 0 <= i < |a| && a[i] == x;
        assert (a + b)[i] == x;
      } else {
        var i :| 0 <= i < |b| && b[i] == x;
        assert (a + b)[|a| + i] == x;
      }
    }
  }

  lemma DistinctConcat<T>(a: seq<T>, b: seq<T>)
    requires Distinct(a) && Distinct(b) && Elements(a) !! Elements(b)
    ensures Distinct(a + b)
  {
    forall i, j | 0 <= i < j < |a + b| ensures (a + b)[i] != (a + b)[j] {
      if i < |a| && j >= |a| {
        assert (a + b)[i] in Elements(a);
        assert (a + b)[j] == b[j - |a|] && b[j - |a|] in Elements(b);
      } else if i >= |a| {
        assert (a + b)[i] == b[i - |a|] && (a + b)[j] == b[j - |a|];
      }
    }
  }

  /** Pre-order lists every slot of the subtree exactly once. */
  lemma {:induction false} PreOrderCovers(at: map<nat, Id>, k: nat)
    requires PrefixClosed(at) && k in at
    ensures Distinct(PreOrder(at, k)) && Elements(PreOrder(at, k)) == Sub(at, k)
    decreases Cap(at) - k
  {
    ParentSlot(at, k);
    SubSplit(at, k);
    var l := if 2 * k in at then PreOrder(at, 2 * k) else [];
    var r := if 2 * k + 1 in at then PreOrder(at, 2 * k + 1) else [];
    if 2 * k in at {
      PreOrderCovers(at, 2 * k);
    }
    if 2 * k + 1 in at {
      PreOrderCovers(at, 2 * k + 1);
    }
    assert Elements(l) == Sub(at, 2 * k) && Elements(r) == Sub(at, 2 * k + 1);
    assert [k][0] == k;
    assert Elements([k]) == {k};
    ElementsConcat([k], l);
    ElementsConcat([k] + l, r);
    DistinctConcat([k], l);
    DistinctConcat([k] + l, r);
    assert PreOrder(at, k) == [k] + l + r;
  }

  /** What dfs_pre_order collects below slot k: the node's record, then the subtrees of the
   *  children that are valid. */
  ghost function Collected(nodes: map<Id, Node>, at: map<nat, Id>, k: nat): seq<Data>
    requires InNodes(nodes, at) && k in at && k >= 1
    decreases Cap(at) - k
  {
    var l := if 2 * k in at && IsValid(nodes[at[2 * k]].data) then Collected(nodes, at, 2 * k) else [];
    var r := if 2 * k + 1 in at && IsValid(nodes[at[2 * k + 1]].data) then Collected(nodes, at, 2 * k + 1) else [];
    [nodes[at[k]].data] + l + r
  }

  /** One step of dfs_pre_order: the node's record, then what each valid child collects. */
  lemma CollectedStep(nodes: map<Id, Node>, at: map<nat, Id>, k: nat)
    requires Positioned(nodes, at) && k in at
    ensures var l := if 2 * k in at && IsValid(nodes[at[2 * k]].data) then Collected(nodes, at, 2 * k) else [];
            var r := if 2 * k + 1 in at && IsValid(nodes[at[2 * k + 1]].data) then Collected(nodes, at, 2 * k + 1) else [];
            Collected(nodes, at, k) == [nodes[at[k]].data] + l + r
  {
    LinksAt(nodes, at, k);
  }

  /** When every node below k is valid, dfs_pre_order collects the records of the pre-order. */
  lemma {:induction false} CollectedIsPreOrder(nodes: map<Id, Node>, at: map<nat, Id>, k: nat)
    requires InNodes(nodes, at) && PrefixClosed(at) && k in at
    requires forall j :: j in at && Below(j, k) && j != k ==> IsValid(nodes[at[j]].data)
    ensures Collected(nodes, at, k) == Listed(Payload(nodes, at), PreOrder(at, k))
    decreases Cap(at) - k
  {
    ParentSlot(at, k);
    var p := Payload(nodes, at);
    var l := if 2 * k in at then PreOrder(at, 2 * k) else [];
    var r := if 2 * k + 1 in at then PreOrder(at, 2 * k + 1) else [];
    if 2 * k in at {
      ValidBelowChild(nodes, at, k, 2 * k);
      CollectedIsPreOrder(nodes, at, 2 * k);
    }
    if 2 * k + 1 in at {
      ValidBelowChild(nodes, at, k, 2 * k + 1);
      CollectedIsPreOrder(nodes, at, 2 * k + 1);
    }
    ListedConcat(p, [k], l);
    ListedConcat(p, [k] + l, r);
  }

  /** Valid records strictly below k are valid below a child c of k, and c's own is valid. */
  lemma ValidBelowChild(nodes: map<Id, Node>, at: map<nat, Id>, k: nat, c: nat)
    requires InNodes(nodes, at) && k >= 1 && (c == 2 * k || c == 2 * k + 1) && c in at
    requires forall j :: j in at && Below(j, k) && j != k ==> IsValid(nodes[at[j]].data)
    ensures forall j :: j in at && Below(j, c) && j != c ==> IsValid(nodes[at[j]].data)
    ensures IsValid(nodes[at[c]].data)
  {
    forall j | j in at && Below(j, c) && j != c ensures IsValid(nodes[at[j]].data) {
      BelowParent(j, k, c);
      BelowSeparate(j, k);
    }
    BelowSeparate(k, k);
    assert Below(c, c) && Below(c, k);
  }

  lemma ListedConcat<K, V>(f: map<K, V>, a: seq<K>, b: seq<K>)
    requires forall i :: 0 <= i < |a| ==> a[i] in f
    requires forall i :: 0 <= i < |b| ==> b[i] in f
    ensures Listed(f, a + b) == Listed(f, a) + Listed(f, b)
  {
    var ab := a + b;
    assert forall i :: 0 <= i < |ab| ==> ab[i] in f by {
      forall i | 0 <= i < |ab| ensures ab[i] in f {
        if i >= |a| {
          assert ab[i] == b[i - |a|];
        }
      }
    }
  }

  /** Pre-order over the whole tree lists the tree's records exactly once each. */
  lemma CollectedContents(nodes: map<Id, Node>, at: map<nat, Id>)
    requires InNodes(nodes, at) && PrefixClosed(at) && 1 in at
    requires forall j :: j in at && j != 1 ==> IsValid(nodes[at[j]].data)
    ensures multiset(Collected(nodes, at, 1)) == Contents(nodes, at)
    ensures |Collected(nodes, at, 1)| == |at|
  {
    SubRoot(at);
    CollectedIsPreOrder(nodes, at, 1);
    PreOrderCovers(at, 1);
    ListedBag(Payload(nodes, at), PreOrder(at, 1));
  }

  // ---------------------------------------------------------------------------------------------
  // include? and inspect

  /** The first slot of the sequence whose record is q. */
  ghost function FirstWith(p: map<nat, Data>, s: seq<nat>, q: Data): (r: Option<nat>)
    requires forall i :: 0 <= i < |s| ==> s[i] in p
    ensures r.None? <==> forall i :: 0 <= i < |s| ==> p[s[i]] != q
    ensures r.Some? ==> r.value in p && p[r.value] == q
  {
    if s == [] then None
    else if p[s[0]] == q then Some(s[0])
    else
      assert forall i :: 1 <= i < |s| ==> s[i] == s[1..][i - 1];
      FirstWith(p, s[1..], q)
  }

  /** What FirstWith finds is at some position of the sequence with no match before it. */
  lemma {:induction false} FirstWithIsFirst(p: map<nat, Data>, s: seq<nat>, q: Data)
    requires forall i :: 0 <= i < |s| ==> s[i] in p
    requires FirstWith(p, s, q).Some?
    ensures exists i :: 0 <= i < |s| && s[i] == FirstWith(p, s, q).value
                        && forall h :: 0 <= h < i ==> p[s[h]] != q
    decreases |s|
  {
    if p[s[0]] != q {
      FirstWithIsFirst(p, s[1..], q);
      var i :| 0 <= i < |s[1..]| && s[1..][i] == FirstWith(p, s[1..], q).value
               && forall h :: 0 <= h < i ==> p[s[1..][h]] != q;
      assert s[i + 1] == FirstWith(p, s, q).value;
      assert forall h :: 0 <= h < i + 1 ==> p[s[h]] != q by {
        forall h | 0 <= h < i + 1 ensures p[s[h]] != q {
          if h > 0 {
            assert s[h] == s[1..][h - 1];
          }
        }
      }
    } else {
      assert s[0] == FirstWith(p, s, q).value;
    }
  }

  lemma FirstWithConcat(p: map<nat, Data>, a: seq<nat>, b: seq<nat>, q: Data)
    requires forall i :: 0 <= i < |a| ==> a[i] in p
    requires forall i :: 0 <= i < |b| ==> b[i] in p
    ensures forall i :: 0 <= i < |a + b| ==> (a + b)[i] in p
    ensures FirstWith(p, a + b, q) == if FirstWith(p, a, q).Some? then FirstWith(p, a, q) else FirstWith(p, b, q)
    decreases |a|
  {
    assert forall i :: 0 <= i < |a + b| ==> (a + b)[i] in p by {
      forall i | 0 <= i < |a + b| ensures (a + b)[i] in p {
        if i >= |a| {
          assert (a + b)[i] == b[i - |a|];
        }
      }
    }
    if a != [] {
      assert (a + b)[1..] == a[1..] + b;
      FirstWithConcat(p, a[1..], b, q);
    } else {
      assert a + b == b;
    }
  }

  /** The first match in pre-order: the slot itself, else the first in the left subtree, else the
   *  first in the right one. */
  lemma FirstWithPreOrder(p: map<nat, Data>, at: map<nat, Id>, k: nat, q: Data)
    requires at.Keys <= p.Keys && k in at && k >= 1
    ensures var fl := if 2 * k in at then FirstWith(p, PreOrder(at, 2 * k), q) else None;
            var fr := if 2 * k + 1 in at then FirstWith(p, PreOrder(at, 2 * k + 1), q) else None;
            FirstWith(p, PreOrder(at, k), q) == if p[k] == q then Some(k) else if fl.Some? then fl else fr
  {
    var l := if 2 * k in at then PreOrder(at, 2 * k) else [];
    var r := if 2 * k + 1 in at then PreOrder(at, 2 * k + 1) else [];
    assert PreOrder(at, k) == [k] + (l + r);
    FirstWithConcat(p, [k], l + r, q);
    FirstWithConcat(p, l, r, q);
    assert FirstWith(p, [], q) == None;
    assert FirstWith(p, [k], q) == if p[k] == q then Some(k) else None by {
      assert [k][1..] == [];
    }
  }

  /** Node#include? below the node x at slot k: x itself when its contents equal q, else the
   *  left subtree's answer, else the right subtree's; an EmptyNode child answers false (None). */
  function Search(nodes: map<Id, Node>, x: Id, ghost at: map<nat, Id>, ghost k: nat, q: Data): Option<Id>
    requires Positioned(nodes, at) && k in at && at[k] == x
    decreases Cap(at) - k
  {
    LinksAt(nodes, at, k);
    if nodes[x].data == q then Some(x)
    else
      var l := match nodes[x].left
        case Ref(c) => Search(nodes, c, at, 2 * k, q)
        case _ => None;
      if l.Some? then l
      else match nodes[x].right
        case Ref(c) => Search(nodes, c, at, 2 * k + 1, q)
        case _ => None
  }

  /** One step of include?: the node's own record, else the left subtree, else the right one. */
  lemma SearchStep(nodes: map<Id, Node>, at: map<nat, Id>, k: nat, q: Data)
    requires Positioned(nodes, at) && k in at
    ensures var sl := if 2 * k in at then Search(nodes, at[2 * k], at, 2 * k, q) else None;
            var sr := if 2 * k + 1 in at then Search(nodes, at[2 * k + 1], at, 2 * k + 1, q) else None;
            Search(nodes, at[k], at, k, q) == if nodes[at[k]].data == q then Some(at[k]) else if sl.Some? then sl else sr
  {
    LinksAt(nodes, at, k);
  }

  /** The node at an optional slot. */
  ghost function NodeAt(at: map<nat, Id>, j: Option<nat>): Option<Id>
    requires j.Some? ==> j.value in at
  {
    if j.Some? then Some(at[j.value]) else None
  }

  /** include? answers the first node, in pre-order, whose record is q; false when there is none. */
  lemma {:induction false} SearchIsFirstInPreOrder(nodes: map<Id, Node>, at: map<nat, Id>, k: nat, q: Data)
    requires Positioned(nodes, at) && k in at
    ensures Search(nodes, at[k], at, k, q) == NodeAt(at, FirstWith(Payload(nodes, at), PreOrder(at, k), q))
    decreases Cap(at) - k
  {
    LinksAt(nodes, at, k);
    var p := Payload(nodes, at);
    FirstWithPreOrder(p, at, k, q);
    SearchStep(nodes, at, k, q);
    var fl := if 2 * k in at then FirstWith(p, PreOrder(at, 2 * k), q) else None;
    var fr := if 2 * k + 1 in at then FirstWith(p, PreOrder(at, 2 * k + 1), q) else None;
    var sl := if 2 * k in at then Search(nodes, at[2 * k], at, 2 * k, q) else None;
    var sr := if 2 * k + 1 in at then Search(nodes, at[2 * k + 1], at, 2 * k + 1, q) else None;
    if 2 * k in at {
      SearchIsFirstInPreOrder(nodes, at, 2 * k, q);
    }
    if 2 * k + 1 in at {
      SearchIsFirstInPreOrder(nodes, at, 2 * k + 1, q);
    }
    assert sl == NodeAt(at, fl) && sr == NodeAt(at, fr);
  }

  /** The decimal digits of n (Integer#to_s). */
  function NatText(n: nat): (s: string)
    ensures |s| >= 1 && forall i :: 0 <= i < |s| ==> '0' <= s[i] <= '9'
  {
    var d := ['0' + (n % 10) as char];
    if n < 10 then d else NatText(n / 10) + d
  }

  /** The number a string of decimal digits spells. */
  function DigitsValue(s: string): nat
    requires forall i :: 0 <= i < |s| ==> '0' <= s[i] <= '9'
  {
    if s == [] then 0 else 10 * DigitsValue(s[..|s| - 1]) + (s[|s| - 1] - '0') as nat
  }

  /** Reading the decimal text back gives the number. */
  lemma {:induction false} NatTextRoundTrip(n: nat)
    ensures DigitsValue(NatText(n)) == n
    decreases n
  {
    var d := ['0' + (n % 10) as char];
    if n >= 10 {
      NatTextRoundTrip(n / 10);
      var s := NatText(n / 10) + d;
      assert s[..|s| - 1] == NatText(n / 10);
    } else {
      assert d[..0] == [];
    }
  }

  /** String interpolation of a value: an Integer's decimal text, nothing for nil. */
  function ValueText(v: Option<int>): string
  {
    match v
    case None => ""
    case Some(n) => if n < 0 then "-" + NatText(-n) else NatText(n)
  }

  /** Node#inspect below the node x at slot k: "{value:left|right}", an EmptyNode child giving "{}". */
  function Inspect(nodes: map<Id, Node>, x: Id, ghost at: map<nat, Id>, ghost k: nat): string
    requires Positioned(nodes, at) && k in at && at[k] == x
    decreases Cap(at) - k
  {
    LinksAt(nodes, at, k);
    var l := match nodes[x].left
      case Ref(c) => Inspect(nodes, c, at, 2 * k)
      case _ => "{}";
    var r := match nodes[x].right
      case Ref(c) => Inspect(nodes, c, at, 2 * k + 1)
      case _ => "{}";
    "{" + ValueText(nodes[x].data.value) + ":" + l + "|" + r + "}"
  }

  /** Occurrences of a character. */
  function Count(c: char, s: string): nat
  {
    if s == [] then 0 else (if s[0] == c then 1 else 0) + Count(c, s[1..])
  }

  lemma {:induction false} CountConcat(c: char, a: string, b: string)
    ensures Count(c, a + b) == Count(c, a) + Count(c, b)
    decreases |a|
  {
    if a != [] {
      assert (a + b)[1..] == a[1..] + b;
      CountConcat(c, a[1..], b);
    } else {
      assert a + b == b;
    }
  }

  lemma {:induction false} CountNone(c: char, s: string)
    requires forall i :: 0 <= i < |s| ==> s[i] != c
    ensures Count(c, s) == 0
    decreases |s|
  {
    if s != [] {
      CountNone(c, s[1..]);
    }
  }

  /** Value text holds no braces. */
  lemma ValueTextBraces(v: Option<int>)
    ensures Count('{', ValueText(v)) == 0 && Count('}', ValueText(v)) == 0
  {
    var t := ValueText(v);
    assert forall i :: 0 <= i < |t| ==> t[i] != '{' && t[i] != '}' by {
      if v.Some? && v.value < 0 {
        assert forall i :: 1 <= i < |t| ==> t[i] == NatText(-v.value)[i - 1];
      }
    }
    CountNone('{', t);
    CountNone('}', t);
  }

  /** One step of inspect: the node's value, then its two children's texts. */
  lemma InspectStep(nodes: map<Id, Node>, at: map<nat, Id>, k: nat)
    requires Positioned(nodes, at) && k in at
    ensures var l := if 2 * k in at then Inspect(nodes, at[2 * k], at, 2 * k) else "{}";
            var r := if 2 * k + 1 in at then Inspect(nodes, at[2 * k + 1], at, 2 * k + 1) else "{}";
            Inspect(nodes, at[k], at, k) == "{" + ValueText(nodes[at[k]].data.value) + ":" + l + "|" + r + "}"
  {
    LinksAt(nodes, at, k);
  }

  /** An inspect text has one brace of each kind besides those of its value and its two children. */
  lemma BracesOfParts(v: string, l: string, r: string, c: char)
    requires c == '{' || c == '}'
    ensures Count(c, "{" + v + ":" + l + "|" + r + "}") == 1 + Count(c, v) + Count(c, l) + Count(c, r)
  {
    assert Count(c, "{") + Count(c, "}") == 1 && Count(c, ":") == 0 && Count(c, "|") == 0 by {
      assert "{"[1..] == "}"[1..] == ":"[1..] == "|"[1..] == "";
    }
    CountConcat(c, "{", v);
    CountConcat(c, "{" + v, ":");
    CountConcat(c, "{" + v + ":", l);
    CountConcat(c, "{" + v + ":" + l, "|");
    CountConcat(c, "{" + v + ":" + l + "|", r);
    CountConcat(c, "{" + v + ":" + l + "|" + r, "}");
  }

  /** inspect writes one pair of braces per node of the subtree and one "{}" per free child slot:
   *  2n+1 pairs for n nodes. */
  lemma InspectBraces(nodes: map<Id, Node>, at: map<nat, Id>, k: nat)
    requires Positioned(nodes, at) && k in at
    ensures Count('{', Inspect(nodes, at[k], at, k)) == 2 * |Sub(at, k)| + 1
    ensures Count('}', Inspect(nodes, at[k], at, k)) == 2 * |Sub(at, k)| + 1
  {
    BracesOf(nodes, at, k, '{');
    BracesOf(nodes, at, k, '}');
  }

  lemma {:induction false} BracesOf(nodes: map<Id, Node>, at: map<nat, Id>, k: nat, c: char)
    requires Positioned(nodes, at) && k in at && (c == '{' || c == '}')
    ensures Count(c, Inspect(nodes, at[k], at, k)) == 2 * |Sub(at, k)| + 1
    decreases Cap(at) - k
  {
    LinksAt(nodes, at, k);
    SubSize(at, k);
    InspectStep(nodes, at, k);
    var l := if 2 * k in at then Inspect(nodes, at[2 * k], at, 2 * k) else "{}";
    var r := if 2 * k + 1 in at then Inspect(nodes, at[2 * k + 1], at, 2 * k + 1) else "{}";
    var v := ValueText(nodes[at[k]].data.value);
    var a, b := |Sub(at, 2 * k)|, |Sub(at, 2 * k + 1)|;
    if 2 * k in at {
      BracesOf(nodes, at, 2 * k, c);
    } else {
      EmptyBraces(c);
    }
    if 2 * k + 1 in at {
      BracesOf(nodes, at, 2 * k + 1, c);
    } else {
      EmptyBraces(c);
    }
    ValueTextBraces(nodes[at[k]].data.value);
    BracesOfParts(v, l, r, c);
    assert Count(c, l) == 2 * a + 1;
    assert Count(c, r) == 2 * b + 1;
  }

  lemma EmptyBraces(c: char)
    requires c == '{' || c == '}'
    ensures Count(c, "{}") == 1
  {
    assert "{}"[1..] == "}" && "}"[1..] == "";
  }

  // ---------------------------------------------------------------------------------------------
  // The store updates the node operations make

  /** swap_contents: the two nodes exchange description and value; no link changes. */
  function Swapped(m: map<Id, Node>, a: Id, b: Id): (r: map<Id, Node>)
    requires a in m && b in m
    ensures r.Keys == m.Keys
    ensures r[a].data == m[b].data && r[b].data == m[a].data
    ensures forall id :: id in m ==> r[id].left == m[id].left && r[id].right == m[id].right && r[id].parent == m[id].parent
    ensures forall id :: id in m && id != a && id != b ==> r[id] == m[id]
  {
    m[a := m[a].(data := m[b].data)][b := m[b].(data := m[a].data)]
  }

  /** Swapping twice restores both nodes. */
  lemma SwappedTwice(m: map<Id, Node>, a: Id, b: Id)
    requires a in m && b in m
    ensures Swapped(Swapped(m, a, b), a, b) == m
  {
  }

  /** Swapping the records of two slots keeps the tree and its multiset of records. */
  lemma SwappedSlots(m: map<Id, Node>, at: map<nat, Id>, i: nat, j: nat)
    requires Positioned(m, at) && i in at && j in at
    ensures Positioned(Swapped(m, at[i], at[j]), at)
    ensures Payload(Swapped(m, at[i], at[j]), at) == Payload(m, at)[i := Payload(m, at)[j]][j := Payload(m, at)[i]]
    ensures Contents(Swapped(m, at[i], at[j]), at) == Contents(m, at)
  {
    var m' := Swapped(m, at[i], at[j]);
    LinksKept(m, m', at);
    var p: map<nat, Data> := Payload(m, at);
    var p' := p[i := p[j]][j := p[i]];
    forall k | k in at ensures Payload(m', at)[k] == p'[k] {
      assert at[k] == at[i] ==> k == i;
      assert at[k] == at[j] ==> k == j;
    }
    assert Payload(m', at) == p';
    BagOfSwap<nat, Data>(p, p', at.Keys, i, j);
  }

  /** Changing only records keeps a tree's shape. */
  lemma LinksKept(m: map<Id, Node>, m': map<Id, Node>, at: map<nat, Id>)
    requires Positioned(m, at) && m'.Keys == m.Keys
    requires forall id :: id in m ==> m'[id].left == m[id].left && m'[id].right == m[id].right && m'[id].parent == m[id].parent
    ensures Positioned(m', at)
  {
    forall k | k in at ensures Linked(m', at, k) {
      LinksAt(m, at, k);
    }
  }

  /** The parent's view of a node just cleaned: each of its links whose node has the same
   *  contents as the cleaned node (Node#== is content equality) becomes an EmptyNode. */
  function Detached(m: map<Id, Node>, pn: Node, d: Data): (r: Node)
    ensures r.data == pn.data && r.parent == pn.parent
    ensures r.left == (if SameContents(m, pn.left, d) then Sentinel else pn.left)
    ensures r.right == (if SameContents(m, pn.right, d) then Sentinel else pn.right)
  {
    var n1 := if SameContents(m, pn.left, d) then pn.(left := Sentinel) else pn;
    if SameContents(m, n1.right, d) then n1.(right := Sentinel) else n1
  }

  /** clean (without children): the node's fields become nil, and a valid parent replaces with a
   *  fresh EmptyNode each of its links that now `==` the node. */
  function Cleaned(m: map<Id, Node>, x: Id): (r: map<Id, Node>)
    requires x in m && LinkIn(m, m[x].parent)
    ensures r.Keys == m.Keys && r[x] == Dead
  {
    var p := m[x].parent;
    var m1 := m[x := Node(DeadData, Nil, Nil, p)];
    var m2 := if p.Ref? && IsValid(m1[p.id].data) then m1[p.id := Detached(m1, m1[p.id], DeadData)] else m1;
    m2[x := Dead]
  }

  /** What cleaning a leaf does to the store: the leaf is Dead, its (valid) parent loses the link
   *  to it, and every other node is as it was. */
  lemma CleanedLeafNodes(m: map<Id, Node>, at: map<nat, Id>, j: nat)
    requires Positioned(m, at) && j in at && 2 * j !in at && 2 * j + 1 !in at && (j >= 2 ==> j / 2 in at)
    requires forall i :: i in at && i != j ==> IsValid(m[at[i]].data)
    ensures LinkIn(m, m[at[j]].parent)
    ensures Cleaned(m, at[j]).Keys == m.Keys && Cleaned(m, at[j])[at[j]] == Dead
    ensures forall id :: id in m && id != at[j] && (j == 1 || id != at[j / 2]) ==> Cleaned(m, at[j])[id] == m[id]
    ensures j >= 2 ==> var pn := m[at[j / 2]];
                       Cleaned(m, at[j])[at[j / 2]]
                       == pn.(left := if j % 2 == 0 then Sentinel else pn.left,
                              right := if j % 2 == 1 then Sentinel else pn.right)
  {
    LinksAt(m, at, j);
    var x := at[j];
    if j >= 2 {
      var k := j / 2;
      LinksAt(m, at, k);
      assert k != j;
      var pn := m[at[k]];
      assert IsValid(pn.data);
      var sib := if j % 2 == 0 then j + 1 else j - 1;
      assert sib / 2 == k && sib != j && (sib == 2 * k || sib == 2 * k + 1);
      assert sib in at ==> IsValid(m[at[sib]].data) && at[sib] != x;
      var m1 := m[x := Node(DeadData, Nil, Nil, Ref(at[k]))];
      assert 2 * k == j || 2 * k + 1 == j;
      assert SameContents(m1, pn.left, DeadData) <==> j % 2 == 0;
      assert SameContents(m1, pn.right, DeadData) <==> j % 2 == 1;
    }
  }

  /** Taking a leaf out of a tree's slots leaves them prefix-closed. */
  lemma PrefixClosedWithoutLeaf(at: map<nat, Id>, j: nat)
    requires PrefixClosed(at) && j in at && 2 * j !in at && 2 * j + 1 !in at
    ensures PrefixClosed(at - {j})
  {
    var at' := at - {j};
    forall i | i in at' ensures ParentIn(at', i) {
      ParentSlot(at, i);
      assert i >= 2 ==> i / 2 != j;
    }
  }

  /** Cleaning a leaf of a tree whose other nodes are valid removes exactly that slot from the
   *  tree's links. */
  lemma CleanedLeafPositioned(m: map<Id, Node>, at: map<nat, Id>, j: nat)
    requires Positioned(m, at) && j in at && 2 * j !in at && 2 * j + 1 !in at && (j >= 2 ==> j / 2 in at)
    requires forall i :: i in at && i != j ==> IsValid(m[at[i]].data)
    ensures LinkIn(m, m[at[j]].parent)
    ensures Positioned(Cleaned(m, at[j]), at - {j})
  {
    CleanedLeafNodes(m, at, j);
    PrefixClosedWithoutLeaf(at, j);
    var r := Cleaned(m, at[j]);
    var at' := at - {j};
    forall i | i in at' ensures Linked(r, at', i) {
      LinksAt(m, at, i);
      assert at[i] != at[j];
      if j >= 2 && i == j / 2 {
        assert 2 * i == j || 2 * i + 1 == j;
      } else {
        assert 2 * i != j && 2 * i + 1 != j;
        assert j == 1 || at[i] != at[j / 2];
      }
    }
  }

  /** Cleaning a leaf of a tree whose other nodes are valid removes exactly that slot from the
   *  tree, and its record from the tree's multiset; nothing outside the tree changes. */
  lemma CleanedLeaf(m: map<Id, Node>, at: map<nat, Id>, j: nat)
    requires Positioned(m, at) && j in at && 2 * j !in at && 2 * j + 1 !in at
    requires forall i :: i in at && i != j ==> IsValid(m[at[i]].data)
    ensures j >= 2 ==> j / 2 in at
    ensures LinkIn(m, m[at[j]].parent)
    ensures Positioned(Cleaned(m, at[j]), at - {j})
    ensures Payload(Cleaned(m, at[j]), at - {j}) == Payload(m, at) - {j}
    ensures Contents(m, at) == Contents(Cleaned(m, at[j]), at - {j}) + multiset{Payload(m, at)[j]}
    ensures forall id :: id in m && id != at[j] && (j == 1 || id != at[j / 2]) ==> Cleaned(m, at[j])[id] == m[id]
  {
    LinksAt(m, at, j);
    CleanedLeafNodes(m, at, j);
    CleanedLeafPositioned(m, at, j);
    var r := Cleaned(m, at[j]);
    var at' := at - {j};
    var p := Payload(m, at);
    forall i | i in at' ensures Payload(r, at')[i] == p[i] {
      assert at[i] != at[j];
    }
    assert Payload(r, at') == p - {j};
    BagOfRemove<nat, Data>(p, at.Keys, j);
    BagOfFrame<nat, Data>(p, Payload(r, at'), at.Keys - {j});
    assert at'.Keys == at.Keys - {j};
  }

  /** insert_left / insert_right: the parent's link on side d becomes c, and c's parent link
   *  becomes the parent. */
  function Attached(m: map<Id, Node>, p: Id, c: Id, d: Dir): (r: map<Id, Node>)
    requires p in m && c in m
    ensures r.Keys == m.Keys
    ensures forall id :: id in m && id != p && id != c ==> r[id] == m[id]
    ensures forall id :: id in m ==> r[id].data == m[id].data
  {
    var m1 := if d == Left then m[p := m[p].(left := Ref(c))] else m[p := m[p].(right := Ref(c))];
    m1[c := m1[c].(parent := Ref(p))]
  }

  /** Attaching a fresh node c at the free child slot of slot k on side d. */
  lemma AttachedNodes(m: map<Id, Node>, at: map<nat, Id>, k: nat, d: Dir, c: Id)
    requires Positioned(m, at) && k in at && Child(k, d) !in at
    requires c in m && m[c].left == Sentinel && m[c].right == Sentinel
    requires forall i :: i in at ==> at[i] != c
    ensures var r := Attached(m, at[k], c, d);
            && r[c] == m[c].(parent := Ref(at[k]))
            && r[at[k]] == (if d == Left then m[at[k]].(left := Ref(c)) else m[at[k]].(right := Ref(c)))
  {
  }

  /** insert_left / insert_right of a fresh node c at the free child slot of slot k: the tree
   *  gains that slot. */
  lemma AttachedPositioned(m: map<Id, Node>, at: map<nat, Id>, k: nat, d: Dir, c: Id)
    requires Positioned(m, at) && k in at && Child(k, d) !in at
    requires c in m && m[c].left == Sentinel && m[c].right == Sentinel
    requires forall i :: i in at ==> at[i] != c
    ensures Positioned(Attached(m, at[k], c, d), at[Child(k, d) := c])
  {
    var s := Child(k, d);
    var r := Attached(m, at[k], c, d);
    var at' := at[s := c];
    LinksAt(m, at, k);
    AttachedNodes(m, at, k, d, c);
    assert s / 2 == k && s >= 2 && (s == 2 * k || s == 2 * k + 1);
    ChildrenFree(at, s);
    forall i | i in at' ensures ParentIn(at', i) {
      if i != s {
        ParentSlot(at, i);
      }
    }
    forall i | i in at' ensures Linked(r, at', i) {
      AttachedLinked(m, at, k, d, c, i);
    }
  }

  lemma AttachedLinked(m: map<Id, Node>, at: map<nat, Id>, k: nat, d: Dir, c: Id, i: nat)
    requires Positioned(m, at) && k in at && Child(k, d) !in at
    requires c in m && m[c].left == Sentinel && m[c].right == Sentinel
    requires forall i :: i in at ==> at[i] != c
    requires i in at[Child(k, d) := c]
    ensures InNodes(Attached(m, at[k], c, d), at[Child(k, d) := c])
    ensures Linked(Attached(m, at[k], c, d), at[Child(k, d) := c], i)
  {
    var s := Child(k, d);
    LinksAt(m, at, k);
    AttachedNodes(m, at, k, d, c);
    assert s / 2 == k && s >= 2 && (s == 2 * k || s == 2 * k + 1);
    ChildrenFree(at, s);
    if i != s {
      LinksAt(m, at, i);
      assert at[i] != c;
      if i != k {
        assert at[i] != at[k];
        assert 2 * i != s && 2 * i + 1 != s;
      }
    }
  }

  /** insert_left / insert_right of a fresh node c at the free child slot of slot k: the tree's
   *  multiset gains c's record. */
  lemma AttachedContents(m: map<Id, Node>, at: map<nat, Id>, k: nat, d: Dir, c: Id)
    requires Positioned(m, at) && k in at && Child(k, d) !in at
    requires c in m && m[c].left == Sentinel && m[c].right == Sentinel
    requires forall i :: i in at ==> at[i] != c
    ensures var r := Attached(m, at[k], c, d);
            && InNodes(r, at[Child(k, d) := c])
            && Payload(r, at[Child(k, d) := c]) == Payload(m, at)[Child(k, d) := m[c].data]
            && Contents(r, at[Child(k, d) := c]) == Contents(m, at) + multiset{m[c].data}
  {
    AttachedBag(m, Attached(m, at[k], c, d), at, Child(k, d), c);
  }

  /** Occupying a free slot with node c gives that slot c's record. */
  lemma AttachedPayload(m: map<Id, Node>, r: map<Id, Node>, at: map<nat, Id>, s: nat, c: Id)
    requires InNodes(m, at) && s !in at && c in m && r.Keys == m.Keys
    requires forall id :: id in m ==> r[id].data == m[id].data
    ensures InNodes(r, at[s := c])
    ensures Payload(r, at[s := c]) == Payload(m, at)[s := m[c].data]
  {
  }

  /** Occupying a free slot with node c adds c's record to the tree's multiset. */
  lemma AttachedBag(m: map<Id, Node>, r: map<Id, Node>, at: map<nat, Id>, s: nat, c: Id)
    requires InNodes(m, at) && s !in at && c in m && r.Keys == m.Keys
    requires forall id :: id in m ==> r[id].data == m[id].data
    ensures InNodes(r, at[s := c])
    ensures Payload(r, at[s := c]) == Payload(m, at)[s := m[c].data]
    ensures Contents(r, at[s := c]) == Contents(m, at) + multiset{m[c].data}
  {
    AttachedPayload(m, r, at, s, c);
    var at' := at[s := c];
    var p := Payload(m, at);
    var p' := p[s := m[c].data];
    BagOfRemove<nat, Data>(p', at'.Keys, s);
    assert at'.Keys - {s} == at.Keys;
    BagOfFrame<nat, Data>(p', p, at.Keys);
  }

  /** The leaf move_down ends at below slot k: it follows right children when present, else left
   *  ones. It is a leaf of the subtree, and not a left child beside a right sibling. */
  ghost function RightmostLeaf(at: map<nat, Id>, k: nat): (j: nat)
    requires PrefixClosed(at) && k in at
    ensures j in at && Below(j, k) && 2 * j !in at && 2 * j + 1 !in at
    ensures j == k || j % 2 == 1 || j + 1 !in at
    decreases Cap(at) - k
  {
    if 2 * k + 1 in at then
      var j := RightmostLeaf(at, 2 * k + 1);
      BelowParent(j, k, 2 * k + 1);
      j
    else if 2 * k in at then
      var j := RightmostLeaf(at, 2 * k);
      BelowParent(j, k, 2 * k);
      j
    else k
  }

  /** move_down's leaf is not always the last slot in level order: with four nodes it is slot 3. */
  lemma RightmostLeafOfFour(at: map<nat, Id>)
    requires at.Keys == {1, 2, 3, 4}
    ensures PrefixClosed(at) && RightmostLeaf(at, 1) == 3
  {
    assert RightmostLeaf(at, 3) == 3;
  }
}
