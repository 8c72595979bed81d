/**
 * BinaryTree::Node and BinaryTree::EmptyNode: an unbalanced binary search tree of Integers.
 * A Node holds a value and two child slots; an empty slot holds an EmptyNode, which answers
 * false to push and include?, [] to to_a and "{}" to inspect. push sends a smaller value to the
 * left slot and a greater one to the right slot and fills an empty slot with a new leaf.
 *
 * The value of a subtree is a Tree; the objects are Node instances whose ghost Contents is that
 * Tree; a null child reference stands for the EmptyNode in that slot.
 */
module BinaryTrees {
  import opened Wrappers
  import HeapNodes
  import opened Drawings

  /** A subtree as a value: an EmptyNode, or a Node with its value and its two subtrees. */
  datatype Tree = Empty | Branch(value: int, left: Tree, right: Tree)

  /** Node.new(v): a node holding v with two empty slots. */
  function Leaf(v: int): Tree
  {
    Branch(v, Empty, Empty)
  }

  /** The number of Nodes of a subtree. */
  function Size(t: Tree): nat
  {
    match t
    case Empty => 0
    case Branch(_, l, r) => Size(l) + 1 + Size(r)
  }

  /** The values held by the Nodes of a subtree. */
  function Elements(t: Tree): set<int>
  {
    match t
    case Empty => {}
    case Branch(x, l, r) => Elements(l) + {x} + Elements(r)
  }

  /** The search-tree order: every value of the left subtree is smaller than the node's value and
   *  every value of the right subtree is greater, at every Node. */
  ghost predicate Ordered(t: Tree)
  {
    match t
    case Empty => true
    case Branch(x, l, r) =>
      && Ordered(l) && Ordered(r)
      && (forall y :: y in Elements(l) ==> y < x)
      && (forall y :: y in Elements(r) ==> x < y)
  }

  // ---------------------------------------------------------------------------------------------
  // to_a and inspect

  /** Each value is smaller than the next. */
  ghost predicate Increasing(a: seq<int>)
  {
    forall i, j :: 0 <= i < j < |a| ==> a[i] < a[j]
  }

  /** to_a: the left subtree's values, the node's value, then the right subtree's values; [] for
   *  an EmptyNode. It lists every Node once. */
  function InOrder(t: Tree): (a: seq<int>)
    ensures |a| == Size(t)
    ensures forall y :: y in a <==> y in Elements(t)
  {
    match t
    case Empty => []
    case Branch(x, l, r) => InOrder(l) + [x] + InOrder(r)
  }

  /** Two increasing runs joined by a value above the first and below the second increase. */
  lemma IncreasingJoin(a: seq<int>, x: int, b: seq<int>)
    requires Increasing(a) && Increasing(b)
    requires forall y :: y in a ==> y < x
    requires forall y :: y in b ==> x < y
    ensures Increasing(a + [x] + b)
  {
    var c := a + [x] + b;
    forall i, j | 0 <= i < j < |c| ensures c[i] < c[j] {
      if j < |a| {
        assert c[i] == a[i] && c[j] == a[j];
      } else if i < |a| {
        assert c[i] == a[i] && a[i] in a;
        if j > |a| {
          assert c[j] == b[j - |a| - 1] && b[j - |a| - 1] in b;
        }
      } else if i == |a| {
        assert c[j] == b[j - |a| - 1] && b[j - |a| - 1] in b;
      } else {
        assert c[i] == b[i - |a| - 1] && c[j] == b[j - |a| - 1];
      }
    }
  }

  /** On an ordered tree, to_a is strictly increasing. */
  lemma {:induction false} InOrderIncreasing(t: Tree)
    requires Ordered(t)
    ensures Increasing(InOrder(t))
  {
    match t
    case Empty =>
    case Branch(x, l, r) =>
      InOrderIncreasing(l);
      InOrderIncreasing(r);
      IncreasingJoin(InOrder(l), x, InOrder(r));
  }

  /** inspect: "{value:left|right}", with "{}" for an EmptyNode. */
  function Rendered(t: Tree): string
  {
    match t
    case Empty => "{}"
    case Branch(x, l, r) => "{" + HeapNodes.ValueText(Some(x)) + ":" + Rendered(l) + "|" + Rendered(r) + "}"
  }

  /** inspect writes a pair of braces for every Node and one "{}" for every empty slot, 2n+1
   *  pairs for n Nodes, and starts and ends with a brace. */
  lemma {:induction false} RenderedBraces(t: Tree, c: char)
    requires c == '{' || c == '}'
    ensures HeapNodes.Count(c, Rendered(t)) == 2 * Size(t) + 1
    ensures Rendered(t)[0] == '{' && Rendered(t)[|Rendered(t)| - 1] == '}'
  {
    match t
    case Empty =>
      HeapNodes.EmptyBraces(c);
    case Branch(x, l, r) =>
      RenderedBraces(l, c);
      RenderedBraces(r, c);
      var v := HeapNodes.ValueText(Some(x));
      HeapNodes.ValueTextBraces(Some(x));
      HeapNodes.BracesOfParts(v, Rendered(l), Rendered(r), c);
  }

  /** The subtree a drawing shows, its value texts read as Integers; none when one is not. */
  function Shown(d: Drawing): Option<Tree>
  {
    match d
    case Hole => Some(Empty)
    case Knot(v, l, r) =>
      match (ReadValue(v), Shown(l), Shown(r))
      case (Some(x), Some(a), Some(b)) => Some(Branch(x, a, b))
      case _ => None
  }

  /** An inspect text read back as a subtree. */
  function ReadTree(s: string): Option<Tree>
  {
    match Read(s)
    case Some(d) => Shown(d)
    case None => None
  }

  /** The drawing of a subtree: each Node's value text, then its left and its right slot. */
  function DrawingOf(t: Tree): Drawing
  {
    match t
    case Empty => Hole
    case Branch(x, l, r) => Knot(HeapNodes.ValueText(Some(x)), DrawingOf(l), DrawingOf(r))
  }

  lemma {:induction false} RenderedDrawing(t: Tree)
    ensures Rendered(t) == Render(DrawingOf(t)) && Plain(DrawingOf(t)) && Shown(DrawingOf(t)) == Some(t)
  {
    match t
    case Empty =>
    case Branch(x, l, r) =>
      RenderedDrawing(l);
      RenderedDrawing(r);
      ValueTextReads(Some(x));
  }

  /** inspect loses nothing: its text, "{}" for an EmptyNode, reads back as the subtree, value
   *  first, then the left slot, then the right one. */
  lemma RenderedReads(t: Tree)
    ensures ReadTree(Rendered(t)) == Some(t)
  {
    RenderedDrawing(t);
    ReadRender(DrawingOf(t));
  }

  // ---------------------------------------------------------------------------------------------
  // push

  /** push's answer: false from an EmptyNode and from a Node holding the value, truthy (the
   *  result of the child's push or the new leaf) otherwise. */
  function PushAnswer(t: Tree, v: int): bool
  {
    t.Branch? && t.value != v
  }

  /** The subtree after push(v): a smaller value goes into the left slot, a greater one into the
   *  right slot, and an equal one changes nothing; an EmptyNode does not change. */
  function Pushed(t: Tree, v: int): (t': Tree)
    ensures Elements(t') <= Elements(t) + {v}
    ensures t.Branch? ==> v in Elements(t') && t'.Branch? && t'.value == t.value
    ensures t.Empty? ==> t' == Empty
    decreases t, 0
  {
    match t
    case Empty => Empty
    case Branch(x, l, r) =>
      if x > v then Branch(x, Attached(l, v), r)
      else if x < v then Branch(x, l, Attached(r, v))
      else t
  }

  /** push_left / push_right: the slot after `child.push(v) or child = Node.new(v)`. When the
   *  child's push answers false, because the slot is empty or its Node holds v, the slot gets a
   *  new leaf. */
  function Attached(c: Tree, v: int): (c': Tree)
    ensures Elements(c') <= Elements(c) + {v} && v in Elements(c') && c'.Branch?
    decreases c, 1
  {
    if PushAnswer(c, v) then Pushed(c, v) else Leaf(v)
  }

  /** push keeps the search-tree order. */
  lemma {:induction false} PushedOrdered(t: Tree, v: int)
    requires Ordered(t)
    ensures Ordered(Pushed(t, v))
    decreases t, 0
  {
    match t
    case Empty =>
    case Branch(x, l, r) =>
      if x > v {
        AttachedOrdered(l, v);
      } else if x < v {
        AttachedOrdered(r, v);
      }
  }

  lemma {:induction false} AttachedOrdered(c: Tree, v: int)
    requires Ordered(c)
    ensures Ordered(Attached(c, v))
    decreases c, 1
  {
    if PushAnswer(c, v) {
      PushedOrdered(c, v);
    }
  }

  /** Pushing a value an ordered tree does not hold adds exactly one Node, holding it. */
  lemma {:induction false} PushedNew(t: Tree, v: int)
    requires Ordered(t) && t.Branch? && v !in Elements(t)
    ensures Elements(Pushed(t, v)) == Elements(t) + {v} && Size(Pushed(t, v)) == Size(t) + 1
    decreases t, 0
  {
    match t
    case Branch(x, l, r) =>
      if x > v {
        AttachedNew(l, v);
      } else {
        AttachedNew(r, v);
      }
  }

  lemma {:induction false} AttachedNew(c: Tree, v: int)
    requires Ordered(c) && v !in Elements(c)
    ensures Elements(Attached(c, v)) == Elements(c) + {v} && Size(Attached(c, v)) == Size(c) + 1
    decreases c, 1
  {
    if PushAnswer(c, v) {
      PushedNew(c, v);
    }
  }

  /** Pushing the value held by the root answers false and changes nothing. */
  lemma PushedAtRoot(t: Tree, v: int)
    requires t.Branch? && t.value == v
    ensures Pushed(t, v) == t && !PushAnswer(t, v)
  {
  }

  /** Pushing a value the tree already holds adds no value and keeps that one; only a push of
   *  the root's own value answers false. */
  lemma PushedHeld(t: Tree, v: int)
    requires v in Elements(t)
    ensures Elements(Pushed(t, v)) <= Elements(t) && v in Elements(Pushed(t, v))
    ensures PushAnswer(t, v) <==> t.value != v
  {
  }

  /** As written, pushing a value held below the root replaces its Node by a new leaf: the
   *  subtrees under that Node are lost. */
  lemma PushedHeldBelowDrops()
    ensures var t := Branch(5, Branch(3, Leaf(1), Empty), Empty);
            && Pushed(t, 3) == Branch(5, Leaf(3), Empty)
            && 1 in Elements(t) && 1 !in Elements(Pushed(t, 3))
  {
  }

  /** push as evidently meant: a slot gets a new leaf only when it is empty, so a push of a value
   *  held below the root leaves the tree as it is. */
  function MendedPushed(t: Tree, v: int): (t': Tree)
    ensures t.Branch? ==> Elements(t') == Elements(t) + {v} && t'.Branch? && t'.value == t.value
    ensures t.Empty? ==> t' == Empty
    decreases t, 0
  {
    match t
    case Empty => Empty
    case Branch(x, l, r) =>
      if x > v then Branch(x, MendedAttached(l, v), r)
      else if x < v then Branch(x, l, MendedAttached(r, v))
      else t
  }

  /** The slot after the mended push_left / push_right: a new leaf in an empty slot, the child's
   *  push otherwise. */
  function MendedAttached(c: Tree, v: int): (c': Tree)
    ensures Elements(c') == Elements(c) + {v} && c'.Branch?
    decreases c, 1
  {
    if c.Empty? then Leaf(v) else MendedPushed(c, v)
  }

  /** The mended push keeps the search-tree order. */
  lemma {:induction false} MendedPushedOrdered(t: Tree, v: int)
    requires Ordered(t)
    ensures Ordered(MendedPushed(t, v))
    decreases t, 0
  {
    match t
    case Empty =>
    case Branch(x, l, r) =>
      if x > v {
        MendedAttachedOrdered(l, v);
      } else if x < v {
        MendedAttachedOrdered(r, v);
      }
  }

  lemma {:induction false} MendedAttachedOrdered(c: Tree, v: int)
    requires Ordered(c)
    ensures Ordered(MendedAttached(c, v))
    decreases c, 1
  {
    if c.Branch? {
      MendedPushedOrdered(c, v);
    }
  }

  /** On an ordered tree, the mended push of a value the tree holds changes nothing. */
  lemma {:induction false} MendedPushedHeld(t: Tree, v: int)
    requires Ordered(t) && v in Elements(t)
    ensures MendedPushed(t, v) == t
    decreases t
  {
    match t
    case Branch(x, l, r) =>
      if x > v {
        MendedPushedHeld(l, v);
      } else if x < v {
        MendedPushedHeld(r, v);
      }
  }

  /** The tree on which push as written loses a Node keeps it under the mended push. */
  lemma MendedPushedBelowKeeps()
    ensures var t := Branch(5, Branch(3, Leaf(1), Empty), Empty);
            MendedPushed(t, 3) == t && 1 in Elements(MendedPushed(t, 3))
  {
    MendedPushedHeld(Branch(5, Branch(3, Leaf(1), Empty), Empty), 3);
  }

  /** Node.new(v0) followed by push of each value of vs, in order. */
  function PushedAll(t: Tree, vs: seq<int>): Tree
    decreases |vs|
  {
    if vs == [] then t else PushedAll(Pushed(t, vs[0]), vs[1..])
  }

  /** No value occurs twice. */
  ghost predicate Distinct(vs: seq<int>)
  {
    forall i, j :: 0 <= i < j < |vs| ==> vs[i] != vs[j]
  }

  /** Pushing distinct values an ordered tree does not hold, one after another, keeps it ordered
   *  and adds one Node for each, holding it. */
  lemma {:induction false} PushedAllNew(t: Tree, vs: seq<int>)
    requires Ordered(t) && t.Branch? && Distinct(vs)
    requires forall i :: 0 <= i < |vs| ==> vs[i] !in Elements(t)
    ensures var t' := PushedAll(t, vs);
            && Ordered(t') && Size(t') == Size(t) + |vs|
            && forall y :: y in Elements(t') <==> y in Elements(t) || y in vs
    decreases |vs|
  {
    if vs != [] {
      PushedNew(t, vs[0]);
      PushedOrdered(t, vs[0]);
      var t1 := Pushed(t, vs[0]);
      forall i | 0 <= i < |vs[1..]| ensures vs[1..][i] !in Elements(t1) {
        assert vs[1..][i] == vs[i + 1] && vs[i + 1] != vs[0];
      }
      PushedAllNew(t1, vs[1..]);
      assert vs == [vs[0]] + vs[1..];
    }
  }

  /** Node.new(v0); vs.each { push } with distinct values: to_a is strictly increasing and lists
   *  every value once. */
  lemma GrownInOrder(v0: int, vs: seq<int>)
    requires Distinct([v0] + vs)
    ensures var a := InOrder(PushedAll(Leaf(v0), vs));
            && Increasing(a) && |a| == 1 + |vs|
            && forall y :: y in a <==> y == v0 || y in vs
  {
    var w := [v0] + vs;
    assert Distinct(vs) by {
      forall i, j | 0 <= i < j < |vs| ensures vs[i] != vs[j] {
        assert vs[i] == w[i + 1] && vs[j] == w[j + 1];
      }
    }
    forall i | 0 <= i < |vs| ensures vs[i] !in Elements(Leaf(v0)) {
      assert w[0] == v0 && w[i + 1] == vs[i];
    }
    PushedAllNew(Leaf(v0), vs);
    InOrderIncreasing(PushedAll(Leaf(v0), vs));
  }

  // ---------------------------------------------------------------------------------------------
  // The Node objects

  class Node {
    var value: int
    var left: Node?
    var right: Node?
    /** The subtree rooted here, and the objects it is made of. */
    ghost var Contents: Tree
    ghost var Repr: set<object>

    /** The child slots hold disjoint subtrees (null for an EmptyNode) and Contents is their
     *  value. */
    ghost predicate Valid()
      reads this, Repr
      decreases Repr
    {
      && this in Repr
      && (left != null ==> left in Repr && left.Repr <= Repr && this !in left.Repr && left.Valid())
      && (right != null ==> right in Repr && right.Repr <= Repr && this !in right.Repr && right.Valid())
      && (left != null && right != null ==> left.Repr !! right.Repr)
      && Contents == Branch(value, SlotOf(left), SlotOf(right))
    }

    /** The subtree a child slot holds. */
    static ghost function SlotOf(n: Node?): Tree
      reads n
    {
      if n == null then Empty else n.Contents
    }

    /** Node.new(v) */
    constructor (v: int)
      ensures Valid() && fresh(Repr) && Contents == Leaf(v)
    {
      value := v;
      left := null;
      right := null;
      Contents := Leaf(v);
      Repr := {this};
    }

    /** push(v) and <<: the value goes down the tree by comparison. */
    method Push(v: int) returns (pushed: bool)
      requires Valid()
      modifies Repr
      ensures Valid() && fresh(Repr - old(Repr))
      ensures Contents == Pushed(old(Contents), v) && pushed == PushAnswer(old(Contents), v)
      decreases Repr, 1
    {
      if value > v {
        PushLeft(v);
        pushed := true;
      } else if value < v {
        PushRight(v);
        pushed := true;
      } else {
        pushed := false;
      }
    }

    /** push_left(v): `left.push(v) or self.left = Node.new(v)`. */
    method PushLeft(v: int)
      requires Valid() && v < value
      modifies Repr
      ensures Valid() && fresh(Repr - old(Repr))
      ensures Contents == old(Contents).(left := Attached(old(Contents).left, v))
      decreases Repr, 0
    {
      var pushed := false;
      if left != null {
        pushed := left.Push(v);
      }
      if !pushed {
        left := new Node(v);
      }
      Repr := Repr + left.Repr;
      Contents := Branch(value, left.Contents, SlotOf(right));
    }

    /** push_right(v): `right.push(v) or self.right = Node.new(v)`. */
    method PushRight(v: int)
      requires Valid() && value < v
      modifies Repr
      ensures Valid() && fresh(Repr - old(Repr))
      ensures Contents == old(Contents).(right := Attached(old(Contents).right, v))
      decreases Repr, 0
    {
      var pushed := false;
      if right != null {
        pushed := right.Push(v);
      }
      if !pushed {
        right := new Node(v);
      }
      Repr := Repr + right.Repr;
      Contents := Branch(value, SlotOf(left), right.Contents);
    }

    /** include?(v): follows the comparisons down and is true on meeting v, false at an empty
     *  slot. It never finds a value the subtree does not hold, and on an ordered subtree it finds
     *  every value it does hold. */
    function Include(v: int): (b: bool)
      reads this, Repr
      requires Valid()
      ensures b ==> v in Elements(Contents)
      ensures Ordered(Contents) ==> (b <==> v in Elements(Contents))
      decreases Repr
    {
      if value > v then left != null && left.Include(v)
      else if value < v then right != null && right.Include(v)
      else true
    }

    /** to_a: the values in order, left subtree first. */
    function ToA(): (a: seq<int>)
      reads this, Repr
      requires Valid()
      ensures a == InOrder(Contents)
      decreases Repr
    {
      (if left == null then [] else left.ToA()) + [value] + (if right == null then [] else right.ToA())
    }

    /** inspect */
    function Inspect(): (s: string)
      reads this, Repr
      requires Valid()
      ensures s == Rendered(Contents) && ReadTree(s) == Some(Contents)
      decreases Repr
    {
      RenderedReads(Contents);
      "{" + HeapNodes.ValueText(Some(value)) + ":"
      + (if left == null then "{}" else left.Inspect()) + "|"
      + (if right == null then "{}" else right.Inspect()) + "}"
    }
  }
}
