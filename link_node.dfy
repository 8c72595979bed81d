/**
 * Lists::LinkNode: a value with prev/next links. Every LinkNode a list creates lives in the
 * list's arena, a map from node identities to node records; a link is nil or the identity of a
 * node. Rewiring a node's field replaces that node's record in the map.
 */
module LinkNodes {
  import opened Wrappers

  /** A link a node or a list holds: nil, or the node with that identity. */
  datatype Link = Nil | Ref(id: nat)

  /** The fields of a LinkNode; the value is nil once remove! has cleared the node. */
  datatype LinkNode = LinkNode(value: Option<int>, prev: Link, next: Link)

  /** The link strategies of LinkNode.new. */
  datatype Strategy = Single | Before | After | CircleBefore | CircleAfter

  /** A node cleared by remove!: no value and no links. */
  const Cleared := LinkNode(None, Nil, Nil)

  /** l is nil or a node of the arena. */
  predicate LinkIn(nodes: map<nat, LinkNode>, l: Link)
  {
    l.Nil? || l.id in nodes
  }

  /** The node id has an identity below `nextId` and links to nodes of the arena. */
  ghost predicate ClosedAt(nodes: map<nat, LinkNode>, nextId: nat, id: nat)
    requires id in nodes
  {
    id < nextId && LinkIn(nodes, nodes[id].prev) && LinkIn(nodes, nodes[id].next)
  }

  /** Every node of the arena is closed. */
  ghost predicate Closed(nodes: map<nat, LinkNode>, nextId: nat)
  {
    forall id {:trigger ClosedAt(nodes, nextId, id)} :: id in nodes ==> ClosedAt(nodes, nextId, id)
  }

  lemma LinksOf(nodes: map<nat, LinkNode>, nextId: nat, id: nat)
    requires Closed(nodes, nextId) && id in nodes
    ensures id < nextId && LinkIn(nodes, nodes[id].prev) && LinkIn(nodes, nodes[id].next)
  {
    assert ClosedAt(nodes, nextId, id);
  }

  /** The identity the next node takes is not in the arena yet. */
  lemma Unused(nodes: map<nat, LinkNode>, nextId: nat)
    requires Closed(nodes, nextId)
    ensures nextId !in nodes
  {
    forall id | id in nodes ensures id < nextId {
      assert ClosedAt(nodes, nextId, id);
    }
  }

  /**
   * The arena after LinkNode.new(v, anchor, s) has made node id: the new node's links and the
   * one link of the anchor the strategy rewires.
   */
  function Spliced(nodes: map<nat, LinkNode>, id: nat, v: int, anchor: Link, s: Strategy): map<nat, LinkNode>
    requires id !in nodes && LinkIn(nodes, anchor)
  {
    var made := LinkNode(Some(v), Nil, Nil);
    match anchor
    case Nil =>
      if s == CircleBefore || s == CircleAfter then nodes[id := made.(prev := Ref(id), next := Ref(id))]
      else nodes[id := made]
    case Ref(a) =>
      var n := nodes[a];
      match s
      case Single => nodes[a := n.(next := Ref(id))][id := made.(next := n.next)]
      case Before | CircleBefore => nodes[a := n.(prev := Ref(id))][id := made.(prev := n.prev, next := anchor)]
      case After | CircleAfter => nodes[a := n.(next := Ref(id))][id := made.(prev := anchor, next := n.next)]
  }

  /** LinkNode.new adds node id holding v, changes no node but the anchor, and keeps the anchor's
   *  value. */
  lemma SplicedFrame(nodes: map<nat, LinkNode>, id: nat, v: int, anchor: Link, s: Strategy)
    requires id !in nodes && LinkIn(nodes, anchor)
    ensures var m := Spliced(nodes, id, v, anchor, s);
            && m.Keys == nodes.Keys + {id} && m[id].value == Some(v)
            && (forall i :: i in nodes && Ref(i) != anchor ==> m[i] == nodes[i])
            && (anchor.Ref? ==> m[anchor.id].value == nodes[anchor.id].value)
  {
  }

  /** Making a node from an anchor of the arena keeps the arena closed, with one more identity
   *  taken. */
  lemma SplicedClosed(nodes: map<nat, LinkNode>, nextId: nat, v: int, anchor: Link, s: Strategy)
    requires Closed(nodes, nextId) && LinkIn(nodes, anchor)
    ensures nextId !in nodes && Closed(Spliced(nodes, nextId, v, anchor, s), nextId + 1)
  {
    Unused(nodes, nextId);
    var m := Spliced(nodes, nextId, v, anchor, s);
    SplicedFrame(nodes, nextId, v, anchor, s);
    if anchor.Ref? {
      LinksOf(nodes, nextId, anchor.id);
    }
    forall i | i in m ensures ClosedAt(m, nextId + 1, i) {
      if i != nextId {
        LinksOf(nodes, nextId, i);
      }
    }
  }

  /** Without an anchor, :circle_before and :circle_after make a ring of one node; the other
   *  strategies make an unlinked node. */
  lemma SplicedAlone(nodes: map<nat, LinkNode>, id: nat, v: int, s: Strategy)
    requires id !in nodes
    ensures var m := Spliced(nodes, id, v, Nil, s);
            if s == CircleBefore || s == CircleAfter then m[id].prev == Ref(id) && m[id].next == Ref(id)
            else m[id].prev == Nil && m[id].next == Nil
  {
  }

  /** With an anchor a: :after and :circle_after put the node between a and a's old next, and
   *  :single does so on the forward links only; :before and :circle_before put it between a's
   *  old prev and a. The far neighbour's link is not rewired. */
  lemma SplicedBetween(nodes: map<nat, LinkNode>, id: nat, v: int, a: nat, s: Strategy)
    requires id !in nodes && a in nodes
    ensures var m := Spliced(nodes, id, v, Ref(a), s);
            && (s == After || s == CircleAfter ==>
                  m[a].next == Ref(id) && m[a].prev == nodes[a].prev && m[id].prev == Ref(a) && m[id].next == nodes[a].next)
            && (s == Single ==>
                  m[a].next == Ref(id) && m[a].prev == nodes[a].prev && m[id].prev == Nil && m[id].next == nodes[a].next)
            && (s == Before || s == CircleBefore ==>
                  m[a].prev == Ref(id) && m[a].next == nodes[a].next && m[id].next == Ref(a) && m[id].prev == nodes[a].prev)
  {
  }

  /** A direction along the links: next (Forth) or prev (Back). */
  datatype Dir = Forth | Back

  /** The link a node holds in direction d. */
  function Along(n: LinkNode, d: Dir): Link
  {
    if d == Forth then n.next else n.prev
  }

  /** The arena after node.next = l (Forth) or node.prev = l (Back). */
  function Relinked(nodes: map<nat, LinkNode>, id: nat, l: Link, d: Dir): (m: map<nat, LinkNode>)
    requires id in nodes
    ensures m.Keys == nodes.Keys
  {
    nodes[id := if d == Forth then nodes[id].(next := l) else nodes[id].(prev := l)]
  }

  /**
   * LinkNode.new as evidently meant for a node put in between two: the far neighbour is linked to
   * the new node as well, so the anchor's old next leads back to it after :after and
   * :circle_after, and the anchor's old prev leads on to it after :before and :circle_before.
   */
  function MendedSpliced(nodes: map<nat, LinkNode>, id: nat, v: int, anchor: Link, s: Strategy): map<nat, LinkNode>
    requires id !in nodes && LinkIn(nodes, anchor)
  {
    var m := Spliced(nodes, id, v, anchor, s);
    match anchor
    case Nil => m
    case Ref(a) =>
      var n := nodes[a];
      if (s == After || s == CircleAfter) && n.next.Ref? && n.next.id in nodes then
        Relinked(m, n.next.id, Ref(id), Back)
      else if (s == Before || s == CircleBefore) && n.prev.Ref? && n.prev.id in nodes then
        Relinked(m, n.prev.id, Ref(id), Forth)
      else m
  }

  /** m is nodes with node id, holding v, put in between a and b on both links: a leads on to it,
   *  b leads back to it, and no other node changed. */
  ghost predicate Between(nodes: map<nat, LinkNode>, m: map<nat, LinkNode>, id: nat, v: int, a: nat, b: nat)
  {
    && a in nodes && b in nodes && m.Keys == nodes.Keys + {id}
    && m[id] == LinkNode(Some(v), Ref(a), Ref(b))
    && m[a] == nodes[a].(next := Ref(id)) && m[b] == nodes[b].(prev := Ref(id))
    && (forall i :: i in nodes && i != a && i != b ==> m[i] == nodes[i])
  }

  /** The corrected LinkNode.new after an anchor a puts the new node between a and a's old next. */
  lemma MendedSplicedAfter(nodes: map<nat, LinkNode>, id: nat, v: int, a: nat, s: Strategy)
    requires id !in nodes && a in nodes && (s == After || s == CircleAfter)
    requires nodes[a].next.Ref? && nodes[a].next.id in nodes && nodes[a].next.id != a
    ensures Between(nodes, MendedSpliced(nodes, id, v, Ref(a), s), id, v, a, nodes[a].next.id)
  {
  }

  /** The corrected LinkNode.new before an anchor a puts the new node between a's old prev and a. */
  lemma MendedSplicedBefore(nodes: map<nat, LinkNode>, id: nat, v: int, a: nat, s: Strategy)
    requires id !in nodes && a in nodes && (s == Before || s == CircleBefore)
    requires nodes[a].prev.Ref? && nodes[a].prev.id in nodes && nodes[a].prev.id != a
    ensures Between(nodes, MendedSpliced(nodes, id, v, Ref(a), s), id, v, nodes[a].prev.id, a)
  {
  }

  /** Rewiring a link of a node to a node of the arena keeps the arena closed. */
  lemma RelinkedClosed(nodes: map<nat, LinkNode>, nextId: nat, id: nat, l: Link, d: Dir)
    requires Closed(nodes, nextId) && id in nodes && LinkIn(nodes, l)
    ensures Closed(Relinked(nodes, id, l, d), nextId)
  {
    var m := Relinked(nodes, id, l, d);
    forall i | i in m ensures ClosedAt(m, nextId, i) {
      LinksOf(nodes, nextId, i);
    }
  }

  /** match_by_value: the key of the node's value equals the key of the other value. */
  predicate MatchByValue(key: int -> int, n: LinkNode, other: int)
    requires n.value.Some?
  {
    key(n.value.value) == key(other)
  }

  /** The default key of a list is the identity. */
  function Identity(x: int): int
  {
    x
  }

  /** With the default key, a node matches exactly its own value. */
  lemma MatchByIdentity(n: LinkNode, other: int)
    requires n.value.Some?
    ensures MatchByValue(Identity, n, other) <==> n.value == Some(other)
  {
  }

  /**
   * The nodes a list makes. `nextId` is the identity the next LinkNode.new takes; no node of the
   * arena has it yet.
   */
  class LinkArena {
    var nodes: map<nat, LinkNode>
    var nextId: nat

    ghost predicate Valid()
      reads this
    {
      Closed(nodes, nextId)
    }

    constructor ()
      ensures Valid() && nodes == map[] && nextId == 0
    {
      nodes := map[];
      nextId := 0;
    }

    /** LinkNode.new(v, anchor, s): a new node holding v, linked to the anchor as the strategy
     *  says. */
    method Call(v: int, anchor: Link, s: Strategy) returns (id: nat)
      requires Valid() && LinkIn(nodes, anchor)
      modifies this
      ensures Valid() && id == old(nextId) && nextId == id + 1 && id !in old(nodes)
      ensures nodes == Spliced(old(nodes), id, v, anchor, s)
    {
      id := nextId;
      if id in nodes {
        LinksOf(nodes, nextId, id);
      }
      if anchor.Ref? {
        LinksOf(nodes, nextId, anchor.id);
      }
      var node := LinkNode(Some(v), Nil, Nil);
      match s {
        case Single =>
          if anchor.Ref? {
            node := node.(next := nodes[anchor.id].next);
            nodes := nodes[anchor.id := nodes[anchor.id].(next := Ref(id))];
          }
        case Before =>
          if anchor.Ref? {
            node := node.(prev := nodes[anchor.id].prev);
            nodes := nodes[anchor.id := nodes[anchor.id].(prev := Ref(id))];
          }
          node := node.(next := anchor);
        case After =>
          if anchor.Ref? {
            node := node.(next := nodes[anchor.id].next);
            nodes := nodes[anchor.id := nodes[anchor.id].(next := Ref(id))];
          }
          node := node.(prev := anchor);
        case CircleBefore =>
          if anchor.Ref? {
            node := node.(prev := nodes[anchor.id].prev);
            nodes := nodes[anchor.id := nodes[anchor.id].(prev := Ref(id))];
            node := node.(next := anchor);
          } else {
            node := node.(prev := Ref(id), next := Ref(id));
          }
        case CircleAfter =>
          if anchor.Ref? {
            node := node.(next := nodes[anchor.id].next);
            nodes := nodes[anchor.id := nodes[anchor.id].(next := Ref(id))];
            node := node.(prev := anchor);
          } else {
            node := node.(prev := Ref(id), next := Ref(id));
          }
      }
      nodes := nodes[id := node];
      nextId := nextId + 1;
      assert nodes == Spliced(old(nodes), id, v, anchor, s);
      SplicedClosed(old(nodes), id, v, anchor, s);
    }

    /** node.next = l */
    method SetNext(id: nat, l: Link)
      requires Valid() && id in nodes && LinkIn(nodes, l)
      modifies this
      ensures Valid() && nextId == old(nextId) && nodes == old(nodes)[id := old(nodes)[id].(next := l)]
    {
      nodes := nodes[id := nodes[id].(next := l)];
      forall i | i in nodes ensures ClosedAt(nodes, nextId, i) {
        LinksOf(old(nodes), nextId, i);
      }
    }

    /** node.prev = l */
    method SetPrev(id: nat, l: Link)
      requires Valid() && id in nodes && LinkIn(nodes, l)
      modifies this
      ensures Valid() && nextId == old(nextId) && nodes == old(nodes)[id := old(nodes)[id].(prev := l)]
    {
      nodes := nodes[id := nodes[id].(prev := l)];
      forall i | i in nodes ensures ClosedAt(nodes, nextId, i) {
        LinksOf(old(nodes), nextId, i);
      }
    }

    /** remove!: clears the node's value and links and answers its old next. */
    method RemoveNode(id: nat) returns (next: Link)
      requires Valid() && id in nodes
      modifies this
      ensures Valid() && nextId == old(nextId)
      ensures next == old(nodes)[id].next && nodes == old(nodes)[id := Cleared]
    {
      next := nodes[id].next;
      nodes := nodes[id := Cleared];
      forall i | i in nodes ensures ClosedAt(nodes, nextId, i) {
        LinksOf(old(nodes), nextId, i);
      }
    }
  }
}
