/**
 * The text inspect writes for a tree: "{value:left|right}" for a node, "{}" for an empty slot.
 * A Drawing is that text's structure (the value's text, then the left drawing, then the right
 * one); Parse reads a text back into its Drawing, and the lemmas say that it does so for every
 * text inspect can write, so inspect loses nothing of a tree's shape or of its values.
 */
module Drawings {
  import opened Wrappers
  import opened HeapNodes

  /** The structure of an inspect text: an empty slot, or a node's value text with its two
   *  children's drawings. */
  datatype Drawing = Hole | Knot(text: string, left: Drawing, right: Drawing)

  /** The text of a drawing. */
  function Render(d: Drawing): string
  {
    match d
    case Hole => "{}"
    case Knot(v, l, r) => "{" + v + ":" + Render(l) + "|" + Render(r) + "}"
  }

  /** A value text without the marks inspect writes around it. */
  predicate PlainText(v: string)
  {
    forall i :: 0 <= i < |v| ==> v[i] != '{' && v[i] != '}' && v[i] != ':' && v[i] != '|'
  }

  predicate Plain(d: Drawing)
  {
    match d
    case Hole => true
    case Knot(v, l, r) => PlainText(v) && Plain(l) && Plain(r)
  }

  /** The position of the first ':' in s, |s| when there is none. */
  function ColonAt(s: string): (n: nat)
    ensures n <= |s| && (n < |s| ==> s[n] == ':')
  {
    if s == [] || s[0] == ':' then 0 else 1 + ColonAt(s[1..])
  }

  /** Reads one drawing from the front of s and answers it with the text after it; none when s
   *  does not start with one. */
  function Parse(s: string): (r: Option<(Drawing, string)>)
    ensures r.Some? ==> |r.value.1| < |s|
    decreases |s|
  {
    if |s| < 2 || s[0] != '{' then None
    else if s[1] == '}' then Some((Hole, s[2..]))
    else
      var n := 1 + ColonAt(s[1..]);
      if n == |s| then None
      else
        match Parse(s[n + 1..])
        case None => None
        case Some((l, rest)) =>
          if rest == [] || rest[0] != '|' then None
          else
            match Parse(rest[1..])
            case None => None
            case Some((r, tail)) =>
              if tail == [] || tail[0] != '}' then None else Some((Knot(s[1..n], l, r), tail[1..]))
  }

  /** A plain value text ends at the colon written after it. */
  lemma {:induction false} ColonAfter(v: string, w: string)
    requires PlainText(v)
    ensures ColonAt(v + ":" + w) == |v|
    decreases |v|
  {
    if v != [] {
      assert (v + ":" + w)[1..] == v[1..] + ":" + w;
      ColonAfter(v[1..], w);
    }
  }

  /** Parse reads back every plain drawing's text, and leaves what follows it. */
  lemma {:induction false} ParseRender(d: Drawing, rest: string)
    requires Plain(d)
    ensures Parse(Render(d) + rest) == Some((d, rest))
  {
    var s := Render(d) + rest;
    match d
    case Hole =>
      assert s[2..] == rest;
    case Knot(v, l, r) =>
      var afterLeft, afterRight := "|" + Render(r) + "}" + rest, "}" + rest;
      KnotPieces(v, Render(l), Render(r), rest);
      ColonAfter(v, Render(l) + afterLeft);
      ParseRender(l, afterLeft);
      ParseRender(r, afterRight);
      ParseKnot(s, v, l, afterLeft, r, afterRight);
  }

  /** Parse of a text that opens a node with value text v, whose left and right drawings and the
   *  bar and brace after them Parse has read. */
  lemma ParseKnot(s: string, v: string, l: Drawing, afterLeft: string, r: Drawing, afterRight: string)
    requires |s| >= 2 && s[0] == '{' && s[1] != '}' && ColonAt(s[1..]) == |v| && 1 + |v| < |s| && s[1..1 + |v|] == v
    requires Parse(s[1 + |v| + 1..]) == Some((l, afterLeft)) && afterLeft != [] && afterLeft[0] == '|'
    requires Parse(afterLeft[1..]) == Some((r, afterRight)) && afterRight != [] && afterRight[0] == '}'
    ensures Parse(s) == Some((Knot(v, l, r), afterRight[1..]))
  {
  }

  /** The pieces Parse cuts the text of a node into. */
  lemma KnotPieces(v: string, a: string, b: string, rest: string)
    requires PlainText(v)
    ensures var s := "{" + v + ":" + a + "|" + b + "}" + rest; var afterLeft := "|" + b + "}" + rest;
            && |s| >= 2 && s[0] == '{' && s[1] != '}' && s[1..] == v + ":" + (a + afterLeft)
            && s[1 + |v| + 1..] == a + afterLeft && s[1..1 + |v|] == v
            && afterLeft[1..] == b + ("}" + rest) && ("}" + rest)[1..] == rest
  {
    var s := "{" + v + ":" + a + "|" + b + "}" + rest;
    assert s == "{" + (v + ":" + (a + ("|" + b + "}" + rest)));
    if v != [] {
      assert s[1] == v[0];
    }
  }

  /** A whole text read as one drawing. */
  function Read(s: string): Option<Drawing>
  {
    match Parse(s)
    case Some((d, rest)) => if rest == [] then Some(d) else None
    case None => None
  }

  lemma ReadRender(d: Drawing)
    requires Plain(d)
    ensures Read(Render(d)) == Some(d)
  {
    ParseRender(d, "");
    assert Render(d) + "" == Render(d);
  }

  // ---------------------------------------------------------------------------------------------
  // Value texts

  predicate AllDigits(s: string)
  {
    forall i :: 0 <= i < |s| ==> '0' <= s[i] <= '9'
  }

  /** The value an interpolated text spells: none for the empty text (nil) and for a text that
   *  is not a decimal Integer. */
  function ReadValue(s: string): Option<int>
  {
    if s == [] then None
    else if s[0] == '-' && AllDigits(s[1..]) then Some(-(DigitsValue(s[1..]) as int))
    else if AllDigits(s) then Some(DigitsValue(s))
    else None
  }

  /** A value's text is plain and reads back as the value. */
  lemma ValueTextReads(v: Option<int>)
    ensures PlainText(ValueText(v)) && ReadValue(ValueText(v)) == v
  {
    match v
    case None =>
    case Some(n) =>
      if n < 0 {
        NegativeTextReads(n);
      } else {
        NatTextRoundTrip(n);
        UnsignedDigits(NatText(n));
      }
  }

  lemma NegativeTextReads(n: int)
    requires n < 0
    ensures PlainText("-" + NatText(-n)) && ReadValue("-" + NatText(-n)) == Some(n)
  {
    var t := NatText(-n);
    NatTextRoundTrip(-n);
    assert -(DigitsValue(t) as int) == n;
    SignedDigits(t);
  }

  /** Digits alone: a plain text that reads as the number. */
  lemma UnsignedDigits(t: string)
    requires AllDigits(t) && t != []
    ensures PlainText(t) && ReadValue(t) == Some(DigitsValue(t) as int)
  {
    assert t[0] != '-';
  }

  /** A minus sign before digits: a plain text that reads as the negated number. */
  lemma SignedDigits(t: string)
    requires AllDigits(t) && t != []
    ensures PlainText("-" + t) && ("-" + t)[1..] == t && ReadValue("-" + t) == Some(-(DigitsValue(t) as int))
  {
    var s := "-" + t;
    assert s[1..] == t;
    assert forall i :: 1 <= i < |s| ==> s[i] == t[i - 1];
  }

  // ---------------------------------------------------------------------------------------------
  // The drawing of a heap

  /** The drawing of the subtree of slot k: the value text of the record at k, then the drawing
   *  of slot 2k (or an empty slot), then that of slot 2k+1. */
  ghost function Drawn(nodes: map<Id, Node>, at: map<nat, Id>, k: nat): Drawing
    requires InNodes(nodes, at) && k in at && k >= 1
    decreases Cap(at) - k
  {
    Knot(ValueText(nodes[at[k]].data.value),
         if 2 * k in at then Drawn(nodes, at, 2 * k) else Hole,
         if 2 * k + 1 in at then Drawn(nodes, at, 2 * k + 1) else Hole)
  }

  /** A heap's drawing holds only value texts, which are plain. */
  lemma {:induction false} DrawnPlain(nodes: map<Id, Node>, at: map<nat, Id>, k: nat)
    requires InNodes(nodes, at) && k in at && k >= 1
    ensures Plain(Drawn(nodes, at, k))
    decreases Cap(at) - k
  {
    ValueTextReads(nodes[at[k]].data.value);
    if 2 * k in at {
      DrawnPlain(nodes, at, 2 * k);
    }
    if 2 * k + 1 in at {
      DrawnPlain(nodes, at, 2 * k + 1);
    }
  }

  /** inspect, which follows the nodes' child links, writes the drawing of the slots. */
  lemma {:induction false} InspectDrawn(nodes: map<Id, Node>, at: map<nat, Id>, k: nat)
    requires Positioned(nodes, at) && k in at
    ensures k >= 1 && Inspect(nodes, at[k], at, k) == Render(Drawn(nodes, at, k))
    decreases Cap(at) - k
  {
    LinksAt(nodes, at, k);
    InspectStep(nodes, at, k);
    if 2 * k in at {
      InspectDrawn(nodes, at, 2 * k);
    }
    if 2 * k + 1 in at {
      InspectDrawn(nodes, at, 2 * k + 1);
    }
    DrawnText(nodes, at, k, if 2 * k in at then Inspect(nodes, at[2 * k], at, 2 * k) else "{}",
              if 2 * k + 1 in at then Inspect(nodes, at[2 * k + 1], at, 2 * k + 1) else "{}",
              Inspect(nodes, at[k], at, k));
  }

  /** The text of the drawing of slot k, from the texts of its children's drawings. */
  lemma DrawnText(nodes: map<Id, Node>, at: map<nat, Id>, k: nat, l: string, r: string, x: string)
    requires InNodes(nodes, at) && k in at && k >= 1
    requires x == "{" + ValueText(nodes[at[k]].data.value) + ":" + l + "|" + r + "}"
    requires l == if 2 * k in at then Render(Drawn(nodes, at, 2 * k)) else "{}"
    requires r == if 2 * k + 1 in at then Render(Drawn(nodes, at, 2 * k + 1)) else "{}"
    ensures Render(Drawn(nodes, at, k)) == x
  {
  }

  /** The text inspect writes below slot k reads back as the drawing of the slots. */
  lemma InspectReads(nodes: map<Id, Node>, at: map<nat, Id>, k: nat)
    requires Positioned(nodes, at) && k in at
    ensures k >= 1 && Read(Inspect(nodes, at[k], at, k)) == Some(Drawn(nodes, at, k))
  {
    InspectDrawn(nodes, at, k);
    DrawnPlain(nodes, at, k);
    ReadRender(Drawn(nodes, at, k));
  }
}
