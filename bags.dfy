/** The multiset of the values a map gives to the keys of a finite set: how the heaps count records. */
module Bags {

  ghost function BagOf<K, V>(f: map<K, V>, s: set<K>): (b: multiset<V>)
    requires s <= f.Keys
    ensures |b| == |s|
    decreases s
  {
    if s == {} then multiset{} else
      var x :| x in s;
      multiset{f[x]} + BagOf(f, s - {x})
  }

  /** Any member of the set can be taken out first. */
  lemma {:induction false} BagOfRemove<K, V>(f: map<K, V>, s: set<K>, y: K)
    requires s <= f.Keys && y in s
    ensures BagOf(f, s) == multiset{f[y]} + BagOf(f, s - {y})
    decreases s
  {
    var x :| x in s && BagOf(f, s) == multiset{f[x]} + BagOf(f, s - {x});
    if x != y {
      BagOfRemove(f, s - {x}, y);
      BagOfRemove(f, s - {y}, x);
      assert s - {x} - {y} == s - {y} - {x};
    }
  }

  /** Overwriting the value of one member trades its old value for the new one. */
  lemma BagOfUpdate<K, V>(f: map<K, V>, s: set<K>, y: K, v: V)
    requires s <= f.Keys && y in s
    ensures BagOf(f[y := v], s) + multiset{f[y]} == BagOf(f, s) + multiset{v}
  {
    var g := f[y := v];
    BagOfRemove(f, s, y);
    BagOfRemove(g, s, y);
    BagOfFrame(f, g, s - {y});
  }

  /** Only the values on the set count. */
  lemma {:induction false} BagOfFrame<K, V>(f: map<K, V>, g: map<K, V>, s: set<K>)
    requires s <= f.Keys && s <= g.Keys
    requires forall x :: x in s ==> f[x] == g[x]
    ensures BagOf(f, s) == BagOf(g, s)
    decreases s
  {
    if s != {} {
      var x :| x in s;
      BagOfRemove(f, s, x);
      BagOfRemove(g, s, x);
      BagOfFrame(f, g, s - {x});
    }
  }

  /** Bags of disjoint sets add up. */
  lemma {:induction false} BagOfUnion<K, V>(f: map<K, V>, s: set<K>, t: set<K>)
    requires s <= f.Keys && t <= f.Keys && s !! t
    ensures BagOf(f, s + t) == BagOf(f, s) + BagOf(f, t)
    decreases s
  {
    if s != {} {
      var x :| x in s;
      assert (s + t) - {x} == (s - {x}) + t;
      calc {
        BagOf(f, s + t);
        { BagOfRemove(f, s + t, x); }
        multiset{f[x]} + BagOf(f, (s - {x}) + t);
        { BagOfUnion(f, s - {x}, t); }
        multiset{f[x]} + BagOf(f, s - {x}) + BagOf(f, t);
        { BagOfRemove(f, s, x); }
        BagOf(f, s) + BagOf(f, t);
      }
    } else {
      assert s + t == t;
    }
  }

  /** Two maps with the same bags on a subset and on the rest of a set have the same bag on it. */
  lemma {:induction false} BagOfSplit<K, V>(f: map<K, V>, g: map<K, V>, s: set<K>, t: set<K>)
    requires t <= s && s <= f.Keys && s <= g.Keys
    requires BagOf(f, t) == BagOf(g, t) && BagOf(f, s - t) == BagOf(g, s - t)
    ensures BagOf(f, s) == BagOf(g, s)
  {
    var u := t + (s - t);
    assert u == s;
    BagOfUnion(f, t, s - t);
    BagOfUnion(g, t, s - t);
    assert BagOf(f, u) == BagOf(g, u);
  }

  /** Exchanging the values of two keys of the set leaves the bag unchanged. The exchange is
   *  stated point by point, so that it applies to any map built that way. */
  lemma {:induction false} BagOfSwap<K, V>(f: map<K, V>, g: map<K, V>, s: set<K>, a: K, b: K)
    requires s <= f.Keys && s <= g.Keys && a in s && b in s
    requires g[a] == f[b] && g[b] == f[a]
    requires forall x :: x in s && x != a && x != b ==> g[x] == f[x]
    ensures BagOf(g, s) == BagOf(f, s)
  {
    if a != b {
      var rest := s - {a} - {b};
      assert s - {a} - {b} == rest;
      BagOfFrame(f, g, rest);
      calc {
        BagOf(g, s);
        { BagOfRemove(g, s, a); }
        multiset{g[a]} + BagOf(g, s - {a});
        { BagOfRemove(g, s - {a}, b); }
        multiset{g[a]} + (multiset{g[b]} + BagOf(g, rest));
        multiset{f[b]} + (multiset{f[a]} + BagOf(f, rest));
        multiset{f[a]} + (multiset{f[b]} + BagOf(f, rest));
        { BagOfRemove(f, s - {a}, b); }
        multiset{f[a]} + BagOf(f, s - {a});
        { BagOfRemove(f, s, a); }
        BagOf(f, s);
      }
    } else {
      BagOfFrame(f, g, s);
    }
  }

  /** A value is in the bag exactly when some key of the set maps to it. */
  lemma {:induction false} BagOfMember<K, V>(f: map<K, V>, s: set<K>, v: V)
    requires s <= f.Keys
    ensures v in BagOf(f, s) <==> exists x :: x in s && f[x] == v
    decreases s
  {
    if s != {} {
      var x :| x in s;
      BagOfRemove(f, s, x);
      BagOfMember(f, s - {x}, v);
    }
  }

  /** The bag of a sequence's elements listed through f. */
  ghost function Listed<K, V>(f: map<K, V>, xs: seq<K>): (r: seq<V>)
    requires forall i :: 0 <= i < |xs| ==> xs[i] in f
    ensures |r| == |xs|
    ensures forall i :: 0 <= i < |xs| ==> r[i] == f[xs[i]]
  {
    if xs == [] then [] else [f[xs[0]]] + Listed(f, xs[1..])
  }

  /** Listing a duplicate-free sequence through f gives the bag of its set of elements. */
  lemma {:induction false} ListedBag<K, V>(f: map<K, V>, xs: seq<K>)
    requires forall i :: 0 <= i < |xs| ==> xs[i] in f
    requires forall i, j :: 0 <= i < j < |xs| ==> xs[i] != xs[j]
    ensures multiset(Listed(f, xs)) == BagOf(f, set i | 0 <= i < |xs| :: xs[i])
    decreases |xs|
  {
    var s := set i | 0 <= i < |xs| :: xs[i];
    if xs != [] {
      var rest := set i | 0 <= i < |xs[1..]| :: xs[1..][i];
      assert s - {xs[0]} == rest by {
        forall y | y in s - {xs[0]} ensures y in rest {
          var i :| 0 <= i < |xs| && xs[i] == y;
          assert i >= 1 && xs[1..][i - 1] == y;
        }
      }
      ListedBag(f, xs[1..]);
      BagOfRemove(f, s, xs[0]);
      assert Listed(f, xs) == [f[xs[0]]] + Listed(f, xs[1..]);
    } else {
      assert s == {};
    }
  }
}
