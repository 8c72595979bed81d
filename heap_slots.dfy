/**
 * Level-order slot arithmetic shared by the heaps.
 *
 * Slots are numbered top to bottom and left to right from 1 at the root, so slot k has
 * children 2k and 2k+1 and parent k/2. Row r (the root's row is 0) holds slots 2^r .. 2^(r+1)-1,
 * and its column c (from 1) is the slot number minus 2^r plus 1.
 */
module HeapSlots {

  /** 2 to the power k. */
  function Pow2(k: nat): (r: nat)
    ensures r >= 1
  {
    if k == 0 then 1 else 2 * Pow2(k - 1)
  }

  lemma {:induction false} Pow2Monotone(a: nat, b: nat)
    requires a <= b
    ensures Pow2(a) <= Pow2(b)
    decreases b
  {
    if a < b {
      Pow2Monotone(a, b - 1);
    }
  }

  /** The row of slot n: the integer floor of log2 n. */
  function Log2Floor(n: nat): (r: nat)
    requires n >= 1
    ensures Pow2(r) <= n < Pow2(r + 1)
  {
    if n == 1 then 0 else 1 + Log2Floor(n / 2)
  }

  /** The row of n is the only r with 2^r <= n < 2^(r+1). */
  lemma Log2FloorUnique(n: nat, r: nat)
    requires Pow2(r) <= n < Pow2(r + 1)
    ensures Log2Floor(n) == r
  {
    var q := Log2Floor(n);
    if q < r {
      Pow2Monotone(q + 1, r);
    } else if q > r {
      Pow2Monotone(r + 1, q);
    }
  }

  /** The four numbers of insert_positions: row, column within the row, slots in the row, slots in rows 0..row. */
  datatype Positions = Positions(row: nat, column: int, rowMax: nat, capacity: int)

  /** insert_positions for a slot p >= 1, with an integer floor-log2 in place of the floating-point one. */
  function SlotPositions(p: nat): (r: Positions)
    requires p >= 1
    ensures r.rowMax == Pow2(r.row) <= p < 2 * r.rowMax
    ensures r.capacity == 2 * r.rowMax - 1
    ensures r.rowMax <= p <= r.capacity
    ensures 1 <= r.column <= r.rowMax
    ensures p == r.rowMax + r.column - 1
  {
    var row := Log2Floor(p);
    var rowMax := Pow2(row);
    var capacity := Pow2(row + 1) - 1;
    Positions(row, rowMax - (capacity - p), rowMax, capacity)
  }

  /** The slot in the given row and column. */
  function SlotAt(row: nat, column: int): (p: nat)
    requires 1 <= column <= Pow2(row)
    ensures p >= 1
  {
    Pow2(row) + column - 1
  }

  /** Row and column name each slot exactly once: the two directions of the correspondence. */
  lemma SlotPositionsInverse(row: nat, column: int, p: nat)
    requires p >= 1
    ensures 1 <= column <= Pow2(row) && p == SlotAt(row, column)
            <==> SlotPositions(p).row == row && SlotPositions(p).column == column
  {
    if 1 <= column <= Pow2(row) && p == SlotAt(row, column) {
      Log2FloorUnique(p, row);
    }
  }

  /** insert_positions of HeapBase: positions below 1 are clamped to slot 1. */
  function InsertPositions(pos: int): (r: Positions)
    ensures pos < 1 ==> r == Positions(0, 1, 1, 1)
    ensures pos >= 1 ==> r.rowMax <= pos <= r.capacity && 1 <= r.column <= r.rowMax
    ensures pos >= 1 ==> r.rowMax == Pow2(r.row) <= pos < 2 * r.rowMax && pos == r.rowMax + r.column - 1
  {
    var p: nat := if pos < 1 then 1 else pos;
    assert p == 1 ==> Log2Floor(p) == 0 && Pow2(1) == 2;
    SlotPositions(p)
  }

  /** A turn from a node to one of its children. */
  datatype Dir = Left | Right

  function Child(k: nat, d: Dir): nat
  {
    if d == Left then 2 * k else 2 * k + 1
  }

  /** The slot reached from slot k by taking the turns of p in order. */
  function Follow(k: nat, p: seq<Dir>): nat
    decreases |p|
  {
    if p == [] then k else Follow(Child(k, p[0]), p[1..])
  }

  /** The turns from the root to slot n: the binary digits of n after its leading 1 (0 = left, 1 = right). */
  function PathTo(n: nat): (p: seq<Dir>)
    requires n >= 1
    ensures |p| == Log2Floor(n)
    decreases n
  {
    if n == 1 then [] else PathTo(n / 2) + [if n % 2 == 0 then Left else Right]
  }

  lemma {:induction false} FollowAppend(k: nat, p: seq<Dir>, d: Dir)
    ensures Follow(k, p + [d]) == Child(Follow(k, p), d)
    decreases |p|
  {
    if p == [] {
      assert p + [d] == [d];
    } else {
      assert (p + [d])[1..] == p[1..] + [d];
      FollowAppend(Child(k, p[0]), p[1..], d);
    }
  }

  lemma {:induction false} FollowAtLeast(k: nat, p: seq<Dir>)
    ensures Follow(k, p) >= k
    decreases |p|
  {
    if p != [] {
      FollowAtLeast(Child(k, p[0]), p[1..]);
    }
  }

  /** Following the path to n from the root arrives at n. */
  lemma {:induction false} FollowPathTo(n: nat)
    requires n >= 1
    ensures Follow(1, PathTo(n)) == n
    decreases n
  {
    if n > 1 {
      FollowPathTo(n / 2);
      FollowAppend(1, PathTo(n / 2), if n % 2 == 0 then Left else Right);
    }
  }

  /** Every path is the path to the slot it reaches, so paths and slots correspond one to one. */
  lemma {:induction false} PathToFollow(p: seq<Dir>)
    ensures Follow(1, p) >= 1 && PathTo(Follow(1, p)) == p
    decreases |p|
  {
    FollowAtLeast(1, p);
    if p != [] {
      var q := p[..|p| - 1];
      var d := p[|p| - 1];
      assert p == q + [d];
      PathToFollow(q);
      FollowAppend(1, q, d);
    }
  }

  /** The path to the parent of n is the path to n without its deepest turn. */
  lemma ParentPath(n: nat)
    requires n >= 2
    ensures PathTo(n / 2) == PathTo(n)[..|PathTo(n)| - 1]
  {
  }

  /** The loop of node_path_navigation: the turns it follows from the root to reach slot numberNodes,
   *  or its parent in insert mode (which skips the deepest turn). */
  method NavigationTurns(numberNodes: int, insertMode: bool) returns (nav: seq<Dir>)
    ensures numberNodes <= 1 ==> nav == []
    ensures numberNodes >= 2 && !insertMode ==> nav == PathTo(numberNodes)
    ensures numberNodes >= 2 && insertMode ==> nav == PathTo(numberNodes / 2)
  {
    nav := [];
    if numberNodes <= 1 {
      return;
    }
    var pos := InsertPositions(numberNodes);
    var tgtRow, tgtCol, tgtRowMax := pos.row, pos.column, pos.rowMax;
    var row := 0;
    var skipping := insertMode;
    ghost var q: nat := numberNodes;
    ghost var target: nat := if insertMode then numberNodes / 2 else numberNodes;
    Log2FloorUnique(numberNodes, tgtRow);
    assert PathTo(q) + nav == PathTo(q);
    while row < tgtRow
      invariant 0 <= row <= tgtRow && target >= 1
      invariant q >= 1 && Log2Floor(q) == tgtRow - row
      invariant tgtRowMax == Pow2(Log2Floor(q)) && tgtCol == q - tgtRowMax + 1
      invariant skipping == (insertMode && row == 0)
      invariant skipping ==> nav == [] && target == q / 2
      invariant !skipping ==> PathTo(q) + nav == PathTo(target)
    {
      var direction := if tgtCol % 2 == 0 then Right else Left;
      NavigationRound(q, tgtRowMax, tgtCol, nav, target, skipping);
      if !skipping {
        nav := [direction] + nav;
      }
      skipping := false;
      q := q / 2;
      tgtRowMax := tgtRowMax / 2;
      tgtCol := (tgtCol + 1) / 2;
      row := row + 1;
    }
  }

  /** One round of the navigation loop, for the turn into slot q: the column's parity gives that turn,
   *  and halving the row size and ceiling-halving the column give the row and column of q's parent. */
  lemma NavigationRound(q: nat, rowMax: nat, column: int, nav: seq<Dir>, target: nat, skipping: bool)
    requires q >= 2 && rowMax == Pow2(Log2Floor(q)) && column == q - rowMax + 1 && target >= 1
    requires skipping ==> nav == [] && target == q / 2
    requires !skipping ==> PathTo(q) + nav == PathTo(target)
    ensures Log2Floor(q / 2) == Log2Floor(q) - 1 && rowMax / 2 == Pow2(Log2Floor(q / 2))
    ensures (column + 1) / 2 == q / 2 - rowMax / 2 + 1
    ensures PathTo(q / 2) + (if skipping then nav else [if column % 2 == 0 then Right else Left] + nav) == PathTo(target)
  {
    NavigationStep(q, rowMax, column);
    var direction := if column % 2 == 0 then Right else Left;
    LastTurn(q, direction);
    if !skipping {
      AppendAssoc(PathTo(q / 2), [direction], nav);
    }
  }

  /** The path to q is the path to its parent and one more turn, given by q's parity. */
  lemma LastTurn(q: nat, d: Dir)
    requires q >= 2 && (d == Right <==> q % 2 == 1)
    ensures PathTo(q) == PathTo(q / 2) + [d]
  {
  }

  lemma AppendAssoc<T>(a: seq<T>, b: seq<T>, c: seq<T>)
    ensures a + (b + c) == a + b + c
  {
  }

  /** One round of the navigation loop: the column's parity gives the last turn into q, and halving
   *  the row size and ceiling-halving the column give the row and column of q's parent. */
  lemma NavigationStep(q: nat, rowMax: nat, column: int)
    requires q >= 2 && rowMax == Pow2(Log2Floor(q)) && column == q - rowMax + 1
    ensures Log2Floor(q / 2) == Log2Floor(q) - 1 && rowMax / 2 == Pow2(Log2Floor(q / 2))
    ensures (column % 2 == 0) == (q % 2 == 1)
    ensures (column + 1) / 2 == q / 2 - rowMax / 2 + 1
  {
    var k := Log2Floor(q / 2);
    assert Log2Floor(q) == 1 + k;
    ColumnHalving(q / 2, q % 2, Pow2(k), column);
  }

  lemma ColumnHalving(half: int, bit: int, h: int, column: int)
    requires 0 <= bit < 2 && column == 2 * half + bit - 2 * h + 1
    ensures (column % 2 == 0) == (bit == 1)
    ensures (column + 1) / 2 == half - h + 1
  {
  }

  /** x times 2^c: descending c rows along left children from slot x. */
  function Scale(x: nat, c: nat): nat
  {
    if c == 0 then x else 2 * Scale(x, c - 1)
  }

  /** c rows down along left children from slot x: never left of x, and exactly c rows lower. */
  lemma {:induction false} ScaleRow(x: nat, c: nat)
    requires x >= 1
    ensures Scale(x, c) >= x && Log2Floor(Scale(x, c)) == Log2Floor(x) + c
    decreases c
  {
    if c > 0 {
      ScaleRow(x, c - 1);
      assert Scale(x, c) / 2 == Scale(x, c - 1);
    }
  }

  /** Stepping to the left child and then c rows down is c + 1 rows down. */
  lemma {:induction false} ScaleShift(x: nat, c: nat)
    ensures Scale(2 * x, c) == Scale(x, c + 1)
    decreases c
  {
    if c > 0 {
      ScaleShift(x, c - 1);
    }
  }

  /** A later slot is in the same row or a lower one. */
  lemma Log2FloorMonotone(a: nat, b: nat)
    requires 1 <= a <= b
    ensures Log2Floor(a) <= Log2Floor(b)
  {
    if Log2Floor(a) > Log2Floor(b) {
      Pow2Monotone(Log2Floor(b) + 1, Log2Floor(a));
    }
  }

  /** Where row_wise_insert's climb from slot q stops: it climbs while on a right child. */
  function ClimbTop(q: nat): (t: nat)
    requires q >= 1
    ensures 1 <= t <= q && (t == 1 || t % 2 == 0)
  {
    if q >= 3 && q % 2 == 1 then ClimbTop(q / 2) else q
  }

  /** How many rows that climb goes up. */
  function ClimbCount(q: nat): nat
    requires q >= 1
  {
    if q >= 3 && q % 2 == 1 then ClimbCount(q / 2) + 1 else 0
  }

  /** The row step of row_wise_insert: after the climb, crossing to the right sibling and descending
   *  left as many rows as were climbed reaches exactly q + 1; and the climb stops below the root
   *  exactly when q + 1 is in the same row as q, that is, when q is not the last slot of its row. */
  lemma RowStep(q: nat)
    requires q >= 1
    ensures Scale(ClimbTop(q) + 1, ClimbCount(q)) == q + 1
    ensures ClimbTop(q) >= 2 <==> Log2Floor(q + 1) == Log2Floor(q)
  {
    RowStepScale(q);
    RowStepRow(q);
  }

  lemma {:induction false} RowStepScale(q: nat)
    requires q >= 1
    ensures Scale(ClimbTop(q) + 1, ClimbCount(q)) == q + 1
    decreases q
  {
    if q >= 3 && q % 2 == 1 {
      RowStepScale(q / 2);
      assert (q + 1) / 2 == q / 2 + 1;
    }
  }

  lemma {:induction false} RowStepRow(q: nat)
    requires q >= 1
    ensures ClimbTop(q) >= 2 <==> Log2Floor(q + 1) == Log2Floor(q)
    decreases q
  {
    if q >= 3 && q % 2 == 1 {
      RowStepRow(q / 2);
      assert (q + 1) / 2 == q / 2 + 1;
    } else if q >= 2 {
      assert (q + 1) / 2 == q / 2;
    }
  }
}
