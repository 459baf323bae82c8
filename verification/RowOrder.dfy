/** Reading order of the detected boxes (test_craft.py, lines 195-240).

    The loop repeatedly seeds a new row with the unplaced box whose top edge is highest
    (smallest y), admits every still unplaced box whose vertical extent overlaps the seed's
    enough, and inserts each admitted box into `pointsSorted` so that the current row stays
    ordered by left edge.  `order[i]` is the row id of box `i` (0 while unplaced) and
    `orderSorted[k]` the row id of `pointsSorted[k]`.

    Two ghost outputs make the result checkable: `src[k]` is the index in `points` of
    `pointsSorted[k]`, and `seeds[r]` is the index of the box that seeded row `r + 1`. */
module RowOrder {
  import opened Geometry

  function RMin(a: real, b: real): real { if a <= b then a else b }
  function RMax(a: real, b: real): real { if a >= b then a else b }

  // ---------------------------------------------------------------------------------------
  // Admission to a row (lines 217-226)

  /** The candidate's vertical extent touches the row's span [top, bottom] (line 224). */
  predicate Touches(top: real, bottom: real, e: Extent) {
    e.Bottom() >= top && e.Top() <= bottom
  }

  /** Length of the overlap of the two vertical extents (numerator on line 225). */
  function Intersection(top: real, bottom: real, e: Extent): real {
    RMin(e.Bottom(), bottom) - RMax(e.Top(), top)
  }

  /** The smaller of the two heights (denominator on line 225). */
  function ShorterHeight(top: real, bottom: real, e: Extent): real {
    RMin(bottom - top, e.Bottom() - e.Top())
  }

  /** Lines 224-226: the candidate joins the row spanning [top, bottom] when the extents
      touch and the overlap divided by the shorter height is at least 0.30.  A zero
      denominator makes the float ratio nan, and nan >= 0.30 is false. */
  predicate Admits(top: real, bottom: real, e: Extent) {
    && Touches(top, bottom, e)
    && ShorterHeight(top, bottom, e) != 0.0
    && Intersection(top, bottom, e) / ShorterHeight(top, bottom, e) >= 0.3
  }

  /** The ratio test without a division: cross-multiplied by the shorter height, with the
      comparison flipped when that height is negative. */
  lemma AdmitsCrossMultiplied(top: real, bottom: real, e: Extent)
    ensures Admits(top, bottom, e) <==>
      && Touches(top, bottom, e)
      && var m, inter := ShorterHeight(top, bottom, e), Intersection(top, bottom, e);
         (m > 0.0 && 10.0 * inter >= 3.0 * m) || (m < 0.0 && 10.0 * inter <= 3.0 * m)
  {
    var m, inter := ShorterHeight(top, bottom, e), Intersection(top, bottom, e);
    if m != 0.0 {
      var d := inter / m - 0.3;
      assert d * m == inter - 0.3 * m;
      SignOfProduct(d, m);
    }
  }

  /** Multiplying by a non-zero `m` keeps the sign of `d` when `m` is positive and flips it
      when `m` is negative. */
  lemma SignOfProduct(d: real, m: real)
    requires m != 0.0
    ensures m > 0.0 ==> (d >= 0.0 <==> d * m >= 0.0)
    ensures m < 0.0 ==> (d >= 0.0 <==> d * m <= 0.0)
  {
    if d < 0.0 && m > 0.0 {
      assert (-d) * m > 0.0;
    } else if d < 0.0 && m < 0.0 {
      assert (-d) * (-m) > 0.0;
    }
  }

  /** When the extents touch and the shorter height is zero, the overlap is zero as well,
      so the script computes 0/0: such a box is never admitted. */
  lemma ZeroHeightNeverAdmitted(top: real, bottom: real, e: Extent)
    requires Touches(top, bottom, e) && ShorterHeight(top, bottom, e) == 0.0
    ensures Intersection(top, bottom, e) == 0.0
    ensures !Admits(top, bottom, e)
  {
  }

  // ---------------------------------------------------------------------------------------
  // Seed selection (lines 200-208)

  /** Every box's top edge lies within the image height (the sentinel of line 202). */
  predicate TopsWithin(points: seq<Extent>, height: nat) {
    forall i :: 0 <= i < |points| ==> points[i].Top() <= height as real
  }

  /** `s` is what the scan of lines 204-208 picks: an unplaced box with the smallest top;
      among equal tops the last one, because the comparison is `<=`. */
  predicate IsSeed(points: seq<Extent>, order: seq<int>, s: int)
    requires |order| == |points|
  {
    && 0 <= s < |points|
    && order[s] == 0
    && (forall j :: 0 <= j < |points| && order[j] == 0 ==> points[s].Top() <= points[j].Top())
    && (forall j :: s < j < |points| && order[j] == 0 ==> points[s].Top() < points[j].Top())
  }

  /** Lines 202-208.  The index stays -1 exactly when no unplaced box has its top within
      `height`, and then the returned top is the height itself. */
  method SelectSeed(points: seq<Extent>, order: seq<int>, height: nat) returns (minY: real, minYIndex: int)
    requires |order| == |points|
    ensures minYIndex == -1 || IsSeed(points, order, minYIndex)
    ensures minYIndex == -1 <==>
      forall j :: 0 <= j < |points| && order[j] == 0 ==> points[j].Top() > height as real
    ensures minYIndex == -1 ==> minY == height as real
    ensures minYIndex != -1 ==> minY == points[minYIndex].Top() <= height as real
  {
    minY, minYIndex := height as real, -1;
    for i := 0 to |points|
      invariant -1 <= minYIndex < i
      invariant minYIndex == -1 ==> minY == height as real
      invariant minYIndex == -1 ==>
        forall j :: 0 <= j < i && order[j] == 0 ==> points[j].Top() > height as real
      invariant minYIndex != -1 ==>
        order[minYIndex] == 0 && minY == points[minYIndex].Top() <= height as real
      invariant minYIndex != -1 ==> forall j :: 0 <= j < i && order[j] == 0 ==> minY <= points[j].Top()
      invariant minYIndex != -1 ==> forall j :: minYIndex < j < i && order[j] == 0 ==> minY < points[j].Top()
    {
      if order[i] == 0 {
        if points[i].Top() <= minY {
          minY := points[i].Top();
          minYIndex := i;
        }
      }
    }
  }

  // ---------------------------------------------------------------------------------------
  // Insertion into the current row (lines 229-240)

  /** Python list insertion: `x` placed at position `j`, everything from `j` on shifted right. */
  function Insert<T>(s: seq<T>, j: nat, x: T): (r: seq<T>)
    requires j <= |s|
    ensures |r| == |s| + 1 && r[j] == x
    ensures forall k :: 0 <= k < j ==> r[k] == s[k]
    ensures forall k :: j < k < |r| ==> r[k] == s[k - 1]
    ensures multiset(r) == multiset(s) + multiset{x}
  {
    assert s == s[..j] + s[j..];
    s[..j] + [x] + s[j..]
  }

  /** Where the scan of lines 230-240 puts a box with left edge `x` when the current row
      starts at `start`: before the first entry whose left edge is strictly larger, or at
      the end when there is none. */
  function InsertionPoint(pointsSorted: seq<Extent>, start: nat, x: real): (j: nat)
    requires start <= |pointsSorted|
    ensures start <= j <= |pointsSorted|
    ensures forall k :: start <= k < j ==> pointsSorted[k].Left() <= x
    ensures j < |pointsSorted| ==> x < pointsSorted[j].Left()
    decreases |pointsSorted| - start
  {
    if start == |pointsSorted| then start
    else if x < pointsSorted[start].Left() then start
    else InsertionPoint(pointsSorted, start + 1, x)
  }

  /** Lines 229-240 for one admitted box: both lists receive the entry at the same place. */
  method InsertInRow(pointsSorted: seq<Extent>, orderSorted: seq<int>, start: nat, e: Extent, row: int)
    returns (pointsSorted': seq<Extent>, orderSorted': seq<int>)
    requires |orderSorted| == |pointsSorted| && start <= |pointsSorted|
    ensures var j := InsertionPoint(pointsSorted, start, e.Left());
      pointsSorted' == Insert(pointsSorted, j, e) && orderSorted' == Insert(orderSorted, j, row)
  {
    var j := start;
    while j < |pointsSorted| && pointsSorted[j].Left() <= e.Left()
      invariant start <= j <= |pointsSorted|
      invariant InsertionPoint(pointsSorted, j, e.Left()) == InsertionPoint(pointsSorted, start, e.Left())
    {
      j := j + 1;
    }
    pointsSorted' := Insert(pointsSorted, j, e);
    orderSorted' := Insert(orderSorted, j, row);
  }

  /** Box `a` entered its row no later than box `b`: the seed first, then by index, which
      is the order of the scan on line 219. */
  predicate AdmittedNoLater(a: int, b: int, seed: int) {
    a == seed || (b != seed && a < b)
  }

  /** Entries `k` and `l` of a row stand in the order `SegmentOrdered` asks for. */
  predicate PairOrdered(pointsSorted: seq<Extent>, src: seq<int>, k: nat, l: nat, seed: int)
    requires k < |pointsSorted| && l < |pointsSorted| && |src| == |pointsSorted|
  {
    && pointsSorted[k].Left() <= pointsSorted[l].Left()
    && (pointsSorted[k].Left() == pointsSorted[l].Left() ==> AdmittedNoLater(src[k], src[l], seed))
  }

  /** The current row, `pointsSorted[start..]`, is ordered by left edge, with equal left
      edges in admission order. */
  ghost predicate SegmentOrdered(pointsSorted: seq<Extent>, src: seq<int>, start: nat, seed: int)
    requires |src| == |pointsSorted|
  {
    forall k, l :: start <= k < l < |pointsSorted| ==> PairOrdered(pointsSorted, src, k, l, seed)
  }

  predicate Injective(s: seq<int>) {
    forall k, l :: 0 <= k < l < |s| ==> s[k] != s[l]
  }

  /** One pair of an ordered row. */
  lemma SegmentPair(pointsSorted: seq<Extent>, src: seq<int>, start: nat, seed: int, k: nat, l: nat)
    requires |src| == |pointsSorted| && start <= k < l < |pointsSorted|
    requires SegmentOrdered(pointsSorted, src, start, seed)
    ensures PairOrdered(pointsSorted, src, k, l, seed)
  {
  }

  /** One pair of entries of the row after the insertion: the newcomer stands right of
      every entry at or left of it, all admitted earlier, and left of every entry further
      right; other entries keep their relative order. */
  lemma InsertPairOrdered(pointsSorted: seq<Extent>, src: seq<int>, start: nat, seed: int, e: Extent, i: int,
                          k: nat, l: nat)
    requires |src| == |pointsSorted| && start <= k < l <= |pointsSorted|
    requires SegmentOrdered(pointsSorted, src, start, seed)
    requires forall k :: start <= k < |src| ==> src[k] == seed || src[k] < i
    requires i != seed
    ensures var j := InsertionPoint(pointsSorted, start, e.Left());
      PairOrdered(Insert(pointsSorted, j, e), Insert(src, j, i), k, l, seed)
  {
    var j := InsertionPoint(pointsSorted, start, e.Left());
    var ps, ss := Insert(pointsSorted, j, e), Insert(src, j, i);
    if l == j {
      assert ps[k] == pointsSorted[k] && ss[k] == src[k];
      assert pointsSorted[k].Left() <= e.Left();
      assert src[k] == seed || src[k] < i;
    } else if k == j {
      assert ps[l] == pointsSorted[l - 1];
      assert e.Left() < pointsSorted[j].Left();
      if j < l - 1 {
        SegmentPair(pointsSorted, src, start, seed, j, l - 1);
      }
    } else {
      var ok, ol := if k < j then k else k - 1, if l < j then l else l - 1;
      assert ps[k] == pointsSorted[ok] && ss[k] == src[ok];
      assert ps[l] == pointsSorted[ol] && ss[l] == src[ol];
      SegmentPair(pointsSorted, src, start, seed, ok, ol);
    }
  }

  /** Inserting a box admitted after every box already in the row keeps the row ordered. */
  lemma InsertKeepsSegmentOrdered(pointsSorted: seq<Extent>, src: seq<int>, start: nat, seed: int, e: Extent, i: int)
    requires |src| == |pointsSorted| && start <= |pointsSorted|
    requires SegmentOrdered(pointsSorted, src, start, seed)
    requires forall k :: start <= k < |src| ==> src[k] == seed || src[k] < i
    requires i != seed
    ensures var j := InsertionPoint(pointsSorted, start, e.Left());
      SegmentOrdered(Insert(pointsSorted, j, e), Insert(src, j, i), start, seed)
  {
    var j := InsertionPoint(pointsSorted, start, e.Left());
    var ps, ss := Insert(pointsSorted, j, e), Insert(src, j, i);
    forall k, l | start <= k < l < |ps| ensures PairOrdered(ps, ss, k, l, seed) {
      InsertPairOrdered(pointsSorted, src, start, seed, e, i, k, l);
    }
  }

  lemma InsertKeepsInjective(s: seq<int>, j: nat, x: int)
    requires j <= |s| && Injective(s) && x !in s
    ensures Injective(Insert(s, j, x))
  {
    var r := Insert(s, j, x);
    forall k, l | 0 <= k < l < |r| ensures r[k] != r[l] {
      if k != j && l != j {
        assert r[k] == s[if k < j then k else k - 1];
        assert r[l] == s[if l < j then l else l - 1];
      }
    }
  }

  /** Inserting at or after `start` leaves the part before `start` alone. */
  lemma InsertKeepsPrefix<T>(s: seq<T>, j: nat, x: T, start: nat)
    requires start <= j <= |s|
    ensures Insert(s, j, x)[..start] == s[..start]
  {
  }

  /** Inserting at or after `start` adds `x` to what lies from `start` on. */
  lemma {:induction false} InsertMembers<T>(s: seq<T>, j: nat, x: T, start: nat)
    requires start <= j <= |s|
    ensures forall y :: y in Insert(s, j, x)[start..] <==> y in s[start..] || y == x
  {
    assert Insert(s, j, x)[start..] == s[start..j] + [x] + s[j..];
    assert s[start..] == s[start..j] + s[j..];
  }

  /** Inserting box `i` into the row and its index into `src` at the same place keeps every
      entry tied to its box. */
  lemma InsertKeepsEntries(points: seq<Extent>, ps: seq<Extent>, src: seq<int>, j: nat, i: nat)
    requires |ps| == |src| && j <= |src| && i < |points|
    requires forall k :: 0 <= k < |src| ==> 0 <= src[k] < |points| && ps[k] == points[src[k]]
    ensures var ps', src' := Insert(ps, j, points[i]), Insert(src, j, i);
      forall k :: 0 <= k < |src'| ==> 0 <= src'[k] < |points| && ps'[k] == points[src'[k]]
  {
    var ps', src' := Insert(ps, j, points[i]), Insert(src, j, i);
    forall k | 0 <= k < |src'| ensures 0 <= src'[k] < |points| && ps'[k] == points[src'[k]] {
      if k != j {
        var o := if k < j then k else k - 1;
        assert ps'[k] == ps[o] && src'[k] == src[o];
      }
    }
  }

  /** Inserting the row id into the current row keeps every entry there on that row. */
  lemma InsertKeepsRowIds(os: seq<int>, j: nat, row: int, start: nat)
    requires start <= j <= |os|
    requires forall k :: start <= k < |os| ==> os[k] == row
    ensures forall k :: start <= k < |os| + 1 ==> Insert(os, j, row)[k] == row
  {
  }

  /** Inserting box `i` after the boxes admitted before it keeps the row's entries admitted
      no later than `i`. */
  lemma InsertKeepsAdmittedBefore(src: seq<int>, j: nat, i: int, start: nat, seed: int)
    requires start <= j <= |src|
    requires forall k :: start <= k < |src| ==> src[k] == seed || src[k] < i
    ensures forall k :: start <= k < |src| + 1 ==> Insert(src, j, i)[k] == seed || Insert(src, j, i)[k] < i + 1
  {
  }

  /** The state of the current row while the scan of lines 219-240 has looked at the boxes
      below `bound`: every entry is tied to a placed box, the row (from `start` on) holds
      row id `row`, only the seed and boxes below `bound`, and is ordered. */
  ghost predicate RowInProgress(points: seq<Extent>, order: seq<int>, row: int, start: nat, seed: int, bound: int,
                                pointsSorted: seq<Extent>, orderSorted: seq<int>, src: seq<int>)
  {
    && |order| == |points|
    && |pointsSorted| == |orderSorted| == |src| && start <= |src|
    && (forall k :: 0 <= k < |src| ==> 0 <= src[k] < |points| && pointsSorted[k] == points[src[k]])
    && (forall k :: start <= k < |orderSorted| ==> orderSorted[k] == row)
    && (forall k :: start <= k < |src| ==> src[k] == seed || src[k] < bound)
    && (forall x :: x in src ==> 0 <= x < |points| && order[x] != 0)
    && (forall x :: x in src[start..] ==> order[x] == row)
    && SegmentOrdered(pointsSorted, src, start, seed)
  }

  /** The lists after some admissions: longer, unchanged before the current row, still
      listing every box listed before, and without repeats if there were none. */
  ghost predicate Extended(pointsSorted: seq<Extent>, orderSorted: seq<int>, src: seq<int>, start: nat,
                           pointsSorted': seq<Extent>, orderSorted': seq<int>, src': seq<int>)
    requires start <= |pointsSorted| && start <= |orderSorted| && start <= |src|
  {
    && |pointsSorted'| == |orderSorted'| == |src'| >= |src|
    && pointsSorted'[..start] == pointsSorted[..start]
    && orderSorted'[..start] == orderSorted[..start]
    && src'[..start] == src[..start]
    && (forall x :: x in src ==> x in src')
    && (Injective(src) ==> Injective(src'))
  }

  /** Two rounds of admissions make one. */
  lemma ExtendedTrans(ps1: seq<Extent>, os1: seq<int>, src1: seq<int>, start: nat,
                      ps2: seq<Extent>, os2: seq<int>, src2: seq<int>,
                      ps3: seq<Extent>, os3: seq<int>, src3: seq<int>)
    requires start <= |ps1| && start <= |os1| && start <= |src1|
    requires Extended(ps1, os1, src1, start, ps2, os2, src2)
    requires Extended(ps2, os2, src2, start, ps3, os3, src3)
    ensures Extended(ps1, os1, src1, start, ps3, os3, src3)
  {
  }

  /** Lines 227-240 for one admitted box `i`: it takes the row id and is inserted into the
      current row at its place. */
  method AdmitBox(points: seq<Extent>, order: seq<int>, row: int, pointsSorted: seq<Extent>,
                  orderSorted: seq<int>, start: nat, ghost src: seq<int>, ghost seed: int, i: nat)
    returns (order': seq<int>, pointsSorted': seq<Extent>, orderSorted': seq<int>, ghost src': seq<int>)
    requires RowInProgress(points, order, row, start, seed, i, pointsSorted, orderSorted, src)
    requires i < |points| && order[i] == 0 && row != 0 && i != seed
    ensures order' == order[i := row]
    ensures RowInProgress(points, order', row, start, seed, i + 1, pointsSorted', orderSorted', src')
    ensures |src'| == |src| + 1
    ensures Extended(pointsSorted, orderSorted, src, start, pointsSorted', orderSorted', src')
    ensures forall x :: x in src' <==> x in src || x == i
  {
    order' := order[i := row];
    ghost var at := InsertionPoint(pointsSorted, start, points[i].Left());
    pointsSorted', orderSorted' := InsertInRow(pointsSorted, orderSorted, start, points[i], row);
    src' := Insert(src, at, i);
    InsertKeepsPrefix(pointsSorted, at, points[i], start);
    InsertKeepsPrefix(orderSorted, at, row, start);
    InsertKeepsPrefix(src, at, i, start);
    InsertKeepsRowIds(orderSorted, at, row, start);
    InsertKeepsEntries(points, pointsSorted, src, at, i);
    InsertKeepsAdmittedBefore(src, at, i, start, seed);
    InsertMembers(src, at, i, 0);
    InsertMembers(src, at, i, start);
    InsertKeepsSegmentOrdered(pointsSorted, src, start, seed, points[i], i);
    if Injective(src) {
      InsertKeepsInjective(src, at, i);
    }
  }

  /** Passing over a box that is not admitted keeps the row as it is. */
  lemma RowInProgressSkip(points: seq<Extent>, order: seq<int>, row: int, start: nat, seed: int, i: int,
                          pointsSorted: seq<Extent>, orderSorted: seq<int>, src: seq<int>)
    requires RowInProgress(points, order, row, start, seed, i, pointsSorted, orderSorted, src)
    ensures RowInProgress(points, order, row, start, seed, i + 1, pointsSorted, orderSorted, src)
  {
  }

  // ---------------------------------------------------------------------------------------
  // Growing one row (lines 216-240)

  /** After the scan of lines 219-240 has looked at the boxes below `i`, exactly the
      unplaced ones among them that the row admits carry the row id; the rest of `order`
      is as it was. */
  ghost predicate ScannedTo(points: seq<Extent>, order: seq<int>, top: real, bottom: real, row: int, i: int,
                            order': seq<int>)
    requires |order| == |points|
  {
    && |order'| == |points|
    && (forall j :: 0 <= j < |points| && j < i ==>
          order'[j] == if order[j] == 0 && Admits(top, bottom, points[j]) then row else order[j])
    && (forall j :: 0 <= j < |points| && i <= j ==> order'[j] == order[j])
  }

  /** Passing over box `i`, placed already or not admitted, advances the scan. */
  lemma ScanSkip(points: seq<Extent>, order: seq<int>, top: real, bottom: real, row: int, i: int,
                 order': seq<int>, src': seq<int>)
    requires |order| == |points| && 0 <= i < |points|
    requires ScannedTo(points, order, top, bottom, row, i, order')
    requires order'[i] != 0 || !Admits(top, bottom, points[i])
    requires forall j :: 0 <= j < i && order[j] == 0 && order'[j] != 0 ==> j in src'
    ensures ScannedTo(points, order, top, bottom, row, i + 1, order')
    ensures forall j :: 0 <= j < i + 1 && order[j] == 0 && order'[j] != 0 ==> j in src'
  {
  }

  /** Giving the row id to box `i`, unplaced and admitted, advances the scan. */
  lemma ScanStep(points: seq<Extent>, order: seq<int>, top: real, bottom: real, row: int, i: int,
                 order': seq<int>)
    requires |order| == |points| && 0 <= i < |points|
    requires ScannedTo(points, order, top, bottom, row, i, order')
    requires order'[i] == 0 && Admits(top, bottom, points[i])
    ensures ScannedTo(points, order, top, bottom, row, i + 1, order'[i := row])
  {
  }

  /** The inner loop of lines 219-240: every unplaced box the seed admits gets the row id
      and is inserted into the row; nothing before the row changes. */
  method GrowRow(points: seq<Extent>, order: seq<int>, minY: real, maxY: real, rowsOrdered: int,
                 pointsSorted: seq<Extent>, orderSorted: seq<int>, orderedPointsIndex: nat, numOrdered: nat,
                 ghost src: seq<int>, ghost seed: int)
    returns (order': seq<int>, pointsSorted': seq<Extent>, orderSorted': seq<int>, numOrdered': nat,
             ghost src': seq<int>)
    requires |order| == |points| && rowsOrdered >= 1
    requires |pointsSorted| == |orderSorted| == |src| == orderedPointsIndex + 1
    requires 0 <= seed < |points| && order[seed] == rowsOrdered
    requires src[orderedPointsIndex] == seed && orderSorted[orderedPointsIndex] == rowsOrdered
    requires forall k :: 0 <= k < |src| ==> 0 <= src[k] < |points| && pointsSorted[k] == points[src[k]]
    requires forall x :: x in src ==> order[x] != 0
    ensures |order'| == |points|
    ensures forall j :: 0 <= j < |points| ==>
      order'[j] == if order[j] == 0 && Admits(minY, maxY, points[j]) then rowsOrdered else order[j]
    ensures |pointsSorted'| == |orderSorted'| == |src'| >= |src|
    ensures numOrdered' == numOrdered + |pointsSorted'| - |pointsSorted|
    ensures pointsSorted'[..orderedPointsIndex] == pointsSorted[..orderedPointsIndex]
    ensures orderSorted'[..orderedPointsIndex] == orderSorted[..orderedPointsIndex]
    ensures src'[..orderedPointsIndex] == src[..orderedPointsIndex]
    ensures RowInProgress(points, order', rowsOrdered, orderedPointsIndex, seed, |points|,
                          pointsSorted', orderSorted', src')
    ensures forall j :: 0 <= j < |points| && order[j] == 0 && order'[j] != 0 ==> j in src'
    ensures forall j :: j in src ==> j in src'
    ensures Injective(src) ==> Injective(src')
  {
    var start := orderedPointsIndex;
    order', pointsSorted', orderSorted', numOrdered', src' := order, pointsSorted, orderSorted, numOrdered, src;
    assert src[start..] == [seed];
    var rangeY := maxY - minY;
    for i := 0 to |points|
      invariant |order'| == |points|
      invariant ScannedTo(points, order, minY, maxY, rowsOrdered, i, order')
      invariant Extended(pointsSorted, orderSorted, src, start, pointsSorted', orderSorted', src')
      invariant numOrdered' == numOrdered + |pointsSorted'| - |pointsSorted|
      invariant RowInProgress(points, order', rowsOrdered, start, seed, i, pointsSorted', orderSorted', src')
      invariant forall j :: 0 <= j < i && order[j] == 0 && order'[j] != 0 ==> j in src'
    {
      if order'[i] == 0 {
        var minYi := points[i].Top();
        var maxYi := points[i].Bottom();
        var rangeYi := maxYi - minYi;
        if maxYi >= minY && minYi <= maxY {
          // A zero shorter height gives 0/0 = nan in the script, which is never >= 0.30.
          var shorter := RMin(rangeY, rangeYi);
          if shorter != 0.0 && (RMin(maxYi, maxY) - RMax(minYi, minY)) / shorter >= 0.3 {
            ScanStep(points, order, minY, maxY, rowsOrdered, i, order');
            ghost var ps, os, ss := pointsSorted', orderSorted', src';
            order', pointsSorted', orderSorted', src' :=
              AdmitBox(points, order', rowsOrdered, pointsSorted', orderSorted', start, src', seed, i);
            ExtendedTrans(pointsSorted, orderSorted, src, start, ps, os, ss, pointsSorted', orderSorted', src');
            numOrdered' := numOrdered' + 1;
          } else {
            ScanSkip(points, order, minY, maxY, rowsOrdered, i, order', src');
            RowInProgressSkip(points, order', rowsOrdered, start, seed, i, pointsSorted', orderSorted', src');
          }
        } else {
          ScanSkip(points, order, minY, maxY, rowsOrdered, i, order', src');
          RowInProgressSkip(points, order', rowsOrdered, start, seed, i, pointsSorted', orderSorted', src');
        }
      } else {
        ScanSkip(points, order, minY, maxY, rowsOrdered, i, order', src');
        RowInProgressSkip(points, order', rowsOrdered, start, seed, i, pointsSorted', orderSorted', src');
      }
    }
  }

  // ---------------------------------------------------------------------------------------
  // The ordering loop (lines 195-240)

  /** Row ids as the loop emits them: the first is 1, they never fall, and each step rises
      by at most one. */
  predicate RowIdsWellFormed(rowIds: seq<int>) {
    && (|rowIds| > 0 ==> rowIds[0] == 1)
    && (forall k, l :: 0 <= k < l < |rowIds| ==> rowIds[k] <= rowIds[l])
    && (forall k :: 0 < k < |rowIds| ==> rowIds[k] <= rowIds[k - 1] + 1)
  }

  /** Within each row the entries run left to right; equal left edges keep admission order
      (the row's seed first, then ascending index). */
  ghost predicate RowsLeftToRight(pointsSorted: seq<Extent>, orderSorted: seq<int>, src: seq<int>, seeds: seq<int>)
    requires |pointsSorted| == |orderSorted| == |src|
    requires forall k :: 0 <= k < |orderSorted| ==> 1 <= orderSorted[k] <= |seeds|
  {
    forall k, l :: 0 <= k < l < |pointsSorted| && orderSorted[k] == orderSorted[l] ==>
      && pointsSorted[k].Left() <= pointsSorted[l].Left()
      && (pointsSorted[k].Left() == pointsSorted[l].Left() ==>
            AdmittedNoLater(src[k], src[l], seeds[orderSorted[k] - 1]))
  }

  /** `src` lists every index below `n` exactly once. */
  ghost predicate IsIndexPermutation(src: seq<int>, n: nat) {
    && |src| == n
    && (forall k :: 0 <= k < |src| ==> 0 <= src[k] < n)
    && Injective(src)
    && (forall i :: 0 <= i < n ==> i in src)
  }

  /** Box `o`'s row id says it was still unplaced when row `row` was seeded. */
  predicate PendingAt(o: int, row: int) {
    o == 0 || o >= row
  }

  /** Box `s` seeded row `row`: it has that row id, and among the boxes still unplaced at
      that moment it has the smallest top, and the largest index among equal tops. */
  ghost predicate SeedOfRow(points: seq<Extent>, order: seq<int>, row: int, s: int)
    requires |order| == |points|
  {
    && 0 <= s < |points|
    && order[s] == row
    && (forall j :: 0 <= j < |points| && PendingAt(order[j], row) ==> points[s].Top() <= points[j].Top())
    && (forall j :: s < j < |points| && PendingAt(order[j], row) ==> points[s].Top() < points[j].Top())
  }

  /** Every box other than the seed that was unplaced when row `row` was seeded belongs to
      that row exactly when the seed admits it. */
  ghost predicate RowMembers(points: seq<Extent>, order: seq<int>, row: int, s: int)
    requires |order| == |points| && 0 <= s < |points|
  {
    forall i :: 0 <= i < |points| && i != s && PendingAt(order[i], row) ==>
      (order[i] == row <==> Admits(points[s].Top(), points[s].Bottom(), points[i]))
  }

  /** Row `r + 1` was seeded by `seeds[r]` and holds exactly the boxes that seed admitted. */
  ghost predicate RowsExplained(points: seq<Extent>, order: seq<int>, seeds: seq<int>)
    requires |order| == |points|
  {
    forall r :: 0 <= r < |seeds| ==>
      SeedOfRow(points, order, r + 1, seeds[r]) && RowMembers(points, order, r + 1, seeds[r])
  }

  /** Removing the entry `n - 1` from an injective list of indices below `n` leaves an
      injective list of indices below `n - 1` with the same other members. */
  lemma RemoveLargest(src: seq<int>, j: nat, n: nat)
    requires j < |src| && src[j] == n - 1
    requires forall k :: 0 <= k < |src| ==> 0 <= src[k] < n
    requires Injective(src)
    ensures var rest := src[..j] + src[j + 1..];
      && |rest| == |src| - 1
      && (forall k :: 0 <= k < |rest| ==> 0 <= rest[k] < n - 1)
      && Injective(rest)
      && (forall i :: 0 <= i < n - 1 ==> (i in src <==> i in rest))
  {
    var rest := src[..j] + src[j + 1..];
    assert forall k :: 0 <= k < |rest| ==> rest[k] == src[if k < j then k else k + 1];
    forall i | 0 <= i < n - 1 && i in src ensures i in rest {
      var m :| 0 <= m < |src| && src[m] == i;
      assert rest[if m < j then m else m - 1] == i;
    }
  }

  /** An injective list of indices below `n` has at most `n` entries, and has exactly `n`
      when it mentions every index. */
  lemma {:induction false} PigeonHole(src: seq<int>, n: nat)
    requires forall k :: 0 <= k < |src| ==> 0 <= src[k] < n
    requires Injective(src)
    ensures |src| <= n
    ensures |src| == n <==> forall i :: 0 <= i < n ==> i in src
    decreases n
  {
    if |src| == 0 {
      if n > 0 {
        assert 0 !in src;
      }
    } else if n - 1 in src {
      assert 0 <= src[0] < n;
      var j :| 0 <= j < |src| && src[j] == n - 1;
      RemoveLargest(src, j, n);
      PigeonHole(src[..j] + src[j + 1..], n - 1);
    } else {
      assert 0 <= src[0] < n;
      PigeonHole(src, n - 1);
    }
  }

  /** The row ids stay well formed when a new row's ids follow the earlier ones. */
  lemma RowIdsGrow(before: seq<int>, after: seq<int>, row: int)
    requires RowIdsWellFormed(before)
    requires forall k :: 0 <= k < |before| ==> 1 <= before[k] <= row - 1
    requires |before| == 0 ==> row == 1
    requires |before| > 0 ==> before[|before| - 1] == row - 1
    requires |after| > |before| && after[..|before|] == before
    requires forall k :: |before| <= k < |after| ==> after[k] == row
    ensures RowIdsWellFormed(after)
  {
    var n := |before|;
    assert forall k :: 0 <= k < n ==> after[k] == before[k];
  }

  /** The rows stay ordered left to right when a new, ordered row follows them. */
  lemma RowsLeftToRightGrow(before: seq<Extent>, beforeIds: seq<int>, beforeSrc: seq<int>, seeds: seq<int>,
                            after: seq<Extent>, afterIds: seq<int>, afterSrc: seq<int>, seed: int)
    requires |before| == |beforeIds| == |beforeSrc|
    requires |after| == |afterIds| == |afterSrc| > |before|
    requires forall k :: 0 <= k < |beforeIds| ==> 1 <= beforeIds[k] <= |seeds|
    requires RowsLeftToRight(before, beforeIds, beforeSrc, seeds)
    requires after[..|before|] == before && afterIds[..|before|] == beforeIds && afterSrc[..|before|] == beforeSrc
    requires forall k :: |before| <= k < |after| ==> afterIds[k] == |seeds| + 1
    requires SegmentOrdered(after, afterSrc, |before|, seed)
    ensures forall k :: 0 <= k < |afterIds| ==> 1 <= afterIds[k] <= |seeds| + 1
    ensures RowsLeftToRight(after, afterIds, afterSrc, seeds + [seed])
  {
    var n := |before|;
    assert forall k :: 0 <= k < n ==> after[k] == before[k] && afterIds[k] == beforeIds[k] && afterSrc[k] == beforeSrc[k];
    forall k, l | 0 <= k < l < |after| && afterIds[k] == afterIds[l]
      ensures after[k].Left() <= after[l].Left()
      ensures after[k].Left() == after[l].Left() ==>
        AdmittedNoLater(afterSrc[k], afterSrc[l], (seeds + [seed])[afterIds[k] - 1])
    {
      if l < n {
        assert (seeds + [seed])[afterIds[k] - 1] == seeds[beforeIds[k] - 1];
      } else if n <= k {
        assert (seeds + [seed])[afterIds[k] - 1] == seed;
        assert PairOrdered(after, afterSrc, k, l, seed);
      }
    }
  }

  /** Rows explained before a new row was grown stay explained: growing only turns unplaced
      boxes into members of the new row, which were still pending for every earlier row. */
  lemma RowsStayExplained(points: seq<Extent>, before: seq<int>, after: seq<int>, seeds: seq<int>, row: int)
    requires |before| == |after| == |points|
    requires forall j :: 0 <= j < |points| ==> 0 <= before[j] < row
    requires forall j :: 0 <= j < |points| ==> after[j] == before[j] || (before[j] == 0 && after[j] == row)
    requires |seeds| < row
    requires RowsExplained(points, before, seeds)
    ensures RowsExplained(points, after, seeds)
  {
    forall r | 0 <= r < |seeds|
      ensures SeedOfRow(points, after, r + 1, seeds[r]) && RowMembers(points, after, r + 1, seeds[r])
    {
      assert SeedOfRow(points, before, r + 1, seeds[r]) && RowMembers(points, before, r + 1, seeds[r]);
      forall j | 0 <= j < |points| ensures PendingAt(after[j], r + 1) == PendingAt(before[j], r + 1) {
      }
    }
  }

  /** The row just grown is explained by its seed. */
  lemma NewRowExplained(points: seq<Extent>, before: seq<int>, after: seq<int>, s: int, row: int)
    requires |before| == |after| == |points|
    requires IsSeed(points, before, s)
    requires forall j :: 0 <= j < |points| ==> 0 <= before[j] < row
    requires forall j :: 0 <= j < |points| ==>
      after[j] == if before[s := row][j] == 0 && Admits(points[s].Top(), points[s].Bottom(), points[j])
                  then row else before[s := row][j]
    ensures SeedOfRow(points, after, row, s) && RowMembers(points, after, row, s)
  {
    forall j | 0 <= j < |points| ensures PendingAt(after[j], row) <==> before[j] == 0 {
      if j == s {
        assert after[j] == row;
      }
    }
  }

  /** What holds after every pass of the loop of lines 195-240: each entry of the sorted
      lists is tied to its box, row ids are well formed and count the seeds, rows run left
      to right, and the row ids in `order` are exactly those of the placed boxes.  When
      every top lies within the image height, no box is placed twice and every row is the
      one its seed admits. */
  ghost predicate Placed(points: seq<Extent>, height: nat, order: seq<int>, pointsSorted: seq<Extent>,
                         orderSorted: seq<int>, src: seq<int>, seeds: seq<int>)
  {
    && |order| == |points|
    && |pointsSorted| == |orderSorted| == |src|
    && (forall r :: 0 <= r < |seeds| ==> 0 <= seeds[r] < |points|)
    && (forall k :: 0 <= k < |src| ==> 0 <= src[k] < |points| && pointsSorted[k] == points[src[k]])
    && RowIdsWellFormed(orderSorted)
    && (forall k :: 0 <= k < |orderSorted| ==> 1 <= orderSorted[k] <= |seeds|)
    && (|orderSorted| == 0 ==> |seeds| == 0)
    && (|orderSorted| > 0 ==> orderSorted[|orderSorted| - 1] == |seeds|)
    && RowsLeftToRight(pointsSorted, orderSorted, src, seeds)
    && (forall i :: 0 <= i < |points| ==> 0 <= order[i] <= |seeds|)
    && (forall x :: x in src ==> order[x] != 0)
    && (forall i :: 0 <= i < |points| && order[i] != 0 ==> i in src)
    && (TopsWithin(points, height) ==>
          && Injective(src)
          && (forall k :: 0 <= k < |src| ==> orderSorted[k] == order[src[k]])
          && RowsExplained(points, order, seeds))
  }

  /** While fewer distinct boxes are placed than there are boxes, some box is unplaced. */
  lemma PendingBoxExists(points: seq<Extent>, order: seq<int>, src: seq<int>)
    requires |order| == |points| && |src| < |points|
    requires forall k :: 0 <= k < |src| ==> 0 <= src[k] < |points|
    requires Injective(src)
    requires forall i :: 0 <= i < |points| && order[i] != 0 ==> i in src
    ensures exists i :: 0 <= i < |points| && order[i] == 0
  {
    PigeonHole(src, |points|);
    var i :| 0 <= i < |points| && i !in src;
    assert order[i] == 0;
  }

  /** The ids of the entries placed before the new row still match `order`: growing the
      row only changed unplaced boxes, and the seed was unplaced too. */
  lemma EarlierIdsKept(order1: seq<int>, ids1: seq<int>, src1: seq<int>, order3: seq<int>,
                       ids3: seq<int>, src3: seq<int>, s: int, row: int)
    requires |ids1| == |src1| <= |ids3| == |src3| && |order1| == |order3|
    requires ids3[..|ids1|] == ids1 && src3[..|src1|] == src1
    requires forall k :: 0 <= k < |src1| ==> 0 <= src1[k] < |order1| && src1[k] != s
    requires forall k :: 0 <= k < |src1| ==> order1[src1[k]] != 0 && ids1[k] == order1[src1[k]]
    requires forall k :: 0 <= k < |src3| ==> 0 <= src3[k] < |order3|
    requires forall j :: 0 <= j < |order1| ==> order3[j] == order1[j] || (order1[j] == 0 && order3[j] == row)
    requires forall k :: |src1| <= k < |src3| ==> ids3[k] == row
    requires forall x :: x in src3[|src1|..] ==> order3[x] == row
    ensures forall k :: 0 <= k < |src3| ==> ids3[k] == order3[src3[k]]
  {
    forall k | 0 <= k < |src3| ensures ids3[k] == order3[src3[k]] {
      if k < |src1| {
        assert ids3[k] == ids1[k] && src3[k] == src1[k];
      } else {
        assert src3[k] == src3[|src1|..][k - |src1|];
      }
    }
  }

  /** One pass of the loop of lines 195-240 keeps `Placed`, given what the seed step and
      the row growth guarantee. */
  lemma RowPlaced(points: seq<Extent>, height: nat, order1: seq<int>, sorted1: seq<Extent>, ids1: seq<int>,
                  src1: seq<int>, seeds: seq<int>, s: int, minY: real, maxY: real,
                  order3: seq<int>, sorted3: seq<Extent>, ids3: seq<int>, src3: seq<int>)
    requires Placed(points, height, order1, sorted1, ids1, src1, seeds)
    requires 0 <= s < |points| && maxY == points[s].Bottom()
    requires TopsWithin(points, height) ==> IsSeed(points, order1, s) && minY == points[s].Top()
    requires |order3| == |points|
    requires forall j :: 0 <= j < |points| ==>
      order3[j] == if order1[s := |seeds| + 1][j] == 0 && Admits(minY, maxY, points[j])
                   then |seeds| + 1 else order1[s := |seeds| + 1][j]
    requires |sorted3| == |ids3| == |src3| > |src1|
    requires sorted3[..|src1|] == sorted1 && ids3[..|src1|] == ids1 && src3[..|src1|] == src1
    requires RowInProgress(points, order3, |seeds| + 1, |src1|, s, |points|, sorted3, ids3, src3)
    requires forall j :: 0 <= j < |points| && order1[s := |seeds| + 1][j] == 0 && order3[j] != 0 ==> j in src3
    requires forall j :: j in src1 + [s] ==> j in src3
    requires SegmentOrdered(sorted3, src3, |src1|, s)
    requires Injective(src1 + [s]) ==> Injective(src3)
    ensures Placed(points, height, order3, sorted3, ids3, src3, seeds + [s])
    ensures TopsWithin(points, height) ==>
      forall j :: 0 <= j < |points| && order1[j] != 0 ==> order3[j] == order1[j]
  {
    var row := |seeds| + 1;
    RowIdsGrow(ids1, ids3, row);
    RowsLeftToRightGrow(sorted1, ids1, src1, seeds, sorted3, ids3, src3, s);
    PlacedBoxesListed(order1, src1, s, row, order3, src3);
    RowIdsBounded(order1, s, row, order3, |seeds|);
    SeedsBounded(seeds, s, |points|);
    if TopsWithin(points, height) {
      RowPlacedWithin(points, order1, ids1, src1, seeds, s, order3, ids3, src3);
      PlacedIdsKept(points, order1, s, row, minY, maxY, order3);
    }
  }

  /** Growing a row from an unplaced seed leaves every box placed before with its row id. */
  lemma PlacedIdsKept(points: seq<Extent>, order1: seq<int>, s: int, row: int, minY: real, maxY: real,
                      order3: seq<int>)
    requires |order1| == |order3| == |points| && 0 <= s < |points| && order1[s] == 0
    requires forall j :: 0 <= j < |points| ==>
      order3[j] == if order1[s := row][j] == 0 && Admits(minY, maxY, points[j]) then row else order1[s := row][j]
    ensures forall j :: 0 <= j < |points| && order1[j] != 0 ==> order3[j] == order1[j]
  {
    forall j | 0 <= j < |points| && order1[j] != 0 ensures order3[j] == order1[j] {
      assert order1[s := row][j] == order1[j];
    }
  }

  /** Every box with a row id after the pass is listed: it was listed before, or it is the
      seed, or the row growth listed it. */
  lemma PlacedBoxesListed(order1: seq<int>, src1: seq<int>, s: int, row: int, order3: seq<int>, src3: seq<int>)
    requires |order1| == |order3| && 0 <= s < |order1|
    requires forall i :: 0 <= i < |order1| && order1[i] != 0 ==> i in src1
    requires forall j :: 0 <= j < |order1| && order1[s := row][j] == 0 && order3[j] != 0 ==> j in src3
    requires forall j :: j in src1 + [s] ==> j in src3
    ensures forall i :: 0 <= i < |order3| && order3[i] != 0 ==> i in src3
  {
    forall i | 0 <= i < |order3| && order3[i] != 0 ensures i in src3 {
      if order1[s := row][i] != 0 {
        assert i in src1 + [s];
      }
    }
  }

  /** After the pass every row id is at most the new row's. */
  lemma RowIdsBounded(order1: seq<int>, s: int, row: int, order3: seq<int>, rows: nat)
    requires |order1| == |order3| && 0 <= s < |order1| && row == rows + 1
    requires forall i :: 0 <= i < |order1| ==> 0 <= order1[i] <= rows
    requires forall j :: 0 <= j < |order1| ==>
      order3[j] == order1[s := row][j] || (order1[s := row][j] == 0 && order3[j] == row)
    ensures forall i :: 0 <= i < |order3| ==> 0 <= order3[i] <= row
  {
  }

  /** Appending a box index keeps the seeds within range. */
  lemma SeedsBounded(seeds: seq<int>, s: int, n: nat)
    requires 0 <= s < n
    requires forall r :: 0 <= r < |seeds| ==> 0 <= seeds[r] < n
    ensures forall r :: 0 <= r < |seeds + [s]| ==> 0 <= (seeds + [s])[r] < n
  {
  }

  /** The new row is explained by its seed and the earlier ones stay explained. */
  lemma RowsExplainedSnoc(points: seq<Extent>, order: seq<int>, seeds: seq<int>, s: int)
    requires |order| == |points|
    requires RowsExplained(points, order, seeds)
    requires SeedOfRow(points, order, |seeds| + 1, s) && RowMembers(points, order, |seeds| + 1, s)
    ensures RowsExplained(points, order, seeds + [s])
  {
    forall r | 0 <= r < |seeds| + 1
      ensures SeedOfRow(points, order, r + 1, (seeds + [s])[r]) && RowMembers(points, order, r + 1, (seeds + [s])[r])
    {
      if r < |seeds| {
        assert (seeds + [s])[r] == seeds[r];
      }
    }
  }

  /** The part of `RowPlaced` that holds when every top lies within the image height: the
      seed is a genuinely unplaced box, so no box is placed twice, and the new row is the
      one its seed admits. */
  lemma RowPlacedWithin(points: seq<Extent>, order1: seq<int>, ids1: seq<int>, src1: seq<int>, seeds: seq<int>,
                        s: int, order3: seq<int>, ids3: seq<int>, src3: seq<int>)
    requires |order1| == |order3| == |points| && |ids1| == |src1|
    requires forall i :: 0 <= i < |points| ==> 0 <= order1[i] <= |seeds|
    requires forall k :: 0 <= k < |src1| ==> 0 <= src1[k] < |points|
    requires forall x :: x in src1 ==> order1[x] != 0
    requires Injective(src1)
    requires forall k :: 0 <= k < |src1| ==> ids1[k] == order1[src1[k]]
    requires RowsExplained(points, order1, seeds)
    requires IsSeed(points, order1, s)
    requires forall j :: 0 <= j < |points| ==>
      order3[j] == if order1[s := |seeds| + 1][j] == 0 && Admits(points[s].Top(), points[s].Bottom(), points[j])
                   then |seeds| + 1 else order1[s := |seeds| + 1][j]
    requires |ids3| == |src3| > |src1|
    requires ids3[..|src1|] == ids1 && src3[..|src1|] == src1
    requires forall k :: |src1| <= k < |ids3| ==> ids3[k] == |seeds| + 1
    requires forall k :: 0 <= k < |src3| ==> 0 <= src3[k] < |points|
    requires forall x :: x in src3[|src1|..] ==> order3[x] == |seeds| + 1
    requires Injective(src1 + [s]) ==> Injective(src3)
    ensures Injective(src3)
    ensures forall k :: 0 <= k < |src3| ==> ids3[k] == order3[src3[k]]
    ensures RowsExplained(points, order3, seeds + [s])
  {
    var row := |seeds| + 1;
    assert s !in src1;
    assert Injective(src1 + [s]);
    forall j | 0 <= j < |points| ensures order3[j] == order1[j] || (order1[j] == 0 && order3[j] == row) {
    }
    RowsStayExplained(points, order1, order3, seeds, row);
    NewRowExplained(points, order1, order3, s, row);
    RowsExplainedSnoc(points, order3, seeds, s);
    forall k | 0 <= k < |src1| ensures src1[k] != s && order1[src1[k]] != 0 {
      assert src1[k] in src1;
    }
    EarlierIdsKept(order1, ids1, src1, order3, ids3, src3, s, row);
  }

  /** One pass of the loop of lines 195-240: seed a new row with the unplaced box whose top
      is highest (lines 200-214), then grow the row (lines 216-240).  When no unplaced box
      has its top within the image height, the scan selects nothing and the script writes
      through index -1, that is, the last box; this is modelled as written. */
  method PlaceRow(points: seq<Extent>, height: nat, order: seq<int>, pointsSorted: seq<Extent>,
                  orderSorted: seq<int>, numOrdered: nat, rowsOrdered: nat, ghost src: seq<int>, ghost seeds: seq<int>)
    returns (order': seq<int>, pointsSorted': seq<Extent>, orderSorted': seq<int>, numOrdered': nat,
             rowsOrdered': nat, ghost src': seq<int>, ghost seeds': seq<int>)
    requires Placed(points, height, order, pointsSorted, orderSorted, src, seeds)
    requires numOrdered == |pointsSorted| < |points| && rowsOrdered == |seeds|
    ensures Placed(points, height, order', pointsSorted', orderSorted', src', seeds')
    ensures numOrdered' == |pointsSorted'| > numOrdered && rowsOrdered' == |seeds'| == rowsOrdered + 1
    ensures seeds'[..|seeds|] == seeds
    ensures TopsWithin(points, height) ==>
      forall i :: 0 <= i < |points| && order[i] != 0 ==> order'[i] == order[i]
  {
    // find the unplaced box with the smallest top (lines 202-208)
    var minY, minYIndex := SelectSeed(points, order, height);
    if TopsWithin(points, height) {
      PendingBoxExists(points, order, src);
    }
    if minYIndex == -1 {
      // `order[-1]` and `points[-1]` in the script: the last box
      minYIndex := |points| - 1;
    }
    rowsOrdered' := rowsOrdered + 1;
    order' := order[minYIndex := rowsOrdered'];
    numOrdered' := numOrdered + 1;
    pointsSorted' := pointsSorted + [points[minYIndex]];
    orderSorted' := orderSorted + [rowsOrdered'];
    src' := src + [minYIndex];
    var orderedPointsIndex := |pointsSorted'| - 1;
    SeedAppended(points, order, pointsSorted, src, minYIndex, rowsOrdered');

    // group the boxes on the same row (lines 216-240)
    var maxY := points[minYIndex].Bottom();
    order', pointsSorted', orderSorted', numOrdered', src' :=
      GrowRow(points, order', minY, maxY, rowsOrdered', pointsSorted', orderSorted', orderedPointsIndex,
              numOrdered', src', minYIndex);
    RowPlaced(points, height, order, pointsSorted, orderSorted, src, seeds, minYIndex, minY, maxY,
              order', pointsSorted', orderSorted', src');
    seeds' := seeds + [minYIndex];
  }

  /** The seed, appended to the sorted list, is listed like every placed box. */
  lemma SeedAppended(points: seq<Extent>, order: seq<int>, pointsSorted: seq<Extent>, src: seq<int>, s: int, row: int)
    requires |order| == |points| && 0 <= s < |points| && |pointsSorted| == |src| && row != 0
    requires forall k :: 0 <= k < |src| ==> 0 <= src[k] < |points| && pointsSorted[k] == points[src[k]]
    requires forall x :: x in src ==> order[x] != 0
    ensures forall k :: 0 <= k < |src| + 1 ==>
      0 <= (src + [s])[k] < |points| && (pointsSorted + [points[s]])[k] == points[(src + [s])[k]]
    ensures forall x :: x in src + [s] ==> order[s := row][x] != 0
  {
  }

  /** Before the first pass nothing is placed. */
  lemma NothingPlaced(points: seq<Extent>, height: nat, order0: seq<int>)
    requires |order0| == |points|
    requires forall i :: 0 <= i < |order0| ==> order0[i] == 0
    ensures Placed(points, height, order0, [], [], [], [])
  {
  }

  /** Once at least as many entries as boxes are placed and every top lies within the
      image height, every box is placed exactly once. */
  lemma AllPlaced(points: seq<Extent>, height: nat, order: seq<int>, pointsSorted: seq<Extent>,
                  orderSorted: seq<int>, src: seq<int>, seeds: seq<int>)
    requires Placed(points, height, order, pointsSorted, orderSorted, src, seeds)
    requires |src| >= |points|
    ensures TopsWithin(points, height) ==> IsIndexPermutation(src, |points|)
    ensures TopsWithin(points, height) ==> forall i :: 0 <= i < |points| ==> 1 <= order[i] <= |seeds|
  {
    if TopsWithin(points, height) {
      PigeonHole(src, |points|);
      forall i | 0 <= i < |points| ensures 1 <= order[i] {
        assert i in src;
      }
    }
  }

  /** The reading-order loop of lines 195-240.  The properties that depend on every top
      lying within the image height are stated for `TopsWithin(points, height)`. */
  method OrderRows(points: seq<Extent>, order0: seq<int>, height: nat)
    returns (order: seq<int>, pointsSorted: seq<Extent>, orderSorted: seq<int>,
             ghost src: seq<int>, ghost seeds: seq<int>)
    requires |order0| == |points|
    requires forall i :: 0 <= i < |order0| ==> order0[i] == 0
    ensures |pointsSorted| >= |points|
    ensures Placed(points, height, order, pointsSorted, orderSorted, src, seeds)
    ensures TopsWithin(points, height) ==> IsIndexPermutation(src, |points|)
    ensures TopsWithin(points, height) ==> forall i :: 0 <= i < |points| ==> 1 <= order[i] <= |seeds|
  {
    order := order0;
    var numOrdered := 0;
    var rowsOrdered := 0;
    pointsSorted, orderSorted, src, seeds := [], [], [], [];
    NothingPlaced(points, height, order0);
    while numOrdered < |points|
      invariant numOrdered == |pointsSorted| && rowsOrdered == |seeds|
      invariant Placed(points, height, order, pointsSorted, orderSorted, src, seeds)
      decreases |points| - numOrdered
    {
      order, pointsSorted, orderSorted, numOrdered, rowsOrdered, src, seeds :=
        PlaceRow(points, height, order, pointsSorted, orderSorted, numOrdered, rowsOrdered, src, seeds);
    }
    AllPlaced(points, height, order, pointsSorted, orderSorted, src, seeds);
  }
}
