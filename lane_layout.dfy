// The arithmetic of a lane (src/parent_container.cpp) as functions on values:
// how a lane makes room for a new child (`insert_node_internal`), how it
// rescales its children to a new area (`set_logical_area`), how it spreads
// slack over them (`relayout`), and its lookups. The `ParentContainer` class
// runs these as loops and is proved equal to them.
//
// The source computes the ratios with doubles and rounds with floor/ceil; an
// exact quotient rounded the same way stands for each. Where the source would
// divide by a zero lane extent (undefined once the infinite or NaN double is
// converted to int), these functions keep the child's size instead.
module LaneLayout {
  import opened Wrappers
  import opened Geometry
  import opened Container

  // ---------------------------------------------------------------------
  // Axes

  /** The size of `r` along the lane's axis. */
  function Main(r: Rect, d: LayoutDirection): int
  {
    if d == Horizontal then r.width else r.height
  }

  /** The coordinate of `r` along the lane's axis. */
  function Start(r: Rect, d: LayoutDirection): int
  {
    if d == Horizontal then r.x else r.y
  }

  /** A slot at `pos` of length `size` along the axis, spanning `placement` across it. */
  function Along(placement: Rect, d: LayoutDirection, pos: int, size: int): Rect
  {
    if d == Horizontal then Rect(pos, placement.y, size, placement.height)
    else Rect(placement.x, pos, placement.width, size)
  }

  /** The sizes of the children along the axis. */
  function Mains(cs: seq<Node>, d: LayoutDirection): (ms: seq<int>)
    ensures |ms| == |cs|
  {
    seq(|cs|, i requires 0 <= i < |cs| => Main(cs[i].area, d))
  }

  function Sum(s: seq<int>): int
  {
    if |s| == 0 then 0 else Sum(s[..|s| - 1]) + s[|s| - 1]
  }

  lemma SumSnoc(s: seq<int>, x: int)
    ensures Sum(s + [x]) == Sum(s) + x
  {
    assert (s + [x])[..|s|] == s;
  }

  lemma SumPrefix(s: seq<int>, i: nat)
    requires i < |s|
    ensures Sum(s[..i + 1]) == Sum(s[..i]) + s[i]
  {
    assert s[..i + 1] == s[..i] + [s[i]];
    SumSnoc(s[..i], s[i]);
  }

  /** Sums of two sequences add up element by element. */
  lemma {:induction false} SumAdd(a: seq<int>, b: seq<int>, c: seq<int>)
    requires |a| == |b| == |c|
    requires forall i :: 0 <= i < |c| ==> c[i] == a[i] + b[i]
    ensures Sum(c) == Sum(a) + Sum(b)
  {
    if |c| > 0 {
      var n := |c| - 1;
      SumAdd(a[..n], b[..n], c[..n]);
    }
  }

  // ---------------------------------------------------------------------
  // insert_node_internal (src/parent_container.cpp:36-81)

  /** The first share of the new child: floor(lane / (count + 1)). */
  function FirstShare(lane: int, count: nat): int
  {
    FloorDiv(lane, count + 1)
  }

  /** What a child of size `size` gives up: floor(size / lane * share). */
  function Loss(size: int, share: int, lane: int): int
  {
    if lane == 0 then 0 else FloorDiv(size * share, lane)
  }

  function Losses(sizes: seq<int>, lane: int): (r: seq<int>)
    ensures |r| == |sizes|
  {
    seq(|sizes|, i requires 0 <= i < |sizes| => Loss(sizes[i], FirstShare(lane, |sizes|), lane))
  }

  /** The sizes the existing children are left with. */
  function Shrunk(sizes: seq<int>, lane: int): (r: seq<int>)
    ensures |r| == |sizes|
  {
    seq(|sizes|, i requires 0 <= i < |sizes| => sizes[i] - Losses(sizes, lane)[i])
  }

  /**
   * Where child `i` is placed: right after the previous child, except that the
   * child at `index` follows a slot of the first share that starts at
   * `lanePos + index * share`.
   */
  function SlotPos(sizes: seq<int>, lane: int, lanePos: int, index: int, i: nat): int
    requires i < |sizes|
  {
    var share := FirstShare(lane, |sizes|);
    if i == index then lanePos + index * share + share
    else if i == 0 then lanePos
    else SlotPos(sizes, lane, lanePos, index, i - 1) + Shrunk(sizes, lane)[i - 1]
  }

  /** Where every child is placed. */
  function Positions(sizes: seq<int>, lane: int, lanePos: int, index: int): (r: seq<int>)
    ensures |r| == |sizes|
  {
    seq(|sizes|, i requires 0 <= i < |sizes| => SlotPos(sizes, lane, lanePos, index, i))
  }

  /** `InsertNodeInternalResult`: the size and position of the new child. */
  datatype Slot = Slot(size: int, position: int)

  /**
   * The result: the first share at `lanePos + index * share` when the lane is
   * empty; otherwise the total given up, at the same position (the correction
   * on line 77 subtracts zero, because the line before has already made the
   * size equal to the total).
   */
  function NewSlot(sizes: seq<int>, lane: int, lanePos: int, index: int): Slot
  {
    var share := FirstShare(lane, |sizes|);
    if |sizes| == 0 then Slot(share, lanePos + index * share)
    else Slot(Sum(Losses(sizes, lane)), lanePos + index * share)
  }

  /** Into an empty lane, the new child takes the whole lane. */
  lemma InsertIntoEmpty(lane: int, lanePos: int, index: int)
    ensures NewSlot([], lane, lanePos, index) == Slot(lane, lanePos + index * lane)
  {
  }

  /** Nothing is lost or made: the new child's size is exactly what the others gave up. */
  lemma InsertConserves(sizes: seq<int>, lane: int, lanePos: int, index: int)
    requires |sizes| > 0
    ensures Sum(Shrunk(sizes, lane)) + NewSlot(sizes, lane, lanePos, index).size == Sum(sizes)
  {
    SumAdd(Shrunk(sizes, lane), Losses(sizes, lane), sizes);
  }

  /** Sum of floors is at most the floor of the sum, and more than it minus the count. */
  lemma LossesBounded(sizes: seq<int>, lane: int, share: int)
    requires lane > 0
    requires share == FirstShare(lane, |sizes|)
    ensures Sum(Losses(sizes, lane)) * lane <= Sum(sizes) * share
    ensures |sizes| > 0 ==> Sum(sizes) * share < Sum(Losses(sizes, lane)) * lane + |sizes| * lane
  {
    assert Losses(sizes, lane) == LossesWith(sizes, lane, share);
    LossesBoundedShare(sizes, lane, share);
  }

  /** The losses under a given share. */
  function LossesWith(sizes: seq<int>, lane: int, share: int): (r: seq<int>)
    ensures |r| == |sizes|
  {
    seq(|sizes|, i requires 0 <= i < |sizes| => Loss(sizes[i], share, lane))
  }

  lemma {:induction false} LossesBoundedShare(sizes: seq<int>, lane: int, share: int)
    requires lane > 0
    ensures Sum(LossesWith(sizes, lane, share)) * lane <= Sum(sizes) * share
    ensures |sizes| > 0 ==> Sum(sizes) * share < Sum(LossesWith(sizes, lane, share)) * lane + |sizes| * lane
    ensures |sizes| == 0 ==> Sum(sizes) * share == Sum(LossesWith(sizes, lane, share)) * lane
  {
    if |sizes| > 0 {
      var n := |sizes| - 1;
      var ls := LossesWith(sizes, lane, share);
      LossesBoundedShare(sizes[..n], lane, share);
      assert ls[..n] == LossesWith(sizes[..n], lane, share);
      SumPrefix(sizes, n);
      SumPrefix(ls, n);
      assert sizes[..n + 1] == sizes;
      assert ls[..n + 1] == ls;
      assert ls[n] == FloorDiv(sizes[n] * share, lane);
      FloorDivBounds(sizes[n] * share, lane);
      var a, b := Sum(ls[..n]), Sum(sizes[..n]);
      FloorBoundsAdd(a, b, ls[n], sizes[n], lane, share, n);
      assert Sum(ls) == a + ls[n] && Sum(sizes) == b + sizes[n];
    }
  }

  /** One more floor added to a running bound keeps it. */
  lemma FloorBoundsAdd(total: int, sum: int, l: int, x: int, lane: int, share: int, n: nat)
    requires lane > 0
    requires total * lane <= sum * share
    requires n > 0 ==> sum * share < total * lane + n * lane
    requires n == 0 ==> sum * share == total * lane
    requires l * lane <= x * share < l * lane + lane
    ensures (total + l) * lane <= (sum + x) * share < (total + l) * lane + (n + 1) * lane
  {
    assert (sum + x) * share == sum * share + x * share;
    assert (total + l) * lane == total * lane + l * lane;
    assert (n + 1) * lane == n * lane + lane;
  }

  /**
   * When the children fill a lane of positive size, the new child ends up no
   * larger than its first share, and short of it by less than the number of
   * children it took space from.
   */
  lemma InsertedSizeNearShare(sizes: seq<int>, lane: int, lanePos: int, index: int)
    requires |sizes| > 0 && lane > 0 && Sum(sizes) == lane
    ensures var s := NewSlot(sizes, lane, lanePos, index).size;
            FirstShare(lane, |sizes|) - |sizes| < s <= FirstShare(lane, |sizes|)
  {
    var share := FirstShare(lane, |sizes|);
    LossesBounded(sizes, lane, share);
    WithinShare(Sum(Losses(sizes, lane)), lane, share, |sizes|);
  }

  lemma WithinShare(s: int, lane: int, share: int, n: nat)
    requires lane > 0
    requires s * lane <= lane * share < s * lane + n * lane
    ensures share - n < s <= share
  {
    MulMonotone(s, share, lane);
    assert s * lane + n * lane == (s + n) * lane;
    MulStrict(share, s + n, lane);
  }

  /** Cancelling a positive factor keeps an inequality. */
  lemma MulMonotone(a: int, b: int, c: int)
    requires c > 0 && a * c <= b * c
    ensures a <= b
  {
  }

  lemma MulStrict(a: int, b: int, c: int)
    requires c > 0 && a * c < b * c
    ensures a < b
  {
  }

  /**
   * The children before `index` are packed from `lanePos`; the child at
   * `index` and those after it are packed from the end of the first-share
   * slot reserved for the new child.
   */
  lemma {:induction false} SlotPositions(sizes: seq<int>, lane: int, lanePos: int, index: nat, i: nat)
    requires i < |sizes|
    ensures i < index ==> SlotPos(sizes, lane, lanePos, index, i) == lanePos + Sum(Shrunk(sizes, lane)[..i])
    ensures index <= i ==> (SlotPos(sizes, lane, lanePos, index, i) ==
                            lanePos + (index + 1) * FirstShare(lane, |sizes|) + Sum(Shrunk(sizes, lane)[index..i]))
  {
    var sh := Shrunk(sizes, lane);
    var share := FirstShare(lane, |sizes|);
    if i == index {
      assert sh[index..i] == [];
    } else if i == 0 {
      assert sh[..0] == [];
    } else {
      SlotPositions(sizes, lane, lanePos, index, i - 1);
      if i < index {
        SumPrefix(sh, i - 1);
      } else {
        assert sh[index..i] == sh[index..i - 1] + [sh[i - 1]];
        SumSnoc(sh[index..i - 1], sh[i - 1]);
      }
    }
  }

  /**
   * Two children of 50 in a lane of 100 at 0, new child at index 1: the first
   * child keeps [0, 34), the slot reserved is [33, 66), the second child moves
   * to [66, 100) and the new child is given [33, 65). The new child overlaps
   * the first one and leaves [65, 66) uncovered until the lane is laid out
   * again.
   */
  lemma InsertLeavesOverlap()
    ensures Shrunk([50, 50], 100) == [34, 34]
    ensures SlotPos([50, 50], 100, 0, 1, 0) == 0
    ensures SlotPos([50, 50], 100, 0, 1, 1) == 66
    ensures NewSlot([50, 50], 100, 0, 1) == Slot(32, 33)
  {
    assert FirstShare(100, 2) == 33;
    assert Loss(50, 33, 100) == 16;
    assert Losses([50, 50], 100) == [16, 16];
    assert Shrunk([50, 50], 100) == [34, 34];
    assert Sum([16, 16]) == 32 by {
      assert [16, 16][..1] == [16];
      assert [16][..0] == [];
    }
  }

  /**
   * `create_space`: the existing children moved and shrunk by
   * `insert_node_internal` along the lane's axis, each spanning the placement
   * across it.
   */
  function MakeRoom(cs: seq<Node>, placement: Rect, d: LayoutDirection, index: int): (r: seq<Node>)
    ensures |r| == |cs|
  {
    var sizes := Mains(cs, d);
    seq(|cs|, i requires 0 <= i < |cs| =>
      SetArea(cs[i], Along(placement, d, SlotPos(sizes, Main(placement, d), Start(placement, d), index, i),
                           Shrunk(sizes, Main(placement, d))[i])))
  }

  /** The area `create_space` returns for the new child. */
  function RoomFor(cs: seq<Node>, placement: Rect, d: LayoutDirection, index: int): Rect
  {
    var s := NewSlot(Mains(cs, d), Main(placement, d), Start(placement, d), index);
    Along(placement, d, s.position, s.size)
  }

  /**
   * Making room keeps the lane's total: the children's new sizes and the new
   * child's size add up to what the children had; into an empty lane the new
   * child gets the whole placement.
   */
  lemma MakeRoomConserves(cs: seq<Node>, placement: Rect, d: LayoutDirection, index: int)
    ensures |cs| > 0 ==>
      Sum(Mains(MakeRoom(cs, placement, d, index), d)) + Main(RoomFor(cs, placement, d, index), d) == Sum(Mains(cs, d))
    ensures |cs| == 0 ==>
      RoomFor(cs, placement, d, index) == Along(placement, d, Start(placement, d) + index * Main(placement, d), Main(placement, d))
  {
    var sizes := Mains(cs, d);
    if |cs| > 0 {
      assert Mains(MakeRoom(cs, placement, d, index), d) == Shrunk(sizes, Main(placement, d));
      InsertConserves(sizes, Main(placement, d), Start(placement, d), index);
    }
  }

  // ---------------------------------------------------------------------
  // set_logical_area (src/parent_container.cpp:261-359)

  /**
   * A child's new size along the axis: its share of the current lane applied
   * to the target lane, rounded up for a horizontal lane and down for a
   * vertical one.
   */
  function Scale(m: int, current: int, target: int, d: LayoutDirection): int
  {
    if current == 0 then m
    else if d == Horizontal then CeilDiv(target * m, current)
    else FloorDiv(target * m, current)
  }

  /** The scaled size is `target * m / current` rounded up for a horizontal lane
      and down for a vertical one. */
  lemma ScaleBounds(m: int, current: int, target: int, d: LayoutDirection)
    ensures var s := Scale(m, current, target, d);
      && (current > 0 && d == Horizontal ==> s * current - current < target * m <= s * current)
      && (current > 0 && d == Vertical ==> s * current <= target * m < s * current + current)
  {
  }

  function Scaled(ms: seq<int>, current: int, target: int, d: LayoutDirection): (r: seq<int>)
    ensures |r| == |ms|
  {
    seq(|ms|, i requires 0 <= i < |ms| => Scale(ms[i], current, target, d))
  }

  /** Placing slot `k` after the slots before it, as the loop of `set_logical_area` does. */
  lemma PlaceStep(target: Rect, d: LayoutDirection, sizes: seq<int>, k: nat, rects: seq<Rect>, pos: int)
    requires k < |sizes| && rects == Place(target, d, sizes[..k])
    requires pos == if k == 0 then Start(target, d) else Start(rects[k - 1], d) + Main(rects[k - 1], d)
    ensures rects + [Along(target, d, pos, sizes[k])] == Place(target, d, sizes[..k + 1])
    ensures Sum(sizes[..k + 1]) == Sum(sizes[..k]) + sizes[k]
  {
    PlaceNext(target, d, sizes, k);
  }

  /** The last size takes up whatever makes the sizes add up to `total`. */
  function Absorb(sizes: seq<int>, total: int): (r: seq<int>)
    ensures |r| == |sizes|
    ensures |sizes| > 0 ==> r[..|sizes| - 1] == sizes[..|sizes| - 1]
  {
    if |sizes| == 0 then []
    else sizes[..|sizes| - 1] + [sizes[|sizes| - 1] + total - Sum(sizes)]
  }

  lemma AbsorbSums(sizes: seq<int>, total: int)
    requires |sizes| > 0
    ensures Sum(Absorb(sizes, total)) == total
  {
    var n := |sizes| - 1;
    SumSnoc(sizes[..n], sizes[n] + total - Sum(sizes));
    SumPrefix(sizes, n);
    assert sizes[..n + 1] == sizes;
  }

  /** Slots of the given sizes, one after another from the start of `target`, spanning it across. */
  /** Where a slot starts when `before` are the sizes of the slots ahead of it. */
  function Offset(target: Rect, d: LayoutDirection, before: seq<int>): int
  {
    Start(target, d) + Sum(before)
  }

  function Place(target: Rect, d: LayoutDirection, sizes: seq<int>): (r: seq<Rect>)
    ensures |r| == |sizes|
    decreases |sizes|
  {
    if |sizes| == 0 then []
    else
      var n := |sizes| - 1;
      Place(target, d, sizes[..n]) + [Along(target, d, Offset(target, d, sizes[..n]), sizes[n])]
  }

  /** Slot `k` of `Place` starts after the sizes before it. */
  lemma {:induction false} PlaceAt(target: Rect, d: LayoutDirection, sizes: seq<int>, k: nat)
    requires k < |sizes|
    ensures Place(target, d, sizes)[k] == Along(target, d, Offset(target, d, sizes[..k]), sizes[k])
    decreases |sizes|
  {
    var n := |sizes| - 1;
    if k < n {
      PlaceAt(target, d, sizes[..n], k);
      assert sizes[..n][..k] == sizes[..k];
    }
  }

  /** Packing one more slot: it starts where the previous one ends. */
  lemma PlaceNext(target: Rect, d: LayoutDirection, sizes: seq<int>, k: nat)
    requires k < |sizes|
    ensures Place(target, d, sizes[..k + 1]) == Place(target, d, sizes[..k]) + [Along(target, d, Offset(target, d, sizes[..k]), sizes[k])]
    ensures Sum(sizes[..k + 1]) == Sum(sizes[..k]) + sizes[k]
    ensures k == 0 ==> Offset(target, d, sizes[..k]) == Start(target, d)
    ensures k > 0 ==> var r := Place(target, d, sizes[..k])[k - 1];
      Offset(target, d, sizes[..k]) == Start(r, d) + Main(r, d)
  {
    assert sizes[..k + 1][..k] == sizes[..k];
    if k > 0 {
      PlaceAt(target, d, sizes[..k], k - 1);
      assert sizes[..k][..k - 1] == sizes[..k - 1];
    }
  }

  /** Absorbing the leftover only lengthens the last slot. */
  lemma PlaceAbsorb(target: Rect, d: LayoutDirection, sizes: seq<int>)
    requires |sizes| > 0
    ensures var n := |sizes| - 1;
      var p := Place(target, d, sizes);
      Place(target, d, Absorb(sizes, Main(target, d))) ==
        p[n := Along(target, d, Start(p[n], d), Main(p[n], d) + (Main(target, d) - Sum(sizes)))]
  {
    var n := |sizes| - 1;
    var ab := Absorb(sizes, Main(target, d));
    assert ab[..n] == sizes[..n];
  }

  /** The last slot of the placed sizes, stretched by the leftover, is the last slot of the absorbed sizes. */
  lemma PlaceAbsorbStep(target: Rect, d: LayoutDirection, sizes: seq<int>, rects: seq<Rect>, total: int)
    requires |sizes| > 0 && rects == Place(target, d, sizes) && total == Sum(sizes)
    ensures var n := |rects| - 1;
      rects[n := Along(target, d, Start(rects[n], d), Main(rects[n], d) + (Main(target, d) - total))] ==
        Place(target, d, Absorb(sizes, Main(target, d)))
  {
    PlaceAbsorb(target, d, sizes);
  }

  /** The areas `set_logical_area` gives the children, from the areas they have now. */
  function Layout(ms: seq<int>, current: Rect, target: Rect, d: LayoutDirection): (r: seq<Rect>)
    ensures |r| == |ms|
  {
    Place(target, d, Absorb(Scaled(ms, Main(current, d), Main(target, d), d), Main(target, d)))
  }

  /** The sizes of plain rectangles along the axis. */
  function Extents(rs: seq<Rect>, d: LayoutDirection): (ms: seq<int>)
    ensures |ms| == |rs|
  {
    seq(|rs|, i requires 0 <= i < |rs| => Main(rs[i], d))
  }

  /** Placed slots follow one another from the target's start and keep their sizes. */
  lemma PlaceTiles(target: Rect, d: LayoutDirection, sizes: seq<int>)
    requires |sizes| > 0
    ensures var r := Place(target, d, sizes);
      && Start(r[0], d) == Start(target, d)
      && (forall i :: 0 < i < |r| ==> Start(r[i], d) == Start(r[i - 1], d) + Main(r[i - 1], d))
      && Extents(r, d) == sizes
  {
    var r := Place(target, d, sizes);
    PlaceAt(target, d, sizes, 0);
    assert sizes[..0] == [];
    forall i | 0 < i < |r|
      ensures Start(r[i], d) == Start(r[i - 1], d) + Main(r[i - 1], d)
    {
      PlaceAt(target, d, sizes, i);
      PlaceAt(target, d, sizes, i - 1);
      SumPrefix(sizes, i - 1);
    }
    forall i | 0 <= i < |r|
      ensures Extents(r, d)[i] == sizes[i]
    {
      PlaceAt(target, d, sizes, i);
    }
  }

  /**
   * The children tile the target along the axis: the first starts at the
   * target's start, each next one where the previous one ends, and the sizes
   * add up to the target's size. Across the axis each spans the target
   * (`Along`). All but the last have their scaled size.
   */
  lemma LayoutTiles(ms: seq<int>, current: Rect, target: Rect, d: LayoutDirection)
    requires |ms| > 0
    ensures var r := Layout(ms, current, target, d);
      && Start(r[0], d) == Start(target, d)
      && (forall i :: 0 < i < |r| ==> Start(r[i], d) == Start(r[i - 1], d) + Main(r[i - 1], d))
      && Sum(Extents(r, d)) == Main(target, d)
      && (forall i :: 0 <= i < |r| - 1 ==> Main(r[i], d) == Scale(ms[i], Main(current, d), Main(target, d), d))
  {
    var scaled := Scaled(ms, Main(current, d), Main(target, d), d);
    var sizes := Absorb(scaled, Main(target, d));
    PlaceTiles(target, d, sizes);
    AbsorbSums(scaled, Main(target, d));
    AbsorbKeeps(scaled, Main(target, d));
    var r := Layout(ms, current, target, d);
    forall i | 0 <= i < |r| - 1
      ensures Main(r[i], d) == Scale(ms[i], Main(current, d), Main(target, d), d)
    {
      assert Extents(r, d)[i] == sizes[i] == scaled[i];
    }
  }

  lemma AbsorbKeeps(sizes: seq<int>, total: int)
    ensures forall i :: 0 <= i < |sizes| - 1 ==> Absorb(sizes, total)[i] == sizes[i]
  {
    if |sizes| > 0 {
      var n := |sizes| - 1;
      forall i | 0 <= i < n
        ensures Absorb(sizes, total)[i] == sizes[i]
      {
        assert Absorb(sizes, total)[..n][i] == sizes[..n][i];
      }
    }
  }

  /** A quotient bracketed by multiples of a positive divisor is unique. */
  lemma UniqueQuotient(a: int, b: int, q1: int, q2: int)
    requires b > 0
    requires q1 * b <= a < q1 * b + b
    requires q2 * b <= a < q2 * b + b
    ensures q1 == q2
  {
    assert q2 * b + b == (q2 + 1) * b && q1 * b + b == (q1 + 1) * b;
    MulStrict(q1, q2 + 1, b);
    MulStrict(q2, q1 + 1, b);
  }

  /** An exact multiple divides back to its factor, rounded either way. */
  lemma FloorOfMultiple(m: int, size: int)
    requires size != 0
    ensures FloorDiv(size * m, size) == m
  {
    var q := FloorDiv(size * m, size);
    if size > 0 {
      UniqueQuotient(size * m, size, q, m);
    } else {
      assert q * (-size) <= -(size * m) < q * (-size) + (-size);
      assert m * (-size) == -(size * m);
      UniqueQuotient(-(size * m), -size, q, m);
    }
  }

  /** Scaling to a lane of the same size keeps every size. */
  lemma ScaleSameSize(m: int, size: int, d: LayoutDirection)
    ensures Scale(m, size, size, d) == m
  {
    if size != 0 {
      if d == Horizontal {
        FloorOfMultiple(-m, size);
        assert -(size * m) == size * -m;
      } else {
        FloorOfMultiple(m, size);
      }
    }
  }

  /**
   * `set_logical_area` applied to a container: a leaf stages the area; a lane
   * takes the area and passes each child its slot of `Layout`, rescaled from
   * the lane's current area.
   */
  function SetArea(n: Node, r: Rect): (m: Node)
    ensures m.area == r && m.id == n.id && m.Leaf? == n.Leaf?
    ensures m.Lane? ==> m.direction == n.direction && |m.children| == |n.children|
    decreases n
  {
    match n
    case Leaf(id, _) => Leaf(id, r)
    case Lane(id, a, d, cs) =>
      var rects := Layout(Mains(cs, d), a, r, d);
      Lane(id, r, d, seq(|cs|, i requires 0 <= i < |cs| => SetArea(cs[i], rects[i])))
  }

  /** The children of a lane after it moves from `current` to `target`. */
  function Rescale(cs: seq<Node>, current: Rect, target: Rect, d: LayoutDirection): (r: seq<Node>)
    ensures |r| == |cs|
  {
    var rects := Layout(Mains(cs, d), current, target, d);
    seq(|cs|, i requires 0 <= i < |cs| => SetArea(cs[i], rects[i]))
  }

  /** Children given the slots of `Layout` one by one are the rescaled children. */
  lemma RescaleIs(cs: seq<Node>, current: Rect, target: Rect, d: LayoutDirection, cs': seq<Node>)
    requires |cs'| == |cs|
    requires forall i :: 0 <= i < |cs| ==> cs'[i] == SetArea(cs[i], Layout(Mains(cs, d), current, target, d)[i])
    ensures cs' == Rescale(cs, current, target, d)
  {
  }

  /** The children's areas after `Rescale` are the slots of `Layout`. */
  lemma RescaleAreas(cs: seq<Node>, current: Rect, target: Rect, d: LayoutDirection)
    ensures forall i :: 0 <= i < |cs| ==> Rescale(cs, current, target, d)[i].area == Layout(Mains(cs, d), current, target, d)[i]
  {
  }

  /** After `set_logical_area` the children tile the target along the axis. */
  lemma RescaleTiles(cs: seq<Node>, current: Rect, target: Rect, d: LayoutDirection)
    requires |cs| > 0
    ensures var r := Rescale(cs, current, target, d);
      && Start(r[0].area, d) == Start(target, d)
      && (forall i :: 0 < i < |r| ==> Start(r[i].area, d) == Start(r[i - 1].area, d) + Main(r[i - 1].area, d))
      && Sum(Mains(r, d)) == Main(target, d)
  {
    var lay := Layout(Mains(cs, d), current, target, d);
    LayoutTiles(Mains(cs, d), current, target, d);
    RescaleAreas(cs, current, target, d);
    assert Mains(Rescale(cs, current, target, d), d) == Extents(lay, d);
  }

  // ---------------------------------------------------------------------
  // relayout (src/parent_container.cpp:501-543)

  /** How much each child grows: floor(slack / count), nothing for an empty lane. */
  function Slack(cs: seq<Node>, placement: Rect, d: LayoutDirection): int
  {
    if |cs| == 0 then 0 else FloorDiv(Main(placement, d) - Sum(Mains(cs, d)), |cs|)
  }

  /** A child's area grown by `grow` along the axis and given the placement's size across it. */
  function Stretch(r: Rect, placement: Rect, d: LayoutDirection, grow: int): (s: Rect)
    ensures Start(s, d) == Start(r, d) && Main(s, d) == Main(r, d) + grow
  {
    if d == Horizontal then Rect(r.x, r.y, r.width + grow, placement.height)
    else Rect(r.x, r.y, placement.width, r.height + grow)
  }

  /** The first pass of `relayout`: every child stretched by the same amount. */
  function Stretched(cs: seq<Node>, placement: Rect, d: LayoutDirection): (r: seq<Node>)
    ensures |r| == |cs|
  {
    var grow := Slack(cs, placement, d);
    seq(|cs|, i requires 0 <= i < |cs| => SetArea(cs[i], Stretch(cs[i].area, placement, d, grow)))
  }

  /** `relayout`: stretch, then lay out again in the same placement. */
  function Relaid(cs: seq<Node>, placement: Rect, d: LayoutDirection): (r: seq<Node>)
    ensures |r| == |cs|
  {
    Rescale(Stretched(cs, placement, d), placement, placement, d)
  }

  /**
   * After `relayout` the children tile the placement along the axis, and
   * every child but the last has grown by the same slack; the last one takes
   * up the rounding.
   */
  lemma RelaidTiles(cs: seq<Node>, placement: Rect, d: LayoutDirection)
    requires |cs| > 0
    ensures var r := Relaid(cs, placement, d);
      && Start(r[0].area, d) == Start(placement, d)
      && (forall i :: 0 < i < |r| ==> Start(r[i].area, d) == Start(r[i - 1].area, d) + Main(r[i - 1].area, d))
      && Sum(Mains(r, d)) == Main(placement, d)
  {
    RescaleTiles(Stretched(cs, placement, d), placement, placement, d);
  }

  /** Every child but the last grows by the same slack; the last one takes up the rounding. */
  lemma RelaidGrowth(cs: seq<Node>, placement: Rect, d: LayoutDirection, i: nat)
    requires i < |cs| - 1
    ensures Main(Relaid(cs, placement, d)[i].area, d) == Main(cs[i].area, d) + Slack(cs, placement, d)
  {
    var st := Stretched(cs, placement, d);
    var ms := Mains(st, d);
    var lay := Layout(ms, placement, placement, d);
    LayoutTiles(ms, placement, placement, d);
    RescaleAreas(st, placement, placement, d);
    StretchedMains(cs, placement, d);
    ScaleSameSize(ms[i], Main(placement, d), d);
    assert Main(lay[i], d) == Scale(ms[i], Main(placement, d), Main(placement, d), d);
  }

  lemma StretchedMains(cs: seq<Node>, placement: Rect, d: LayoutDirection)
    ensures forall i :: 0 <= i < |cs| ==>
      Mains(Stretched(cs, placement, d), d)[i] == Main(cs[i].area, d) + Slack(cs, placement, d)
  {
  }

  // ---------------------------------------------------------------------
  // remove (src/parent_container.cpp:425-448)

  /** `remove_if(content == node)`: every child with that identity goes, the rest keep their order. */
  function Without(cs: seq<Node>, id: nat): (r: seq<Node>)
    ensures |r| <= |cs|
    ensures forall n :: n in r <==> n in cs && n.id != id
  {
    if |cs| == 0 then []
    else if cs[|cs| - 1].id == id then Without(cs[..|cs| - 1], id)
    else Without(cs[..|cs| - 1], id) + [cs[|cs| - 1]]
  }

  /** Removing distributes over concatenation, so the survivors keep their relative order. */
  lemma {:induction false} WithoutAppend(a: seq<Node>, b: seq<Node>, id: nat)
    ensures Without(a + b, id) == Without(a, id) + Without(b, id)
    decreases |b|
  {
    if |b| == 0 {
      assert a + b == a;
    } else {
      var n := |b| - 1;
      var tail := if b[n].id == id then [] else [b[n]];
      assert (a + b)[..|a + b| - 1] == a + b[..n] && (a + b)[|a + b| - 1] == b[n];
      WithoutAppend(a, b[..n], id);
      var wa, wb := Without(a, id), Without(b[..n], id);
      assert wa + (wb + tail) == wa + wb + tail;
    }
  }

  /** A lane left with a single lane child takes that child's children and direction. */
  datatype Absorption = Absorption(children: seq<Node>, direction: LayoutDirection)

  function Absorbed(cs: seq<Node>, d: LayoutDirection): (r: Absorption)
    ensures |cs| == 1 && cs[0].Lane? ==> r == Absorption(cs[0].children, cs[0].direction)
    ensures !(|cs| == 1 && cs[0].Lane?) ==> r == Absorption(cs, d)
  {
    if |cs| == 1 && cs[0].Lane? then Absorption(cs[0].children, cs[0].direction) else Absorption(cs, d)
  }

  // ---------------------------------------------------------------------
  // Lookups (src/parent_container.cpp:367-403, 450-489)

  /** `get_index_of_node`: the first child with that identity, or -1. */
  function IndexOf(cs: seq<Node>, id: nat): (i: int)
    ensures -1 <= i < |cs|
    ensures i == -1 <==> forall k :: 0 <= k < |cs| ==> cs[k].id != id
    ensures i >= 0 ==> cs[i].id == id && forall k :: 0 <= k < i ==> cs[k].id != id
  {
    if |cs| == 0 then -1
    else if cs[0].id == id then 0
    else
      var j := IndexOf(cs[1..], id);
      if j == -1 then -1 else j + 1
  }

  /** `at(i)`: the child at `i`, nothing past the end. */
  function At(cs: seq<Node>, i: nat): (r: Option<Node>)
    ensures r.Some? <==> i < |cs|
    ensures r.Some? ==> r.value == cs[i]
  {
    if i >= |cs| then Option.None else Some(cs[i])
  }

  /** `get_min_width`: a leaf needs 50; a lane the sum over its children, whatever its direction. */
  function MinWidth(n: Node): nat
    decreases n
  {
    match n
    case Leaf(_, _) => 50
    case Lane(_, _, _, cs) => SumMin(seq(|cs|, i requires 0 <= i < |cs| => MinWidth(cs[i])))
  }

  /** `get_min_height`, likewise. */
  function MinHeight(n: Node): nat
    decreases n
  {
    match n
    case Leaf(_, _) => 50
    case Lane(_, _, _, cs) => SumMin(seq(|cs|, i requires 0 <= i < |cs| => MinHeight(cs[i])))
  }

  function SumMin(s: seq<nat>): nat
  {
    if |s| == 0 then 0 else SumMin(s[..|s| - 1]) + s[|s| - 1]
  }

  /** Every leaf of a lane adds its 50 to the minimum: a lane needs 50 per leaf below it. */
  function LeafCount(n: Node): nat
    decreases n
  {
    match n
    case Leaf(_, _) => 1
    case Lane(_, _, _, cs) => SumMin(seq(|cs|, i requires 0 <= i < |cs| => LeafCount(cs[i])))
  }

  lemma {:induction false} SumMinScale(s: seq<nat>, t: seq<nat>, k: nat)
    requires |s| == |t|
    requires forall i :: 0 <= i < |s| ==> s[i] == k * t[i]
    ensures SumMin(s) == k * SumMin(t)
  {
    if |s| > 0 {
      var n := |s| - 1;
      SumMinScale(s[..n], t[..n], k);
    }
  }

  lemma {:induction false} MinSizePerLeaf(n: Node)
    ensures MinWidth(n) == 50 * LeafCount(n) && MinHeight(n) == 50 * LeafCount(n)
    decreases n
  {
    match n
    case Leaf(_, _) =>
    case Lane(_, _, _, cs) =>
      var w := seq(|cs|, i requires 0 <= i < |cs| => MinWidth(cs[i]));
      var h := seq(|cs|, i requires 0 <= i < |cs| => MinHeight(cs[i]));
      var c := seq(|cs|, i requires 0 <= i < |cs| => LeafCount(cs[i]));
      forall i | 0 <= i < |cs|
        ensures w[i] == 50 * c[i] && h[i] == 50 * c[i]
      {
        MinSizePerLeaf(cs[i]);
      }
      SumMinScale(w, c, 50);
      SumMinScale(h, c, 50);
  }

  /**
   * `get_nth_window(i)`: nothing past the end; the child itself when it is a
   * leaf; otherwise the first window of that lane, looked up the same way.
   */
  function NthWindow(n: Node, i: nat): (r: Option<nat>)
    decreases n
  {
    if !n.Lane? || i >= |n.children| then Option.None
    else if n.children[i].Leaf? then Some(n.children[i].id)
    else NthWindow(n.children[i], 0)
  }

  /** The leaf reached by always entering the first child: `get_nth_window(0)` of a lane. */
  function FirstLeafPath(n: Node): (p: seq<nat>)
    decreases n
  {
    if n.Lane? && |n.children| > 0 && n.children[0].Lane? then [0] + FirstLeafPath(n.children[0])
    else [0]
  }

  /** `NodeAt` through a first step. */
  lemma {:induction false} NodeAtCons(n: Node, i: nat, q: seq<nat>)
    requires n.Lane? && i < |n.children|
    ensures ValidPath(n, [i] + q) <==> ValidPath(n.children[i], q)
    ensures NodeAt(n, [i] + q) == NodeAt(n.children[i], q)
    decreases |q|
  {
    if |q| == 0 {
      assert Init([i]) == [];
    } else {
      assert Init([i] + q) == [i] + Init(q);
      NodeAtCons(n, i, Init(q));
    }
  }

  /**
   * `get_nth_window(i)` finds a window exactly when some leaf is reached by
   * entering child `i` and then first children, and that leaf is the one found.
   */
  lemma {:induction false} NthWindowFollowsFirstChildren(n: Node, i: nat)
    requires n.Lane? && i < |n.children|
    ensures var p := [i] + (if n.children[i].Lane? then FirstLeafPath(n.children[i]) else []);
      var m := NthWindow(n, i);
      m.Some? <==> ValidPath(n, p) && NodeAt(n, p).Leaf?
    ensures var p := [i] + (if n.children[i].Lane? then FirstLeafPath(n.children[i]) else []);
      NthWindow(n, i).Some? ==> NthWindow(n, i).value == NodeAt(n, p).id
    decreases n
  {
    var c := n.children[i];
    assert Init([i]) == [];
    if c.Lane? {
      var p := [i] + FirstLeafPath(c);
      NodeAtCons(n, i, FirstLeafPath(c));
      if |c.children| == 0 {
        assert FirstLeafPath(c) == [0];
        assert Init([0]) == [];
      } else {
        NthWindowFollowsFirstChildren(c, 0);
        if c.children[0].Lane? {
        } else {
          assert FirstLeafPath(c) == [0];
          assert Init([0]) == [];
        }
      }
    }
  }

  /**
   * `find_where(f)`: first the lane's own children in order, then, in order,
   * what each child lane finds.
   */
  function FindWhere(n: Node, f: Node -> bool): (r: Option<Node>)
    decreases n, 1
  {
    if !n.Lane? then Option.None
    else
      var i := FirstMatch(n.children, f);
      if i < |n.children| then Some(n.children[i]) else FindBelow(n, f, 0)
  }

  /** The index of the first child satisfying `f`, or the count when there is none. */
  function FirstMatch(cs: seq<Node>, f: Node -> bool): (i: nat)
    ensures i <= |cs|
    ensures i < |cs| ==> f(cs[i])
    ensures forall k :: 0 <= k < i ==> !f(cs[k])
  {
    if |cs| == 0 then 0 else if f(cs[0]) then 0 else 1 + FirstMatch(cs[1..], f)
  }

  /** The recursive scan of `find_where` over the children from `i` on. */
  function FindBelow(n: Node, f: Node -> bool, i: nat): (r: Option<Node>)
    requires n.Lane?
    decreases n, 0, |n.children| - i
  {
    if i >= |n.children| then Option.None
    else
      var below := if n.children[i].Lane? then FindWhere(n.children[i], f) else Option.None;
      if below.Some? then below else FindBelow(n, f, i + 1)
  }

  /** The containers strictly below `n`. */
  function Below(n: Node): set<Node>
    decreases n
  {
    if !n.Lane? then {}
    else
      (set i | 0 <= i < |n.children| :: n.children[i]) +
      (set i, m | 0 <= i < |n.children| && m in Below(n.children[i]) :: m)
  }

  /**
   * Whatever `find_where` returns satisfies `f` and lies strictly below the
   * lane; it returns nothing only when nothing strictly below satisfies `f`.
   */
  lemma {:induction false} FindWhereSound(n: Node, f: Node -> bool)
    ensures FindWhere(n, f).Some? ==> f(FindWhere(n, f).value) && FindWhere(n, f).value in Below(n)
    ensures FindWhere(n, f).None? <==> forall m :: m in Below(n) ==> !f(m)
    decreases n, 1
  {
    if n.Lane? {
      var i := FirstMatch(n.children, f);
      if i == |n.children| {
        FindBelowSound(n, f, 0);
      }
    }
  }

  lemma {:induction false} FindBelowSound(n: Node, f: Node -> bool, i: nat)
    requires n.Lane?
    ensures FindBelow(n, f, i).Some? ==> f(FindBelow(n, f, i).value) && FindBelow(n, f, i).value in Below(n)
    ensures FindBelow(n, f, i).None? <==>
      forall k, m :: i <= k < |n.children| && m in Below(n.children[k]) ==> !f(m)
    decreases n, 0, |n.children| - i
  {
    if i < |n.children| {
      var c := n.children[i];
      FindWhereSound(c, f);
      FindBelowSound(n, f, i + 1);
    }
  }

  // ---------------------------------------------------------------------
  // A lane's operations on the lane as a value, for use inside a tree

  /** The identities of the children, in order. */
  function Ids(cs: seq<Node>): (r: seq<nat>)
    ensures |r| == |cs|
  {
    seq(|cs|, i requires 0 <= i < |cs| => cs[i].id)
  }

  lemma RelaidKeepsIds(cs: seq<Node>, placement: Rect, d: LayoutDirection)
    ensures Ids(Relaid(cs, placement, d)) == Ids(cs)
  {
    var st := Stretched(cs, placement, d);
    assert Ids(st) == Ids(cs);
    assert Ids(Rescale(st, placement, placement, d)) == Ids(st);
  }

  lemma MakeRoomKeepsIds(cs: seq<Node>, placement: Rect, d: LayoutDirection, index: int)
    ensures Ids(MakeRoom(cs, placement, d, index)) == Ids(cs)
  {
    assert forall i :: 0 <= i < |cs| ==> MakeRoom(cs, placement, d, index)[i].id == cs[i].id;
  }

  /** `graft_existing(node, index)` on a lane: room is made, the node placed in it, the lane laid out again. */
  function Grafted(lane: Node, node: Node, index: nat): (m: Node)
    requires lane.Lane? && index <= |lane.children|
    ensures m.Lane? && m.id == lane.id && m.area == lane.area && m.direction == lane.direction
    ensures |m.children| == |lane.children| + 1
  {
    var room := RoomFor(lane.children, lane.area, lane.direction, index);
    var made := MakeRoom(lane.children, lane.area, lane.direction, index);
    lane.(children := Relaid(made[..index] + [SetArea(node, room)] + made[index..], lane.area, lane.direction))
  }

  /** After a graft the lane holds its children in their order with the node at `index`. */
  lemma GraftedIds(lane: Node, node: Node, index: nat)
    requires lane.Lane? && index <= |lane.children|
    ensures Ids(Grafted(lane, node, index).children) == Ids(lane.children)[..index] + [node.id] + Ids(lane.children)[index..]
  {
    var cs, a, d := lane.children, lane.area, lane.direction;
    var made := MakeRoom(cs, a, d, index);
    var inserted := made[..index] + [SetArea(node, RoomFor(cs, a, d, index))] + made[index..];
    RelaidKeepsIds(inserted, a, d);
    MakeRoomKeepsIds(cs, a, d, index);
    IdsOfSplice(made, index, SetArea(node, RoomFor(cs, a, d, index)));
  }

  /** The identities of a sequence with one node spliced in at `index`. */
  lemma IdsOfSplice(cs: seq<Node>, index: nat, x: Node)
    requires index <= |cs|
    ensures Ids(cs[..index] + [x] + cs[index..]) == Ids(cs)[..index] + [x.id] + Ids(cs)[index..]
  {
    var spliced := cs[..index] + [x] + cs[index..];
    var want := Ids(cs)[..index] + [x.id] + Ids(cs)[index..];
    forall k | 0 <= k < |spliced|
      ensures Ids(spliced)[k] == want[k]
    {
      if k < index {
        assert spliced[k] == cs[k];
      } else if k > index {
        assert spliced[k] == cs[k - 1];
      }
    }
  }

  /** Grafting at index 0 puts the node first. */
  lemma GraftedAtStart(lane: Node, node: Node)
    requires lane.Lane?
    ensures Ids(Grafted(lane, node, 0).children) == [node.id] + Ids(lane.children)
  {
    var ids := Ids(lane.children);
    GraftedIds(lane, node, 0);
    assert ids[..0] == [] && ids[0..] == ids;
  }

  /** Grafting at the child count puts the node last. */
  lemma GraftedAtEnd(lane: Node, node: Node)
    requires lane.Lane?
    ensures Ids(Grafted(lane, node, |lane.children|).children) == Ids(lane.children) + [node.id]
  {
    var ids := Ids(lane.children);
    GraftedIds(lane, node, |lane.children|);
    assert ids[..|ids|] == ids && ids[|ids|..] == [];
  }

  /**
   * After a graft the lane holds its children in their order with the node
   * at `index`, and they tile the lane along its axis.
   */
  lemma GraftedPlacesNode(lane: Node, node: Node, index: nat)
    requires lane.Lane? && index <= |lane.children|
    ensures var m := Grafted(lane, node, index);
      && Ids(m.children) == Ids(lane.children)[..index] + [node.id] + Ids(lane.children)[index..]
      && Start(m.children[0].area, m.direction) == Start(m.area, m.direction)
      && (forall i :: 0 < i < |m.children| ==>
            Start(m.children[i].area, m.direction) == Start(m.children[i - 1].area, m.direction) + Main(m.children[i - 1].area, m.direction))
      && Sum(Mains(m.children, m.direction)) == Main(m.area, m.direction)
  {
    var cs, a, d := lane.children, lane.area, lane.direction;
    var made := MakeRoom(cs, a, d, index);
    var inserted := made[..index] + [SetArea(node, RoomFor(cs, a, d, index))] + made[index..];
    GraftedIds(lane, node, index);
    RelaidTiles(inserted, a, d);
  }

  /**
   * `remove(node)` on a lane: the children with that identity go; a lone
   * surviving lane is absorbed; the lane is laid out again.
   */
  function Removed(lane: Node, id: nat): (m: Node)
    requires lane.Lane?
    ensures m.Lane? && m.id == lane.id && m.area == lane.area
  {
    var ab := Absorbed(Without(lane.children, id), lane.direction);
    Lane(lane.id, lane.area, ab.direction, Relaid(ab.children, lane.area, ab.direction))
  }

  /**
   * After a removal the lane holds the survivors in order, none of them the
   * removed container, and keeps its direction; when a single lane survives,
   * the lane holds that lane's children instead and takes its direction.
   */
  lemma RemovedContents(lane: Node, id: nat)
    requires lane.Lane?
    ensures var kept := Without(lane.children, id);
      var m := Removed(lane, id);
      && (|kept| == 1 && kept[0].Lane? ==> m.direction == kept[0].direction && Ids(m.children) == Ids(kept[0].children))
      && (!(|kept| == 1 && kept[0].Lane?) ==> m.direction == lane.direction && Ids(m.children) == Ids(kept) && id !in Ids(m.children))
  {
    var kept := Without(lane.children, id);
    var ab := Absorbed(kept, lane.direction);
    RelaidKeepsIds(ab.children, lane.area, ab.direction);
    if !(|kept| == 1 && kept[0].Lane?) {
      forall k | 0 <= k < |kept|
        ensures Ids(kept)[k] != id
      {
        assert kept[k] in kept;
      }
    }
  }

  /** `swap_nodes(first, second)` on a lane: the two exchange places and the lane is laid out again. */
  function Swapped(lane: Node, first: nat, second: nat): (m: Node)
    requires lane.Lane? && IndexOf(lane.children, first) >= 0 && IndexOf(lane.children, second) >= 0
    ensures m.Lane? && m.id == lane.id && m.area == lane.area && m.direction == lane.direction
  {
    var cs := lane.children;
    var i, j := IndexOf(cs, first), IndexOf(cs, second);
    lane.(children := Relaid(cs[j := cs[i]][i := cs[j]], lane.area, lane.direction))
  }

  /** After a swap the two identities have exchanged positions and nothing else has moved. */
  lemma SwappedExchanges(lane: Node, first: nat, second: nat)
    requires lane.Lane? && IndexOf(lane.children, first) >= 0 && IndexOf(lane.children, second) >= 0
    ensures var i, j := IndexOf(lane.children, first), IndexOf(lane.children, second);
      Ids(Swapped(lane, first, second).children) == Ids(lane.children)[j := first][i := second]
  {
    var cs := lane.children;
    var i, j := IndexOf(cs, first), IndexOf(cs, second);
    var swapped := cs[j := cs[i]][i := cs[j]];
    RelaidKeepsIds(swapped, lane.area, lane.direction);
    IdsOfExchange(cs, i, j);
    assert Swapped(lane, first, second).children == Relaid(swapped, lane.area, lane.direction);
  }

  lemma IdsOfExchange(cs: seq<Node>, i: nat, j: nat)
    requires i < |cs| && j < |cs|
    ensures Ids(cs[j := cs[i]][i := cs[j]]) == Ids(cs)[j := cs[i].id][i := cs[j].id]
  {
    var swapped := cs[j := cs[i]][i := cs[j]];
    var want := Ids(cs)[j := cs[i].id][i := cs[j].id];
    forall k | 0 <= k < |cs|
      ensures Ids(swapped)[k] == want[k]
    {
    }
  }
}
