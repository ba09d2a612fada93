// Directional navigation, moving, resizing and removal over the tiling tree
// (src/tiling_window_tree.cpp).
//
// The tree is the value `Container.Node`; a container is named by its path
// from the root. Identities within a tree are taken to be unique, so the
// index `get_index_of_node` finds for a container is the last step of its
// path.
module TilingWindowTrees {
  import opened Wrappers
  import opened Geometry
  import opened Container
  import opened LaneLayout

  // ---------------------------------------------------------------------
  // Direction helpers (src/tiling_window_tree.cpp:288-313)

  /** `from_direction`: up and down are vertical, left and right horizontal. */
  function FromDirection(dir: Direction): LayoutDirection
  {
    match dir
    case Up => Vertical
    case Down => Vertical
    case Left => Horizontal
    case Right => Horizontal
  }

  /** `is_negative_direction`: left and up. */
  predicate IsNegative(dir: Direction)
  {
    dir == Left || dir == Up
  }

  /** `is_vertical_direction`: up and down. */
  predicate IsVertical(dir: Direction)
  {
    dir == Up || dir == Down
  }

  /** The axis test written out in `handle_select`, `handle_resize` and the closest-window search. */
  predicate OnAxis(d: LayoutDirection, dir: Direction)
  {
    (IsVertical(dir) && d == Vertical) || (!IsVertical(dir) && d == Horizontal)
  }

  /**
   * The axis test agrees with `from_direction`, and a direction is fixed by
   * its axis and its sign.
   */
  lemma AxisAndSign(a: Direction, b: Direction, d: LayoutDirection)
    ensures OnAxis(d, a) <==> FromDirection(a) == d
    ensures FromDirection(a) == Vertical <==> IsVertical(a)
    ensures FromDirection(a) == FromDirection(b) && IsNegative(a) == IsNegative(b) ==> a == b
  {
  }

  // ---------------------------------------------------------------------
  // The leaves of a tree, in the order `foreach_node` visits them

  function LeafIds(n: Node): (r: seq<nat>)
    ensures n.Leaf? ==> r == [n.id]
    decreases n, 1
  {
    if n.Leaf? then [n.id] else LeafIdsFrom(n, 0)
  }

  function LeafIdsFrom(n: Node, i: nat): seq<nat>
    requires n.Lane?
    decreases n, 0, |n.children| - i
  {
    if i >= |n.children| then [] else LeafIds(n.children[i]) + LeafIdsFrom(n, i + 1)
  }

  /** Every lane has a leaf below it. */
  predicate Populated(n: Node)
    decreases n
  {
    n.Leaf? || (|n.children| > 0 && forall i :: 0 <= i < |n.children| ==> Populated(n.children[i]))
  }

  /** The leaves of a child are leaves of its lane. */
  lemma {:induction false} LeafIdsFromCover(n: Node, i: nat, k: nat)
    requires n.Lane? && i <= k < |n.children|
    ensures forall x :: x in LeafIds(n.children[k]) ==> x in LeafIdsFrom(n, i)
    decreases |n.children| - i
  {
    if i < k {
      LeafIdsFromCover(n, i + 1, k);
    }
  }

  /** The leaves below a container are leaves of the tree. */
  lemma {:induction false} LeafIdsAlongPath(t: Node, p: seq<nat>)
    requires ValidPath(t, p)
    ensures forall x :: x in LeafIds(NodeAt(t, p)) ==> x in LeafIds(t)
    decreases |p|
  {
    if |p| > 0 {
      LeafIdsAlongPath(t, Init(p));
      LeafIdsFromCover(NodeAt(t, Init(p)), 0, Last(p));
    }
  }

  /** Below a populated container every path leads to a populated container. */
  lemma {:induction false} PopulatedAlongPath(t: Node, p: seq<nat>)
    requires ValidPath(t, p) && Populated(t)
    ensures Populated(NodeAt(t, p))
    decreases |p|
  {
    if |p| > 0 {
      PopulatedAlongPath(t, Init(p));
    }
  }

  // ---------------------------------------------------------------------
  // get_closest_window_to_select_from_node (src/tiling_window_tree.cpp:315-350)

  /**
   * A leaf is its own answer. In a lane along the axis of a negative
   * direction the children are first searched from the last down to index 1
   * (the loop stops at `i != 0`); then all children are searched from the
   * first. An empty lane has no answer.
   */
  function Closest(n: Node, dir: Direction): Option<nat>
    decreases n, 2
  {
    if n.Leaf? then Some(n.id)
    else
      var back := if OnAxis(n.direction, dir) && IsNegative(dir) && |n.children| > 0
        then ClosestDown(n, dir, |n.children| - 1) else Option.None;
      if back.Some? then back else ClosestFrom(n, dir, 0)
  }

  /** The backward scan: children `i`, `i - 1`, ..., 1. */
  function ClosestDown(n: Node, dir: Direction, i: nat): Option<nat>
    requires n.Lane? && i < |n.children|
    decreases n, 1, i
  {
    if i == 0 then Option.None
    else
      var r := Closest(n.children[i], dir);
      if r.Some? then r else ClosestDown(n, dir, i - 1)
  }

  /** The forward scan: children `i`, `i + 1`, ... */
  function ClosestFrom(n: Node, dir: Direction, i: nat): Option<nat>
    requires n.Lane?
    decreases n, 1, |n.children| - i
  {
    if i >= |n.children| then Option.None
    else
      var r := Closest(n.children[i], dir);
      if r.Some? then r else ClosestFrom(n, dir, i + 1)
  }

  /**
   * The search as the source writes it: recursion into the children, the
   * backward loop and then the forward loop, each returning at the first hit.
   */
  method ClosestLeaf(n: Node, dir: Direction) returns (r: Option<nat>)
    ensures r == Closest(n, dir)
    decreases n
  {
    if n.Leaf? {
      return Some(n.id);
    }
    var cs := n.children;
    if OnAxis(n.direction, dir) && IsNegative(dir) && |cs| > 0 {
      var i := |cs| - 1;
      while i != 0
        invariant 0 <= i < |cs|
        invariant ClosestDown(n, dir, |cs| - 1) == ClosestDown(n, dir, i)
      {
        r := ClosestLeaf(cs[i], dir);
        if r.Some? {
          return;
        }
        i := i - 1;
      }
    }
    var i := 0;
    while i < |cs|
      invariant 0 <= i <= |cs|
      invariant ClosestFrom(n, dir, 0) == ClosestFrom(n, dir, i)
    {
      r := ClosestLeaf(cs[i], dir);
      if r.Some? {
        return;
      }
      i := i + 1;
    }
    return Option.None;
  }

  /**
   * What the search finds is a leaf below the container, and it finds one
   * whenever there is one.
   */
  lemma {:induction false} ClosestSound(n: Node, dir: Direction)
    ensures Closest(n, dir).Some? ==> Closest(n, dir).value in LeafIds(n)
    ensures Closest(n, dir).None? <==> |LeafIds(n)| == 0
    decreases n, 2
  {
    if n.Lane? {
      ClosestFromSound(n, dir, 0);
      if OnAxis(n.direction, dir) && IsNegative(dir) && |n.children| > 0 {
        ClosestDownSound(n, dir, |n.children| - 1);
      }
    }
  }

  lemma {:induction false} ClosestFromSound(n: Node, dir: Direction, i: nat)
    requires n.Lane?
    ensures ClosestFrom(n, dir, i).Some? ==> ClosestFrom(n, dir, i).value in LeafIdsFrom(n, i)
    ensures ClosestFrom(n, dir, i).None? <==> |LeafIdsFrom(n, i)| == 0
    decreases n, 1, |n.children| - i
  {
    if i < |n.children| {
      ClosestSound(n.children[i], dir);
      ClosestFromSound(n, dir, i + 1);
    }
  }

  lemma {:induction false} ClosestDownSound(n: Node, dir: Direction, i: nat)
    requires n.Lane? && i < |n.children|
    ensures ClosestDown(n, dir, i).Some? ==> ClosestDown(n, dir, i).value in LeafIdsFrom(n, 0)
    decreases n, 1, i
  {
    if i > 0 {
      ClosestSound(n.children[i], dir);
      LeafIdsFromCover(n, 0, i);
      ClosestDownSound(n, dir, i - 1);
    }
  }

  /**
   * The backward scan as evidently meant, down to index 0 inclusive: child 0
   * is reached last.
   */
  function ClosestDownAll(n: Node, dir: Direction, i: nat): Option<nat>
    requires n.Lane? && i < |n.children|
    decreases i
  {
    var r := Closest(n.children[i], dir);
    if r.Some? || i == 0 then r else ClosestDownAll(n, dir, i - 1)
  }

  /**
   * Stopping the backward scan at index 1 changes nothing: when children
   * `1..` hold no leaf, the forward scan finds child 0's answer first, which
   * is what a scan down to index 0 would have returned.
   */
  lemma {:induction false} ClosestBackwardScanComplete(n: Node, dir: Direction)
    requires n.Lane? && |n.children| > 0 && OnAxis(n.direction, dir) && IsNegative(dir)
    ensures Closest(n, dir) == ClosestDownAll(n, dir, |n.children| - 1)
  {
    DownAgrees(n, dir, |n.children| - 1);
    if ClosestDown(n, dir, |n.children| - 1).None? {
      NothingAbove(n, dir, 1);
    }
  }

  /** Children from `j` on that all find nothing leave the forward scan empty-handed. */
  lemma {:induction false} NothingAbove(n: Node, dir: Direction, j: nat)
    requires n.Lane? && 1 <= j && |n.children| > 0
    requires forall k :: j <= k < |n.children| ==> Closest(n.children[k], dir).None?
    ensures ClosestFrom(n, dir, j).None?
    decreases |n.children| - j
  {
    if j < |n.children| {
      NothingAbove(n, dir, j + 1);
    }
  }

  lemma {:induction false} DownAgrees(n: Node, dir: Direction, i: nat)
    requires n.Lane? && i < |n.children|
    ensures ClosestDown(n, dir, i).Some? ==> ClosestDownAll(n, dir, i) == ClosestDown(n, dir, i)
    ensures ClosestDown(n, dir, i).None? ==> ClosestDownAll(n, dir, i) == Closest(n.children[0], dir)
    ensures ClosestDown(n, dir, i).None? ==> forall k :: 1 <= k <= i ==> Closest(n.children[k], dir).None?
    decreases i
  {
    if i > 0 {
      DownAgrees(n, dir, i - 1);
    }
  }

  /** A lane whose first child finds nothing is searched on from the second. */
  lemma ClosestFromFirst(n: Node, dir: Direction)
    requires n.Lane? && |n.children| > 0
    ensures ClosestFrom(n, dir, 0) == (if Closest(n.children[0], dir).Some? then Closest(n.children[0], dir) else ClosestFrom(n, dir, 1))
  {
  }

  /** A populated container has a leaf below it. */
  lemma {:induction false} PopulatedHasLeaf(n: Node)
    requires Populated(n)
    ensures |LeafIds(n)| > 0
    decreases n
  {
    if n.Lane? {
      PopulatedHasLeaf(n.children[0]);
      assert LeafIdsFrom(n, 0) == LeafIds(n.children[0]) + LeafIdsFrom(n, 1);
    }
  }

  // ---------------------------------------------------------------------
  // handle_select (src/tiling_window_tree.cpp:353-398)

  /**
   * Climb from the container until an ancestor lane along the axis has a
   * child on the requested side of the one on the path; the answer is the
   * closest window in that child, even when it has none. The root and a
   * climb that reaches the root give nothing.
   */
  function Select(t: Node, p: seq<nat>, dir: Direction): Option<nat>
    requires ValidPath(t, p)
    decreases |p|
  {
    if |p| == 0 then Option.None
    else
      var parent := NodeAt(t, Init(p));
      var index := Last(p);
      if OnAxis(parent.direction, dir) && IsNegative(dir) && index > 0 then
        Closest(parent.children[index - 1], dir)
      else if OnAxis(parent.direction, dir) && !IsNegative(dir) && index < |parent.children| - 1 then
        Closest(parent.children[index + 1], dir)
      else Select(t, Init(p), dir)
  }

  /** The climb as the source writes it: `current_node` and `parent` move up until there is no parent. */
  method HandleSelect(t: Node, p: seq<nat>, dir: Direction) returns (r: Option<nat>)
    requires ValidPath(t, p)
    ensures r == Select(t, p, dir)
  {
    var current := p;
    while |current| > 0
      invariant ValidPath(t, current)
      invariant Select(t, p, dir) == Select(t, current, dir)
      decreases |current|
    {
      var parent := NodeAt(t, Init(current));
      var index := Last(current);
      if OnAxis(parent.direction, dir) {
        if IsNegative(dir) {
          if index > 0 {
            r := ClosestLeaf(parent.children[index - 1], dir);
            return;
          }
        } else if index < |parent.children| - 1 {
          r := ClosestLeaf(parent.children[index + 1], dir);
          return;
        }
      }
      current := Init(current);
    }
    return Option.None;
  }

  /** What the climb selects is a window of the tree. */
  lemma {:induction false} SelectSound(t: Node, p: seq<nat>, dir: Direction)
    requires ValidPath(t, p)
    ensures Select(t, p, dir).Some? ==> Select(t, p, dir).value in LeafIds(t)
    decreases |p|
  {
    if |p| > 0 {
      var q := Init(p);
      var parent := NodeAt(t, q);
      var index := Last(p);
      if OnAxis(parent.direction, dir) && IsNegative(dir) && index > 0 {
        SiblingSound(t, q, index - 1, dir);
      } else if OnAxis(parent.direction, dir) && !IsNegative(dir) && index < |parent.children| - 1 {
        SiblingSound(t, q, index + 1, dir);
      } else {
        SelectSound(t, q, dir);
      }
    }
  }

  lemma SiblingSound(t: Node, q: seq<nat>, i: nat, dir: Direction)
    requires ValidPath(t, q) && NodeAt(t, q).Lane? && i < |NodeAt(t, q).children|
    ensures Closest(NodeAt(t, q).children[i], dir).Some? ==> Closest(NodeAt(t, q).children[i], dir).value in LeafIds(t)
  {
    PathSnoc(t, q, i);
    ClosestSound(NodeAt(t, q).children[i], dir);
    LeafIdsAlongPath(t, q + [i]);
  }

  /** In a populated tree the closest window of any container exists. */
  lemma ClosestInPopulated(t: Node, q: seq<nat>, i: nat, dir: Direction)
    requires Populated(t) && ValidPath(t, q) && NodeAt(t, q).Lane? && i < |NodeAt(t, q).children|
    ensures Closest(NodeAt(t, q).children[i], dir).Some?
  {
    PathSnoc(t, q, i);
    PopulatedAlongPath(t, q + [i]);
    PopulatedHasLeaf(NodeAt(t, q).children[i]);
    ClosestSound(NodeAt(t, q).children[i], dir);
  }

  /**
   * In a tree without empty lanes, selecting left or up succeeds exactly when
   * the window has a left or top neighbour in the sense of
   * `has_left_neighbor` and `has_top_neighbor`.
   */
  lemma {:induction false} SelectBackwardIffNeighbor(t: Node, p: seq<nat>, dir: Direction)
    requires ValidPath(t, p) && Populated(t) && IsNegative(dir)
    ensures Select(t, p, dir).Some? <==> (|p| > 0 && HasNeighbor(t, p, FromDirection(dir), 0))
    decreases |p|
  {
    if |p| > 0 {
      var q := Init(p);
      var parent := NodeAt(t, q);
      var index := Last(p);
      if OnAxis(parent.direction, dir) && index > 0 {
        ClosestInPopulated(t, q, index - 1, dir);
      } else {
        SelectBackwardIffNeighbor(t, q, dir);
      }
    }
  }

  /**
   * In a tree without empty lanes, selecting right or down succeeds exactly
   * when the corrected right or bottom test holds.
   */
  lemma {:induction false} SelectForwardIffNeighbor(t: Node, p: seq<nat>, dir: Direction)
    requires ValidPath(t, p) && Populated(t) && !IsNegative(dir)
    ensures Select(t, p, dir).Some? <==> HasNeighborAfter(t, p, FromDirection(dir))
    decreases |p|
  {
    if |p| > 0 {
      var q := Init(p);
      var parent := NodeAt(t, q);
      var index := Last(p);
      if OnAxis(parent.direction, dir) && index < |parent.children| - 1 {
        ClosestInPopulated(t, q, index + 1, dir);
      } else {
        SelectForwardIffNeighbor(t, q, dir);
      }
    }
  }

  // ---------------------------------------------------------------------
  // handle_resize (src/tiling_window_tree.cpp:447-551)

  /**
   * The container whose lane a resize works in: none at the root or for the
   * only child of a lane along the axis; a lane across the axis passes the
   * request to its own parent.
   */
  function ResizeTarget(t: Node, p: seq<nat>, dir: Direction): (r: Option<seq<nat>>)
    requires ValidPath(t, p)
    ensures r.Some? ==> 0 < |r.value| <= |p| && ValidPath(t, r.value) && SiblingCount(t, r.value) > 1
    decreases |p|
  {
    if |p| == 0 then Option.None
    else
      var parent := NodeAt(t, Init(p));
      var mainAxis := OnAxis(parent.direction, dir);
      if mainAxis && |parent.children| == 1 then Option.None
      else if !mainAxis then ResizeTarget(t, Init(p), dir)
      else Some(p)
  }

  /**
   * A resize happens in the nearest ancestor lane along the axis (the
   * container itself included) of which the container on the path is not
   * the only child; a lane along the axis holding a lone child on the way
   * stops it.
   */
  lemma {:induction false} ResizeTargetFound(t: Node, p: seq<nat>, dir: Direction)
    requires ValidPath(t, p)
    ensures var r := ResizeTarget(t, p, dir);
      r.Some? ==> && r.value == p[..|r.value|] && OnAxis(NodeAt(t, Init(r.value)).direction, dir)
                  && forall k :: |r.value| < k <= |p| ==> ValidPath(t, p[..k]) && !OnAxis(NodeAt(t, Init(p[..k])).direction, dir)
    decreases |p|
  {
    if |p| > 0 {
      var parent := NodeAt(t, Init(p));
      if !OnAxis(parent.direction, dir) {
        ResizeTargetFound(t, Init(p), dir);
        var r := ResizeTarget(t, p, dir);
        if r.Some? {
          assert Init(p) == p[..|p| - 1];
          forall k | |r.value| < k <= |p|
            ensures ValidPath(t, p[..k]) && !OnAxis(NodeAt(t, Init(p[..k])).direction, dir)
          {
            if k < |p| {
              assert p[..k] == Init(p)[..k];
            } else {
              assert p[..k] == p;
            }
          }
        }
      } else {
        assert p[..|p|] == p;
      }
    }
  }

  /**
   * The sizes a resize proposes: `amount` for the container at `index`,
   * floor(-amount / (n - 1)) for each other (Dafny's division by a positive
   * divisor rounds down).
   */
  function Proposed(ms: seq<int>, index: nat, amount: int): (r: seq<int>)
    requires |ms| > 1
    ensures |r| == |ms|
  {
    var others := (-amount) / (|ms| - 1);
    seq(|ms|, i requires 0 <= i < |ms| => ms[i] + (if i == index then amount else others))
  }

  /**
   * The resize goes ahead as the source tests it: the proposed `int` size is
   * compared with an unsigned minimum, so a negative size turns into a huge
   * unsigned value and passes; only a size from 0 up to the minimum stops
   * the resize.
   */
  predicate Fits(sizes: seq<int>, mins: seq<nat>)
    requires |sizes| == |mins|
  {
    forall i :: 0 <= i < |sizes| ==> !(0 <= sizes[i] <= mins[i])
  }

  /** The evidently intended test: every proposed size is above its container's minimum. */
  predicate FitsCorrected(sizes: seq<int>, mins: seq<nat>)
    requires |sizes| == |mins|
  {
    forall i :: 0 <= i < |sizes| ==> sizes[i] > mins[i]
  }

  /**
   * The areas laid one after another from `origin` along the axis, each
   * keeping its own place across it.
   */
  function Restack(rects: seq<Rect>, d: LayoutDirection, origin: int, sizes: seq<int>): (r: seq<Rect>)
    requires |rects| == |sizes|
    ensures |r| == |rects|
    decreases |sizes|
  {
    if |sizes| == 0 then []
    else
      var n := |sizes| - 1;
      Restack(rects[..n], d, origin, sizes[..n]) + [Along(rects[n], d, origin + Sum(sizes[..n]), sizes[n])]
  }

  /** Area `k` of `Restack` starts after the sizes before it. */
  lemma {:induction false} RestackAt(rects: seq<Rect>, d: LayoutDirection, origin: int, sizes: seq<int>, k: nat)
    requires |rects| == |sizes| && k < |sizes|
    ensures Restack(rects, d, origin, sizes)[k] == Along(rects[k], d, origin + Sum(sizes[..k]), sizes[k])
    decreases |sizes|
  {
    var n := |sizes| - 1;
    if k < n {
      RestackAt(rects[..n], d, origin, sizes[..n], k);
      assert sizes[..n][..k] == sizes[..k];
    }
  }

  /** Restacking one more area: it starts where the previous one ends. */
  lemma RestackNext(rects: seq<Rect>, d: LayoutDirection, origin: int, sizes: seq<int>, k: nat)
    requires |rects| == |sizes| && k < |sizes|
    ensures Restack(rects[..k + 1], d, origin, sizes[..k + 1]) ==
      Restack(rects[..k], d, origin, sizes[..k]) + [Along(rects[k], d, origin + Sum(sizes[..k]), sizes[k])]
    ensures Sum(sizes[..k + 1]) == Sum(sizes[..k]) + sizes[k]
    ensures k == 0 ==> origin + Sum(sizes[..k]) == origin
    ensures k > 0 ==> var prev := Restack(rects[..k], d, origin, sizes[..k])[k - 1];
      origin + Sum(sizes[..k]) == Start(prev, d) + Main(prev, d)
  {
    assert sizes[..k + 1][..k] == sizes[..k];
    assert rects[..k + 1][..k] == rects[..k];
    SumPrefix(sizes, k);
    if k > 0 {
      RestackAt(rects[..k], d, origin, sizes[..k], k - 1);
      assert sizes[..k][..k - 1] == sizes[..k - 1];
      AlongParts(rects[k - 1], d, origin + Sum(sizes[..k - 1]), sizes[k - 1]);
      SumPrefix(sizes, k - 1);
    } else {
      assert sizes[..0] == [];
    }
  }

  /** Absorbing the leftover only lengthens the last restacked area. */
  lemma RestackAbsorb(rects: seq<Rect>, d: LayoutDirection, origin: int, sizes: seq<int>, lane: int)
    requires |rects| == |sizes| > 0
    ensures var n := |rects| - 1;
      var r := Restack(rects, d, origin, sizes);
      Restack(rects, d, origin, Absorb(sizes, lane)) == r[n := Along(r[n], d, Start(r[n], d), Main(r[n], d) + lane - Sum(sizes))]
  {
    var n := |sizes| - 1;
    var ab := Absorb(sizes, lane);
    assert ab[..n] == sizes[..n];
  }

  /**
   * The pending areas of a resize, or nothing when some container would get
   * a size from 0 up to its minimum: the proposed sizes, restacked, with the last
   * container taking up what rounding left over.
   */
  function ResizePlan(rects: seq<Rect>, mins: seq<nat>, d: LayoutDirection, index: nat, amount: int, lane: int): Option<seq<Rect>>
    requires |rects| == |mins| > 1 && index < |rects|
  {
    var sizes := Proposed(Extents(rects, d), index, amount);
    if Fits(sizes, mins) then Some(Restack(rects, d, Start(rects[0], d), Absorb(sizes, lane))) else Option.None
  }

  /** `ResizePlan` with the signed minimum test. */
  function ResizePlanCorrected(rects: seq<Rect>, mins: seq<nat>, d: LayoutDirection, index: nat, amount: int, lane: int): Option<seq<Rect>>
    requires |rects| == |mins| > 1 && index < |rects|
  {
    var sizes := Proposed(Extents(rects, d), index, amount);
    if FitsCorrected(sizes, mins) then Some(Restack(rects, d, Start(rects[0], d), Absorb(sizes, lane))) else Option.None
  }

  /**
   * With the signed test a resize goes ahead exactly when every proposed size
   * is above its minimum, every container but the last then gets more than
   * its minimum, and a resize it allows is the one the source makes.
   */
  lemma ResizeCorrectedKeepsMinimums(rects: seq<Rect>, mins: seq<nat>, d: LayoutDirection, index: nat, amount: int, lane: int)
    requires |rects| == |mins| > 1 && index < |rects|
    ensures var sizes := Proposed(Extents(rects, d), index, amount);
      ResizePlanCorrected(rects, mins, d, index, amount, lane).Some? <==> forall i :: 0 <= i < |rects| ==> sizes[i] > mins[i]
    ensures var plan := ResizePlanCorrected(rects, mins, d, index, amount, lane);
      plan.Some? ==>
        && plan == ResizePlan(rects, mins, d, index, amount, lane)
        && |plan.value| == |rects|
        && forall i :: 0 <= i < |rects| - 1 ==> Main(plan.value[i], d) > mins[i]
  {
    var sizes := Proposed(Extents(rects, d), index, amount);
    if FitsCorrected(sizes, mins) {
      ResizePlanTiles(rects, mins, d, index, amount, lane);
    }
  }

  /**
   * Growing the second of two 100-wide containers of a 200-wide lane by 150
   * (minimum 50 each): the first would be -50 wide, the source's test lets it
   * through, and the signed test refuses the resize.
   */
  lemma NegativeSizeResizes()
    ensures var rects := [Rect(0, 0, 100, 100), Rect(100, 0, 100, 100)];
      var plan := ResizePlan(rects, [50, 50], Horizontal, 1, 150, 200);
      && plan.Some? && Main(plan.value[0], Horizontal) == -50 && Main(plan.value[1], Horizontal) == 250
      && ResizePlanCorrected(rects, [50, 50], Horizontal, 1, 150, 200).None?
  {
    var rects := [Rect(0, 0, 100, 100), Rect(100, 0, 100, 100)];
    var sizes := Proposed(Extents(rects, Horizontal), 1, 150);
    assert sizes == [-50, 250];
    ResizePlanTiles(rects, [50, 50], Horizontal, 1, 150, 200);
    assert !FitsCorrected(sizes, [50, 50]) by {
      assert sizes[0] <= 50;
    }
  }

  /** Where a rectangle lies across the lane's axis. */
  function Across(r: Rect, d: LayoutDirection): (int, int)
  {
    if d == Horizontal then (r.y, r.height) else (r.x, r.width)
  }

  lemma AlongParts(r: Rect, d: LayoutDirection, pos: int, size: int)
    ensures Start(Along(r, d, pos, size), d) == pos && Main(Along(r, d, pos, size), d) == size
    ensures Across(Along(r, d, pos, size), d) == Across(r, d)
  {
  }

  /**
   * A resize is all or nothing, and when it happens the lane stays tiled:
   * the first container keeps its start, each next one starts where the
   * previous one ends, every container keeps its place across the axis, the
   * sizes add up to the lane's size, and every container but the last gets
   * exactly its proposed size.
   */
  lemma ResizePlanTiles(rects: seq<Rect>, mins: seq<nat>, d: LayoutDirection, index: nat, amount: int, lane: int)
    requires |rects| == |mins| > 1 && index < |rects|
    ensures var sizes := Proposed(Extents(rects, d), index, amount);
      ResizePlan(rects, mins, d, index, amount, lane).None? <==> exists i :: 0 <= i < |rects| && 0 <= sizes[i] <= mins[i]
    ensures var plan := ResizePlan(rects, mins, d, index, amount, lane);
      var sizes := Proposed(Extents(rects, d), index, amount);
      plan.Some? ==>
        && |plan.value| == |rects|
        && Start(plan.value[0], d) == Start(rects[0], d)
        && (forall i :: 0 < i < |rects| ==> Start(plan.value[i], d) == Start(plan.value[i - 1], d) + Main(plan.value[i - 1], d))
        && (forall i :: 0 <= i < |rects| ==> Across(plan.value[i], d) == Across(rects[i], d))
        && Sum(Extents(plan.value, d)) == lane
        && (forall i :: 0 <= i < |rects| - 1 ==> Main(plan.value[i], d) == sizes[i])
  {
    var sizes := Proposed(Extents(rects, d), index, amount);
    if Fits(sizes, mins) {
      RestackTiles(rects, d, Start(rects[0], d), Absorb(sizes, lane));
      AbsorbSums(sizes, lane);
      AbsorbKeeps(sizes, lane);
    }
  }

  /** Restacked areas follow one another from the origin and keep their sizes and their place across the axis. */
  lemma RestackTiles(rects: seq<Rect>, d: LayoutDirection, origin: int, sizes: seq<int>)
    requires |rects| == |sizes| > 0
    ensures var r := Restack(rects, d, origin, sizes);
      && Start(r[0], d) == origin
      && (forall i :: 0 < i < |rects| ==> Start(r[i], d) == Start(r[i - 1], d) + Main(r[i - 1], d))
      && (forall i :: 0 <= i < |rects| ==> Across(r[i], d) == Across(rects[i], d))
      && Extents(r, d) == sizes
  {
    var r := Restack(rects, d, origin, sizes);
    forall i | 0 <= i < |rects|
      ensures Start(r[i], d) == origin + Sum(sizes[..i]) && Main(r[i], d) == sizes[i]
      ensures Across(r[i], d) == Across(rects[i], d)
    {
      RestackAt(rects, d, origin, sizes, i);
      AlongParts(rects[i], d, origin + Sum(sizes[..i]), sizes[i]);
    }
    assert sizes[..0] == [];
    forall i | 0 < i < |rects|
      ensures Start(r[i], d) == Start(r[i - 1], d) + Main(r[i - 1], d)
    {
      SumPrefix(sizes, i - 1);
    }
  }

  /**
   * When the lane's containers filled it before, rounding leaves between 0
   * and n - 2 for the last container to take up.
   */
  lemma ResizeLeftover(ms: seq<int>, index: nat, amount: int)
    requires |ms| > 1 && index < |ms|
    ensures var n := |ms|;
      0 <= Sum(ms) - Sum(Proposed(ms, index, amount)) < n - 1
  {
    var n := |ms|;
    var others := (-amount) / (n - 1);
    var extra := seq(n, i requires 0 <= i < n => if i == index then amount else others);
    SumAdd(ms, extra, Proposed(ms, index, amount));
    SumOfExtra(extra, index, amount, others);
  }

  /** The proposed changes add up to `amount + (n - 1) * floor(-amount / (n - 1))`. */
  lemma SumOfExtra(extra: seq<int>, index: nat, amount: int, others: int)
    requires |extra| > 1 && index < |extra| && others == (-amount) / (|extra| - 1)
    requires forall i :: 0 <= i < |extra| ==> extra[i] == if i == index then amount else others
    ensures -(|extra| - 1) < Sum(extra) <= 0
  {
    SumSplit(extra, index, amount, others);
    var b := |extra| - 1;
    assert others == FloorDiv(-amount, b);
    assert others * b <= -amount < others * b + b;
  }

  lemma {:induction false} SumSplit(extra: seq<int>, index: nat, amount: int, others: int)
    requires index < |extra|
    requires forall i :: 0 <= i < |extra| ==> extra[i] == if i == index then amount else others
    ensures Sum(extra) == amount + others * (|extra| - 1)
    decreases |extra|
  {
    var n := |extra| - 1;
    if index < n {
      SumSplit(extra[..n], index, amount, others);
    } else if n > 0 {
      SumConst(extra[..n], others);
    }
  }

  lemma {:induction false} SumConst(s: seq<int>, c: int)
    requires forall i :: 0 <= i < |s| ==> s[i] == c
    ensures Sum(s) == c * |s|
    decreases |s|
  {
    if |s| > 0 {
      SumConst(s[..|s| - 1], c);
    }
  }

  /**
   * `handle_resize` once the lane is found: the pending areas, or nothing
   * when the loop abandons the resize; the last pending area takes up the
   * leftover.
   */
  method PlanResize(rects: seq<Rect>, mins: seq<nat>, d: LayoutDirection, index: nat, amount: int, lane: int)
    returns (r: Option<seq<Rect>>)
    requires |rects| == |mins| > 1 && index < |rects|
    ensures r == ResizePlan(rects, mins, d, index, amount, lane)
  {
    var n := |rects|;
    var pending, total, fits := PendingResizes(rects, mins, d, index, amount);
    if !fits {
      return Option.None;
    }
    var last := pending[n - 1];
    pending := pending[n - 1 := Along(last, d, Start(last, d), Main(last, d) + lane - total)];
    RestackAbsorb(rects, d, Start(rects[0], d), Proposed(Extents(rects, d), index, amount), lane);
    return Some(pending);
  }

  /**
   * The pending-resize loop as the source writes it: each container gets its
   * proposed size, each after the first starts where the previous pending
   * area ends, and the first container sized from 0 up to its minimum abandons the
   * resize.
   */
  method PendingResizes(rects: seq<Rect>, mins: seq<nat>, d: LayoutDirection, index: nat, amount: int)
    returns (pending: seq<Rect>, total: int, fits: bool)
    requires |rects| == |mins| > 1 && index < |rects|
    ensures var sizes := Proposed(Extents(rects, d), index, amount);
      && fits == Fits(sizes, mins)
      && (fits ==> pending == Restack(rects, d, Start(rects[0], d), sizes) && total == Sum(sizes))
  {
    var others := (-amount) / (|rects| - 1);
    ghost var sizes := Proposed(Extents(rects, d), index, amount);
    pending, total, fits := PendingLoop(rects, mins, d, index, amount, others, sizes);
  }

  /**
   * The loop of `PendingResizes`: `others` is the change for every container
   * but the resized one, and `sizes` the proposed sizes element by element.
   */
  method PendingLoop(rects: seq<Rect>, mins: seq<nat>, d: LayoutDirection, index: nat, amount: int, others: int, ghost sizes: seq<int>)
    returns (pending: seq<Rect>, total: int, fits: bool)
    requires |rects| == |mins| == |sizes| > 1 && index < |rects|
    requires forall k :: 0 <= k < |sizes| ==> sizes[k] == Main(rects[k], d) + (if k == index then amount else others)
    ensures fits == Fits(sizes, mins)
    ensures fits ==> pending == Restack(rects, d, Start(rects[0], d), sizes) && total == Sum(sizes)
  {
    var n := |rects|;
    ghost var origin := Start(rects[0], d);
    pending := [];
    total := 0;
    var i := 0;
    while i < n
      invariant 0 <= i <= n
      invariant forall k :: 0 <= k < i ==> !(0 <= sizes[k] <= mins[k])
      invariant total == Sum(sizes[..i])
      invariant pending == Restack(rects[..i], d, origin, sizes[..i])
    {
      var rect := rects[i];
      var size := Main(rect, d) + (if i == index then amount else others);
      var pos := NextStart(rects, pending, d, i);
      // `size <= min` with an unsigned `min`: a negative `size` converts to a huge unsigned value
      if 0 <= size <= mins[i] {
        Unfit(sizes, mins, i);
        return pending, total, false;
      }
      PendingStep(rects, d, origin, sizes, i, pending, pos, size);
      FitsExtend(sizes, mins, i);
      total := total + size;
      pending := pending + [Along(rect, d, pos, size)];
      i := i + 1;
    }
    assert rects[..n] == rects && sizes[..n] == sizes;
    return pending, total, true;
  }

  /** The sizes so far all pass the test, and so does the next one. */
  lemma FitsExtend(sizes: seq<int>, mins: seq<nat>, i: nat)
    requires |sizes| == |mins| && i < |sizes|
    requires forall k :: 0 <= k < i ==> !(0 <= sizes[k] <= mins[k])
    requires !(0 <= sizes[i] <= mins[i])
    ensures forall k :: 0 <= k < i + 1 ==> !(0 <= sizes[k] <= mins[k])
  {
  }

  /** One size from 0 up to its minimum stops the resize. */
  lemma Unfit(sizes: seq<int>, mins: seq<nat>, i: nat)
    requires |sizes| == |mins| && i < |sizes| && 0 <= sizes[i] <= mins[i]
    ensures !Fits(sizes, mins)
  {
  }

  /** The first container keeps its start; each next one starts where the previous pending area ends. */
  method NextStart(rects: seq<Rect>, pending: seq<Rect>, d: LayoutDirection, i: nat) returns (pos: int)
    requires i == |pending| && i < |rects|
    ensures i == 0 ==> pos == Start(rects[0], d)
    ensures i > 0 ==> pos == Start(pending[i - 1], d) + Main(pending[i - 1], d)
  {
    pos := Start(rects[i], d);
    if i != 0 {
      var prev := pending[i - 1];
      pos := Start(prev, d) + Main(prev, d);
    }
  }

  /** One more pending area extends the restacked prefix. */
  lemma PendingStep(rects: seq<Rect>, d: LayoutDirection, origin: int, sizes: seq<int>, i: nat, pending: seq<Rect>, pos: int, size: int)
    requires |rects| == |sizes| && i < |sizes| && origin == Start(rects[0], d)
    requires pending == Restack(rects[..i], d, origin, sizes[..i])
    requires i == 0 ==> pos == Start(rects[0], d)
    requires i > 0 ==> pos == Start(pending[i - 1], d) + Main(pending[i - 1], d)
    requires size == sizes[i]
    ensures pending + [Along(rects[i], d, pos, size)] == Restack(rects[..i + 1], d, origin, sizes[..i + 1])
    ensures Sum(sizes[..i + 1]) == Sum(sizes[..i]) + size
  {
    RestackNext(rects, d, origin, sizes, i);
  }

  /** The containers' areas. */
  function Areas(cs: seq<Node>): (r: seq<Rect>)
    ensures |r| == |cs|
  {
    seq(|cs|, i requires 0 <= i < |cs| => cs[i].area)
  }

  /** `get_min_height` or `get_min_width` of each container, whichever lies along the axis. */
  function Minimums(cs: seq<Node>, d: LayoutDirection): (r: seq<nat>)
    ensures |r| == |cs|
  {
    seq(|cs|, i requires 0 <= i < |cs| => if d == Vertical then MinHeight(cs[i]) else MinWidth(cs[i]))
  }

  /** `set_logical_area` of each container with its pending area. */
  function Applied(cs: seq<Node>, rects: seq<Rect>): (r: seq<Node>)
    requires |rects| == |cs|
    ensures |r| == |cs|
  {
    seq(|cs|, i requires 0 <= i < |cs| => SetArea(cs[i], rects[i]))
  }

  lemma AppliedKeeps(cs: seq<Node>, rects: seq<Rect>, d: LayoutDirection)
    requires |rects| == |cs|
    ensures Ids(Applied(cs, rects)) == Ids(cs) && Areas(Applied(cs, rects)) == rects
    ensures Mains(Applied(cs, rects), d) == Extents(rects, d)
  {
  }

  /** The pending areas of a resize request `jump` in direction `dir` for the container at `p`. */
  function ResizeOf(t: Node, p: seq<nat>, dir: Direction, jump: int): Option<seq<Rect>>
    requires ValidPath(t, p)
  {
    var target := ResizeTarget(t, p, dir);
    if target.None? then Option.None
    else
      var q := target.value;
      var lane := NodeAt(t, Init(q));
      var amount := if IsNegative(dir) then -jump else jump;
      ResizePlan(Areas(lane.children), Minimums(lane.children, lane.direction), lane.direction, Last(q), amount, Main(lane.area, lane.direction))
  }

  /** `handle_resize`: the tree with the lane's containers given their pending areas, or unchanged. */
  function Resize(t: Node, p: seq<nat>, dir: Direction, jump: int): Node
    requires ValidPath(t, p)
  {
    var plan := ResizeOf(t, p, dir, jump);
    if plan.None? then t
    else
      var q := ResizeTarget(t, p, dir).value;
      var lane := NodeAt(t, Init(q));
      ReplaceAt(t, Init(q), lane.(children := Applied(lane.children, plan.value)))
  }

  /**
   * After a resize the lane holds the same containers in the same order,
   * with the pending areas, which fill the lane along its axis.
   */
  lemma ResizeApplies(t: Node, p: seq<nat>, dir: Direction, jump: int)
    requires ValidPath(t, p)
    ensures ResizeOf(t, p, dir, jump).None? ==> Resize(t, p, dir, jump) == t
    ensures ResizeOf(t, p, dir, jump).Some? ==>
      var q := ResizeTarget(t, p, dir).value;
      var lane := NodeAt(t, Init(q));
      var r := Resize(t, p, dir, jump);
      && ValidPath(r, Init(q)) && NodeAt(r, Init(q)).Lane?
      && NodeAt(r, Init(q)).direction == lane.direction
      && Ids(NodeAt(r, Init(q)).children) == Ids(lane.children)
      && Areas(NodeAt(r, Init(q)).children) == ResizeOf(t, p, dir, jump).value
      && Sum(Mains(NodeAt(r, Init(q)).children, lane.direction)) == Main(lane.area, lane.direction)
  {
    var plan := ResizeOf(t, p, dir, jump);
    if plan.Some? {
      var q := ResizeTarget(t, p, dir).value;
      var lane := NodeAt(t, Init(q));
      var d := lane.direction;
      var amount := if IsNegative(dir) then -jump else jump;
      var cs := Applied(lane.children, plan.value);
      ReplaceAtFound(t, Init(q), lane.(children := cs));
      ResizePlanTiles(Areas(lane.children), Minimums(lane.children, d), d, Last(q), amount, Main(lane.area, d));
      AppliedKeeps(lane.children, plan.value, d);
    }
  }

  // ---------------------------------------------------------------------
  // Finding a container by identity (the source follows pointers)

  /**
   * The first path, in the order `foreach_node` visits, to a container with
   * identity `id`; a path found leads to a container with that identity.
   */
  function PathTo(n: Node, id: nat): (r: Option<seq<nat>>)
    ensures r.Some? ==> ValidPath(n, r.value) && NodeAt(n, r.value).id == id
    decreases n, 1
  {
    if n.id == id then Some([])
    else if n.Leaf? then Option.None
    else PathToFrom(n, id, 0)
  }

  function PathToFrom(n: Node, id: nat, i: nat): (r: Option<seq<nat>>)
    requires n.Lane?
    ensures r.Some? ==> ValidPath(n, r.value) && NodeAt(n, r.value).id == id
    decreases n, 0, |n.children| - i
  {
    if i >= |n.children| then Option.None
    else
      var below := PathTo(n.children[i], id);
      if below.Some? then
        NodeAtCons(n, i, below.value);
        Some([i] + below.value)
      else PathToFrom(n, id, i + 1)
  }

  /** Only the root has the empty path, so a container found below the root has a parent. */
  lemma PathToRoot(n: Node, id: nat)
    ensures PathTo(n, id) == Some([]) <==> n.id == id
  {
    if n.id != id && n.Lane? {
      PathToFromNotEmpty(n, id, 0);
    }
  }

  lemma {:induction false} PathToFromNotEmpty(n: Node, id: nat, i: nat)
    requires n.Lane?
    ensures PathToFrom(n, id, i).Some? ==> |PathToFrom(n, id, i).value| > 0
    decreases |n.children| - i
  {
    if i < |n.children| && PathTo(n.children[i], id).None? {
      PathToFromNotEmpty(n, id, i + 1);
    }
  }

  /** Every container reached by a path can be found by its identity. */
  lemma {:induction false} PathToFinds(t: Node, p: seq<nat>)
    requires ValidPath(t, p)
    ensures PathTo(t, NodeAt(t, p).id).Some?
    decreases t
  {
    var id := NodeAt(t, p).id;
    if |p| > 0 && t.id != id {
      assert t.Lane? by {
        ValidPathRootLane(t, p);
      }
      var i, rest := p[0], p[1..];
      assert p == [i] + rest;
      ValidPathRootLane(t, p);
      NodeAtCons(t, i, rest);
      PathToFinds(t.children[i], rest);
      PathToFromReaches(t, id, 0, i);
    }
  }

  lemma {:induction false} ValidPathRootLane(t: Node, p: seq<nat>)
    requires ValidPath(t, p) && |p| > 0
    ensures t.Lane? && p[0] < |t.children|
    decreases |p|
  {
    if |p| > 1 {
      ValidPathRootLane(t, Init(p));
    }
  }

  lemma {:induction false} PathToFromReaches(n: Node, id: nat, i: nat, k: nat)
    requires n.Lane? && i <= k < |n.children| && PathTo(n.children[k], id).Some?
    ensures PathToFrom(n, id, i).Some?
    decreases k - i
  {
    if i < k && PathTo(n.children[i], id).None? {
      PathToFromReaches(n, id, i + 1, k);
    }
  }

  /** Laying a container out again changes no path to any identity. */
  lemma {:induction false} PathToSetArea(n: Node, r: Rect, id: nat)
    ensures PathTo(SetArea(n, r), id) == PathTo(n, id)
    decreases n, 1
  {
    if n.Lane? && n.id != id {
      PathToFromSetArea(n, r, id, 0);
    }
  }

  lemma {:induction false} PathToFromSetArea(n: Node, r: Rect, id: nat, i: nat)
    requires n.Lane?
    ensures SetArea(n, r).Lane? && PathToFrom(SetArea(n, r), id, i) == PathToFrom(n, id, i)
    decreases n, 0, |n.children| - i
  {
    var m := SetArea(n, r);
    if i < |n.children| {
      var rects := Layout(Mains(n.children, n.direction), n.area, r, n.direction);
      assert m.children[i] == SetArea(n.children[i], rects[i]);
      PathToSetArea(n.children[i], rects[i], id);
      PathToFromSetArea(n, r, id, i + 1);
    }
  }

  // ---------------------------------------------------------------------
  // handle_remove (src/tiling_window_tree.cpp:553-572)

  /** Which lane a removal works in, and which of its children goes. */
  datatype Removal = Removal(lane: seq<nat>, gone: nat)

  /**
   * Nothing for the root; the container's parent when it is the only child
   * of a lane with a parent; otherwise the container itself, from its parent.
   */
  function RemovalOf(t: Node, p: seq<nat>): (r: Option<Removal>)
    requires ValidPath(t, p)
    ensures r.Some? ==> ValidPath(t, r.value.lane) && NodeAt(t, r.value.lane).Lane?
  {
    if |p| == 0 then Option.None
    else if SiblingCount(t, p) == 1 && |p| > 1 then
      assert ValidPath(t, Init(p)) && Init(Init(p)) == Init(p)[..|Init(p)| - 1];
      Some(Removal(Init(Init(p)), NodeAt(t, Init(p)).id))
    else Some(Removal(Init(p), NodeAt(t, p).id))
  }

  /**
   * The removed container is a child of the lane removed from, on the path:
   * the container itself, or the lane it was the only child of.
   */
  lemma RemovalOnPath(t: Node, p: seq<nat>)
    requires ValidPath(t, p) && |p| > 0
    ensures var r := RemovalOf(t, p).value;
      var k := |r.lane|;
      && k < |p| && r.lane == p[..k] && ValidPath(t, p[..k + 1]) && NodeAt(t, p[..k + 1]).id == r.gone
      && (k + 1 < |p| <==> SiblingCount(t, p) == 1 && |p| > 1)
  {
    if SiblingCount(t, p) == 1 && |p| > 1 {
      assert p[..|p| - 1] == Init(p);
      assert Init(Init(p)) == p[..|p| - 2];
    } else {
      assert p[..|p|] == p;
    }
  }

  /**
   * `r` is `t` after the lane at `q` dropped its child `gone`: the same lane
   * at the same place, holding the other children in their order, or the
   * children of the one remaining child when that is a lane it absorbed.
   */
  predicate RemovedFromAt(r: Node, t: Node, q: seq<nat>, gone: nat)
  {
    && ValidPath(t, q) && NodeAt(t, q).Lane?
    && ValidPath(r, q) && NodeAt(r, q).Lane? && NodeAt(r, q).id == NodeAt(t, q).id && NodeAt(r, q).area == NodeAt(t, q).area
    && var kept := Without(NodeAt(t, q).children, gone);
      if |kept| == 1 && kept[0].Lane? then
        NodeAt(r, q).direction == kept[0].direction && Ids(NodeAt(r, q).children) == Ids(kept[0].children)
      else
        NodeAt(r, q).direction == NodeAt(t, q).direction && Ids(NodeAt(r, q).children) == Ids(kept) && gone !in Ids(NodeAt(r, q).children)
  }

  /**
   * `handle_remove`: the lane found by `RemovalOf` drops the child and is
   * laid out again; the root itself is not removed. The root stays a lane.
   */
  function RemoveAt(t: Node, p: seq<nat>): (r: Node)
    requires ValidPath(t, p)
    ensures RemovalOf(t, p).None? ==> r == t
    ensures RemovalOf(t, p).Some? ==> RemovedFromAt(r, t, RemovalOf(t, p).value.lane, RemovalOf(t, p).value.gone)
    ensures t.Lane? ==> r.Lane? && r.id == t.id && r.area == t.area
  {
    var rm := RemovalOf(t, p);
    if rm.None? then t
    else
      var lane := NodeAt(t, rm.value.lane);
      var m := Removed(lane, rm.value.gone);
      ReplaceAtFound(t, rm.value.lane, m);
      RemovedContents(lane, rm.value.gone);
      if |rm.value.lane| > 0 then ReplaceAtRoot(t, rm.value.lane, m); ReplaceAt(t, rm.value.lane, m)
      else ReplaceAt(t, rm.value.lane, m)
  }

  // ---------------------------------------------------------------------
  // transfer_node (src/tiling_window_tree.cpp:574-587)

  /** The path to the lane holding the container with identity `id`: nothing for the root or a missing container. */
  function ParentOf(t: Node, id: nat): (r: Option<seq<nat>>)
    ensures r.Some? ==> ValidPath(t, r.value) && NodeAt(t, r.value).Lane? && IndexOf(NodeAt(t, r.value).children, id) >= 0
  {
    var q := PathTo(t, id);
    if q.None? || |q.value| == 0 then Option.None
    else
      assert NodeAt(t, Init(q.value)).children[Last(q.value)].id == id;
      Some(Init(q.value))
  }

  /**
   * `r` is `t` where the lane at `q`, which holds `to`, now holds `moving`
   * immediately after `to`, its other children in their order.
   */
  predicate GraftedAfterAt(r: Node, t: Node, q: seq<nat>, moving: Node, to: nat)
  {
    && ValidPath(t, q) && NodeAt(t, q).Lane? && IndexOf(NodeAt(t, q).children, to) >= 0
    && ValidPath(r, q) && NodeAt(r, q).Lane?
    && var before, i := Ids(NodeAt(t, q).children), IndexOf(NodeAt(t, q).children, to) + 1;
      Ids(NodeAt(r, q).children) == before[..i] + [moving.id] + before[i..]
  }

  /**
   * The second half of `transfer_node`: graft `moving` into the lane holding
   * `to`, just after `to`. Nothing when `to` is missing or is the root.
   */
  function GraftAfter(t: Node, moving: Node, to: nat): (r: Option<Node>)
    ensures r.Some? <==> ParentOf(t, to).Some?
    ensures r.Some? ==> GraftedAfterAt(r.value, t, ParentOf(t, to).value, moving, to)
  {
    var q := ParentOf(t, to);
    if q.None? then Option.None
    else
      var parent := NodeAt(t, q.value);
      var g := Grafted(parent, moving, IndexOf(parent.children, to) + 1);
      ReplaceAtFound(t, q.value, g);
      GraftedIds(parent, moving, IndexOf(parent.children, to) + 1);
      Some(ReplaceAt(t, q.value, g))
  }

  /** In the lane that received it, the moved container comes right after `to`. */
  lemma GraftAfterPlaces(r: Node, t: Node, q: seq<nat>, moving: Node, to: nat)
    requires GraftedAfterAt(r, t, q, moving, to)
    ensures var index := IndexOf(NodeAt(t, q).children, to);
      Ids(NodeAt(r, q).children)[index] == to && Ids(NodeAt(r, q).children)[index + 1] == moving.id
  {
    var index := IndexOf(NodeAt(t, q).children, to);
    InsertedKeepsBefore(Ids(NodeAt(t, q).children), index + 1, moving.id, index);
  }

  lemma InsertedKeepsBefore(s: seq<nat>, i: nat, x: nat, k: nat)
    requires k < i <= |s|
    ensures (s[..i] + [x] + s[i..])[k] == s[k]
  {
  }

  /**
   * `transfer_node(node, to)`: remove the node, then graft it into `to`'s
   * parent as it stands after the removal (a lane may have been absorbed),
   * just after `to`. Nothing for the root.
   */
  function Transfer(t: Node, p: seq<nat>, to: nat): Option<Node>
    requires ValidPath(t, p)
  {
    if |p| == 0 then Option.None else GraftAfter(RemoveAt(t, p), NodeAt(t, p), to)
  }

  // ---------------------------------------------------------------------
  // handle_move (src/tiling_window_tree.cpp:400-445)

  /** The traversal `handle_move` reports. */
  datatype MoveResult = Invalid | Insert(target: nat) | Prepend | Append

  /**
   * Next to the window the same selection would reach; failing that, a move
   * out of a child of the root along the root's axis is refused; otherwise
   * to the start of the root for left and up, to its end for right and down.
   */
  function MoveKind(t: Node, p: seq<nat>, dir: Direction): MoveResult
    requires ValidPath(t, p) && |p| > 0
  {
    var sel := Select(t, p, dir);
    if sel.Some? then Insert(sel.value)
    else if |p| == 1 && t.Lane? && FromDirection(dir) == t.direction then Invalid
    else if IsNegative(dir) then Prepend else Append
  }

  /**
   * In a tree without empty lanes, a move goes next to a window exactly when
   * the container has a neighbour that way, and that window is in the tree.
   */
  lemma MoveInsertsIffNeighbor(t: Node, p: seq<nat>, dir: Direction)
    requires ValidPath(t, p) && |p| > 0 && Populated(t)
    ensures MoveKind(t, p, dir).Insert? <==>
      if IsNegative(dir) then HasNeighbor(t, p, FromDirection(dir), 0) else HasNeighborAfter(t, p, FromDirection(dir))
    ensures MoveKind(t, p, dir).Insert? ==> MoveKind(t, p, dir).target in LeafIds(t)
  {
    if IsNegative(dir) {
      SelectBackwardIffNeighbor(t, p, dir);
    } else {
      SelectForwardIffNeighbor(t, p, dir);
    }
    SelectSound(t, p, dir);
  }

  /**
   * The new root of a move out of the root across its axis: a lane over the
   * old root's area, in the direction of the move, holding the old root.
   * The source then recomputes the root's area from the output's area and
   * gaps (`recalculate_root_node_area`), which this model does not redo:
   * the new root keeps the old root's area.
   */
  function Wrapped(t: Node, d: LayoutDirection, laneId: nat): Node
    requires t.Lane?
  {
    Grafted(Lane(laneId, t.area, d, []), t, 0)
  }

  lemma WrappedHoldsRoot(t: Node, d: LayoutDirection, laneId: nat)
    requires t.Lane?
    ensures var w := Wrapped(t, d, laneId);
      w.Lane? && w.id == laneId && w.area == t.area && w.direction == d && Ids(w.children) == [t.id]
  {
    GraftedIds(Lane(laneId, t.area, d, []), t, 0);
  }

  /** Laying a lane's children out again changes no path below any of them. */
  lemma RelaidKeepsPaths(cs: seq<Node>, a: Rect, d: LayoutDirection, i: nat, id: nat)
    requires i < |cs|
    ensures PathTo(Relaid(cs, a, d)[i], id) == PathTo(cs[i], id)
  {
    var st := Stretched(cs, a, d);
    var grow := Slack(cs, a, d);
    var rects := Layout(Mains(st, d), a, a, d);
    assert st[i] == SetArea(cs[i], Stretch(cs[i].area, a, d, grow));
    assert Relaid(cs, a, d)[i] == SetArea(st[i], rects[i]);
    PathToSetArea(cs[i], Stretch(cs[i].area, a, d, grow), id);
    PathToSetArea(st[i], rects[i], id);
  }

  /** The grafted container keeps every path below it. */
  lemma GraftedKeepsPaths(lane: Node, node: Node, index: nat, id: nat)
    requires lane.Lane? && index <= |lane.children|
    ensures PathTo(Grafted(lane, node, index).children[index], id) == PathTo(node, id)
  {
    var cs, a, d := lane.children, lane.area, lane.direction;
    var made := MakeRoom(cs, a, d, index);
    var room := RoomFor(cs, a, d, index);
    var inserted := made[..index] + [SetArea(node, room)] + made[index..];
    assert Grafted(lane, node, index).children == Relaid(inserted, a, d);
    RelaidKeepsPaths(inserted, a, d, index, id);
    assert inserted[index] == SetArea(node, room);
    PathToSetArea(node, room, id);
  }

  /** Every container of the old root is found below the new one, one step further down. */
  lemma PathToWrapped(t: Node, d: LayoutDirection, laneId: nat, id: nat)
    requires t.Lane? && id != laneId && PathTo(t, id).Some?
    ensures PathTo(Wrapped(t, d, laneId), id) == Some([0] + PathTo(t, id).value)
  {
    GraftedKeepsPaths(Lane(laneId, t.area, d, []), t, 0, id);
  }

  /** The root once `handle_move` has run: wrapped exactly when the move leaves a child of the root across the root's axis. */
  function RootAfterMove(t: Node, p: seq<nat>, dir: Direction, laneId: nat): Node
    requires t.Lane? && ValidPath(t, p) && |p| > 0
  {
    if Select(t, p, dir).None? && |p| == 1 && FromDirection(dir) != t.direction then Wrapped(t, FromDirection(dir), laneId) else t
  }

  // ---------------------------------------------------------------------
  // move_container (src/tiling_window_tree.cpp:155-221)

  /**
   * The append and prepend branches: the container, found by identity,
   * leaves its lane and is grafted at the end or the start of the root.
   * Nothing when the container is not below the root.
   */
  function MoveToEdge(t: Node, id: nat, atEnd: bool): (r: Option<Node>)
    requires t.Lane?
    ensures r.Some? <==> PathTo(t, id).Some? && |PathTo(t, id).value| > 0
    ensures r.Some? ==>
      var t1 := RemoveAt(t, PathTo(t, id).value);
      && r.value.Lane? && r.value.id == t.id && r.value.area == t.area
      && Ids(r.value.children) == (if atEnd then Ids(t1.children) + [id] else [id] + Ids(t1.children))
  {
    var q := PathTo(t, id);
    if q.None? || |q.value| == 0 then Option.None
    else
      var moving := NodeAt(t, q.value);
      var t1 := RemoveAt(t, q.value);
      if atEnd then
        GraftedAtEnd(t1, moving);
        Some(Grafted(t1, moving, |t1.children|))
      else
        GraftedAtStart(t1, moving);
        Some(Grafted(t1, moving, 0))
  }

  /**
   * The insert branch of `move_container`: nothing when the target has no
   * parent; the two exchange places when the target shares the container's
   * lane; otherwise the container is transferred next to the target.
   */
  function MoveNextTo(t: Node, p: seq<nat>, target: nat): Option<Node>
    requires ValidPath(t, p) && |p| > 0
  {
    var id := NodeAt(t, p).id;
    var tp := ParentOf(t, target);
    if tp.None? then Option.None
    else if tp.value == Init(p) then
      var lane := NodeAt(t, Init(p));
      assert lane.children[Last(p)].id == id;
      Some(ReplaceAt(t, Init(p), Swapped(lane, id, target)))
    else Transfer(t, p, target)
  }

  /**
   * `move_container`, with a fresh identity for the lane a move out of the
   * root may create: nothing when the move is refused; otherwise next to the
   * window found, or to an edge of the (possibly new) root.
   */
  function Moved(t: Node, p: seq<nat>, dir: Direction, laneId: nat): Option<Node>
    requires t.Lane? && ValidPath(t, p) && |p| > 0
  {
    match MoveKind(t, p, dir)
    case Invalid => Option.None
    case Insert(target) => MoveNextTo(t, p, target)
    case Prepend => MoveToEdge(RootAfterMove(t, p, dir, laneId), NodeAt(t, p).id, false)
    case Append => MoveToEdge(RootAfterMove(t, p, dir, laneId), NodeAt(t, p).id, true)
  }

  /** When the target shares the container's lane, the two exchange places in it and nothing else there moves. */
  lemma MoveSwapsInLane(t: Node, p: seq<nat>, target: nat)
    requires ValidPath(t, p) && |p| > 0 && ParentOf(t, target) == Some(Init(p))
    ensures var r := MoveNextTo(t, p, target);
      var lane := NodeAt(t, Init(p));
      var i, j := IndexOf(lane.children, NodeAt(t, p).id), IndexOf(lane.children, target);
      && r.Some? && ValidPath(r.value, Init(p)) && NodeAt(r.value, Init(p)).Lane?
      && Ids(NodeAt(r.value, Init(p)).children) == Ids(lane.children)[j := NodeAt(t, p).id][i := target]
  {
    var lane := NodeAt(t, Init(p));
    var id := NodeAt(t, p).id;
    assert lane.children[Last(p)].id == id;
    var m := Swapped(lane, id, target);
    ReplaceAtFound(t, Init(p), m);
    SwappedExchanges(lane, id, target);
  }

  /** A move along the root's axis that finds no window beside a child of the root is refused. */
  lemma MoveRefused(t: Node, p: seq<nat>, dir: Direction, laneId: nat)
    requires t.Lane? && ValidPath(t, p) && |p| == 1
    requires Select(t, p, dir).None? && FromDirection(dir) == t.direction
    ensures Moved(t, p, dir, laneId).None?
  {
  }

  /**
   * A move with no window that way ends with the container as the first
   * (left, up) or last (right, down) child of the root, which is a new lane
   * exactly when the container was a child of the root across its axis.
   */
  lemma MoveToRootEdge(t: Node, p: seq<nat>, dir: Direction, laneId: nat)
    requires t.Lane? && ValidPath(t, p) && |p| > 0
    requires MoveKind(t, p, dir).Prepend? || MoveKind(t, p, dir).Append?
    requires laneId != NodeAt(t, p).id && t.id != NodeAt(t, p).id && t.id != laneId
    ensures var r := Moved(t, p, dir, laneId);
      var id := NodeAt(t, p).id;
      && r.Some? && r.value.Lane? && |r.value.children| > 0
      && (if IsNegative(dir) then Ids(r.value.children)[0] == id else Ids(r.value.children)[|r.value.children| - 1] == id)
      && (r.value.id == laneId <==> |p| == 1)
  {
    var t0 := RootAfterMove(t, p, dir, laneId);
    MovedToEdge(t, p, dir, laneId);
    StillFoundAfterMove(t, p, dir, laneId);
    MoveToEdgeEnds(t0, NodeAt(t, p).id, !IsNegative(dir));
  }

  lemma MovedToEdge(t: Node, p: seq<nat>, dir: Direction, laneId: nat)
    requires t.Lane? && ValidPath(t, p) && |p| > 0
    requires MoveKind(t, p, dir).Prepend? || MoveKind(t, p, dir).Append?
    ensures Moved(t, p, dir, laneId) == MoveToEdge(RootAfterMove(t, p, dir, laneId), NodeAt(t, p).id, !IsNegative(dir))
  {
  }

  /** A container found strictly below the root ends up first or last in it. */
  lemma MoveToEdgeEnds(t0: Node, id: nat, atEnd: bool)
    requires t0.Lane? && PathTo(t0, id).Some? && |PathTo(t0, id).value| > 0
    ensures var r := MoveToEdge(t0, id, atEnd);
      && r.Some? && r.value.Lane? && r.value.id == t0.id && |r.value.children| > 0
      && (if atEnd then Ids(r.value.children)[|r.value.children| - 1] == id else Ids(r.value.children)[0] == id)
  {
  }

  /** Below the root `handle_move` leaves, the moving container is still found, and that root is new exactly for a child of the old one. */
  lemma StillFoundAfterMove(t: Node, p: seq<nat>, dir: Direction, laneId: nat)
    requires t.Lane? && ValidPath(t, p) && |p| > 0
    requires MoveKind(t, p, dir).Prepend? || MoveKind(t, p, dir).Append?
    requires laneId != NodeAt(t, p).id && t.id != NodeAt(t, p).id && t.id != laneId
    ensures var t0 := RootAfterMove(t, p, dir, laneId);
      && t0.Lane? && PathTo(t0, NodeAt(t, p).id).Some? && |PathTo(t0, NodeAt(t, p).id).value| > 0
      && (t0.id == laneId <==> |p| == 1)
  {
    var id := NodeAt(t, p).id;
    var t0 := RootAfterMove(t, p, dir, laneId);
    PathToFinds(t, p);
    PathToRoot(t, id);
    if t0 != t {
      WrappedHoldsRoot(t, FromDirection(dir), laneId);
      PathToWrapped(t, FromDirection(dir), laneId, id);
    }
  }

  // ---------------------------------------------------------------------
  // handle_direction_change and toggle_layout (src/tiling_window_tree.cpp:223-264)

  /**
   * `handle_direction_change` for a container below the root: a container
   * with siblings is first wrapped, in place, in a new lane over its own
   * area; the container's lane then takes the direction.
   */
  function DirectionChanged(t: Node, p: seq<nat>, d: LayoutDirection, laneId: nat): Node
    requires ValidPath(t, p) && |p| > 0
  {
    var parent := NodeAt(t, Init(p));
    if |parent.children| != 1 then
      var child := NodeAt(t, p);
      ReplaceAt(t, p, Lane(laneId, child.area, d, [child]))
    else ReplaceAt(t, Init(p), parent.(direction := d))
  }

  /** Where the container is after a direction change: one step deeper when it was wrapped. */
  function PathAfterDirectionChange(t: Node, p: seq<nat>): seq<nat>
    requires ValidPath(t, p) && |p| > 0
  {
    if SiblingCount(t, p) != 1 then p + [0] else p
  }

  /**
   * After a direction change the container itself is unchanged, and the lane
   * holding it has the requested direction; that lane is new exactly when
   * the container had siblings.
   */
  lemma DirectionChangedHolds(t: Node, p: seq<nat>, d: LayoutDirection, laneId: nat)
    requires ValidPath(t, p) && |p| > 0
    ensures var r, q := DirectionChanged(t, p, d, laneId), PathAfterDirectionChange(t, p);
      && ValidPath(r, q) && NodeAt(r, q) == NodeAt(t, p)
      && NodeAt(r, Init(q)).Lane? && NodeAt(r, Init(q)).direction == d
      && (NodeAt(r, Init(q)).id == laneId || SiblingCount(t, p) == 1)
  {
    var parent := NodeAt(t, Init(p));
    var r := DirectionChanged(t, p, d, laneId);
    if |parent.children| != 1 {
      var child := NodeAt(t, p);
      ReplaceAtFound(t, p, Lane(laneId, child.area, d, [child]));
      PathSnoc(r, p, 0);
      assert Init(p + [0]) == p;
    } else {
      var m := parent.(direction := d);
      ReplaceAtFound(t, Init(p), m);
      assert Init(p) + [Last(p)] == p;
      PathSnoc(r, Init(p), Last(p));
    }
  }

  /**
   * `toggle_layout`: the root is left alone; otherwise the direction that
   * is not the lane's current one (horizontal unless it is horizontal).
   */
  function ToggledDirection(t: Node, p: seq<nat>): Option<LayoutDirection>
    requires ValidPath(t, p)
  {
    if |p| == 0 then Option.None
    else if NodeAt(t, Init(p)).direction == Horizontal then Some(Vertical)
    else Some(Horizontal)
  }

  /** Toggling gives the container's lane the other direction. */
  lemma ToggleFlips(t: Node, p: seq<nat>, laneId: nat)
    requires ValidPath(t, p) && |p| > 0
    ensures var d := ToggledDirection(t, p).value;
      var r, q := DirectionChanged(t, p, d, laneId), PathAfterDirectionChange(t, p);
      && ValidPath(r, q) && NodeAt(r, Init(q)).Lane?
      && NodeAt(r, Init(q)).direction != NodeAt(t, Init(p)).direction
  {
    DirectionChangedHolds(t, p, ToggledDirection(t, p).value, laneId);
  }

  // ---------------------------------------------------------------------
  // show (src/tiling_window_tree.cpp:718-744)

  /** The last element of `s` that is in `marked`, if any. */
  function LastIn(s: seq<nat>, marked: set<nat>): Option<nat>
  {
    if |s| == 0 then Option.None
    else if s[|s| - 1] in marked then Some(s[|s| - 1])
    else LastIn(s[..|s| - 1], marked)
  }

  /** The elements of `s` that are not in `marked`, in order. */
  function Unmarked(s: seq<nat>, marked: set<nat>): seq<nat>
  {
    if |s| == 0 then []
    else Unmarked(s[..|s| - 1], marked) + (if s[|s| - 1] in marked then [] else [s[|s| - 1]])
  }

  /** `Unmarked` keeps exactly the unmarked elements and never more of them than there are. */
  lemma {:induction false} UnmarkedExactly(s: seq<nat>, marked: set<nat>)
    ensures forall x :: x in Unmarked(s, marked) <==> x in s && x !in marked
    ensures |Unmarked(s, marked)| <= |s|
  {
    if |s| > 0 {
      var init := s[..|s| - 1];
      UnmarkedExactly(init, marked);
      assert s == init + [s[|s| - 1]];
    }
  }

  /** `LastIn` finds a marked element with no marked element after it, and finds nothing exactly when none is marked. */
  lemma {:induction false} LastInFinds(s: seq<nat>, marked: set<nat>)
    ensures LastIn(s, marked).None? <==> forall k :: 0 <= k < |s| ==> s[k] !in marked
    ensures LastIn(s, marked).Some? ==>
      exists k :: 0 <= k < |s| && s[k] == LastIn(s, marked).value && s[k] in marked && (forall j :: k < j < |s| ==> s[j] !in marked)
  {
    if |s| > 0 {
      var init := s[..|s| - 1];
      LastInFinds(init, marked);
      if s[|s| - 1] in marked {
        assert s[|s| - 1] == LastIn(s, marked).value;
      } else if LastIn(init, marked).Some? {
        var k :| 0 <= k < |init| && init[k] == LastIn(init, marked).value && init[k] in marked && (forall j :: k < j < |init| ==> init[j] !in marked);
        assert s[k] == LastIn(s, marked).value;
      } else {
        assert forall k :: 0 <= k < |init| ==> init[k] == s[k];
      }
    }
  }

  // ---------------------------------------------------------------------
  // The tree object (src/tiling_window_tree.cpp:35-286, 599-749)

  /**
   * The window-manager calls of a fullscreen change: the window selected as
   * active, the window raised, and the window whose container commits its
   * area again; or the null dereference at which the source stops.
   */
  datatype FullscreenCalls =
    | Crashed
    | Calls(selected: Option<nat>, raised: Option<nat>, recommitted: Option<nat>)

  /**
   * A `TilingWindowTree`: the root lane, whether the tree is hidden, and
   * whether its active window is fullscreen. Window-manager calls (raise,
   * select the active window, commit a container) are left to the caller:
   * the methods that make them return what the source would pass to them.
   */
  class TilingWindowTree {
    var root: Node
    var isHidden: bool
    var fullscreen: bool

    /** A new tree: an empty horizontal root lane over the area, shown, nothing fullscreen. */
    constructor(rootId: nat, area: Rect)
      ensures root == Lane(rootId, area, Horizontal, []) && !isHidden && !fullscreen
    {
      root := Lane(rootId, area, Horizontal, []);
      isHidden := false;
      fullscreen := false;
    }

    /** `resize_container`: refused while fullscreen; otherwise `handle_resize` with the configured jump. */
    method ResizeContainer(p: seq<nat>, dir: Direction, jump: int) returns (ok: bool)
      requires ValidPath(root, p)
      modifies this
      ensures ok == !old(fullscreen)
      ensures root == (if ok then Resize(old(root), p, dir, jump) else old(root))
      ensures isHidden == old(isHidden) && fullscreen == old(fullscreen)
    {
      if fullscreen {
        return false;
      }
      root := Resize(root, p, dir, jump);
      return true;
    }

    /** `select_next`: refused while fullscreen; otherwise the window `handle_select` finds, if any, to be made active. */
    method SelectNext(p: seq<nat>, dir: Direction) returns (r: Option<nat>)
      requires ValidPath(root, p)
      ensures fullscreen ==> r.None?
      ensures !fullscreen ==> r == Select(root, p, dir)
      ensures r.Some? ==> r.value in LeafIds(root)
    {
      if fullscreen {
        return Option.None;
      }
      r := HandleSelect(root, p, dir);
      SelectSound(root, p, dir);
    }

    /**
     * `move_container`, with a fresh identity for a lane the move may
     * create: refused while fullscreen or when `handle_move` finds nothing.
     */
    method MoveContainer(p: seq<nat>, dir: Direction, laneId: nat) returns (ok: bool)
      requires root.Lane? && ValidPath(root, p) && |p| > 0
      modifies this
      ensures ok == (!old(fullscreen) && Moved(old(root), p, dir, laneId).Some?)
      ensures root == (if ok then Moved(old(root), p, dir, laneId).value else old(root))
      ensures isHidden == old(isHidden) && fullscreen == old(fullscreen)
    {
      if fullscreen {
        return false;
      }
      var moved := Moved(root, p, dir, laneId);
      if moved.None? {
        return false;
      }
      root := moved.value;
      return true;
    }

    /**
     * `handle_direction_change` (and so `request_vertical_layout` and
     * `request_horizontal_layout`): refused while fullscreen.
     */
    method RequestLayout(p: seq<nat>, d: LayoutDirection, laneId: nat)
      requires ValidPath(root, p) && |p| > 0
      modifies this
      ensures root == (if old(fullscreen) then old(root) else DirectionChanged(old(root), p, d, laneId))
      ensures isHidden == old(isHidden) && fullscreen == old(fullscreen)
    {
      if !fullscreen {
        root := DirectionChanged(root, p, d, laneId);
      }
    }

    /** `toggle_layout`: nothing for the root; otherwise the direction change to the other direction. */
    method ToggleLayout(p: seq<nat>, laneId: nat)
      requires ValidPath(root, p)
      modifies this
      ensures root == (if |p| == 0 || old(fullscreen) then old(root)
                       else DirectionChanged(old(root), p, ToggledDirection(old(root), p).value, laneId))
      ensures isHidden == old(isHidden) && fullscreen == old(fullscreen)
    {
      var d := ToggledDirection(root, p);
      if d.Some? {
        RequestLayout(p, d.value, laneId);
      }
    }

    /** `advise_fullscreen_container`: the window is selected as active, raised, and recorded as fullscreen. */
    method AdviseFullscreen(window: nat) returns (calls: FullscreenCalls)
      modifies this
      ensures calls == Calls(Some(window), Some(window), None)
      ensures fullscreen && root == old(root) && isHidden == old(isHidden)
    {
      fullscreen := true;
      calls := Calls(Some(window), Some(window), None);
    }

    /**
     * `advise_restored_container` for the container of `window`; `active` is
     * the window of `active_container()`, None when that is null (no active
     * window, no metadata, or not a tiled leaf), which the source dereferences
     * unchecked. Fullscreen ends only when the container is the active one,
     * and its unchanged logical area is then committed again.
     */
    method AdviseRestored(window: nat, active: Option<nat>) returns (calls: FullscreenCalls)
      modifies this
      ensures calls.Crashed? <==> active.None?
      ensures calls.Calls? ==>
        calls == Calls(None, None, if old(fullscreen) && active == Some(window) then Some(window) else None)
      ensures fullscreen == (old(fullscreen) && active != Some(window))
      ensures root == old(root) && isHidden == old(isHidden)
    {
      if active.None? {
        return Crashed;
      }
      calls := Calls(None, None, None);
      if active.value == window && fullscreen {
        fullscreen := false;
        calls := Calls(None, None, Some(window));
      }
    }

    /** `toggle_fullscreen`: restore when fullscreen, otherwise go fullscreen. */
    method ToggleFullscreen(window: nat, active: Option<nat>) returns (calls: FullscreenCalls)
      modifies this
      ensures old(fullscreen) ==> (calls.Crashed? <==> active.None?)
      ensures old(fullscreen) && calls.Calls? ==>
        calls == Calls(None, None, if active == Some(window) then Some(window) else None)
      ensures !old(fullscreen) ==> calls == Calls(Some(window), Some(window), None)
      ensures fullscreen == (!old(fullscreen) || active != Some(window))
      ensures root == old(root) && isHidden == old(isHidden)
    {
      if fullscreen {
        calls := AdviseRestored(window, active);
      } else {
        calls := AdviseFullscreen(window);
      }
    }

    /** `advise_delete_window`: the active window's fullscreen ends with it; the container is removed. */
    method AdviseDeleteWindow(p: seq<nat>, isActive: bool)
      requires ValidPath(root, p) && |p| > 0
      modifies this
      ensures fullscreen == (old(fullscreen) && !isActive)
      ensures root == RemoveAt(old(root), p) && isHidden == old(isHidden)
    {
      if isActive && fullscreen {
        fullscreen := false;
      }
      root := RemoveAt(root, p);
    }

    /**
     * `hide`: the tree is marked hidden and `hidden` lists, in `foreach_node`
     * order, the windows whose containers are then hidden and committed;
     * repeating it does nothing.
     */
    method Hide() returns (hidden: seq<nat>)
      modifies this
      ensures isHidden && root == old(root) && fullscreen == old(fullscreen)
      ensures hidden == (if old(isHidden) then [] else LeafIds(root))
    {
      if isHidden {
        return [];
      }
      isHidden := true;
      hidden := LeafIds(root);
    }

    /**
     * `show`: nothing when already shown; otherwise the tree is shown and its
     * windows, in `foreach_node` order, are shown and committed: the last
     * that is fullscreen is returned and the others that are not fullscreen
     * are raised, in that order.
     */
    method Show(fullscreenWindows: set<nat>) returns (r: Option<nat>, raised: seq<nat>)
      modifies this
      ensures !isHidden && root == old(root) && fullscreen == old(fullscreen)
      ensures r == (if old(isHidden) then LastIn(LeafIds(root), fullscreenWindows) else Option.None)
      ensures raised == (if old(isHidden) then Unmarked(LeafIds(root), fullscreenWindows) else [])
    {
      if !isHidden {
        return Option.None, [];
      }
      isHidden := false;
      var leaves := LeafIds(root);
      r := Option.None;
      raised := [];
      var i := 0;
      while i < |leaves|
        invariant 0 <= i <= |leaves|
        invariant r == LastIn(leaves[..i], fullscreenWindows)
        invariant raised == Unmarked(leaves[..i], fullscreenWindows)
      {
        assert leaves[..i + 1][..i] == leaves[..i];
        if leaves[i] in fullscreenWindows {
          r := Some(leaves[i]);
        } else {
          raised := raised + [leaves[i]];
        }
        i := i + 1;
      }
      assert leaves[..i] == leaves;
    }

    /** `is_empty`: the root lane has no children, and then no windows. */
    method IsEmpty() returns (e: bool)
      requires root.Lane?
      ensures e <==> |root.children| == 0
      ensures e ==> LeafIds(root) == []
    {
      e := |root.children| == 0;
    }

    /** `constrain`: refused while hidden (the lane's constraint is left to the lane). */
    method Constrain() returns (ok: bool)
      ensures ok == !isHidden
    {
      return !isHidden;
    }
  }
}
