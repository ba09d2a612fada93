// A lane of the tiling tree (src/parent_container.cpp): it owns its children in
// order, lays them out along one axis, makes room for new ones, rescales them
// when its own area changes, and absorbs a lone child lane when one is removed.
//
// The children are values (`Container.Node`); a child is identified by its
// `id`, standing for the shared pointer the source compares. What happens to
// a child's window (commit, constrain) is not part of this class.
module ParentContainers {
  import opened Wrappers
  import opened Geometry
  import opened Container
  import opened LaneLayout

  class ParentContainer {
    const id: nat
    /** True when the lane has no parent: the root of a tree. */
    const isRoot: bool
    /** The configured outer gaps, applied only to a root lane. */
    const gapX: int
    const gapY: int
    var logicalArea: Rect
    var direction: LayoutDirection
    var children: seq<Node>
    /** The leaf made by `create_space_for_window` and not yet confirmed. */
    var pending: Option<nat>

    /** A lane over `area`, horizontal and empty. */
    constructor(id: nat, area: Rect, isRoot: bool, gapX: int, gapY: int)
      ensures this.id == id && this.isRoot == isRoot && this.gapX == gapX && this.gapY == gapY
      ensures logicalArea == area && direction == Horizontal && children == [] && pending == Option.None
    {
      this.id := id;
      this.isRoot := isRoot;
      this.gapX := gapX;
      this.gapY := gapY;
      logicalArea := area;
      direction := Horizontal;
      children := [];
      pending := Option.None;
    }

    /**
     * `get_logical_area`: a root lane is inset by the outer gaps on every
     * side; any other lane uses its area as it is.
     */
    function LogicalArea(): (r: Rect)
      reads this
      ensures !isRoot ==> r == logicalArea
      ensures isRoot ==> r.x - logicalArea.x == gapX && (logicalArea.x + logicalArea.width) - (r.x + r.width) == gapX
      ensures isRoot ==> r.y - logicalArea.y == gapY && (logicalArea.y + logicalArea.height) - (r.y + r.height) == gapY
    {
      if isRoot then
        Rect(logicalArea.x + gapX, logicalArea.y + gapY, logicalArea.width - 2 * gapX, logicalArea.height - 2 * gapY)
      else logicalArea
    }

    /** The lane as a node of the tree. */
    function AsNode(): Node
      reads this
    {
      Lane(id, LogicalArea(), direction, children)
    }

    /**
     * `create_space(index)`: runs `insert_node_internal` over the children
     * along the lane's axis, moving and shrinking each one, and returns the
     * area for a child to be placed at `index`.
     */
    method CreateSpace(index: nat) returns (r: Rect)
      requires index <= |children|
      modifies this
      ensures children == MakeRoom(old(children), LogicalArea(), direction, index)
      ensures r == RoomFor(old(children), LogicalArea(), direction, index)
      ensures logicalArea == old(logicalArea) && direction == old(direction) && pending == old(pending)
    {
      var placement := LogicalArea();
      var d := direction;
      var cs0 := children;
      var sizes := Mains(cs0, d);
      var positions, newSizes, slot := InsertNodeInternal(sizes, Main(placement, d), Start(placement, d), index);
      var rects := seq(|cs0|, i requires 0 <= i < |cs0| => Along(placement, d, positions[i], newSizes[i]));
      ApplyAreas(rects);
      MadeRoom(cs0, placement, d, index, positions, newSizes, children);
      assert LogicalArea() == placement && direction == d;
      r := Along(placement, d, slot.position, slot.size);
    }

    /**
     * `insert_node_internal`: walks the children in order; each gives up its
     * share of the new child's first share and is placed right after the
     * previous one, leaving a gap of that first share before the child at
     * `index`. The new child's size is what the others gave up.
     */
    static method InsertNodeInternal(sizes: seq<int>, lane: int, lanePos: int, index: int)
      returns (positions: seq<int>, newSizes: seq<int>, slot: Slot)
      ensures positions == Positions(sizes, lane, lanePos, index) && newSizes == Shrunk(sizes, lane)
      ensures slot == NewSlot(sizes, lane, lanePos, index)
    {
      var n := |sizes|;
      var newSize := FirstShare(lane, n);
      var newPos := lanePos + index * newSize;
      var sizeLost := 0;
      var prevPos := lanePos;
      var prevSize := 0;
      positions, newSizes := [], [];
      var i := 0;
      while i < n
        invariant 0 <= i <= n
        invariant newSizes == Shrunk(sizes, lane)[..i]
        invariant positions == Positions(sizes, lane, lanePos, index)[..i]
        invariant sizeLost == Sum(Losses(sizes, lane)[..i])
        invariant i == 0 ==> prevPos == lanePos && prevSize == 0
        invariant i > 0 ==> prevPos == positions[i - 1] && prevSize == newSizes[i - 1]
      {
        var lost := Loss(sizes[i], newSize, lane);
        SumPrefix(Losses(sizes, lane), i);
        sizeLost := sizeLost + lost;
        if i == index {
          prevSize := newSize;
          prevPos := newPos;
        }
        var changedSize := sizes[i] - lost;
        var changedPos := prevPos + prevSize;
        assert changedPos == SlotPos(sizes, lane, lanePos, index, i);
        positions := positions + [changedPos];
        newSizes := newSizes + [changedSize];
        prevPos := changedPos;
        prevSize := changedSize;
        i := i + 1;
        assert Shrunk(sizes, lane)[..i] == Shrunk(sizes, lane)[..i - 1] + [Shrunk(sizes, lane)[i - 1]];
        ghost var all := Positions(sizes, lane, lanePos, index);
        assert all[..i] == all[..i - 1] + [all[i - 1]];
      }
      assert Losses(sizes, lane)[..n] == Losses(sizes, lane);
      assert Shrunk(sizes, lane)[..n] == Shrunk(sizes, lane);
      assert Positions(sizes, lane, lanePos, index)[..n] == Positions(sizes, lane, lanePos, index);
      if n > 0 {
        newSize := newSize + (sizeLost - newSize);
        newPos := newPos - (sizeLost - newSize);
      }
      slot := Slot(newSize, newPos);
    }

    /**
     * `create_space_for_window(index)`: a negative index appends; a new
     * leaf with the room made for it is inserted at the index and kept as
     * the pending leaf.
     */
    method CreateSpaceForWindow(index: int, leafId: nat) returns (leaf: Node)
      requires index <= |children|
      modifies this
      ensures var k := if index < 0 then |old(children)| else index;
        && leaf == Leaf(leafId, RoomFor(old(children), LogicalArea(), direction, k))
        && children == MakeRoom(old(children), LogicalArea(), direction, k)[..k] + [leaf]
                       + MakeRoom(old(children), LogicalArea(), direction, k)[k..]
      ensures |children| == |old(children)| + 1
      ensures pending == Some(leafId)
      ensures logicalArea == old(logicalArea) && direction == old(direction)
    {
      ghost var placement, d, cs0 := LogicalArea(), direction, children;
      var k := if index < 0 then |children| else index;
      var r := CreateSpace(k);
      assert LogicalArea() == placement && direction == d;
      ghost var made := children;
      assert made == MakeRoom(cs0, placement, d, k);
      leaf := Leaf(leafId, r);
      pending := Some(leafId);
      children := children[..k] + [leaf] + children[k..];
      assert LogicalArea() == placement && direction == d;
      assert children == made[..k] + [leaf] + made[k..];
    }

    /**
     * `confirm_window`: without a pending leaf the source stops with a fatal
     * error (here: nothing changes and nothing is returned); otherwise the
     * pending leaf is returned and no longer pending.
     */
    method ConfirmWindow() returns (confirmed: Option<nat>)
      modifies this
      ensures confirmed == old(pending)
      ensures pending == Option.None
      ensures children == old(children) && logicalArea == old(logicalArea) && direction == old(direction)
    {
      if pending.None? {
        confirmed := Option.None;
        return;
      }
      confirmed := pending;
      pending := Option.None;
    }

    /** `get_index_of_node`: the first child with that identity, or -1. */
    method IndexOfNode(nodeId: nat) returns (index: int)
      ensures index == IndexOf(children, nodeId)
    {
      var i := 0;
      while i < |children|
        invariant 0 <= i <= |children|
        invariant forall k :: 0 <= k < i ==> children[k].id != nodeId
      {
        if children[i].id == nodeId {
          IndexOfFirst(children, nodeId, i);
          return i;
        }
        i := i + 1;
      }
      return -1;
    }

    /**
     * `graft_existing(node, index)`: make room at `index`, give the node the
     * room, insert it there and lay the lane out again.
     */
    method GraftExisting(node: Node, index: nat)
      requires index <= |children|
      modifies this
      ensures var room := RoomFor(old(children), LogicalArea(), direction, index);
        var made := MakeRoom(old(children), LogicalArea(), direction, index);
        children == Relaid(made[..index] + [SetArea(node, room)] + made[index..], LogicalArea(), direction)
      ensures logicalArea == old(logicalArea) && direction == old(direction) && pending == old(pending)
    {
      ghost var placement, d := LogicalArea(), direction;
      ghost var room := RoomFor(children, placement, d, index);
      ghost var made := MakeRoom(children, placement, d, index);
      PlaceInRoom(node, index);
      assert LogicalArea() == placement;
      ghost var inserted := children;
      assert inserted == made[..index] + [SetArea(node, room)] + made[index..];
      Relayout();
      assert LogicalArea() == placement;
      assert direction == d;
      assert children == Relaid(inserted, placement, d);
    }

    /** The first half of `graft_existing`: the node is given the room made at `index` and inserted there. */
    method PlaceInRoom(node: Node, index: nat)
      requires index <= |children|
      modifies this
      ensures var room := RoomFor(old(children), LogicalArea(), direction, index);
        var made := MakeRoom(old(children), LogicalArea(), direction, index);
        children == made[..index] + [SetArea(node, room)] + made[index..]
      ensures logicalArea == old(logicalArea) && direction == old(direction) && pending == old(pending)
    {
      ghost var placement := LogicalArea();
      var r := CreateSpace(index);
      assert LogicalArea() == placement;
      children := children[..index] + [SetArea(node, r)] + children[index..];
      assert LogicalArea() == placement;
    }

    /**
     * `convert_to_parent(container)`: the child is replaced, at its index, by
     * a new horizontal lane with the child's area whose only child it is. A
     * container that is not a child is a fatal error in the source; here
     * nothing changes and `false` is returned.
     */
    method ConvertToParent(childId: nat, laneId: nat) returns (converted: bool)
      modifies this
      ensures var i := IndexOf(old(children), childId);
        && converted == (i >= 0)
        && (converted ==> children == old(children)[i := Lane(laneId, old(children)[i].area, Horizontal, [old(children)[i]])])
        && (!converted ==> children == old(children))
      ensures logicalArea == old(logicalArea) && direction == old(direction) && pending == old(pending)
    {
      var index := IndexOfNode(childId);
      if index < 0 {
        return false;
      }
      var child := children[index];
      children := children[index := Lane(laneId, child.area, Horizontal, [child])];
      return true;
    }

    /**
     * `set_logical_area(target)`: the children are rescaled from the lane's
     * current placement to its new one and packed from its start.
     */
    method SetLogicalArea(target: Rect)
      modifies this
      ensures logicalArea == target
      ensures children == Rescale(old(children), old(LogicalArea()), LogicalArea(), direction)
      ensures direction == old(direction) && pending == old(pending)
    {
      var current := LogicalArea();
      logicalArea := target;
      var placement := LogicalArea();
      var d := direction;
      var pendingRects := PackScaled(children, current, placement, d);
      ghost var before := children;
      ApplyAreas(pendingRects);
      RescaleIs(before, current, placement, d, children);
      assert LogicalArea() == placement;
    }

    /** Give each child its area, in order. */
    method ApplyAreas(rects: seq<Rect>)
      requires |rects| == |children|
      modifies this
      ensures |children| == |old(children)|
      ensures forall i :: 0 <= i < |children| ==> children[i] == SetArea(old(children)[i], rects[i])
      ensures logicalArea == old(logicalArea) && direction == old(direction) && pending == old(pending)
    {
      var i := 0;
      while i < |children|
        invariant 0 <= i <= |children| == |old(children)|
        invariant forall k :: 0 <= k < i ==> children[k] == SetArea(old(children)[k], rects[k])
        invariant forall k :: i <= k < |children| ==> children[k] == old(children)[k]
        invariant logicalArea == old(logicalArea) && direction == old(direction) && pending == old(pending)
      {
        children := children[i := SetArea(children[i], rects[i])];
        i := i + 1;
      }
    }

    /**
     * The first loop of `set_logical_area`: each child's share of `current`
     * applied to `target`, packed from the target's start, the last one
     * taking up the rounding.
     */
    static method PackScaled(cs: seq<Node>, current: Rect, target: Rect, d: LayoutDirection) returns (rects: seq<Rect>)
      ensures rects == Layout(Mains(cs, d), current, target, d)
    {
      ghost var sizes := Scaled(Mains(cs, d), Main(current, d), Main(target, d), d);
      var total;
      rects, total := PlaceScaled(cs, current, target, d);
      if |rects| > 0 {
        var n := |rects| - 1;
        var leftover := Main(target, d) - total;
        PlaceAbsorbStep(target, d, sizes, rects, total);
        rects := rects[n := Along(target, d, Start(rects[n], d), Main(rects[n], d) + leftover)];
      }
    }

    /** The loop of `PackScaled`: the scaled sizes placed one after the other, and their sum. */
    static method PlaceScaled(cs: seq<Node>, current: Rect, target: Rect, d: LayoutDirection) returns (rects: seq<Rect>, total: int)
      ensures rects == Place(target, d, Scaled(Mains(cs, d), Main(current, d), Main(target, d), d))
      ensures total == Sum(Scaled(Mains(cs, d), Main(current, d), Main(target, d), d))
    {
      ghost var sizes := Scaled(Mains(cs, d), Main(current, d), Main(target, d), d);
      rects := [];
      total := 0;
      var idx := 0;
      while idx < |cs|
        invariant 0 <= idx <= |cs| && |rects| == idx
        invariant rects == Place(target, d, sizes[..idx])
        invariant total == Sum(sizes[..idx])
      {
        var newSize := Scale(Main(cs[idx].area, d), Main(current, d), Main(target, d), d);
        var pos := if idx == 0 then Start(target, d) else Start(rects[idx - 1], d) + Main(rects[idx - 1], d);
        assert newSize == sizes[idx];
        PlaceStep(target, d, sizes, idx, rects, pos);
        rects := rects + [Along(target, d, pos, newSize)];
        total := total + newSize;
        idx := idx + 1;
      }
      assert sizes[..|cs|] == sizes;
    }

    /**
     * `relayout`: every child grows by an equal part of the lane's slack and
     * spans the placement across the axis; then the lane is laid out again
     * in its own area.
     */
    method Relayout()
      modifies this
      ensures children == Relaid(old(children), LogicalArea(), direction)
      ensures logicalArea == old(logicalArea) && direction == old(direction) && pending == old(pending)
    {
      ghost var placement, d, cs0 := LogicalArea(), direction, children;
      StretchAcross();
      ghost var mid := children;
      assert LogicalArea() == placement;
      SetLogicalArea(logicalArea);
      assert LogicalArea() == placement;
      RelaidIs(cs0, placement, d, mid, children);
    }

    /**
     * The first half of `relayout`: every child shares the slack along the
     * axis and spans the placement across it.
     */
    method StretchAcross()
      modifies this
      ensures children == Stretched(old(children), LogicalArea(), direction)
      ensures logicalArea == old(logicalArea) && direction == old(direction) && pending == old(pending)
    {
      var placement := LogicalArea();
      var d := direction;
      var cs0 := children;
      var total := TotalSize(cs0, d);
      var grow := if |cs0| == 0 then 0 else FloorDiv(Main(placement, d) - total, |cs0|);
      assert grow == Slack(cs0, placement, d);
      var stretched := seq(|cs0|, k requires 0 <= k < |cs0| => Stretch(cs0[k].area, placement, d, grow));
      ApplyAreas(stretched);
      StretchedIs(cs0, placement, d, grow, children);
      assert LogicalArea() == placement;
    }

    /** The children's sizes along the axis, added up in order. */
    static method TotalSize(cs: seq<Node>, d: LayoutDirection) returns (total: int)
      ensures total == Sum(Mains(cs, d))
    {
      total := 0;
      var i := 0;
      while i < |cs|
        invariant 0 <= i <= |cs|
        invariant total == Sum(Mains(cs, d)[..i])
      {
        SumPrefix(Mains(cs, d), i);
        total := total + Main(cs[i].area, d);
        i := i + 1;
      }
      assert Mains(cs, d)[..|cs|] == Mains(cs, d);
    }

    /**
     * `remove(node)`: every child with that identity goes; if a single
     * child remains and it is a lane, its children move up in order and its
     * direction is adopted; then the lane is laid out again.
     */
    method Remove(nodeId: nat)
      modifies this
      ensures var kept := Without(old(children), nodeId);
        var absorbed := Absorbed(kept, old(direction));
        && direction == absorbed.direction
        && children == Relaid(absorbed.children, LogicalArea(), absorbed.direction)
      ensures logicalArea == old(logicalArea) && pending == old(pending)
    {
      ghost var placement := LogicalArea();
      ghost var absorbed := Absorbed(Without(children, nodeId), direction);
      children := Without(children, nodeId);
      if |children| == 1 && children[0].Lane? {
        var dying := children[0];
        children := MoveUp(dying.children);
        direction := dying.direction;
      }
      assert children == absorbed.children && direction == absorbed.direction;
      assert LogicalArea() == placement;
      Relayout();
      assert LogicalArea() == placement;
    }

    /** The loop that moves a dying lane's children up, one at a time and in order. */
    static method MoveUp(dying: seq<Node>) returns (moved: seq<Node>)
      ensures moved == dying
    {
      moved := [];
      var j := 0;
      while j < |dying|
        invariant 0 <= j <= |dying| && moved == dying[..j]
      {
        moved := moved + [dying[j]];
        j := j + 1;
        assert dying[..j] == dying[..j - 1] + [dying[j - 1]];
      }
      assert dying[..j] == dying;
    }

    /**
     * `swap_nodes(first, second)`: the two children exchange places and the
     * lane is laid out again. Both must be children: the source indexes with
     * the -1 of a missing one.
     */
    method SwapNodes(first: nat, second: nat)
      requires IndexOf(children, first) >= 0 && IndexOf(children, second) >= 0
      modifies this
      ensures var i, j := IndexOf(old(children), first), IndexOf(old(children), second);
        children == Relaid(old(children)[j := old(children)[i]][i := old(children)[j]], LogicalArea(), direction)
      ensures logicalArea == old(logicalArea) && direction == old(direction) && pending == old(pending)
    {
      var i := IndexOfNode(first);
      var j := IndexOfNode(second);
      var a, b := children[i], children[j];
      children := children[j := a];
      children := children[i := b];
      Relayout();
    }

    /** `get_min_width`: the sum over the children. */
    method MinimumWidth() returns (size: nat)
      ensures size == MinWidth(AsNode())
    {
      size := 0;
      var cs := children;
      ghost var ws := seq(|cs|, k requires 0 <= k < |cs| => MinWidth(cs[k]));
      var i := 0;
      while i < |children|
        invariant 0 <= i <= |children|
        invariant size == SumMin(ws[..i])
      {
        assert ws[..i + 1][..i] == ws[..i];
        size := size + MinWidth(children[i]);
        i := i + 1;
      }
      assert ws[..|children|] == ws;
    }

    /** `get_min_height`: the sum over the children. */
    method MinimumHeight() returns (size: nat)
      ensures size == MinHeight(AsNode())
    {
      size := 0;
      var cs := children;
      ghost var hs := seq(|cs|, k requires 0 <= k < |cs| => MinHeight(cs[k]));
      var i := 0;
      while i < |children|
        invariant 0 <= i <= |children|
        invariant size == SumMin(hs[..i])
      {
        assert hs[..i + 1][..i] == hs[..i];
        size := size + MinHeight(children[i]);
        i := i + 1;
      }
      assert hs[..|children|] == hs;
    }
  }

  /** The index found by the scan is the first one with that identity. */
  lemma IndexOfFirst(cs: seq<Node>, id: nat, i: nat)
    requires i < |cs| && cs[i].id == id
    requires forall k :: 0 <= k < i ==> cs[k].id != id
    ensures IndexOf(cs, id) == i
  {
    var j := IndexOf(cs, id);
    assert j != -1;
  }

  /** The areas given by the first pass of `relayout` are those of `Stretched`. */
  lemma StretchedIs(cs: seq<Node>, placement: Rect, d: LayoutDirection, grow: int, after: seq<Node>)
    requires grow == Slack(cs, placement, d)
    requires |after| == |cs|
    requires forall i :: 0 <= i < |cs| ==> after[i] == SetArea(cs[i], Stretch(cs[i].area, placement, d, grow))
    ensures after == Stretched(cs, placement, d)
  {
  }

  /** Stretching and then rescaling in the same placement is `Relaid`. */
  lemma RelaidIs(cs: seq<Node>, placement: Rect, d: LayoutDirection, mid: seq<Node>, after: seq<Node>)
    requires mid == Stretched(cs, placement, d)
    requires after == Rescale(mid, placement, placement, d)
    ensures after == Relaid(cs, placement, d)
  {
  }

  /** Giving each child the slot `insert_node_internal` computed for it is `MakeRoom`. */
  lemma MadeRoom(cs: seq<Node>, placement: Rect, d: LayoutDirection, index: int,
                 positions: seq<int>, newSizes: seq<int>, after: seq<Node>)
    requires positions == Positions(Mains(cs, d), Main(placement, d), Start(placement, d), index)
    requires newSizes == Shrunk(Mains(cs, d), Main(placement, d))
    requires |after| == |cs|
    requires forall i :: 0 <= i < |cs| ==> after[i] == SetArea(cs[i], Along(placement, d, positions[i], newSizes[i]))
    ensures after == MakeRoom(cs, placement, d, index)
  {
  }
}
