// A tiled window's container (src/leaf_container.cpp): an area and a window
// state that are staged and then committed, and the area the window is
// shown in once the gaps towards its neighbours are taken off.
module LeafContainers {
  import opened Wrappers
  import opened Geometry
  import opened Container
  import opened WindowHelpers

  /** `get_min_width` and `get_min_height`. */
  const MinWidth: nat := 50
  const MinHeight: nat := 50

  /**
   * `get_visible_area` of a committed area: on each side with a neighbour
   * (flags in the order of `get_neighbors`) half the inner gap, rounded up,
   * is given up; a left or upper neighbour also moves the origin.
   */
  function VisibleArea(area: Rect, neighbors: seq<bool>, gapX: int, gapY: int): Rect
    requires |neighbors| == 4
  {
    var hx, hy := CeilDiv(gapX, 2), CeilDiv(gapY, 2);
    var left := if neighbors[NeighborIndex(Left)] then hx else 0;
    var right := if neighbors[NeighborIndex(Right)] then hx else 0;
    var up := if neighbors[NeighborIndex(Up)] then hy else 0;
    var down := if neighbors[NeighborIndex(Down)] then hy else 0;
    Rect(area.x + left, area.y + up, area.width - left - right, area.height - up - down)
  }

  /** Half a gap, rounded up: together the two halves cover the whole gap, and at most one pixel more. */
  lemma HalfGapCovers(gap: int)
    ensures gap <= 2 * CeilDiv(gap, 2) <= gap + 1
  {
  }

  /**
   * With non-negative gaps the visible area lies inside the logical area and
   * each of its edges is either the logical edge (no neighbour that side) or
   * half a gap inside it.
   */
  lemma VisibleWithin(area: Rect, neighbors: seq<bool>, gapX: int, gapY: int)
    requires |neighbors| == 4 && gapX >= 0 && gapY >= 0
    ensures var v := VisibleArea(area, neighbors, gapX, gapY);
      && area.x <= v.x && v.x + v.width <= area.x + area.width
      && area.y <= v.y && v.y + v.height <= area.y + area.height
      && (v.x == area.x <==> !neighbors[1] || CeilDiv(gapX, 2) == 0)
      && (v.x + v.width == area.x + area.width <==> !neighbors[3] || CeilDiv(gapX, 2) == 0)
      && (v.y == area.y <==> !neighbors[0] || CeilDiv(gapY, 2) == 0)
      && (v.y + v.height == area.y + area.height <==> !neighbors[2] || CeilDiv(gapY, 2) == 0)
  {
    HalfGapCovers(gapX);
    HalfGapCovers(gapY);
  }

  /**
   * Two windows whose logical areas touch, the first with a right neighbour
   * and the second with a left one, are shown at least a full inner gap
   * apart: each gives up half of it, rounded up.
   */
  lemma GapBetweenSideNeighbors(a: Rect, na: seq<bool>, b: Rect, nb: seq<bool>, gapX: int, gapY: int)
    requires |na| == 4 && |nb| == 4
    requires a.x + a.width == b.x && na[NeighborIndex(Right)] && nb[NeighborIndex(Left)]
    ensures var va, vb := VisibleArea(a, na, gapX, gapY), VisibleArea(b, nb, gapX, gapY);
      vb.x - (va.x + va.width) == 2 * CeilDiv(gapX, 2) >= gapX
  {
    HalfGapCovers(gapX);
  }

  /** The same for a window above another. */
  lemma GapBetweenStackedNeighbors(a: Rect, na: seq<bool>, b: Rect, nb: seq<bool>, gapX: int, gapY: int)
    requires |na| == 4 && |nb| == 4
    requires a.y + a.height == b.y && na[NeighborIndex(Down)] && nb[NeighborIndex(Up)]
    ensures var va, vb := VisibleArea(a, na, gapX, gapY), VisibleArea(b, nb, gapX, gapY);
      vb.y - (va.y + va.height) == 2 * CeilDiv(gapY, 2) >= gapY
  {
    HalfGapCovers(gapY);
  }

  /** The only window of a tree has no neighbours, so it is shown over its whole logical area. */
  lemma LoneWindowUsesWholeArea(t: Node, gapX: int, gapY: int)
    requires t.Lane? && |t.children| == 1
    ensures ValidPath(t, [0]) && VisibleArea(t.children[0].area, Neighbors(t, [0]), gapX, gapY) == t.children[0].area
  {
    LoneChildOfRoot(t);
  }

  /** What `handle_modify` passes on to the window manager. */
  datatype Modification = Modification(state: Option<WindowState>, size: Option<(int, int)>)

  /** What `handle_modify` then tells the tree. */
  datatype Advice = NoAdvice | AdviseFullscreen | AdviseRestored

  /**
   * A `LeafContainer`. The window manager's view of the window (its state,
   * the rectangle last given to it, and its clip, none for `noclip`) is held
   * here as fields the methods change where the source calls into it.
   */
  class LeafContainer {
    var logicalArea: Rect
    var nextArea: Option<Rect>
    var nextState: Option<WindowState>
    var beforeShown: Option<WindowState>
    var restore: Option<WindowState>
    var windowState: WindowState
    var windowRect: Rect
    var clip: Option<Rect>
    const gapX: int
    const gapY: int

    /** A container over `area` for a window in `state`, nothing staged. */
    constructor(area: Rect, state: WindowState, rect: Rect, gapX: int, gapY: int)
      ensures logicalArea == area && nextArea.None? && nextState.None? && beforeShown.None? && restore.None?
      ensures windowState == state && windowRect == rect && clip.None? && this.gapX == gapX && this.gapY == gapY
    {
      logicalArea := area;
      nextArea := Option.None;
      nextState := Option.None;
      beforeShown := Option.None;
      restore := Option.None;
      windowState := state;
      windowRect := rect;
      clip := Option.None;
      this.gapX := gapX;
      this.gapY := gapY;
    }

    /** `get_logical_area`: the staged area if there is one, else the committed one. */
    function LogicalArea(): Rect
      reads this
    {
      if nextArea.Some? then nextArea.value else logicalArea
    }

    /** `get_visible_area`, from the committed area. */
    function Visible(neighbors: seq<bool>): Rect
      requires |neighbors| == 4
      reads this
    {
      VisibleArea(logicalArea, neighbors, gapX, gapY)
    }

    /** `set_logical_area` only stages the area: it is what `get_logical_area` reports, and nothing is committed. */
    method SetLogicalArea(r: Rect)
      modifies this
      ensures LogicalArea() == r && nextArea == Some(r)
      ensures logicalArea == old(logicalArea) && nextState == old(nextState) && beforeShown == old(beforeShown)
      ensures restore == old(restore) && windowState == old(windowState) && windowRect == old(windowRect) && clip == old(clip)
    {
      nextArea := Some(r);
    }

    /** `set_state` stages a state. */
    method SetState(s: WindowState)
      modifies this
      ensures nextState == Some(s)
      ensures logicalArea == old(logicalArea) && nextArea == old(nextArea) && beforeShown == old(beforeShown)
      ensures restore == old(restore) && windowState == old(windowState) && windowRect == old(windowRect) && clip == old(clip)
    {
      nextState := Some(s);
    }

    /** `constrain`: a fullscreen window is not clipped; any other is clipped to its visible area. */
    method Constrain(neighbors: seq<bool>)
      requires |neighbors| == 4
      modifies this
      ensures clip == (if IsWindowFullscreen(windowState) then Option.None else Some(Visible(neighbors)))
      ensures clip.None? <==> windowState in {Fullscreen, Maximized, HorizMaximized, VertMaximized}
      ensures logicalArea == old(logicalArea) && nextArea == old(nextArea) && nextState == old(nextState)
      ensures beforeShown == old(beforeShown) && restore == old(restore) && windowState == old(windowState) && windowRect == old(windowRect)
    {
      if IsWindowFullscreen(windowState) {
        clip := Option.None;
      } else {
        clip := Some(Visible(neighbors));
      }
    }

    /** `hide`: remembers the window's state and stages hidden. */
    method Hide()
      modifies this
      ensures beforeShown == Some(windowState) && nextState == Some(Hidden)
      ensures logicalArea == old(logicalArea) && nextArea == old(nextArea) && restore == old(restore)
      ensures windowState == old(windowState) && windowRect == old(windowRect) && clip == old(clip)
    {
      beforeShown := Some(windowState);
      nextState := Some(Hidden);
    }

    /** `show`: stages the remembered state (nothing if none was remembered) and forgets it. */
    method Show()
      modifies this
      ensures nextState == old(beforeShown) && beforeShown.None?
      ensures logicalArea == old(logicalArea) && nextArea == old(nextArea) && restore == old(restore)
      ensures windowState == old(windowState) && windowRect == old(windowRect) && clip == old(clip)
    {
      nextState := beforeShown;
      beforeShown := Option.None;
    }

    /**
     * `commit_changes`: a staged state is applied and the window constrained;
     * a staged area becomes the committed one and, unless the window is
     * fullscreen, the window is given its new visible area and constrained.
     * Nothing is staged afterwards, and `get_logical_area` is unchanged.
     */
    method Commit(neighbors: seq<bool>)
      requires |neighbors| == 4
      modifies this
      ensures nextArea.None? && nextState.None? && LogicalArea() == old(LogicalArea())
      ensures windowState == (if old(nextState).Some? then old(nextState).value else old(windowState))
      ensures windowRect == (if old(nextArea).Some? && !IsWindowFullscreen(windowState) then Visible(neighbors) else old(windowRect))
      ensures old(nextArea).Some? && !IsWindowFullscreen(windowState) ==> clip == Some(Visible(neighbors))
      ensures old(nextState).None? && (old(nextArea).None? || IsWindowFullscreen(windowState)) ==> clip == old(clip)
      ensures old(nextState).Some? ==> (clip.None? <==> windowState in {Fullscreen, Maximized, HorizMaximized, VertMaximized})
      ensures beforeShown == old(beforeShown) && restore == old(restore)
    {
      if nextState.Some? {
        windowState := nextState.value;
        Constrain(neighbors);
        nextState := Option.None;
      }
      if nextArea.Some? {
        logicalArea := nextArea.value;
        nextArea := Option.None;
        if !IsWindowFullscreen(windowState) {
          windowRect := Visible(neighbors);
          Constrain(neighbors);
        }
      }
    }

    /**
     * `toggle_fullscreen`: stages restored for a fullscreen window and
     * fullscreen otherwise, commits, and reports success, so the window's
     * fullscreen status flips.
     */
    method ToggleFullscreen(neighbors: seq<bool>) returns (ok: bool)
      requires |neighbors| == 4
      modifies this
      ensures ok
      ensures windowState == (if IsWindowFullscreen(old(windowState)) then Restored else Fullscreen)
      ensures IsWindowFullscreen(windowState) == !IsWindowFullscreen(old(windowState))
      ensures nextState.None? && nextArea.None? && LogicalArea() == old(LogicalArea())
    {
      if IsWindowFullscreen(windowState) {
        nextState := Some(Restored);
      } else {
        nextState := Some(Fullscreen);
      }
      Commit(neighbors);
      return true;
    }

    /**
     * `handle_modify`: a requested state different from the window's is
     * staged and committed, and the tree is told when it is a fullscreen or
     * the restored state; a requested size that differs from the visible size
     * is dropped unless the window is fullscreen. The rest is passed on.
     */
    method HandleModify(request: Modification, neighbors: seq<bool>) returns (forwarded: Modification, advice: Advice)
      requires |neighbors| == 4
      modifies this
      ensures forwarded.state == request.state
      ensures request.state.Some? && request.state.value != old(windowState) ==>
        windowState == request.state.value
        && advice == (if IsWindowFullscreen(request.state.value) then AdviseFullscreen
                      else if request.state.value == Restored then AdviseRestored else NoAdvice)
      ensures !(request.state.Some? && request.state.value != old(windowState)) ==> windowState == old(windowState) && advice == NoAdvice
      ensures var consumed := !IsWindowFullscreen(windowState) && request.size.Some?
          && request.size.value != (Visible(neighbors).width, Visible(neighbors).height);
        forwarded == (if consumed then request.(size := Option.None) else request)
    {
      advice := NoAdvice;
      if request.state.Some? && request.state.value != windowState {
        SetState(request.state.value);
        Commit(neighbors);
        if IsWindowFullscreen(request.state.value) {
          advice := AdviseFullscreen;
        } else if request.state.value == Restored {
          advice := AdviseRestored;
        }
      }
      forwarded := request;
      var v := Visible(neighbors);
      if !IsWindowFullscreen(windowState) && request.size.Some? && request.size.value != (v.width, v.height) {
        forwarded := request.(size := Option.None);
      }
    }

    /** The `restore_state(state)` setter. */
    method SetRestoreState(s: WindowState)
      modifies this
      ensures restore == Some(s)
      ensures logicalArea == old(logicalArea) && nextArea == old(nextArea) && nextState == old(nextState) && beforeShown == old(beforeShown)
      ensures windowState == old(windowState) && windowRect == old(windowRect) && clip == old(clip)
    {
      restore := Some(s);
    }

    /** The `restore_state()` getter hands the stored state over once: a second call finds nothing. */
    method TakeRestoreState() returns (s: Option<WindowState>)
      modifies this
      ensures s == old(restore) && restore.None?
      ensures logicalArea == old(logicalArea) && nextArea == old(nextArea) && nextState == old(nextState) && beforeShown == old(beforeShown)
      ensures windowState == old(windowState) && windowRect == old(windowRect) && clip == old(clip)
    {
      s := restore;
      restore := Option.None;
    }

    /** `pinned()`, `pinned(bool)`, `move_by` and `move_to`: a tiled window is never pinned and cannot be moved freely. */
    method RefuseFreeMove() returns (pinned: bool, pinnedSet: bool, movedBy: bool, movedTo: bool)
      ensures !pinned && !pinnedSet && !movedBy && !movedTo
    {
      return false, false, false, false;
    }
  }
}
