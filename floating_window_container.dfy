// FloatingWindowContainer (src/floating_window_container.cpp): a window that
// floats above the tiled ones. It can be pinned to show on every workspace,
// and it is moved by offsets of its top-left corner.
module FloatingWindowContainers {
  import opened Wrappers
  import opened Geometry
  import opened WindowHelpers

  /** `move` moves by this many pixels. */
  const MoveStep: int := 10

  /** The top-left corner after `move_by`: down is +y, up is -y, left is -x, right is +x. */
  function MovedBy(x: int, y: int, d: Direction, pixels: int): (r: (int, int))
    ensures d.Up? || d.Down? ==> r.0 == x
    ensures d.Left? || d.Right? ==> r.1 == y
    ensures d.Down? ==> r.1 - y == pixels
    ensures d.Up? ==> y - r.1 == pixels
    ensures d.Right? ==> r.0 - x == pixels
    ensures d.Left? ==> x - r.0 == pixels
  {
    match d
    case Down => (x, y + pixels)
    case Up => (x, y - pixels)
    case Left => (x - pixels, y)
    case Right => (x + pixels, y)
  }

  /** Moving by an amount and back in the opposite direction returns the corner to where it was. */
  lemma MoveByUndone(x: int, y: int, d: Direction, pixels: int)
    ensures var p := MovedBy(x, y, d, pixels); MovedBy(p.0, p.1, Opposite(d), pixels) == (x, y)
  {
  }

  /** The direction pointing the other way. */
  function Opposite(d: Direction): (r: Direction)
    ensures r != d && (r.Up? <==> d.Down?) && (r.Left? <==> d.Right?)
  {
    match d
    case Up => Down
    case Down => Up
    case Left => Right
    case Right => Left
  }

  /**
   * The `visible` field of `to_json`: a pinned window is always visible;
   * any other is visible iff its output is the active one and shows the
   * window's workspace.
   */
  function VisibleInJson(pinned: bool, outputActive: bool, outputActiveWorkspace: int, workspace: int): (r: bool)
    ensures pinned ==> r
    ensures !pinned ==> (r <==> outputActive && outputActiveWorkspace == workspace)
  {
    var visible := outputActive && outputActiveWorkspace == workspace;
    pinned || visible
  }

  class FloatingWindowContainer {
    var isPinned: bool
    var restore: Option<WindowState>
    /** The window as the window manager holds it: state, top-left corner and whether it was last raised or sent back. */
    var windowState: WindowState
    var x: int
    var y: int
    var raised: bool
    var workspace: int

    constructor(state: WindowState, x: int, y: int, workspace: int)
      ensures !isPinned && restore.None? && windowState == state && this.x == x && this.y == y && !raised && this.workspace == workspace
    {
      isPinned := false;
      restore := None;
      windowState := state;
      this.x := x;
      this.y := y;
      raised := false;
      this.workspace := workspace;
    }

    /** `pinned()` reads the flag. */
    function Pinned(): bool
      reads this
    {
      isPinned
    }

    /** `pinned(bool)` stores the flag and succeeds; `pinned()` then reads it back. */
    method SetPinned(b: bool) returns (ok: bool)
      modifies this
      ensures ok && Pinned() == b
      ensures restore == old(restore) && windowState == old(windowState) && x == old(x) && y == old(y)
      ensures raised == old(raised) && workspace == old(workspace)
    {
      isPinned := b;
      return true;
    }

    /** `hide` saves the window's state, hides it and sends it to the back. */
    method Hide()
      modifies this
      ensures restore == Some(old(windowState)) && windowState == Hidden && !raised
      ensures isPinned == old(isPinned) && x == old(x) && y == old(y) && workspace == old(workspace)
    {
      restore := Some(windowState);
      windowState := Hidden;
      raised := false;
    }

    /**
     * `show`: a pinned window is only raised; otherwise a saved state is
     * applied, the window raised and the saved state forgotten.
     */
    method Show()
      modifies this
      ensures old(isPinned) ==> raised && windowState == old(windowState) && restore == old(restore)
      ensures !old(isPinned) && old(restore).Some? ==> windowState == old(restore).value && raised && restore.None?
      ensures !old(isPinned) && old(restore).None? ==> windowState == old(windowState) && raised == old(raised) && restore.None?
      ensures isPinned == old(isPinned) && x == old(x) && y == old(y) && workspace == old(workspace)
    {
      if isPinned {
        raised := true;
        return;
      }
      if restore.Some? {
        windowState := restore.value;
        raised := true;
        restore := None;
      }
    }

    /** Hiding and then showing an unpinned window gives it back the state it had, raised. */
    method HideThenShow()
      requires !isPinned
      modifies this
      ensures windowState == old(windowState) && raised && restore.None?
    {
      Hide();
      Show();
    }

    /** `move_by` shifts the top-left corner; every `Direction` value is handled, so it succeeds. */
    method MoveBy(d: Direction, pixels: int) returns (ok: bool)
      modifies this
      ensures ok && (x, y) == MovedBy(old(x), old(y), d, pixels)
      ensures isPinned == old(isPinned) && restore == old(restore) && windowState == old(windowState)
      ensures raised == old(raised) && workspace == old(workspace)
    {
      var p := MovedBy(x, y, d, pixels);
      x, y := p.0, p.1;
      return true;
    }

    /** `move` is `move_by` ten pixels. */
    method Move(d: Direction) returns (ok: bool)
      modifies this
      ensures ok && (x, y) == MovedBy(old(x), old(y), d, MoveStep)
      ensures isPinned == old(isPinned) && restore == old(restore) && windowState == old(windowState)
      ensures raised == old(raised) && workspace == old(workspace)
    {
      ok := MoveBy(d, MoveStep);
    }

    /** `move_to` places the top-left corner and succeeds. */
    method MoveTo(newX: int, newY: int) returns (ok: bool)
      modifies this
      ensures ok && x == newX && y == newY
      ensures isPinned == old(isPinned) && restore == old(restore) && windowState == old(windowState)
      ensures raised == old(raised) && workspace == old(workspace)
    {
      x, y := newX, newY;
      return true;
    }

    /**
     * The fixed answers: minimum size 1x1; `resize`, `toggle_fullscreen` and
     * `select_next` refuse; `set_parent` throws, which is `setParentOk == false`.
     */
    method FixedAnswers() returns (minWidth: nat, minHeight: nat, resized: bool, toggled: bool, selected: bool, setParentOk: bool)
      ensures minWidth == 1 && minHeight == 1 && !resized && !toggled && !selected && !setParentOk
    {
      return 1, 1, false, false, false, false;
    }
  }
}
