// Window states and the fullscreen test of src/window_helpers.cpp.
module WindowHelpers {

  /** `MirWindowState`, in the order of Mir's enum. */
  datatype WindowState =
    | Unknown | Restored | Minimized | Maximized | VertMaximized | Fullscreen | HorizMaximized | Hidden | Attached

  /**
   * `is_window_fullscreen`: fullscreen and the three maximized states; every
   * other state, unknown, restored, minimized, hidden and attached included,
   * is not.
   */
  predicate IsWindowFullscreen(s: WindowState): (b: bool)
    ensures b <==> !(s.Unknown? || s.Restored? || s.Minimized? || s.Hidden? || s.Attached?)
  {
    s == Fullscreen || s == Maximized || s == HorizMaximized || s == VertMaximized
  }
}
