// SurfaceTracker (src/surface_tracker.cpp): the map from a Mir surface to the
// window drawn on it.
module SurfaceTrackers {
  import opened Wrappers

  class SurfaceTracker {
    /** Surfaces and windows are identified by numbers. */
    var windows: map<nat, nat>

    constructor()
      ensures windows == map[]
    {
      windows := map[];
    }

    /** `add` uses `std::map::insert`: a surface already tracked keeps its window. */
    method Add(surface: nat, window: nat)
      modifies this
      ensures surface in old(windows) ==> windows == old(windows)
      ensures surface !in old(windows) ==> windows == old(windows)[surface := window]
    {
      if surface !in windows {
        windows := windows[surface := window];
      }
    }

    /** `remove` drops the surface's entry if there is one; every other entry stays. */
    method Remove(surface: nat)
      modifies this
      ensures windows == old(windows) - {surface}
    {
      if surface in windows {
        windows := windows - {surface};
      }
    }

    /** `get`: the window on the surface, or the empty window (none) when it is not tracked. */
    method Get(surface: nat) returns (w: Option<nat>)
      ensures w.Some? <==> surface in windows
      ensures w.Some? ==> w.value == windows[surface]
    {
      if surface in windows {
        return Some(windows[surface]);
      }
      return None;
    }
  }

  /** Tracking one surface leaves every other surface's window as it was, and a second add of the same surface changes nothing. */
  lemma AddKeepsOthers(m: map<nat, nat>, surface: nat, window: nat, other: nat)
    requires other != surface
    ensures var m' := if surface in m then m else m[surface := window];
      (other in m' <==> other in m) && (other in m ==> m'[other] == m[other])
      && surface in m' && (surface in m ==> m'[surface] == m[surface])
  {
  }

  /** Removing one surface leaves every other surface's window as it was. */
  lemma RemoveKeepsOthers(m: map<nat, nat>, surface: nat, other: nat)
    requires other != surface
    ensures (other in m - {surface} <==> other in m) && (other in m ==> (m - {surface})[other] == m[other])
    ensures surface !in m - {surface}
  {
  }
}
