// Output (src/output.cpp): one display. It keeps the keys of its workspaces
// in ascending order, the key of the active one, and the application zones
// that cover it.
module Outputs {
  import opened Wrappers
  import opened Geometry
  import opened ContainerTypes
  import opened Workspaces

  predicate Sorted(s: seq<int>)
  {
    forall i, j :: 0 <= i < j < |s| ==> s[i] <= s[j]
  }

  /**
   * `insert_sorted` with the comparison on workspace keys: the new key goes
   * before the first larger key. (The helper itself is not part of this
   * model; only the order it keeps is relied on.)
   */
  function InsertSorted(s: seq<int>, x: int): (r: seq<int>)
    ensures |r| == |s| + 1
  {
    if |s| == 0 then [x]
    else if s[0] > x then [x] + s
    else [s[0]] + InsertSorted(s[1..], x)
  }

  /** Inserting adds exactly the key. */
  lemma {:induction false} InsertSortedAdds(s: seq<int>, x: int)
    ensures multiset(InsertSorted(s, x)) == multiset(s) + multiset{x}
  {
    if |s| > 0 && s[0] <= x {
      InsertSortedAdds(s[1..], x);
      assert s == [s[0]] + s[1..];
    }
  }

  /** Inserting keeps the list in ascending order. */
  lemma {:induction false} InsertSortedKeepsOrder(s: seq<int>, x: int)
    requires Sorted(s)
    ensures Sorted(InsertSorted(s, x))
  {
    if |s| > 0 && s[0] <= x {
      var rest := InsertSorted(s[1..], x);
      InsertSortedKeepsOrder(s[1..], x);
      InsertSortedAdds(s[1..], x);
      assert forall k :: 0 <= k < |rest| ==> rest[k] in multiset(rest);
      assert forall k :: 0 <= k < |s| - 1 ==> s[1..][k] == s[k + 1];
      assert forall k :: 0 <= k < |rest| ==> s[0] <= rest[k];
    }
  }

  /** `s` without its first `x`; unchanged when there is none. */
  function RemoveFirst(s: seq<int>, x: int): (r: seq<int>)
    ensures x !in s ==> r == s
    ensures x in s ==> |r| == |s| - 1
  {
    if |s| == 0 then s
    else if s[0] == x then s[1..]
    else [s[0]] + RemoveFirst(s[1..], x)
  }

  /** Removing takes away exactly one copy of the key. */
  lemma {:induction false} RemoveFirstTakes(s: seq<int>, x: int)
    requires x in s
    ensures multiset(RemoveFirst(s, x)) == multiset(s) - multiset{x}
  {
    assert s == [s[0]] + s[1..];
    if s[0] != x {
      RemoveFirstTakes(s[1..], x);
    }
  }

  /** Removing introduces no new key. */
  lemma {:induction false} RemoveFirstWithin(s: seq<int>, x: int)
    ensures forall k :: 0 <= k < |RemoveFirst(s, x)| ==> RemoveFirst(s, x)[k] in s
  {
    if |s| > 0 && s[0] != x {
      RemoveFirstWithin(s[1..], x);
      assert forall y :: y in s[1..] ==> y in s;
    }
  }

  /** Removing keeps the list in ascending order. */
  lemma {:induction false} RemoveFirstKeepsOrder(s: seq<int>, x: int)
    requires Sorted(s)
    ensures Sorted(RemoveFirst(s, x))
  {
    if |s| > 0 && s[0] != x {
      var tail := s[1..];
      var rest := RemoveFirst(tail, x);
      assert Sorted(tail);
      RemoveFirstKeepsOrder(tail, x);
      RemoveFirstWithin(tail, x);
      assert forall y :: y in tail ==> s[0] <= y;
      assert forall k :: 0 <= k < |rest| ==> s[0] <= rest[k];
    }
  }

  /** Before its first `x`, a list is kept as it is. */
  lemma {:induction false} RemoveFirstSplit(s: seq<int>, x: int, i: nat)
    requires i <= |s| && x !in s[..i]
    ensures RemoveFirst(s, x) == s[..i] + RemoveFirst(s[i..], x)
  {
    if i > 0 {
      assert s[0] == s[..i][0];
      assert s[1..][..i - 1] == s[1..i];
      assert x !in s[1..][..i - 1];
      RemoveFirstSplit(s[1..], x, i - 1);
      assert s[1..][i - 1..] == s[i..];
      assert s[..i] == [s[0]] + s[1..i];
    }
  }

  /** The rectangle of a workspace on the strip of workspaces: its number times the output width across, at the top. */
  function WorkspaceRectangle(area: Rect, ws: int): (r: Rect)
    ensures r.y == 0 && r.width == area.width && r.height == area.height
    ensures r.x == WorkspaceToNumber(ws) * area.width
  {
    Rect(WorkspaceToNumber(ws) * area.width, 0, area.width, area.height)
  }

  lemma MulStep(a: int, b: int, w: int)
    requires a < b && w >= 0
    ensures a * w + w <= b * w
  {
    var d := b - a;
    assert b * w == a * w + d * w;
    assert d * w == w + (d - 1) * w;
    assert (d - 1) * w >= 0;
  }

  /** On a strip of positive width, the rectangles of two different workspaces 0 to 10 do not overlap. */
  lemma WorkspaceRectanglesDisjoint(area: Rect, a: int, b: int)
    requires area.width > 0 && 0 <= a <= 10 && 0 <= b <= 10 && a != b
    ensures var ra, rb := WorkspaceRectangle(area, a), WorkspaceRectangle(area, b);
      ra.x + ra.width <= rb.x || rb.x + rb.width <= ra.x
  {
    WorkspaceNumbersDistinct(a, b);
    var na, nb := WorkspaceToNumber(a), WorkspaceToNumber(b);
    if na < nb {
      MulStep(na, nb, area.width);
    } else {
      MulStep(nb, na, area.width);
    }
  }

  /** `allocate_position`: a shell type (as hinted, or, with no hint, as the request suggests) is placed as such; the rest goes to the active workspace. */
  function AllocatedOnOutput(hint: ContainerType, suggested: ContainerType, configured: ContainerType): (r: ContainerType)
    ensures (if hint == ContainerType.None then suggested else hint) == Shell ==> r == Shell
    ensures (if hint == ContainerType.None then suggested else hint) != Shell ==>
      r == AllocatedLayout(if hint == ContainerType.None then suggested else hint, configured)
  {
    var ideal := if hint == ContainerType.None then suggested else hint;
    if ideal == Shell then Shell else AllocatedLayout(ideal, configured)
  }

  /** A `miral::Zone`: an identity and its extents; equality is on both. */
  datatype Zone = Zone(id: nat, extents: Rect)

  /** `Rectangle::contains` for rectangles: `inner` lies within `outer`. */
  predicate Contains(outer: Rect, inner: Rect)
  {
    outer.x <= inner.x && inner.x + inner.width <= outer.x + outer.width
    && outer.y <= inner.y && inner.y + inner.height <= outer.y + outer.height
  }

  /** What `advise_workspace_active` did. */
  datatype Activation =
    | AlreadyActive                       // the key was already active: nothing changes
    | Missing                             // the key is not on this output: a fatal error
    | FirstShown                          // no workspace was active: the key's is shown
    | Switched(from: int, deleteFrom: bool) // switched away from `from`, asking for it to be deleted when it is left empty

  class Output {
    var area: Rect
    var workspaces: seq<int>
    var activeWorkspace: int
    var zones: seq<Zone>

    constructor(area: Rect)
      ensures this.area == area && workspaces == [] && activeWorkspace == -1 && zones == []
    {
      this.area := area;
      workspaces := [];
      activeWorkspace := -1;
      zones := [];
    }

    /** `get_active_workspace`: the entry with the active key; there is none (the source throws) when the key is not on the list. */
    method GetActiveWorkspace() returns (r: Option<int>)
      ensures r.Some? <==> activeWorkspace in workspaces
      ensures r.Some? ==> r.value == activeWorkspace
    {
      var i := 0;
      while i < |workspaces|
        invariant i <= |workspaces| && activeWorkspace !in workspaces[..i]
      {
        if workspaces[i] == activeWorkspace {
          return Some(workspaces[i]);
        }
        i := i + 1;
      }
      return Option.None;
    }

    /** `advise_new_workspace`: the key joins the list, which stays in ascending order. */
    method AdviseNewWorkspace(key: int)
      modifies this
      ensures workspaces == InsertSorted(old(workspaces), key)
      ensures Sorted(old(workspaces)) ==> Sorted(workspaces)
      ensures multiset(workspaces) == multiset(old(workspaces)) + multiset{key}
      ensures activeWorkspace == old(activeWorkspace) && zones == old(zones) && area == old(area)
    {
      InsertSortedAdds(workspaces, key);
      if Sorted(workspaces) {
        InsertSortedKeepsOrder(workspaces, key);
      }
      workspaces := InsertSorted(workspaces, key);
    }

    /** `advise_workspace_deleted`: the first entry with the key is erased; without one, nothing changes. */
    method AdviseWorkspaceDeleted(key: int)
      modifies this
      ensures workspaces == RemoveFirst(old(workspaces), key)
      ensures key !in old(workspaces) ==> workspaces == old(workspaces)
      ensures Sorted(old(workspaces)) ==> Sorted(workspaces)
      ensures activeWorkspace == old(activeWorkspace) && zones == old(zones) && area == old(area)
    {
      if Sorted(workspaces) {
        RemoveFirstKeepsOrder(workspaces, key);
      }
      var i := 0;
      while i < |workspaces|
        invariant i <= |workspaces| && key !in workspaces[..i]
      {
        if workspaces[i] == key {
          RemoveFirstSplit(workspaces, key, i);
          workspaces := workspaces[..i] + workspaces[i + 1..];
          return;
        }
        assert workspaces[..i + 1] == workspaces[..i] + [workspaces[i]];
        i := i + 1;
      }
      assert workspaces[..i] == workspaces;
    }

    /**
     * `advise_workspace_active`: nothing when the key is already active, and
     * a fatal error when it is not on this output. With no active workspace
     * the key's is simply shown; otherwise the pinned windows move over from
     * the previous workspace, which is to be deleted if that leaves it empty
     * (`fromEmpty`: the previous workspace's emptiness after the transfer).
     * In both of those cases the key becomes the active one.
     */
    method AdviseWorkspaceActive(key: int, fromEmpty: bool) returns (r: Activation)
      modifies this
      ensures key in old(workspaces) && old(activeWorkspace) == key ==> r == AlreadyActive
      ensures key !in old(workspaces) ==> r == Missing
      ensures key in old(workspaces) && old(activeWorkspace) != key && old(activeWorkspace) !in old(workspaces) ==> r == FirstShown
      ensures key in old(workspaces) && old(activeWorkspace) != key && old(activeWorkspace) in old(workspaces) ==>
        r == Switched(old(activeWorkspace), fromEmpty)
      ensures activeWorkspace == (if r.FirstShown? || r.Switched? then key else old(activeWorkspace))
      ensures workspaces == old(workspaces) && zones == old(zones) && area == old(area)
    {
      var from, to := false, false;
      var i := 0;
      while i < |workspaces|
        invariant i <= |workspaces|
        invariant from <==> activeWorkspace in workspaces[..i]
        invariant to <==> key in workspaces[..i]
        invariant to ==> activeWorkspace != key
      {
        assert workspaces[..i + 1] == workspaces[..i] + [workspaces[i]];
        if workspaces[i] == activeWorkspace {
          from := true;
        }
        if workspaces[i] == key {
          if activeWorkspace == key {
            return AlreadyActive;
          }
          to := true;
        }
        i := i + 1;
      }
      assert workspaces[..i] == workspaces;
      if !to {
        return Missing;
      }
      if !from {
        activeWorkspace := key;
        return FirstShown;
      }
      r := Switched(activeWorkspace, fromEmpty);
      activeWorkspace := key;
    }

    /** `advise_application_zone_create`: only a zone containing the whole output is added, and then areas are recalculated. */
    method AdviseZoneCreate(z: Zone) returns (recalculated: bool)
      modifies this
      ensures recalculated == Contains(z.extents, area)
      ensures zones == (if recalculated then old(zones) + [z] else old(zones))
      ensures workspaces == old(workspaces) && activeWorkspace == old(activeWorkspace) && area == old(area)
    {
      if Contains(z.extents, area) {
        zones := zones + [z];
        return true;
      }
      return false;
    }

    /** `advise_application_zone_update`: the first zone equal to `original` becomes `updated`, and then areas are recalculated. */
    method AdviseZoneUpdate(updated: Zone, original: Zone) returns (recalculated: bool)
      modifies this
      ensures recalculated <==> original in old(zones)
      ensures |zones| == |old(zones)|
      ensures recalculated ==> exists k :: 0 <= k < |zones| && original !in old(zones)[..k] && zones == old(zones)[k := updated]
      ensures !recalculated ==> zones == old(zones)
      ensures workspaces == old(workspaces) && activeWorkspace == old(activeWorkspace) && area == old(area)
    {
      var i := 0;
      while i < |zones|
        invariant i <= |zones| && original !in zones[..i]
      {
        if zones[i] == original {
          zones := zones[i := updated];
          return true;
        }
        i := i + 1;
      }
      return false;
    }

    /** `advise_application_zone_delete`: every zone equal to `z` is erased; areas are recalculated iff one was. */
    method AdviseZoneDelete(z: Zone) returns (recalculated: bool)
      modifies this
      ensures zones == ZonesWithout(old(zones), z) && z !in zones
      ensures recalculated <==> z in old(zones)
      ensures workspaces == old(workspaces) && activeWorkspace == old(activeWorkspace) && area == old(area)
    {
      var before := |zones|;
      ZonesWithoutShrinks(zones, z);
      zones := ZonesWithout(zones, z);
      recalculated := |zones| != before;
    }
  }

  /** `zones` with every zone equal to `z` erased. */
  function ZonesWithout(zones: seq<Zone>, z: Zone): (r: seq<Zone>)
    ensures |r| <= |zones| && z !in r
    ensures forall y :: y in r <==> y in zones && y != z
  {
    if |zones| == 0 then []
    else (if zones[0] == z then [] else [zones[0]]) + ZonesWithout(zones[1..], z)
  }

  /** Something is erased exactly when `z` was there. */
  lemma {:induction false} ZonesWithoutShrinks(zones: seq<Zone>, z: Zone)
    ensures |ZonesWithout(zones, z)| < |zones| <==> z in zones
  {
    if |zones| > 0 {
      ZonesWithoutShrinks(zones[1..], z);
      assert zones == [zones[0]] + zones[1..];
    }
  }
}
