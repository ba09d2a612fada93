// WorkspaceManager (src/workspace_manager.cpp): a table from workspace key
// to the output that owns the workspace, and the requests that create,
// focus and delete workspaces. The workspace observers' notifications are
// returned as a list of notices.
module WorkspaceManagers {
  import opened Wrappers
  import opened Outputs

  /** What the manager tells the workspace observers. */
  datatype Notice =
    | Created(output: Output, key: int)
    | Removed(output: Output, key: int)
    | Focused(previous: Option<Output>, previousKey: int, current: Output, key: int)

  /** The keys whose slot names `o` as owner. */
  function Owned(owners: seq<Option<Output>>, o: Output): set<int>
  {
    set k | 0 <= k < |owners| && owners[k] == Some(o)
  }

  /** Giving one slot a new owner changes only that key's membership. */
  lemma OwnedUpdate(owners: seq<Option<Output>>, key: int, v: Option<Output>, o: Output)
    requires 0 <= key < |owners|
    ensures Owned(owners[key := v], o) ==
      if v == Some(o) then Owned(owners, o) + {key} else Owned(owners, o) - {key}
  {
  }

  /** The first free slot from `i` on. */
  function FreeFrom(owners: seq<Option<Output>>, i: nat): (r: Option<int>)
    requires i <= |owners|
    ensures r.Some? ==> (i <= r.value < |owners| && owners[r.value].None?
      && forall k :: i <= k < r.value ==> owners[k].Some?)
    ensures r.None? ==> forall k :: i <= k < |owners| ==> owners[k].Some?
    decreases |owners| - i
  {
    if i == |owners| then Option.None
    else if owners[i].None? then Some(i)
    else FreeFrom(owners, i + 1)
  }

  /** The key `request_first_available_workspace` picks: the lowest free one from 1 on, else 0. */
  function FirstFree(owners: seq<Option<Output>>): (r: Option<int>)
    ensures r.Some? <==> exists k :: 0 <= k < |owners| && owners[k].None?
    ensures r.Some? ==> 0 <= r.value < |owners| && owners[r.value].None?
    ensures r.Some? && r.value > 0 ==> forall k :: 1 <= k < r.value ==> owners[k].Some?
    ensures r.Some? && r.value == 0 ==> forall k :: 1 <= k < |owners| ==> owners[k].Some?
  {
    if |owners| == 0 then Option.None
    else match FreeFrom(owners, 1)
      case Some(k) => Some(k)
      case None => if owners[0].None? then Some(0) else Option.None
  }

  class WorkspaceManager {
    /** NUM_WORKSPACES: the number of slots. */
    const count: nat
    var owners: seq<Option<Output>>

    /** The outputs that own at least one workspace. */
    function Outputs(): set<Output>
      reads this
    {
      set k | 0 <= k < |owners| && owners[k].Some? :: owners[k].value
    }

    /** Each output lists exactly the keys the table gives it, once each. */
    predicate Agrees(o: Output)
      reads this, o
    {
      multiset(o.workspaces) == multiset(Owned(owners, o))
    }

    predicate Valid()
      reads this, Outputs()
    {
      |owners| == count && forall o :: o in Outputs() ==> Agrees(o)
    }

    constructor(count: nat)
      ensures this.count == count && Valid()
      ensures forall k :: 0 <= k < count ==> owners[k] == Option.None
    {
      this.count := count;
      owners := seq(count, _ => Option.None);
    }

    /**
     * `delete_workspace`: for a used key the owner drops the workspace, the
     * observers hear of it and the slot is cleared; an unused key changes
     * nothing and answers false.
     */
    method DeleteWorkspace(key: int) returns (deleted: bool, notices: seq<Notice>)
      requires Valid() && 0 <= key < count
      modifies this, Outputs()
      ensures Valid()
      ensures deleted <==> old(owners[key]).Some?
      ensures owners == old(owners)[key := Option.None]
      ensures deleted ==> var o := old(owners[key]).value;
        notices == [Removed(o, key)] && o.workspaces == RemoveFirst(old(o.workspaces), key)
        && o.activeWorkspace == old(o.activeWorkspace)
      ensures !deleted ==> notices == []
      ensures forall o :: o in old(Outputs()) && (deleted ==> o != old(owners[key]).value) ==> unchanged(o)
    {
      if owners[key].None? {
        assert owners == owners[key := Option.None];
        return false, [];
      }
      var o := owners[key].value;
      ghost var before := owners;
      ghost var outputsBefore := Outputs();
      assert key in multiset(Owned(owners, o));
      o.AdviseWorkspaceDeleted(key);
      RemoveFirstTakes(old(o.workspaces), key);
      OwnedUpdate(owners, key, Option.None, o);
      owners := owners[key := Option.None];
      assert multiset(Owned(owners, o)) == multiset(Owned(before, o)) - multiset{key};
      forall p | p in Outputs()
        ensures Agrees(p)
      {
        assert p in outputsBefore;
        if p != o {
          OwnedUpdate(before, key, Option.None, p);
        }
      }
      return true, [Removed(o, key)];
    }

    /**
     * The part of `request_focus` before the observers are told: the owner
     * of a used key activates it. When that switches away from a workspace
     * left empty (`fromEmpty`), the owner asks for the old one to be deleted,
     * which `delete_workspace` carries out.
     */
    method Activate(key: int, fromEmpty: bool) returns (owner: Option<Output>, notices: seq<Notice>)
      requires Valid() && 0 <= key < count
      modifies this, Outputs()
      ensures Valid()
      ensures owner == old(owners[key])
      ensures owner.None? ==> notices == [] && owners == old(owners) && unchanged(old(Outputs()))
      ensures owner.Some? ==> var o := owner.value; var from := old(o.activeWorkspace);
        o.activeWorkspace == key && owners[key] == owner
        && (if from != key && from in old(o.workspaces) && fromEmpty && 0 <= from < count
            then notices == [Removed(o, from)] && owners == old(owners)[from := Option.None]
              && old(owners[from]) == owner && o.workspaces == RemoveFirst(old(o.workspaces), from)
            else notices == [] && owners == old(owners) && o.workspaces == old(o.workspaces))
      ensures owner.Some? ==> forall p :: p in old(Outputs()) && p != owner.value ==> unchanged(p)
    {
      owner := owners[key];
      if owner.None? {
        return owner, [];
      }
      var o := owner.value;
      assert key in multiset(Owned(owners, o));
      var r := o.AdviseWorkspaceActive(key, fromEmpty);
      if r.Switched? && r.deleteFrom {
        assert r.from in multiset(Owned(owners, o));
        assert owners[r.from] == owner;
        var deleted;
        deleted, notices := DeleteWorkspace(r.from);
      } else {
        notices := [];
      }
    }

    /**
     * `request_focus` as written: the observers hear of the focus change
     * with the active output's workspace as read after the activation, so
     * when the active output is the owner the "previous" key is the new one.
     */
    method RequestFocus(key: int, activeScreen: Option<Output>, fromEmpty: bool) returns (notices: seq<Notice>)
      requires Valid() && 0 <= key < count
      modifies this, Outputs()
      ensures Valid()
      ensures old(owners[key]).None? ==> notices == [] && owners == old(owners)
      ensures old(owners[key]).Some? ==> var o := old(owners[key]).value;
        o.activeWorkspace == key && owners[key] == Some(o) && |notices| > 0
        && notices[|notices| - 1] == Focused(activeScreen, if activeScreen.Some? then activeScreen.value.activeWorkspace else -1, o, key)
        && (var from := old(o.activeWorkspace);
            if from != key && from in old(o.workspaces) && fromEmpty && 0 <= from < count
            then notices[..|notices| - 1] == [Removed(o, from)] && owners == old(owners)[from := Option.None]
              && old(owners[from]) == Some(o)
            else |notices| == 1 && owners == old(owners))
      ensures forall k :: 0 <= k < count && owners[k] != old(owners[k]) ==>
        owners[k] == Option.None && Removed(old(owners[k]).value, k) in notices
      ensures activeScreen.Some? && old(owners[key]) == activeScreen ==> notices[|notices| - 1].previousKey == key
    {
      var owner, deleted := Activate(key, fromEmpty);
      if owner.None? {
        return [];
      }
      var previousKey := if activeScreen.Some? then activeScreen.value.activeWorkspace else -1;
      notices := deleted + [Focused(activeScreen, previousKey, owner.value, key)];
      assert notices[..|notices| - 1] == deleted;
      assert forall n :: n in deleted ==> n in notices;
    }

    /** `request_focus` with the active output's workspace read before the activation, so "previous" is the workspace focus leaves. */
    method RequestFocusCorrected(key: int, activeScreen: Option<Output>, fromEmpty: bool) returns (notices: seq<Notice>)
      requires Valid() && 0 <= key < count
      modifies this, Outputs()
      ensures Valid()
      ensures old(owners[key]).None? ==> notices == [] && owners == old(owners)
      ensures old(owners[key]).Some? ==> var o := old(owners[key]).value;
        o.activeWorkspace == key && owners[key] == Some(o) && |notices| > 0
        && notices[|notices| - 1] == Focused(activeScreen, if activeScreen.Some? then old(activeScreen.value.activeWorkspace) else -1, o, key)
        && (var from := old(o.activeWorkspace);
            if from != key && from in old(o.workspaces) && fromEmpty && 0 <= from < count
            then notices[..|notices| - 1] == [Removed(o, from)] && owners == old(owners)[from := Option.None]
              && old(owners[from]) == Some(o)
            else |notices| == 1 && owners == old(owners))
      ensures forall k :: 0 <= k < count && owners[k] != old(owners[k]) ==>
        owners[k] == Option.None && Removed(old(owners[k]).value, k) in notices
    {
      var previousKey := if activeScreen.Some? then activeScreen.value.activeWorkspace else -1;
      var owner, deleted := Activate(key, fromEmpty);
      if owner.None? {
        return [];
      }
      notices := deleted + [Focused(activeScreen, previousKey, owner.value, key)];
      assert notices[..|notices| - 1] == deleted;
      assert forall n :: n in deleted ==> n in notices;
    }

    /**
     * `request_workspace`: a used key answers its owner, refocused unless the
     * key is already active there; an unused key is given to `screen`, which
     * creates the workspace, focuses it and announces it. Either way the key
     * ends up active on the output returned, and the only other slot that can
     * change is a workspace left empty, whose removal is announced.
     * `screen` must list exactly the keys the table gives it (none, for an
     * output new to the table).
     */
    method RequestWorkspace(screen: Output, key: int, activeScreen: Option<Output>, fromEmpty: bool)
      returns (r: Output, notices: seq<Notice>)
      requires Valid() && 0 <= key < count && Agrees(screen)
      modifies this, Outputs(), screen
      ensures Valid()
      ensures r == (if old(owners[key]).Some? then old(owners[key]).value else screen)
      ensures owners[key] == Some(r) && r.activeWorkspace == key
      ensures old(owners[key]).None? ==> key in r.workspaces && |notices| > 0 && notices[|notices| - 1] == Created(screen, key)
      ensures old(owners[key]).None? ==> Created(screen, key) in notices
      ensures old(owners[key]).None? ==>
        |notices| >= 2 && notices[|notices| - 2] ==
        Focused(activeScreen, if activeScreen.Some? then activeScreen.value.activeWorkspace else -1, screen, key)
      ensures old(owners[key]).None? && activeScreen == Some(screen) ==> notices[|notices| - 2].previousKey == key
      ensures old(owners[key]).Some? && old(r.activeWorkspace) == key ==> notices == [] && owners == old(owners)
      ensures forall k :: 0 <= k < count && k != key && owners[k] != old(owners[k]) ==>
        owners[k] == Option.None && Removed(old(owners[k]).value, k) in notices
    {
      if owners[key].Some? {
        r := owners[key].value;
        if r.activeWorkspace == key {
          return r, [];
        }
        notices := RequestFocus(key, activeScreen, fromEmpty);
        return r, notices;
      }
      Create(screen, key);
      notices := RequestFocus(key, activeScreen, fromEmpty);
      notices := notices + [Created(screen, key)];
      r := screen;
      assert r == owners[key].value && r in Outputs();
      assert key in multiset(Owned(owners, r));
    }

    /** The unused key goes to `screen`, which adds the workspace to its list. */
    method Create(screen: Output, key: int)
      requires Valid() && 0 <= key < count && Agrees(screen) && owners[key].None?
      modifies this, screen
      ensures Valid()
      ensures owners == old(owners)[key := Some(screen)]
      ensures screen.activeWorkspace == old(screen.activeWorkspace)
    {
      ghost var before := owners;
      ghost var outputsBefore := Outputs();
      screen.AdviseNewWorkspace(key);
      OwnedUpdate(owners, key, Some(screen), screen);
      owners := owners[key := Some(screen)];
      assert Owned(owners, screen) == Owned(before, screen) + {key};
      assert key !in Owned(before, screen);
      forall p | p in Outputs()
        ensures Agrees(p)
      {
        if p != screen {
          assert p in outputsBefore;
          OwnedUpdate(before, key, Some(screen), p);
        }
      }
    }

    /** `request_first_available_workspace`: the lowest free key from 1 on, else 0, is requested for `screen`; false when every slot is used. */
    method RequestFirstAvailableWorkspace(screen: Output, activeScreen: Option<Output>, fromEmpty: bool)
      returns (found: bool, notices: seq<Notice>)
      requires Valid() && Agrees(screen)
      modifies this, Outputs(), screen
      ensures Valid()
      ensures found <==> exists k :: 0 <= k < count && old(owners[k]).None?
      ensures found ==> var k := FirstFree(old(owners)).value;
        owners[k] == Some(screen) && screen.activeWorkspace == k && Created(screen, k) in notices
      ensures !found ==> notices == [] && owners == old(owners)
    {
      var i := 1;
      while i < count
        invariant 1 <= i && (count > 0 ==> i <= count)
        invariant owners == old(owners) && Valid()
        invariant count > 0 ==> FreeFrom(owners, 1) == FreeFrom(owners, i)
      {
        if owners[i].None? {
          var r;
          r, notices := RequestWorkspace(screen, i, activeScreen, fromEmpty);
          return true, notices;
        }
        i := i + 1;
      }
      if count > 0 && owners[0].None? {
        var r;
        r, notices := RequestWorkspace(screen, 0, activeScreen, fromEmpty);
        return true, notices;
      }
      return false, [];
    }

    /**
     * `move_active_to_workspace`: with no active window nothing happens and
     * the answer is false; otherwise the workspace is requested (the window's
     * own re-homing goes through the trees and the window manager).
     */
    method MoveActiveToWorkspace(screen: Output, key: int, activeWindow: Option<nat>, activeScreen: Option<Output>, fromEmpty: bool)
      returns (moved: bool, notices: seq<Notice>)
      requires Valid() && 0 <= key < count && Agrees(screen)
      modifies this, Outputs(), screen
      ensures Valid()
      ensures moved <==> activeWindow.Some?
      ensures !moved ==> notices == [] && owners == old(owners)
      ensures moved ==> owners[key].Some? && owners[key].value.activeWorkspace == key
    {
      if activeWindow.None? {
        return false, [];
      }
      var target;
      target, notices := RequestWorkspace(screen, key, activeScreen, fromEmpty);
      return true, notices;
    }
  }
}
