// Workspace (src/workspace.cpp): one numbered workspace of an output. It owns
// a tiling tree and a list of floating windows (by container id).
module Workspaces {
  import opened Wrappers
  import opened Geometry
  import opened Container
  import opened TilingWindowTrees
  import opened ContainerTypes

  /** `workspace_to_number`: workspace 0 is the tenth; every other key is one below itself. */
  function WorkspaceToNumber(w: int): (r: int)
    ensures w == 0 ==> r == 10
    ensures w != 0 ==> r + 1 == w
  {
    if w == 0 then 10 else w - 1
  }

  /** The keys 0 to 10 take distinct numbers 0 to 10 (key 11 would share 10 with key 0). */
  lemma WorkspaceNumbersDistinct(a: int, b: int)
    requires 0 <= a <= 10 && 0 <= b <= 10
    ensures 0 <= WorkspaceToNumber(a) <= 10
    ensures WorkspaceToNumber(a) == WorkspaceToNumber(b) ==> a == b
    ensures WorkspaceToNumber(0) == WorkspaceToNumber(11)
  {
  }

  /** The entries of `s` whose membership in `marked` is `want`, in order. */
  function Filtered(s: seq<nat>, marked: set<nat>, want: bool): (r: seq<nat>)
    ensures |r| <= |s|
  {
    if |s| == 0 then []
    else Filtered(s[..|s| - 1], marked, want) + (if (s[|s| - 1] in marked) == want then [s[|s| - 1]] else [])
  }

  /** Exactly the entries marked as wanted survive the filter. */
  lemma {:induction false} FilteredMembers(s: seq<nat>, marked: set<nat>, want: bool, x: nat)
    ensures x in Filtered(s, marked, want) <==> x in s && (x in marked) == want
  {
    if |s| > 0 {
      FilteredMembers(s[..|s| - 1], marked, want, x);
      assert s == s[..|s| - 1] + [s[|s| - 1]];
    }
  }

  /** Filtering one more entry. */
  lemma FilteredSnoc(s: seq<nat>, x: nat, marked: set<nat>, want: bool)
    ensures Filtered(s + [x], marked, want) == Filtered(s, marked, want) + (if (x in marked) == want then [x] else [])
  {
    assert (s + [x])[..|s|] == s;
  }

  /** Every entry goes to exactly one side of a split, so together they hold as many entries as there were. */
  lemma {:induction false} FilteredSplit(s: seq<nat>, marked: set<nat>)
    ensures |Filtered(s, marked, true)| + |Filtered(s, marked, false)| == |s|
  {
    if |s| > 0 {
      FilteredSplit(s[..|s| - 1], marked);
    }
  }

  /**
   * The loop of `transfer_pinned_windows_to` over the list: an entry in
   * `marked` is erased where it stands and collected in `moved`; the
   * iterator then stays put, and otherwise steps on.
   */
  method ErasePinned(s: seq<nat>, marked: set<nat>) returns (kept: seq<nat>, moved: seq<nat>)
    ensures kept == Filtered(s, marked, false) && moved == Filtered(s, marked, true)
  {
    kept, moved := s, [];
    ghost var k := 0;
    var i := 0;
    while i < |kept|
      invariant k <= |s| && i == |Filtered(s[..k], marked, false)|
      invariant kept == Filtered(s[..k], marked, false) + s[k..]
      invariant moved == Filtered(s[..k], marked, true)
      decreases |kept| - i
    {
      var c := kept[i];
      EraseStep(s, marked, k, kept);
      FilterStep(s, marked, k);
      if c in marked {
        moved := moved + [c];
        kept := kept[..i] + kept[i + 1..];
      } else {
        i := i + 1;
      }
      k := k + 1;
    }
    assert s[..k] == s;
  }

  /** One step of the loop: the entry at the cursor is `s[k]`; erasing it or stepping over it extends the filters by one entry. */
  lemma EraseStep(s: seq<nat>, marked: set<nat>, k: nat, kept: seq<nat>)
    requires k < |s| && kept == Filtered(s[..k], marked, false) + s[k..]
    ensures var i := |Filtered(s[..k], marked, false)|; i < |kept| && kept[i] == s[k]
    ensures var i := |Filtered(s[..k], marked, false)|;
      s[k] in marked ==> (kept[..i] + kept[i + 1..] == Filtered(s[..k + 1], marked, false) + s[k + 1..]
        && Filtered(s[..k + 1], marked, true) == Filtered(s[..k], marked, true) + [s[k]])
    ensures s[k] !in marked ==> (Filtered(s[..k + 1], marked, false) + s[k + 1..] == kept
      && Filtered(s[..k + 1], marked, true) == Filtered(s[..k], marked, true))
  {
    var done := Filtered(s[..k], marked, false);
    EraseAt(done, s[k..]);
    FilterStep(s, marked, k);
  }

  /** Both filters taken one entry further. */
  lemma FilterStep(s: seq<nat>, marked: set<nat>, k: nat)
    requires k < |s|
    ensures Filtered(s[..k + 1], marked, false) == Filtered(s[..k], marked, false) + (if s[k] !in marked then [s[k]] else [])
    ensures Filtered(s[..k + 1], marked, true) == Filtered(s[..k], marked, true) + (if s[k] in marked then [s[k]] else [])
    ensures s[k..] == [s[k]] + s[k + 1..]
  {
    assert s[..k + 1] == s[..k] + [s[k]];
    FilteredSnoc(s[..k], s[k], marked, false);
    FilteredSnoc(s[..k], s[k], marked, true);
  }

  /** Erasing the first entry after a prefix. */
  lemma EraseAt(a: seq<nat>, b: seq<nat>)
    requires |b| > 0
    ensures (a + b)[|a|] == b[0] && (a + b)[..|a|] + (a + b)[|a| + 1..] == a + b[1..]
    ensures a + [b[0]] + b[1..] == a + b
  {
    assert (a + b)[..|a|] == a;
    assert (a + b)[|a| + 1..] == b[1..];
  }

  /** The layout `allocate_position` goes by: the hint's type, or the workspace's configured layout when the hint has none. */
  function AllocatedLayout(hint: ContainerType, configured: ContainerType): (r: ContainerType)
    ensures hint != ContainerType.None ==> r == hint
    ensures hint == ContainerType.None ==> r == configured
  {
    if hint == ContainerType.None then configured else hint
  }

  /** Where `graft` puts a container. */
  datatype GraftTarget = FloatingList | IntoTree | Ungraftable

  /** The active container, as `get_layout_container` sees it: its parent lane and that lane's workspace, if any. */
  datatype ActiveParent = ActiveParent(lane: Option<nat>, laneWorkspace: int)

  class Workspace {
    const number: int
    const tree: TilingWindowTree
    var floating: seq<nat>

    constructor(number: int, rootId: nat, area: Rect)
      ensures this.number == number && fresh(tree) && tree.root == Lane(rootId, area, Horizontal, []) && floating == []
    {
      this.number := number;
      tree := new TilingWindowTree(rootId, area);
      floating := [];
    }

    /** `is_empty`: no tiled container and no floating window. */
    method IsEmpty() returns (e: bool)
      requires tree.root.Lane?
      ensures e <==> |tree.root.children| == 0 && |floating| == 0
    {
      var treeEmpty := tree.IsEmpty();
      e := treeEmpty && |floating| == 0;
    }

    /** `add_floating_window` appends the new floating container. */
    method AddFloatingWindow(c: nat)
      modifies this
      ensures floating == old(floating) + [c]
    {
      floating := floating + [c];
    }

    /** `has_floating_window`: list membership. */
    method HasFloatingWindow(c: nat) returns (b: bool)
      ensures b <==> c in floating
    {
      var i := 0;
      while i < |floating|
        invariant i <= |floating| && c !in floating[..i]
      {
        if floating[i] == c {
          return true;
        }
        i := i + 1;
      }
      return false;
    }

    /**
     * `delete_container`: a tiled container is removed from the tree (at
     * path `p`), every entry of a floating one is erased from the list, and
     * any other type is refused with nothing changed.
     */
    method DeleteContainer(c: nat, kind: ContainerType, p: seq<nat>, isActive: bool) returns (supported: bool)
      requires kind.Leaf? ==> ValidPath(tree.root, p) && |p| > 0
      modifies this, tree
      ensures supported <==> kind.Leaf? || kind.FloatingWindow?
      ensures kind.Leaf? ==> tree.root == RemoveAt(old(tree.root), p) && floating == old(floating)
      ensures kind.FloatingWindow? ==> floating == Filtered(old(floating), {c}, false) && c !in floating && tree.root == old(tree.root)
      ensures !supported ==> floating == old(floating) && tree.root == old(tree.root)
    {
      match kind
      case Leaf =>
        tree.AdviseDeleteWindow(p, isActive);
        return true;
      case FloatingWindow =>
        FilteredMembers(floating, {c}, false, c);
        floating := Filtered(floating, {c}, false);
        return true;
      case _ =>
        return false;
    }

    /**
     * `transfer_pinned_windows_to`: the floating windows that have a
     * container (`withContainer`) and are pinned move, in order, to the end
     * of the other workspace's list; the rest stay here in order.
     */
    method TransferPinnedTo(other: Workspace, withContainer: set<nat>, pinned: set<nat>)
      requires other != this
      modifies this, other
      ensures floating == Filtered(old(floating), withContainer * pinned, false)
      ensures other.floating == old(other.floating) + Filtered(old(floating), withContainer * pinned, true)
    {
      var kept, moved := ErasePinned(floating, withContainer * pinned);
      floating, other.floating := kept, other.floating + moved;
    }

    /**
     * `graft`: a floating window joins this workspace's list; a lane or a
     * tiled window is handed to the tree's own `graft` (`IntoTree` names
     * that hand-over; the tree's side is not part of this model); any other
     * type is refused.
     */
    method Graft(c: nat, kind: ContainerType) returns (target: GraftTarget)
      modifies this
      ensures kind.FloatingWindow? ==> target == FloatingList && floating == old(floating) + [c]
      ensures kind.Parent? || kind.Leaf? ==> target == IntoTree && floating == old(floating)
      ensures !(kind.FloatingWindow? || kind.Parent? || kind.Leaf?) ==> target == Ungraftable && floating == old(floating)
    {
      match kind
      case FloatingWindow =>
        floating := floating + [c];
        return FloatingList;
      case Parent =>
        return IntoTree;
      case Leaf =>
        return IntoTree;
      case _ =>
        return Ungraftable;
    }

    /** `get_layout_container`: the active container's lane, only when there is one and it belongs to this workspace. */
    function LayoutContainer(active: Option<ActiveParent>): (r: Option<nat>)
      ensures r.Some? <==> active.Some? && active.value.lane.Some? && active.value.laneWorkspace == number
      ensures r.Some? ==> r == active.value.lane
    {
      if active.None? then Option.None
      else if active.value.lane.None? then Option.None
      else if active.value.laneWorkspace != number then Option.None
      else active.value.lane
    }
  }
}
