// The container kinds of src/container.h and the string lookup that names them
// in the configuration (src/container.cpp:31-41).
module ContainerTypes {

  /** `ContainerType`, in the order of its enumerators. */
  datatype ContainerType = None | Leaf | FloatingWindow | Shell | Parent | Group

  /** `container_type_from_string`: exact, case-sensitive names; anything else is `none`. */
  function FromString(s: string): (t: ContainerType)
    ensures t != ContainerType.None ==> Named(t) && Name(t) == s
    ensures t == ContainerType.None <==> s != "tiled" && s != "floating" && s != "shell"
  {
    if s == "tiled" then ContainerType.Leaf
    else if s == "floating" then ContainerType.FloatingWindow
    else if s == "shell" then ContainerType.Shell
    else ContainerType.None
  }

  /** The kinds the configuration can name. */
  predicate Named(t: ContainerType)
  {
    t == ContainerType.Leaf || t == ContainerType.FloatingWindow || t == ContainerType.Shell
  }

  /** The configuration name of a nameable kind: the inverse of `FromString`. */
  function Name(t: ContainerType): string
    requires Named(t)
  {
    match t
    case Leaf => "tiled"
    case FloatingWindow => "floating"
    case Shell => "shell"
  }

  /** Every nameable kind is found again from its name. */
  lemma NameRoundTrip(t: ContainerType)
    ensures Named(t) ==> FromString(Name(t)) == t
  {
    if Named(t) {
      match t
      case Leaf =>
      case FloatingWindow =>
      case Shell =>
    }
  }
}

// The tiling tree as a value, and the neighbour test that decides where a
// tiled window's gaps go (src/container.cpp:86-159).
//
// A `Lane` is a `ParentContainer`, a `Leaf` a `LeafContainer`; `area` is what
// `get_logical_area` returns (for a leaf, the staged area when one is staged).
// A container's position in the tree is the path of child indices from the
// root; its parent is the node at the path without its last index.
module Container {
  import opened Geometry

  datatype Node =
    | Leaf(id: nat, area: Rect)
    | Lane(id: nat, area: Rect, direction: LayoutDirection, children: seq<Node>)

  function Init(p: seq<nat>): seq<nat>
    requires |p| > 0
  {
    p[..|p| - 1]
  }

  function Last(p: seq<nat>): nat
    requires |p| > 0
  {
    p[|p| - 1]
  }

  /** `p` leads from `t` through lanes to some container. */
  predicate ValidPath(t: Node, p: seq<nat>)
    decreases |p|
  {
    |p| == 0 ||
    (ValidPath(t, Init(p)) && NodeAt(t, Init(p)).Lane? && Last(p) < |NodeAt(t, Init(p)).children|)
  }

  /** The container at the end of `p` (meaningful where `ValidPath(t, p)`). */
  function NodeAt(t: Node, p: seq<nat>): Node
    decreases |p|
  {
    if |p| == 0 then t
    else
      var parent := NodeAt(t, Init(p));
      if parent.Lane? && Last(p) < |parent.children| then parent.children[Last(p)] else parent
  }

  /** `t` with the container at the end of `p` replaced by `m`, its ancestors rebuilt around it. */
  function ReplaceAt(t: Node, p: seq<nat>, m: Node): Node
    requires ValidPath(t, p)
    decreases |p|
  {
    if |p| == 0 then m
    else
      var parent := NodeAt(t, Init(p));
      ReplaceAt(t, Init(p), parent.(children := parent.children[Last(p) := m]))
  }

  /** After `ReplaceAt`, the path still leads somewhere, and to `m`. */
  lemma {:induction false} ReplaceAtFound(t: Node, p: seq<nat>, m: Node)
    requires ValidPath(t, p)
    ensures ValidPath(ReplaceAt(t, p, m), p) && NodeAt(ReplaceAt(t, p, m), p) == m
    decreases |p|
  {
    if |p| > 0 {
      var parent := NodeAt(t, Init(p));
      ReplaceAtFound(t, Init(p), parent.(children := parent.children[Last(p) := m]));
    }
  }

  /** Replacing below the root keeps the root's identity, area, direction and number of children. */
  lemma {:induction false} ReplaceAtRoot(t: Node, p: seq<nat>, m: Node)
    requires ValidPath(t, p) && |p| > 0
    ensures var r := ReplaceAt(t, p, m);
      r.Lane? && t.Lane? && r.id == t.id && r.area == t.area && r.direction == t.direction && |r.children| == |t.children|
    decreases |p|
  {
    var parent := NodeAt(t, Init(p));
    if |p| > 1 {
      ReplaceAtRoot(t, Init(p), parent.(children := parent.children[Last(p) := m]));
    } else {
      assert Init(p) == [];
    }
  }

  /** One step further down a path. */
  lemma PathSnoc(t: Node, p: seq<nat>, i: nat)
    requires ValidPath(t, p) && NodeAt(t, p).Lane? && i < |NodeAt(t, p).children|
    ensures ValidPath(t, p + [i]) && NodeAt(t, p + [i]) == NodeAt(t, p).children[i]
  {
    assert Init(p + [i]) == p && Last(p + [i]) == i;
  }

  /** The containers met along `p`, from the root (index 0) to the end of `p` (index |p|). */
  function Chain(t: Node, p: seq<nat>): (c: seq<Node>)
    requires ValidPath(t, p)
    ensures |c| == |p| + 1 && c[|p|] == NodeAt(t, p)
    decreases |p|
  {
    if |p| == 0 then [t] else Chain(t, Init(p)) + [NodeAt(t, p)]
  }

  /**
   * `has_neighbor(container, direction, cannot_be_index)`: false at the root;
   * a parent of the other direction passes the question up; a parent of this
   * direction answers yes when it has more than one child and the container is
   * not at `excluded`, and otherwise also passes it up. `excluded` is handed up
   * unchanged.
   */
  function HasNeighbor(t: Node, p: seq<nat>, d: LayoutDirection, excluded: int): bool
    requires ValidPath(t, p)
    decreases |p|
  {
    if |p| == 0 then false
    else
      var parent := NodeAt(t, Init(p));
      if parent.direction != d then HasNeighbor(t, Init(p), d, excluded)
      else (|parent.children| > 1 && Last(p) != excluded) || HasNeighbor(t, Init(p), d, excluded)
  }

  /** A lane of direction `d`, with more than one child, entered at child `i` other than `excluded`. */
  predicate Separates(n: Node, d: LayoutDirection, i: nat, excluded: int)
  {
    n.Lane? && n.direction == d && |n.children| > 1 && i != excluded
  }

  /** The answer of `has_neighbor`, stated without recursion: some ancestor on the path separates. */
  lemma {:induction false} HasNeighborCharacterised(t: Node, p: seq<nat>, d: LayoutDirection, excluded: int)
    requires ValidPath(t, p)
    ensures HasNeighbor(t, p, d, excluded) <==>
            exists k :: 0 <= k < |p| && Separates(Chain(t, p)[k], d, p[k], excluded)
    decreases |p|
  {
    if |p| > 0 {
      var q := Init(p);
      HasNeighborCharacterised(t, q, d, excluded);
      var c := Chain(t, p);
      assert c[..|q| + 1] == Chain(t, q);
      assert forall k :: 0 <= k < |q| ==> c[k] == Chain(t, q)[k] && p[k] == q[k];
      assert c[|q|] == NodeAt(t, q);
      if HasNeighbor(t, p, d, excluded) {
        if HasNeighbor(t, q, d, excluded) {
          var k :| 0 <= k < |q| && Separates(Chain(t, q)[k], d, q[k], excluded);
          assert Separates(c[k], d, p[k], excluded);
        } else {
          assert Separates(c[|q|], d, p[|q|], excluded);
        }
      } else {
        forall k | 0 <= k < |p|
          ensures !Separates(c[k], d, p[k], excluded)
        {
          if k < |q| {
            assert !Separates(Chain(t, q)[k], d, q[k], excluded);
          }
        }
      }
    }
  }

  /** The number of children of the container's parent. */
  function SiblingCount(t: Node, p: seq<nat>): nat
    requires ValidPath(t, p) && |p| > 0
  {
    |NodeAt(t, Init(p)).children|
  }

  /** `has_left_neighbor`: horizontal, excluding index 0. */
  function HasLeftNeighbor(t: Node, p: seq<nat>): bool
    requires ValidPath(t, p)
  {
    |p| > 0 && HasNeighbor(t, p, Horizontal, 0)
  }

  /** `has_top_neighbor`: vertical, excluding index 0. */
  function HasTopNeighbor(t: Node, p: seq<nat>): bool
    requires ValidPath(t, p)
  {
    |p| > 0 && HasNeighbor(t, p, Vertical, 0)
  }

  /** `has_right_neighbor`: horizontal, excluding the immediate parent's last index. */
  function HasRightNeighbor(t: Node, p: seq<nat>): bool
    requires ValidPath(t, p)
  {
    |p| > 0 && HasNeighbor(t, p, Horizontal, SiblingCount(t, p) - 1)
  }

  /** `has_bottom_neighbor`: vertical, excluding the immediate parent's last index. */
  function HasBottomNeighbor(t: Node, p: seq<nat>): bool
    requires ValidPath(t, p)
  {
    |p| > 0 && HasNeighbor(t, p, Vertical, SiblingCount(t, p) - 1)
  }

  /**
   * The right and bottom tests as evidently intended: every ancestor lane of
   * direction `d` compares the index of the child on the path with its own
   * last index.
   */
  function HasNeighborAfter(t: Node, p: seq<nat>, d: LayoutDirection): bool
    requires ValidPath(t, p)
    decreases |p|
  {
    if |p| == 0 then false
    else
      var parent := NodeAt(t, Init(p));
      (parent.direction == d && Last(p) < |parent.children| - 1) || HasNeighborAfter(t, Init(p), d)
  }

  /** A lane of direction `d` entered at a child that is not its last. */
  predicate FollowedIn(n: Node, d: LayoutDirection, i: nat)
  {
    n.Lane? && n.direction == d && i < |n.children| - 1
  }

  /** The corrected test, stated without recursion: some ancestor has a later child along `d`. */
  lemma {:induction false} HasNeighborAfterCharacterised(t: Node, p: seq<nat>, d: LayoutDirection)
    requires ValidPath(t, p)
    ensures HasNeighborAfter(t, p, d) <==> exists k :: 0 <= k < |p| && FollowedIn(Chain(t, p)[k], d, p[k])
    decreases |p|
  {
    if |p| > 0 {
      var q := Init(p);
      HasNeighborAfterCharacterised(t, q, d);
      var c := Chain(t, p);
      assert c[..|q| + 1] == Chain(t, q);
      assert forall k :: 0 <= k < |q| ==> c[k] == Chain(t, q)[k] && p[k] == q[k];
      if HasNeighborAfter(t, p, d) {
        if HasNeighborAfter(t, q, d) {
          var k :| 0 <= k < |q| && FollowedIn(Chain(t, q)[k], d, q[k]);
          assert FollowedIn(c[k], d, p[k]);
        } else {
          assert FollowedIn(c[|q|], d, p[|q|]);
        }
      } else {
        forall k | 0 <= k < |p|
          ensures !FollowedIn(c[k], d, p[k])
        {
          if k < |q| {
            assert !FollowedIn(Chain(t, q)[k], d, q[k]);
          }
        }
      }
    }
  }

  /** `has_right_neighbor` as evidently intended. */
  function HasRightNeighborCorrected(t: Node, p: seq<nat>): bool
    requires ValidPath(t, p)
  {
    HasNeighborAfter(t, p, Horizontal)
  }

  /** `has_bottom_neighbor` as evidently intended. */
  function HasBottomNeighborCorrected(t: Node, p: seq<nat>): bool
    requires ValidPath(t, p)
  {
    HasNeighborAfter(t, p, Vertical)
  }

  /**
   * The window on the left of a horizontal root, alone in a vertical lane,
   * has the root's second child to its right, yet `has_right_neighbor` says
   * it has none: at the root it compares index 0 with the last index of the
   * vertical lane, which is also 0.
   */
  lemma RightNeighborMissed()
    ensures var r := Rect(0, 0, 100, 100);
      var t := Lane(0, r, Horizontal, [Lane(1, r, Vertical, [Leaf(2, r)]), Leaf(3, r)]);
      ValidPath(t, [0, 0]) && !HasRightNeighbor(t, [0, 0]) && HasRightNeighborCorrected(t, [0, 0])
  {
    var r := Rect(0, 0, 100, 100);
    var t := Lane(0, r, Horizontal, [Lane(1, r, Vertical, [Leaf(2, r)]), Leaf(3, r)]);
    assert Init([0, 0]) == [0] && Last([0, 0]) == 0;
    assert Init([0]) == [] && Last([0]) == 0;
    assert ValidPath(t, [0]);
    assert NodeAt(t, [0]) == t.children[0];
    assert ValidPath(t, [0, 0]);
  }

  /**
   * The middle window of a vertical lane on the right of a horizontal root
   * has nothing to its right, yet `has_right_neighbor` says it has: at the
   * root it compares index 1 with the last index of the vertical lane, 2.
   */
  lemma RightNeighborInvented()
    ensures var r := Rect(0, 0, 100, 100);
      var t := Lane(0, r, Horizontal, [Leaf(1, r), Lane(2, r, Vertical, [Leaf(3, r), Leaf(4, r), Leaf(5, r)])]);
      ValidPath(t, [1, 1]) && HasRightNeighbor(t, [1, 1]) && !HasRightNeighborCorrected(t, [1, 1])
  {
    var r := Rect(0, 0, 100, 100);
    var t := Lane(0, r, Horizontal, [Leaf(1, r), Lane(2, r, Vertical, [Leaf(3, r), Leaf(4, r), Leaf(5, r)])]);
    assert Init([1, 1]) == [1] && Last([1, 1]) == 1;
    assert Init([1]) == [] && Last([1]) == 1;
    assert ValidPath(t, [1]);
    assert NodeAt(t, [1]) == t.children[1];
    assert ValidPath(t, [1, 1]);
  }

  /**
   * `get_neighbors`: one flag per `Direction`, in the order up, left, down,
   * right, from the tests as written.
   */
  function Neighbors(t: Node, p: seq<nat>): (r: seq<bool>)
    requires ValidPath(t, p)
    ensures |r| == 4
    ensures r[0] == HasTopNeighbor(t, p) && r[1] == HasLeftNeighbor(t, p)
    ensures r[2] == HasBottomNeighbor(t, p) && r[3] == HasRightNeighbor(t, p)
    ensures |p| == 0 ==> r == [false, false, false, false]
  {
    [HasTopNeighbor(t, p), HasLeftNeighbor(t, p), HasBottomNeighbor(t, p), HasRightNeighbor(t, p)]
  }

  /** `get_neighbors` with the right and bottom tests corrected. */
  function NeighborsCorrected(t: Node, p: seq<nat>): (r: seq<bool>)
    requires ValidPath(t, p)
    ensures |r| == 4
    ensures r[0] == HasTopNeighbor(t, p) && r[1] == HasLeftNeighbor(t, p)
    ensures r[2] == HasBottomNeighborCorrected(t, p) && r[3] == HasRightNeighborCorrected(t, p)
    ensures |p| == 0 ==> r == [false, false, false, false]
  {
    [HasTopNeighbor(t, p), HasLeftNeighbor(t, p), HasBottomNeighborCorrected(t, p), HasRightNeighborCorrected(t, p)]
  }

  /**
   * The two answers differ only in the right and bottom flags, and exactly
   * where the as-written tests do: the lone window of the left lane of a
   * horizontal root is given a right neighbour only by the correction.
   */
  lemma NeighborsDiffer()
    ensures var r := Rect(0, 0, 100, 100);
      var t := Lane(0, r, Horizontal, [Lane(1, r, Vertical, [Leaf(2, r)]), Leaf(3, r)]);
      ValidPath(t, [0, 0]) && !Neighbors(t, [0, 0])[3] && NeighborsCorrected(t, [0, 0])[3]
  {
    RightNeighborMissed();
  }

  /** The flag of `Neighbors` for one direction. */
  function NeighborIndex(dir: Direction): (i: nat)
    ensures i < 4
  {
    match dir
    case Up => 0
    case Left => 1
    case Down => 2
    case Right => 3
  }

  /**
   * In a lane of the matching direction, a container has a left neighbour
   * when it is not the first child and a right neighbour when it is not the
   * last, whatever lies above.
   */
  lemma SiblingsAreNeighbors(t: Node, p: seq<nat>)
    requires ValidPath(t, p) && |p| > 0
    requires NodeAt(t, Init(p)).direction == Horizontal
    ensures Last(p) > 0 ==> HasLeftNeighbor(t, p)
    ensures Last(p) < SiblingCount(t, p) - 1 ==> HasRightNeighbor(t, p) && HasRightNeighborCorrected(t, p)
  {
  }

  /**
   * Because the excluded index is handed up unchanged, the right-hand test of
   * an ancestor compares that ancestor's index with the last index of the
   * container's own parent: a window that is the last child of its parent can
   * still have a right neighbour from the lane above, and one that is not the
   * last child cannot lose it.
   */
  lemma RightNeighborFromAbove(t: Node, p: seq<nat>)
    requires ValidPath(t, p) && |p| > 1
    requires NodeAt(t, Init(p)).direction == Vertical
    requires NodeAt(t, Init(Init(p))).direction == Horizontal
    requires |NodeAt(t, Init(Init(p))).children| > 1
    requires p[|p| - 2] != SiblingCount(t, p) - 1
    ensures HasRightNeighbor(t, p)
  {
    assert Init(Init(p)) == Init(p)[..|Init(p)| - 1];
    assert Last(Init(p)) == p[|p| - 2];
  }

  /** The only child of the root lane has no neighbour in any direction. */
  lemma LoneChildOfRoot(t: Node)
    requires t.Lane? && |t.children| == 1
    ensures ValidPath(t, [0]) && Neighbors(t, [0]) == [false, false, false, false]
  {
    assert ValidPath(t, [0]) by { assert Init([0]) == []; }
    assert Init([0]) == [];
  }
}
