// I3CommandExecutor (src/i3_command_executor.cpp): what each parsed command asks
// the window manager to do. The calls the executor makes into the policy, the
// launcher and the workspace manager are the `Action`s it emits, in order; what
// it reads from them (the active output, the window meeting the criteria, the
// active container) is the `Env` it is given.
module I3CommandExecutor {
  import opened Wrappers
  import opened Geometry
  import opened I3Command
  import StringExtensions
  import Container
  import LaneLayout

  /** One call the executor makes, with the arguments it passes. */
  datatype Action =
    | Launch(app: string, noStartupId: bool)          // launcher.launch
    | RequestVertical | RequestHorizontal | ToggleLayout // policy.try_request_* / try_toggle_layout
    | SelectDirection(dir: Direction)                 // policy.try_select
    | SelectWindow(window: nat)                       // window_controller.select_active_window
    | SelectLeaf(leaf: nat)                           // window_controller.select_active_window(leaf's window)
    | FocusWorkspace(workspace: int)                  // workspace_manager.request_focus
    | MoveBy(dir: Direction, distance: int)           // policy.try_move_by
    | MoveDirection(dir: Direction)                   // policy.try_move
    | MoveTo(x: int, y: int)                          // policy.try_move_to
    | SetPinned(pinned: bool)                         // policy.set_is_pinned
    | TogglePinned                                    // policy.toggle_pinned_to_workspace
    | Quit                                            // policy.quit
    | ReadPastArguments                               // an argument read beyond the vector (undefined behaviour)
    | Threw(error: Exception)                         // an exception leaves `process`
    | NullDereference                                 // a null pointer is dereferenced (undefined behaviour)

  /** The exceptions that `process` lets through. */
  datatype Exception = StdOutOfRange | StdBadOptionalAccess

  /** The last call of a run ends the processing: nothing after it is run. */
  predicate Stopped(actions: seq<Action>)
  {
    actions != [] && (actions[|actions| - 1].Threw? || actions[|actions| - 1].NullDereference?)
  }

  /**
   * The active window's container as `focus prev`/`focus next` find it. A
   * leaf with a parent carries its index there and the parent itself (a leaf
   * parent is one `as_parent` refuses).
   */
  datatype ActiveContainer =
    | NoActiveWindow | NoContainer | NotLeaf | NoParentLane
    | InLane(index: nat, parent: Container.Node)

  /** What the executor reads from the rest of the window manager. */
  datatype Env = Env(
    output: Option<Rect>,             // area of the active output, if any
    matching: Option<nat>,            // first window meeting the criteria
    matchingWorkspace: Option<int>,   // workspace of that window's container
    active: ActiveContainer,
    activeSize: Option<(int, int)>,   // visible width and height of the policy's active
                                      // container; None when the state has none
    cursorX: int, cursorY: int,
    outputs: seq<Rect>,
    windowless: set<nat>)            // leaves whose `window()` is empty

  // ---------------------------------------------------------------------
  // std::stoi

  predicate IsSpace(c: char)
  {
    c == ' ' || c == '\t' || c == '\n' || c == '\r' || c == '\U{000B}' || c == '\U{000C}'
  }

  predicate IsDigit(c: char)
  {
    '0' <= c <= '9'
  }

  function DigitValue(c: char): nat
    requires IsDigit(c)
  {
    (c - '0') as nat
  }

  /** Number of characters of `s` from `from` that satisfy the digit test. */
  function DigitRun(s: string, from: nat): (k: nat)
    requires from <= |s|
    ensures from + k <= |s|
    ensures forall i :: from <= i < from + k ==> IsDigit(s[i])
    ensures from + k < |s| ==> !IsDigit(s[from + k])
    decreases |s| - from
  {
    if from == |s| || !IsDigit(s[from]) then 0 else 1 + DigitRun(s, from + 1)
  }

  function SpaceRun(s: string, from: nat): (k: nat)
    requires from <= |s|
    ensures from + k <= |s|
    ensures from + k < |s| ==> !IsSpace(s[from + k])
    decreases |s| - from
  {
    if from == |s| || !IsSpace(s[from]) then 0 else 1 + SpaceRun(s, from + 1)
  }

  /** The decimal value of a digit string. */
  function Value(ds: string): nat
    requires forall i :: 0 <= i < |ds| ==> IsDigit(ds[i])
  {
    if ds == [] then 0 else 10 * Value(ds[..|ds| - 1]) + DigitValue(ds[|ds| - 1])
  }

  /** The range of a 32-bit `int`. */
  const IntMin: int := -0x8000_0000
  const IntMax: int := 0x7fff_ffff

  /** What `std::stoi` does: a value, or one of its two exceptions. */
  datatype StoiOutcome = InvalidArgument | OutOfRange | Parsed(value: int)

  /** The number `std::stoi` reads: leading white space, an optional sign,
      then at least one digit; what follows the digits is ignored. */
  function SignedDigits(s: string): Option<int>
  {
    var i := SpaceRun(s, 0);
    var neg := i < |s| && s[i] == '-';
    var j := if i < |s| && (s[i] == '-' || s[i] == '+') then i + 1 else i;
    var k := DigitRun(s, j);
    if k == 0 then Option.None
    else
      var v: int := Value(s[j..j + k]);
      Some(if neg then -v else v)
  }

  /** `std::stoi(s)`: no digits is `std::invalid_argument`; a value outside
      `int` is `std::out_of_range`. */
  function Stoi(s: string): (r: StoiOutcome)
    ensures r.Parsed? ==> IntMin <= r.value <= IntMax
  {
    match SignedDigits(s)
    case None => InvalidArgument
    case Some(v) => if v < IntMin || v > IntMax then OutOfRange else Parsed(v)
  }

  /** Decimal text of a number, the reference for Stoi. */
  function ShowNat(n: nat): (r: string)
    ensures r != [] && forall i :: 0 <= i < |r| ==> IsDigit(r[i])
  {
    (if n < 10 then [] else ShowNat(n / 10)) + ['0' + (n % 10) as char]
  }

  function Show(n: int): string
  {
    if n < 0 then "-" + ShowNat(-n) else ShowNat(n)
  }

  lemma {:induction false} ValueShowNat(n: nat)
    ensures Value(ShowNat(n)) == n
  {
    var r := ShowNat(n);
    var init := if n < 10 then [] else ShowNat(n / 10);
    assert r[..|r| - 1] == init;
    if n >= 10 {
      ValueShowNat(n / 10);
    }
  }

  lemma DigitRunAll(s: string, from: nat)
    requires from <= |s|
    requires forall i :: from <= i < |s| ==> IsDigit(s[i])
    ensures DigitRun(s, from) == |s| - from
  {
  }

  /** Stoi reads back every `int` that Show prints, and refuses every other number. */
  lemma StoiShow(n: int)
    ensures Stoi(Show(n)) == if IntMin <= n <= IntMax then Parsed(n) else OutOfRange
  {
    SignedDigitsShow(n);
  }

  lemma SignedDigitsShow(n: int)
    ensures SignedDigits(Show(n)) == Some(n)
  {
    var s := Show(n);
    var m: nat := if n < 0 then -n else n;
    var j := if n < 0 then 1 else 0;
    assert s[j..] == ShowNat(m);
    assert !IsSpace(s[0]);
    DigitRunAll(s, j);
    assert s[j..j + |ShowNat(m)|] == ShowNat(m);
    ValueShowNat(m);
  }

  // ---------------------------------------------------------------------
  // exec

  const NoStartupId := "--no-startup-id"

  /** process_exec as written: the flag is recognised only as the first argument. */
  function ExecAction(c: Command): seq<Action>
  {
    if c.arguments == [] then []
    else
      var flag := c.arguments[0] == NoStartupId;
      var i := if flag then 1 else 0;
      if i >= |c.arguments| then [] else [Launch(c.arguments[i], flag)]
  }

  /** process_exec honouring the flag wherever the parser files it: the parser
      puts every `--` token among the options, so the first-argument test alone
      never sees it. */
  function ExecCorrected(c: Command): (r: seq<Action>)
    ensures |r| <= 1
    ensures r != [] <==> |c.arguments| > (if c.arguments != [] && c.arguments[0] == NoStartupId then 1 else 0)
    ensures r != [] ==> r[0].Launch? && r[0].app == c.arguments[if c.arguments[0] == NoStartupId then 1 else 0]
    ensures |r| == |ExecAction(c)| && (r != [] ==> r[0].app == ExecAction(c)[0].app)
    ensures NoStartupId !in c.options ==> r == ExecAction(c)
    ensures r != [] ==> (r[0].noStartupId <==> NoStartupId in c.options || c.arguments[0] == NoStartupId)
  {
    if c.arguments == [] then []
    else
      var first := c.arguments[0] == NoStartupId;
      var i := if first then 1 else 0;
      if i >= |c.arguments| then []
      else [Launch(c.arguments[i], first || NoStartupId in c.options)]
  }

  /** Whatever the tokens, a parsed command never carries the flag as an argument,
      so the as-written exec never sets it. */
  lemma ParsedExecNeverFlagged(toks: seq<string>)
    ensures forall a :: a in ExecAction(ParseTokens(toks)) ==> a.Launch? && !a.noStartupId
  {
    ParseTokensCharacterised(toks);
    var c := ParseTokens(toks);
    assert IsOption(NoStartupId);
    if c.arguments != [] {
      assert !IsOption(c.arguments[0]);
    }
  }

  lemma ExecFlagDropped(v: string)
    requires v == "exec --no-startup-id gedit"
    ensures ExecAction(ParseCommand(v)) == [Launch("gedit", false)]
  {
    ExecNoStartupIdCommand(v);
  }

  lemma ExecFlagHonoured(v: string)
    requires v == "exec --no-startup-id gedit"
    ensures ExecCorrected(ParseCommand(v)) == [Launch("gedit", true)]
  {
    ExecNoStartupIdCommand(v);
    assert ParseCommand(v).options == [NoStartupId];
  }

  // ---------------------------------------------------------------------
  // split and sticky

  /** process_split: the first argument chooses the request; anything else only warns. */
  function SplitAction(c: Command): (r: seq<Action>)
    ensures r != [] <==> c.arguments != [] && c.arguments[0] in {"vertical", "horizontal", "toggle"}
  {
    if c.arguments == [] then []
    else if c.arguments[0] == "vertical" then [RequestVertical]
    else if c.arguments[0] == "horizontal" then [RequestHorizontal]
    else if c.arguments[0] == "toggle" then [ToggleLayout]
    else []
  }

  /** process_sticky: enable/disable pin, toggle toggles; anything else only warns. */
  function StickyAction(c: Command): (r: seq<Action>)
    ensures r != [] <==> c.arguments != [] && c.arguments[0] in {"enable", "disable", "toggle"}
  {
    if c.arguments == [] then []
    else if c.arguments[0] == "enable" then [SetPinned(true)]
    else if c.arguments[0] == "disable" then [SetPinned(false)]
    else if c.arguments[0] == "toggle" then [TogglePinned]
    else []
  }

  // ---------------------------------------------------------------------
  // focus

  /** process_focus. */
  function FocusAction(c: Command, scope: seq<Scope>, env: Env): seq<Action>
  {
    if c.arguments == [] then
      if scope == [] then []
      else if env.matching.Some? then [SelectWindow(env.matching.value)] else []
    else
      var arg := c.arguments[0];
      if arg == "workspace" then
        if scope == [] then []
        else if env.matchingWorkspace.Some? then [FocusWorkspace(env.matchingWorkspace.value)] else []
      else if arg == "left" then [SelectDirection(Left)]
      else if arg == "right" then [SelectDirection(Right)]
      else if arg == "up" then [SelectDirection(Up)]
      else if arg == "down" then [SelectDirection(Down)]
      else if arg == "prev" then FocusPrev(env.active, env.windowless)
      else if arg == "next" then FocusNext(env.active, env.windowless)
      else []  // parent, child, floating, tiling, mode_toggle, output: unsupported, warn only
  }

  /**
   * `parent->get_nth_window(i)->window().value()` handed to
   * `select_active_window`: no window at that place is a null pointer
   * dereferenced, a leaf without a window makes `value()` throw.
   */
  function SelectNth(parent: Container.Node, i: nat, windowless: set<nat>): seq<Action>
  {
    match LaneLayout.NthWindow(parent, i)
    case None => [NullDereference]
    case Some(leaf) => if leaf in windowless then [Threw(StdBadOptionalAccess)] else [SelectLeaf(leaf)]
  }

  function FocusPrev(a: ActiveContainer, windowless: set<nat>): seq<Action>
  {
    if a.InLane? && a.parent.Lane? && a.index != 0 then SelectNth(a.parent, a.index - 1, windowless) else []
  }

  function FocusNext(a: ActiveContainer, windowless: set<nat>): seq<Action>
  {
    if a.InLane? && a.parent.Lane? && a.index != |a.parent.children| - 1 then SelectNth(a.parent, a.index + 1, windowless)
    else []
  }

  /**
   * focus prev/next act exactly when the active leaf has a sibling before/after
   * it in its lane. They then select the window `get_nth_window` finds there:
   * that sibling when it is a leaf, else the leaf reached through first
   * children; no leaf there dereferences null, and a leaf without a window throws.
   */
  lemma FocusSiblingInLane(a: ActiveContainer, windowless: set<nat>)
    requires a.InLane? && a.parent.Lane? ==> a.index < |a.parent.children|
    ensures FocusPrev(a, windowless) != [] <==> a.InLane? && a.parent.Lane? && a.index > 0
    ensures FocusNext(a, windowless) != [] <==> a.InLane? && a.parent.Lane? && a.index + 1 < |a.parent.children|
    ensures FocusPrev(a, windowless) != [] ==> SiblingSelected(a.parent, a.index - 1, windowless, FocusPrev(a, windowless))
    ensures FocusNext(a, windowless) != [] ==> SiblingSelected(a.parent, a.index + 1, windowless, FocusNext(a, windowless))
  {
    if a.InLane? && a.parent.Lane? {
      if a.index > 0 {
        SelectNthFinds(a.parent, a.index - 1, windowless);
      }
      if a.index + 1 < |a.parent.children| {
        SelectNthFinds(a.parent, a.index + 1, windowless);
      }
    }
  }

  /**
   * The calls made for sibling `i`: a selection of the leaf at the end of the
   * first-children path from it, a thrown `bad_optional_access` when that leaf
   * has no window, and a null dereference when the path ends at an empty lane.
   */
  ghost predicate SiblingSelected(parent: Container.Node, i: nat, windowless: set<nat>, actions: seq<Action>)
    requires parent.Lane? && i < |parent.children|
  {
    var c := parent.children[i];
    var p := [i] + (if c.Lane? then LaneLayout.FirstLeafPath(c) else []);
    if Container.ValidPath(parent, p) && Container.NodeAt(parent, p).Leaf? then
      var leaf := Container.NodeAt(parent, p).id;
      actions == (if leaf in windowless then [Threw(StdBadOptionalAccess)] else [SelectLeaf(leaf)])
    else actions == [NullDereference]
  }

  lemma SelectNthFinds(parent: Container.Node, i: nat, windowless: set<nat>)
    requires parent.Lane? && i < |parent.children|
    ensures SiblingSelected(parent, i, windowless, SelectNth(parent, i, windowless))
  {
    LaneLayout.NthWindowFollowsFirstChildren(parent, i);
  }

  // ---------------------------------------------------------------------
  // move

  /** What `parse_move_distance` gives: false, a distance, or the
      `std::out_of_range` it does not catch. */
  datatype Distance = NoDistance | Given(value: int) | StoiThrew

  /** `parse_move_distance`: needs a value and at least one more argument from
      `index`; a unit "ppt" right after the value (and nothing after it) scales the
      value as a percentage of `total`. The position is never advanced. Only
      `std::invalid_argument` is caught. */
  function ParseMoveDistance(args: seq<string>, index: nat, total: int): (r: Distance)
    requires index <= |args|
    ensures r.Given? <==> |args| - index > 1 && Stoi(args[index]).Parsed?
    ensures r.StoiThrew? <==> |args| - index > 1 && Stoi(args[index]).OutOfRange?
    ensures r.Given? && !(|args| - index == 2 && args[index + 1] == "ppt") ==> r.value == Stoi(args[index]).value
  {
    var size := |args| - index;
    if size <= 1 then NoDistance
    else
      match Stoi(args[index])
      case InvalidArgument => NoDistance
      case OutOfRange => StoiThrew
      case Parsed(n) =>
        if size == 2 && args[index + 1] == "ppt" then Given(TruncDiv(total * n, 100)) else Given(n)
  }

  /** The largest right/bottom edge over the outputs, starting from 0. */
  function MaxEndX(outputs: seq<Rect>): (x: int)
    ensures x >= 0 && forall i :: 0 <= i < |outputs| ==> outputs[i].x + outputs[i].width <= x
    ensures x == 0 || exists i :: 0 <= i < |outputs| && outputs[i].x + outputs[i].width == x
  {
    if outputs == [] then 0
    else
      var rest := MaxEndX(outputs[..|outputs| - 1]);
      var e := outputs[|outputs| - 1].x + outputs[|outputs| - 1].width;
      if e > rest then e else rest
  }

  function MaxEndY(outputs: seq<Rect>): (y: int)
    ensures y >= 0 && forall i :: 0 <= i < |outputs| ==> outputs[i].y + outputs[i].height <= y
    ensures y == 0 || exists i :: 0 <= i < |outputs| && outputs[i].y + outputs[i].height == y
  {
    if outputs == [] then 0
    else
      var rest := MaxEndY(outputs[..|outputs| - 1]);
      var e := outputs[|outputs| - 1].y + outputs[|outputs| - 1].height;
      if e > rest then e else rest
  }

  function DirectionOf(arg: string): Option<Direction>
  {
    if arg == "left" then Some(Left)
    else if arg == "right" then Some(Right)
    else if arg == "up" then Some(Up)
    else if arg == "down" then Some(Down)
    else Option.None
  }

  /** process_move. */
  function MoveAction(c: Command, env: Env): seq<Action>
  {
    if env.output.None? || c.arguments == [] then []
    else
      var area := env.output.value;
      var arg0 := c.arguments[0];
      var dir := DirectionOf(arg0);
      if dir.Some? then
        // width for a horizontal move, height for a vertical one
        var total := if dir.value == Left || dir.value == Right then area.width else area.height;
        match ParseMoveDistance(c.arguments, 1, total)
        case Given(d) => [MoveBy(dir.value, d)]
        case NoDistance => [MoveDirection(dir.value)]
        case StoiThrew => [Threw(StdOutOfRange)]
      else if arg0 == "position" then MovePosition(c.arguments, area, env)
      else if arg0 == "absolute" then MoveAbsolute(c.arguments, env)
      else []
  }

  /** `move position center|mouse|<x> <y>`; the x is read where the keyword was,
      and both coordinates are parsed from the same position. */
  function MovePosition(args: seq<string>, area: Rect, env: Env): seq<Action>
    requires |args| >= 1
  {
    if |args| < 2 then []
    else if args[1] == "center" then
      match env.activeSize
      case None => [NullDereference]
      case Some((w, h)) => [MoveTo(TruncDiv(area.width - w, 2), TruncDiv(area.height - h, 2))]
    else if args[1] == "mouse" then [MoveTo(env.cursorX, env.cursorY)]
    else
      match ParseMoveDistance(args, 2, 0)
      case NoDistance => []
      case StoiThrew => [Threw(StdOutOfRange)]
      case Given(x) =>
        match ParseMoveDistance(args, 2, 0)
        case NoDistance => []
        case StoiThrew => [Threw(StdOutOfRange)]
        case Given(y) => [MoveTo(x, y)]
  }

  /** `move absolute position center`: centred on the bounding box of all outputs. */
  function MoveAbsolute(args: seq<string>, env: Env): seq<Action>
  {
    if |args| < 3 then [ReadPastArguments]
    else if args[1] != "position" || args[2] != "center" then []
    else
      var x := MaxEndX(env.outputs);
      var y := MaxEndY(env.outputs);
      match env.activeSize
      case None => [NullDereference]
      case Some((w, h)) => [MoveTo(TruncDiv(x - w, 2), TruncDiv(y - h, 2))]
  }

  /** A directional move falls back to a plain move unless a value and a unit follow:
      `move left 10` moves by the default step, `move left 10 px` by 10 pixels. */
  lemma DirectionalMove(c: Command, env: Env, dir: Direction)
    requires env.output.Some? && c.arguments != [] && DirectionOf(c.arguments[0]) == Some(dir)
    ensures |c.arguments| <= 2 ==> MoveAction(c, env) == [MoveDirection(dir)]
    ensures |c.arguments| == 3 && c.arguments[2] != "ppt" && Stoi(c.arguments[1]).Parsed? ==>
      MoveAction(c, env) == [MoveBy(dir, Stoi(c.arguments[1]).value)]
    ensures |c.arguments| >= 3 && Stoi(c.arguments[1]).OutOfRange? ==> MoveAction(c, env) == [Threw(StdOutOfRange)]
  {
  }

  /** Both coordinates of `move position <x> <y>` come from the same argument. */
  lemma MovePositionSameCoordinates(args: seq<string>, area: Rect, env: Env)
    requires |args| >= 1
    requires |args| >= 2 && args[1] != "center" && args[1] != "mouse"
    ensures forall a :: a in MovePosition(args, area, env) && a.MoveTo? ==> a.x == a.y
    ensures (exists a :: a in MovePosition(args, area, env) && a.MoveTo?) <==> |args| >= 4 && Stoi(args[2]).Parsed?
    ensures MovePosition(args, area, env) == [Threw(StdOutOfRange)] <==> |args| >= 4 && Stoi(args[2]).OutOfRange?
  {
    if |args| >= 4 && Stoi(args[2]).Parsed? {
      var v := ParseMoveDistance(args, 2, 0).value;
      assert MovePosition(args, area, env)[0] == MoveTo(v, v);
    }
  }

  /** Both centring moves read the policy's active container without a null check:
      with none they dereference null, otherwise the window's centre lands on the
      centre of the area (of the output, or of the box spanning every output), up to
      truncation toward zero. */
  lemma CenterNeedsActive(args: seq<string>, area: Rect, env: Env)
    requires |args| >= 3 && args[1] == "center"
    ensures env.activeSize.None? ==> MovePosition(args, area, env) == [NullDereference]
    ensures env.activeSize.Some? ==>
      var (w, h) := env.activeSize.value;
      var m := MovePosition(args, area, env);
      |m| == 1 && m[0].MoveTo? && Stopped(m) == false &&
      -1 <= area.width - (2 * m[0].x + w) <= 1 && -1 <= area.height - (2 * m[0].y + h) <= 1
    ensures var abs := ["absolute", "position", "center"] + args[3..];
      (env.activeSize.None? <==> MoveAbsolute(abs, env) == [NullDereference]) &&
      (env.activeSize.Some? ==>
        var (w, h) := env.activeSize.value;
        var m := MoveAbsolute(abs, env);
        |m| == 1 && m[0].MoveTo? &&
        -1 <= MaxEndX(env.outputs) - (2 * m[0].x + w) <= 1 && -1 <= MaxEndY(env.outputs) - (2 * m[0].y + h) <= 1)
  {
    var abs := ["absolute", "position", "center"] + args[3..];
    assert abs[1] == "position" && abs[2] == "center";
    if env.activeSize.Some? {
      var (w, h) := env.activeSize.value;
      TruncHalf(area.width - w);
      TruncHalf(area.height - h);
      TruncHalf(MaxEndX(env.outputs) - w);
      TruncHalf(MaxEndY(env.outputs) - h);
    }
  }

  /** Halving truncated toward zero is off by at most one. */
  lemma TruncHalf(v: int)
    ensures -1 <= v - 2 * TruncDiv(v, 2) <= 1
  {
  }

  // ---------------------------------------------------------------------
  // input

  datatype InputOutcome =
    | TooFewArguments | BadType | BadXkb | TooManyArguments
    | Accepted(kind: string, variable: string, value: Option<string>)

  /** process_input's validation of `[type:X, xkb_Y, Z]`. An accepted request has
      no further effect in the source. */
  function InputCheck(args: seq<string>): (r: InputOutcome)
    ensures r.Accepted? <==>
      2 <= |args| <= 3 && StartsWith(args[0], "type:") && StartsWith(args[1], "xkb_")
    ensures r.Accepted? ==> "type:" + r.kind == args[0] && "xkb_" + r.variable == args[1]
    ensures r.Accepted? ==> (r.value.Some? <==> |args| == 3)
  {
    if |args| < 2 then TooFewArguments
    else if !StartsWith(args[0], "type:") then BadType
    else if !StartsWith(args[1], "xkb_") then BadXkb
    else if |args| > 3 then TooManyArguments
    else
      assert args[0] == args[0][..5] + args[0][5..];
      assert args[1] == args[1][..4] + args[1][4..];
      Accepted(args[0][5..], args[1][4..], if |args| == 3 then Some(args[2]) else Option.None)
  }

  // ---------------------------------------------------------------------
  // process

  /** The calls one command makes. exec, split, focus, move, sticky, exit and input
      are acted on; every other type is ignored. */
  function CommandActions(c: Command, scope: seq<Scope>, env: Env): seq<Action>
  {
    match c.kind
    case Exec => ExecAction(c)
    case Split => SplitAction(c)
    case Focus => FocusAction(c, scope, env)
    case Move => MoveAction(c, env)
    case Sticky => StickyAction(c)
    case Exit => [Quit]
    case Input => []  // InputCheck; an accepted request changes nothing yet
    case _ => []
  }

  /** The calls of each command of a list, command by command. */
  function CommandRuns(cmds: seq<Command>, scope: seq<Scope>, env: Env): (r: seq<seq<Action>>)
    ensures |r| == |cmds|
  {
    seq(|cmds|, i requires 0 <= i < |cmds| => CommandActions(cmds[i], scope, env))
  }

  /** The calls of runs made one after the other, up to the first call that
      ends the processing. */
  function RunAll(runs: seq<seq<Action>>): seq<Action>
  {
    if runs == [] then []
    else
      var done := RunAll(runs[..|runs| - 1]);
      if Stopped(done) then done else done + runs[|runs| - 1]
  }

  /** The calls a list of commands makes. */
  function ProcessAll(cmds: seq<Command>, scope: seq<Scope>, env: Env): seq<Action>
  {
    RunAll(CommandRuns(cmds, scope, env))
  }

  /** I3CommandExecutor::process: the commands of the list, one after the other,
      until an exception leaves the loop or a null pointer is dereferenced. */
  method Process(list: ScopedCommandList, env: Env) returns (actions: seq<Action>)
    ensures actions == ProcessAll(list.commands, list.scope, env)
  {
    ghost var runs := CommandRuns(list.commands, list.scope, env);
    actions := [];
    var i := 0;
    while i < |list.commands| && !Stopped(actions)
      invariant 0 <= i <= |list.commands|
      invariant actions == RunAll(runs[..i])
    {
      assert runs[..i + 1][..i] == runs[..i];
      actions := actions + CommandActions(list.commands[i], list.scope, env);
      i := i + 1;
    }
    if i < |list.commands| {
      StoppedStays(runs, i);
    }
    assert runs[..|runs|] == runs;
  }

  /** Once a run has stopped, no later command adds a call. */
  lemma {:induction false} StoppedStays(runs: seq<seq<Action>>, i: nat)
    requires i <= |runs| && Stopped(RunAll(runs[..i]))
    ensures RunAll(runs) == RunAll(runs[..i])
    decreases |runs| - i
  {
    if i == |runs| {
      assert runs[..i] == runs;
    } else {
      assert runs[..i + 1][..i] == runs[..i];
      StoppedStays(runs, i + 1);
    }
  }

  /** Runs made after a stopped one add nothing; otherwise the calls follow on. */
  lemma {:induction false} RunAllAppend(x: seq<seq<Action>>, y: seq<seq<Action>>)
    ensures RunAll(x + y) == if Stopped(RunAll(x)) then RunAll(x) else RunAll(x) + RunAll(y)
    decreases |y|
  {
    if y == [] {
      assert x + y == x;
    } else {
      var y', last := y[..|y| - 1], y[|y| - 1];
      SplitLast(x, y);
      RunAllAppend(x, y');
      RunAllSnoc(x + y', last);
      RunAllSnoc(y', last);
      Chain(RunAll(x), RunAll(y'), RunAll(x + y'), RunAll(x + y), RunAll(y), last);
    }
  }

  /** The step of `RunAllAppend` on plain values: `c` runs `a` then `b`, and one more run `last` follows both. */
  lemma Chain(a: seq<Action>, b: seq<Action>, c: seq<Action>, r: seq<Action>, ry: seq<Action>, last: seq<Action>)
    requires c == if Stopped(a) then a else a + b
    requires r == if Stopped(c) then c else c + last
    requires ry == if Stopped(b) then b else b + last
    ensures r == if Stopped(a) then a else a + ry
  {
    if !Stopped(a) {
      StoppedAppend(a, b);
      if !Stopped(b) {
        assert a + b + last == a + (b + last);
      }
    }
  }

  lemma SplitLast(x: seq<seq<Action>>, y: seq<seq<Action>>)
    requires y != []
    ensures x + y == (x + y[..|y| - 1]) + [y[|y| - 1]]
    ensures y == y[..|y| - 1] + [y[|y| - 1]]
  {
  }

  /** One more run: its calls follow unless the run had already stopped. */
  lemma RunAllSnoc(runs: seq<seq<Action>>, last: seq<Action>)
    ensures RunAll(runs + [last]) == if Stopped(RunAll(runs)) then RunAll(runs) else RunAll(runs) + last
  {
    assert (runs + [last])[..|runs|] == runs;
  }

  /** Processing two lists of commands one after the other is processing their
      concatenation, unless the first list already stopped the run. */
  lemma ProcessAllAppend(a: seq<Command>, b: seq<Command>, scope: seq<Scope>, env: Env)
    ensures ProcessAll(a + b, scope, env) ==
      if Stopped(ProcessAll(a, scope, env)) then ProcessAll(a, scope, env)
      else ProcessAll(a, scope, env) + ProcessAll(b, scope, env)
  {
    var ra, rb := CommandRuns(a, scope, env), CommandRuns(b, scope, env);
    assert CommandRuns(a + b, scope, env) == ra + rb;
    RunAllAppend(ra, rb);
  }

  /** A run followed by another has stopped exactly as the later one has, when it is not empty. */
  lemma StoppedAppend(x: seq<Action>, y: seq<Action>)
    ensures Stopped(x + y) == if y == [] then Stopped(x) else Stopped(y)
  {
    if y == [] {
      assert x + y == x;
    } else {
      assert (x + y)[|x + y| - 1] == y[|y| - 1];
    }
  }

  predicate Ignored(kind: CommandType)
  {
    !(kind in {CommandType.Exec, CommandType.Split, CommandType.Focus, CommandType.Move,
               CommandType.Sticky, CommandType.Exit})
  }

  /** Commands of the ignored types make no calls at all. */
  lemma IgnoredCommandsDoNothing(cmds: seq<Command>, scope: seq<Scope>, env: Env)
    requires forall i :: 0 <= i < |cmds| ==> Ignored(cmds[i].kind)
    ensures ProcessAll(cmds, scope, env) == []
  {
    var runs := CommandRuns(cmds, scope, env);
    assert forall i :: 0 <= i < |runs| ==> runs[i] == [];
    EmptyRuns(runs);
  }

  lemma {:induction false} EmptyRuns(runs: seq<seq<Action>>)
    requires forall i :: 0 <= i < |runs| ==> runs[i] == []
    ensures RunAll(runs) == []
  {
    if runs != [] {
      EmptyRuns(runs[..|runs| - 1]);
    }
  }
}
