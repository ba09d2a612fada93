// Policy (src/policy.cpp): the window-management policy's own state — the
// mode, the active container and output, the outputs and the windows left
// without one — and the guards in front of every command. What the policy
// asks of containers, outputs, the workspace manager and the surface
// tracker comes back as a list of effects.
module Policies {
  import opened Wrappers
  import opened Geometry
  import opened ContainerTypes
  import Configs

  /** `WindowManagerMode`. */
  datatype Mode = Normal | Resizing | Selecting

  /** The commands behind the `try_*` members and their kin. */
  datatype Command =
    | RequestVertical
    | RequestHorizontal
    | ToggleLayout
    | Resize(direction: Direction)
    | Move(direction: Direction)
    | MoveBy(direction: Direction, pixels: int)
    | MoveTo(x: int, y: int)
    | Select(direction: Direction)
    | CloseWindow
    | Quit
    | ToggleFullscreen
    | SelectWorkspace(number: int)
    | MoveToWorkspace(number: int)
    | ToggleFloating
    | TogglePinned
    | SetPinned(pinned: bool)

  /** What the policy asks of the rest of the compositor. */
  datatype Effect =
    | Forward(container: nat, command: Command)   // the active container carries the command out
    | Close(container: nat)
    | StopRunner
    | RequestWorkspace(screen: Option<nat>, key: int)
    | ToggleActiveFloat(output: nat)
    | DeleteFromOutput(container: nat)
    | GraftMoved(container: nat, key: int)        // onto the output answering the workspace request
    | RequestFirstAvailable(output: nat)
    | AddImmediately(output: nat, window: nat)
    | DeleteWorkspace(key: int)
    | FocusActiveWorkspace(output: nat)
    | CreateContainer(output: nat, window: nat)
    | TrackSurface(window: nat)
    | UntrackSurface(window: nat)
    | MakeShellComponent(window: nat)
    | SelectActiveWindow(container: nat)
    | ModeChanged(mode: Mode)
    | Launch(program: string)

  /**
   * The guard in front of each command: in resizing mode only resizing,
   * closing and quitting pass, and resizing passes in no other mode; the
   * workspace selection and the floating toggle need an active output,
   * closing needs an active container with a window, moving to a workspace
   * an active container that is not fullscreen, and the rest an active
   * container.
   */
  predicate Admits(cmd: Command, mode: Mode, hasActive: bool, hasActiveOutput: bool, activeFullscreen: bool, activeHasWindow: bool)
  {
    match cmd
    case Resize(_) => mode == Resizing && hasActive
    case CloseWindow => hasActive && activeHasWindow
    case Quit => true
    case SelectWorkspace(_) => mode != Resizing && hasActiveOutput
    case ToggleFloating => mode != Resizing && hasActiveOutput
    case MoveToWorkspace(_) => mode != Resizing && hasActive && !activeFullscreen
    case _ => mode != Resizing && hasActive
  }

  /** The commands whose answer is the active container's own. */
  predicate AnsweredByContainer(cmd: Command)
  {
    cmd.Resize? || cmd.Move? || cmd.MoveBy? || cmd.MoveTo? || cmd.Select? || cmd.ToggleFullscreen? || cmd.TogglePinned? || cmd.SetPinned?
  }

  /** In resizing mode every command but resizing, closing and quitting is refused, whatever else holds. */
  lemma ResizingRefuses(cmd: Command, hasActive: bool, hasActiveOutput: bool, activeFullscreen: bool, activeHasWindow: bool)
    requires !cmd.Resize? && !cmd.CloseWindow? && !cmd.Quit?
    ensures !Admits(cmd, Resizing, hasActive, hasActiveOutput, activeFullscreen, activeHasWindow)
  {
  }

  /** Resizing is refused outside resizing mode, and every command that acts on the active container is refused without one. */
  lemma GuardsNeedTheirState(cmd: Command, mode: Mode, hasActiveOutput: bool, activeFullscreen: bool, activeHasWindow: bool)
    ensures mode != Resizing ==> !Admits(Resize(Up), mode, true, hasActiveOutput, activeFullscreen, activeHasWindow)
    ensures !cmd.Quit? && !cmd.SelectWorkspace? && !cmd.ToggleFloating? ==>
      !Admits(cmd, mode, false, hasActiveOutput, activeFullscreen, activeHasWindow)
    ensures (cmd.SelectWorkspace? || cmd.ToggleFloating?) ==> !Admits(cmd, mode, true, false, activeFullscreen, activeHasWindow)
  {
  }

  /**
   * The pointer's answer in normal mode as written: while a floating window
   * is being dragged, or when the active container is floating, the floating
   * window manager answers; otherwise the answer is whether a new window was
   * selected. `None` marks the case where the source asks an absent active
   * container for its type.
   */
  function NormalPointerAnswerAsWritten(hasClickedFloating: bool, activeKind: Option<ContainerType>, selectionChanged: bool, floatingAnswer: bool): (r: Option<bool>)
    ensures r.None? <==> !hasClickedFloating && activeKind.None?
  {
    if hasClickedFloating then Some(floatingAnswer)
    else if activeKind.None? then Option.None
    else if activeKind.value == FloatingWindow then Some(floatingAnswer)
    else Some(selectionChanged)
  }

  /** With no active container and no floating drag, the source dereferences the missing container. */
  lemma PointerWithoutActiveContainer()
    ensures NormalPointerAnswerAsWritten(false, Option.None, false, true).None?
  {
  }

  /** The answer with an absent active container taken as not floating. */
  function NormalPointerAnswer(hasClickedFloating: bool, activeKind: Option<ContainerType>, selectionChanged: bool, floatingAnswer: bool): (r: bool)
    ensures NormalPointerAnswerAsWritten(hasClickedFloating, activeKind, selectionChanged, floatingAnswer) == Some(r)
      || (!hasClickedFloating && activeKind.None? && r == selectionChanged)
    ensures (hasClickedFloating || activeKind == Some(FloatingWindow)) ==> r == floatingAnswer
    ensures !hasClickedFloating && activeKind != Some(FloatingWindow) ==> r == selectionChanged
  {
    if hasClickedFloating || activeKind == Some(FloatingWindow) then floatingAnswer else selectionChanged
  }

  /** The position of the first `x` in `s`, or its length. */
  function IndexOf(s: seq<nat>, x: nat): (p: nat)
    ensures p <= |s| && (p < |s| ==> s[p] == x)
    ensures forall i :: 0 <= i < p ==> s[i] != x
  {
    if |s| == 0 || s[0] == x then 0 else 1 + IndexOf(s[1..], x)
  }

  /** The search loops over the orphan list and the output list. */
  method Find(s: seq<nat>, x: nat) returns (p: nat)
    ensures p == IndexOf(s, x)
  {
    p := 0;
    while p < |s|
      invariant p <= IndexOf(s, x)
    {
      if s[p] == x {
        return;
      }
      p := p + 1;
    }
  }

  /** `MODIFIER_MASK`: alt, shift, sym, ctrl and meta. */
  const ModifierMask: bv32 := Configs.Bit(Configs.Alt) | Configs.Bit(Configs.Shift) | Configs.Bit(Configs.Sym)
    | Configs.Bit(Configs.Ctrl) | Configs.Bit(Configs.Meta)

  datatype PointerAction = ButtonDown | ButtonUp | Motion

  class Policy {
    var mode: Mode
    var active: Option<nat>
    var activeOutput: Option<nat>
    var outputs: seq<nat>
    var orphans: seq<nat>
    var group: seq<nat>
    var modifiers: bv32
    var hasClickedFloating: bool
    var pending: Option<nat>

    /** The active output is one of the outputs, and there is one exactly when there are outputs; windows are orphaned only while there is none. */
    predicate Valid()
      reads this
    {
      (activeOutput.None? <==> outputs == [])
      && (activeOutput.Some? ==> activeOutput.value in outputs)
      && (orphans != [] ==> outputs == [])
    }

    constructor()
      ensures Valid() && mode == Normal && active == Option.None && activeOutput == Option.None
      ensures outputs == [] && orphans == [] && group == [] && !hasClickedFloating && pending == Option.None
    {
      mode := Normal;
      active := Option.None;
      activeOutput := Option.None;
      outputs := [];
      orphans := [];
      group := [];
      modifiers := 0;
      hasClickedFloating := false;
      pending := Option.None;
    }

    /**
     * `try_toggle_resize_mode`: without an active leaf the mode becomes
     * normal and nobody is told; otherwise resizing and normal swap and the
     * mode observers hear the new mode.
     */
    method ToggleResizeMode(activeKind: ContainerType) returns (told: Option<Mode>)
      modifies this
      ensures active.None? || activeKind != Leaf ==> mode == Normal && told.None?
      ensures active.Some? && activeKind == Leaf ==>
        mode == (if old(mode) == Resizing then Normal else Resizing) && told == Some(mode)
      ensures active == old(active) && activeOutput == old(activeOutput) && outputs == old(outputs) && orphans == old(orphans)
      ensures group == old(group)
    {
      if active.None? || activeKind != Leaf {
        mode := Normal;
        return Option.None;
      }
      mode := if mode == Resizing then Normal else Resizing;
      told := Some(mode);
    }

    /**
     * The `try_*` members, `select_workspace`, `move_active_to_workspace`,
     * `toggle_floating`, `toggle_pinned_to_workspace`, `set_is_pinned` and
     * `quit`: a refused command changes nothing and answers false. Moving to
     * a workspace takes the container off its output and clears the active
     * container before the workspace is requested and the container grafted.
     * `answer` is the active container's own answer where it gives one.
     */
    method Try(cmd: Command, activeFullscreen: bool, activeHasWindow: bool, answer: bool) returns (result: bool, effects: seq<Effect>)
      modifies this
      ensures var admitted := Admits(cmd, old(mode), old(active).Some?, old(activeOutput).Some?, activeFullscreen, activeHasWindow);
        result == (admitted && (AnsweredByContainer(cmd) ==> answer))
        && (!admitted ==> effects == [])
      ensures cmd.MoveToWorkspace? && result ==>
        active.None? && effects == [DeleteFromOutput(old(active).value), RequestWorkspace(activeOutput, cmd.number), GraftMoved(old(active).value, cmd.number)]
      ensures !(cmd.MoveToWorkspace? && result) ==> active == old(active)
      ensures cmd.SelectWorkspace? && result ==> effects == [RequestWorkspace(activeOutput, cmd.number)]
      ensures mode == old(mode) && activeOutput == old(activeOutput) && outputs == old(outputs) && orphans == old(orphans)
      ensures group == old(group)
    {
      if !Admits(cmd, mode, active.Some?, activeOutput.Some?, activeFullscreen, activeHasWindow) {
        return false, [];
      }
      match cmd {
        case CloseWindow =>
          return true, [Close(active.value)];
        case Quit =>
          return true, [StopRunner];
        case SelectWorkspace(n) =>
          return true, [RequestWorkspace(activeOutput, n)];
        case ToggleFloating =>
          return true, [ToggleActiveFloat(activeOutput.value)];
        case MoveToWorkspace(n) =>
          var moving := active.value;
          active := Option.None;
          return true, [DeleteFromOutput(moving), RequestWorkspace(activeOutput, n), GraftMoved(moving, n)];
        case _ =>
          return !AnsweredByContainer(cmd) || answer, [Forward(active.value, cmd)];
      }
    }

    /**
     * `handle_keyboard_event`: the modifiers are masked and remembered; a
     * custom binding that fires launches its command and wins; otherwise the
     * built-in commands are offered to `accepts` (the dispatch to the `try_*`
     * members) as `matches_key_command` does.
     */
    predicate CustomFires(c: Configs.CustomKeyCommand, action: Configs.KeyboardAction, key: int, primary: bv32)
      reads this
    {
      Configs.Fires(action, modifiers, key, c.action, c.modifiers, c.key, primary)
    }

    method HandleKeyboardEvent(config: Configs.Configuration, action: Configs.KeyboardAction, key: int, raw: bv32, accepts: nat -> bool)
      returns (handled: bool, launched: Option<string>, offered: seq<nat>)
      modifies this
      ensures modifiers == raw & ModifierMask
      ensures launched.Some? ==> handled && offered == []
      ensures launched.Some? ==> exists i :: (0 <= i < |config.customKeyCommands|
          && CustomFires(config.customKeyCommands[i], action, key, config.primaryModifier)
          && config.customKeyCommands[i].command == launched.value)
      ensures launched.None? ==> forall i :: 0 <= i < |config.customKeyCommands| ==>
        !CustomFires(config.customKeyCommands[i], action, key, config.primaryModifier)
      ensures launched.None? ==> (handled <==>
        exists x :: x in Configs.Firing(config.keyCommands, action, modifiers, key, config.primaryModifier) && accepts(x))
      ensures mode == old(mode) && active == old(active) && outputs == old(outputs)
    {
      modifiers := raw & ModifierMask;
      var custom := config.MatchesCustomKeyCommand(action, key, modifiers);
      if custom.Some? {
        return true, Some(config.customKeyCommands[custom.value].command), [];
      }
      handled, offered := config.MatchesKeyCommand(action, key, modifiers, accepts);
      launched := Option.None;
    }

    /**
     * `handle_pointer_event`: the output under the pointer (`under`, the
     * first of the list containing it) becomes active and its workspace is
     * focused. Then, with an active output outside resizing mode, a button
     * press with exactly the primary modifier starts a selection with a fresh
     * group (`freshGroup`) that becomes the active container, and a press
     * without it ends a selection. In selecting mode a press adds the
     * container under the pointer to the group; in normal mode a window under
     * the pointer other than the active one is selected, and the answer is as
     * `NormalPointerAnswer` says (where the source would ask a missing active
     * container for its type, see `NormalPointerAnswerAsWritten`, the model
     * answers as for a container that is not floating).
     */
    method HandlePointerEvent(action: PointerAction, under: Option<nat>, primary: bv32, intersected: Option<nat>, intersectedHasWindow: bool,
                              activeKind: Option<ContainerType>, freshGroup: nat, floatingAnswer: bool)
      returns (consumed: bool, effects: seq<Effect>)
      requires Valid() && (under.Some? ==> under.value in outputs)
      modifies this
      ensures Valid()
      ensures activeOutput == (if under.Some? then under else old(activeOutput))
      ensures under.Some? && under != old(activeOutput) ==> |effects| > 0 && effects[0] == FocusActiveWorkspace(under.value)
      ensures activeOutput.None? || old(mode) == Resizing ==> !consumed && mode == old(mode) && active == old(active) && group == old(group)
      ensures activeOutput.Some? && old(mode) != Resizing && action == ButtonDown && modifiers == primary && old(mode) != Selecting ==>
        mode == Selecting && active == Some(freshGroup)
      ensures activeOutput.Some? && old(mode) == Selecting && action == ButtonDown && modifiers != primary ==> mode == Normal
      ensures activeOutput.Some? && mode == Selecting ==> (consumed
        && group == (if old(mode) == Selecting then old(group) else []) + (if intersected.Some? && action == ButtonDown then [intersected.value] else []))
      ensures activeOutput.Some? && old(mode) != Resizing && mode == Normal ==>
        consumed == NormalPointerAnswer(old(hasClickedFloating), activeKind, intersected.Some? && intersectedHasWindow && old(active) != intersected, floatingAnswer)
      ensures activeOutput.Some? && old(mode) != Resizing && mode == Normal && (old(hasClickedFloating) || activeKind == Some(FloatingWindow)) ==>
        hasClickedFloating == (if action == ButtonDown then true else if action == ButtonUp then false else old(hasClickedFloating))
      ensures outputs == old(outputs) && orphans == old(orphans)
    {
      effects := [];
      if under.Some? && activeOutput != under {
        activeOutput := under;
        effects := [FocusActiveWorkspace(under.value)];
      }
      if activeOutput.None? || mode == Resizing {
        return false, effects;
      }
      var kind := activeKind;
      if action == ButtonDown {
        if modifiers == primary {
          if mode != Selecting {
            mode := Selecting;
            group := [];
            active := Some(freshGroup);
            kind := Some(Group);
          }
        } else if mode == Selecting {
          mode := Normal;
        }
      }
      if mode == Selecting {
        if intersected.Some? && action == ButtonDown {
          group := group + [intersected.value];
        }
        return true, effects;
      }
      var changed := false;
      if intersected.Some? && intersectedHasWindow && active != intersected {
        effects := effects + [SelectActiveWindow(intersected.value)];
        changed := true;
      }
      if hasClickedFloating || kind == Some(FloatingWindow) {
        if action == ButtonDown {
          hasClickedFloating := true;
        } else if action == ButtonUp {
          hasClickedFloating := false;
        }
        return floatingAnswer, effects;
      }
      consumed := NormalPointerAnswer(hasClickedFloating, kind, changed, floatingAnswer);
    }

    /** `advise_focus_gained`: while selecting, the container joins the group; otherwise it becomes the active container. */
    method AdviseFocusGained(container: nat)
      modifies this
      ensures mode == Selecting ==> group == old(group) + [container] && active == old(active)
      ensures mode != Selecting ==> active == Some(container) && group == old(group)
      ensures mode == old(mode) && activeOutput == old(activeOutput) && outputs == old(outputs) && orphans == old(orphans)
    {
      if mode == Selecting {
        group := group + [container];
      } else {
        active := Some(container);
      }
    }

    /** `advise_focus_lost`: the active container is cleared only when it is the one losing focus. */
    method AdviseFocusLost(container: nat)
      modifies this
      ensures active == (if old(active) == Some(container) then Option.None else old(active))
      ensures mode == old(mode) && group == old(group) && activeOutput == old(activeOutput) && outputs == old(outputs) && orphans == old(orphans)
    {
      if active == Some(container) {
        active := Option.None;
      }
    }

    /**
     * `advise_delete_window`: an orphaned window leaves the orphan list and
     * the surface tracker, and nothing else happens; otherwise its container
     * (`container`, none when the window has none) leaves its output
     * (`onOutput`) and the tracker, and stops being the active container.
     */
    method AdviseDeleteWindow(window: nat, container: Option<nat>, onOutput: bool) returns (effects: seq<Effect>)
      requires Valid()
      modifies this
      ensures Valid()
      ensures window in old(orphans) ==> (orphans == old(orphans)[..IndexOf(old(orphans), window)] + old(orphans)[IndexOf(old(orphans), window) + 1..]
        && effects == [UntrackSurface(window)] && active == old(active))
      ensures window !in old(orphans) ==> orphans == old(orphans)
      ensures window !in old(orphans) && container.None? ==> effects == [] && active == old(active)
      ensures window !in old(orphans) && container.Some? ==>
        effects == (if onOutput then [DeleteFromOutput(container.value)] else []) + [UntrackSurface(window)]
        && active == (if old(active) == container then Option.None else old(active))
      ensures mode == old(mode) && activeOutput == old(activeOutput) && outputs == old(outputs)
    {
      var p := Find(orphans, window);
      if p < |orphans| {
        orphans := orphans[..p] + orphans[p + 1..];
        return [UntrackSurface(window)];
      }
      if container.None? {
        return [];
      }
      effects := (if onOutput then [DeleteFromOutput(container.value)] else []) + [UntrackSurface(window)];
      if active == container {
        active := Option.None;
      }
    }

    /** `place_new_window`: without an active output the request is left as it is (false); otherwise the active output is remembered for the window to come. */
    method PlaceNewWindow() returns (placed: bool)
      modifies this
      ensures placed <==> activeOutput.Some?
      ensures pending == (if placed then activeOutput else old(pending))
      ensures mode == old(mode) && active == old(active) && activeOutput == old(activeOutput) && outputs == old(outputs) && orphans == old(orphans)
    {
      if activeOutput.None? {
        return false;
      }
      pending := activeOutput;
      return true;
    }

    /**
     * `advise_new_window`: on the output remembered by `place_new_window`,
     * if it still exists (`pendingAlive`), a container is created and the
     * surface tracked. Otherwise the window goes to the first output or,
     * with none, joins the orphans and is tracked.
     */
    method AdviseNewWindow(window: nat, pendingAlive: bool) returns (effects: seq<Effect>)
      requires Valid()
      modifies this
      ensures Valid()
      ensures old(pending).Some? && pendingAlive ==>
        effects == [CreateContainer(old(pending).value, window), TrackSurface(window)] && pending.None? && orphans == old(orphans)
      ensures !(old(pending).Some? && pendingAlive) && outputs != [] ==>
        effects == [AddImmediately(outputs[0], window)] && orphans == old(orphans)
      ensures !(old(pending).Some? && pendingAlive) && outputs == [] ==>
        effects == [TrackSurface(window)] && orphans == old(orphans) + [window]
      ensures mode == old(mode) && active == old(active) && activeOutput == old(activeOutput) && outputs == old(outputs)
    {
      if pending.None? || !pendingAlive {
        if outputs != [] {
          return [AddImmediately(outputs[0], window)];
        }
        orphans := orphans + [window];
        return [TrackSurface(window)];
      }
      effects := [CreateContainer(pending.value, window), TrackSurface(window)];
      pending := Option.None;
    }

    /**
     * `advise_output_create`: the new output asks for its first free
     * workspace and joins the list; it becomes active if no output is; every
     * orphan is added to the active output and the orphan list is emptied.
     */
    method AdviseOutputCreate(output: nat) returns (effects: seq<Effect>)
      requires Valid() && output !in outputs
      modifies this
      ensures Valid()
      ensures outputs == old(outputs) + [output] && orphans == []
      ensures activeOutput == (if old(activeOutput).None? then Some(output) else old(activeOutput))
      ensures effects == [RequestFirstAvailable(output)] + AddAll(activeOutput.value, old(orphans))
      ensures mode == old(mode) && active == old(active)
    {
      outputs := outputs + [output];
      if activeOutput.None? {
        activeOutput := Some(output);
      }
      effects := [RequestFirstAvailable(output)] + AddAll(activeOutput.value, orphans);
      orphans := [];
    }

    /**
     * `advise_output_delete`: a known output leaves the list. If it was the
     * last one, its windows become orphans (each made a shell component) and
     * there is no active output; otherwise the first remaining output becomes
     * active and takes its windows. Either way its workspaces are deleted.
     * `windows` and `workspaces` are what the output holds; an unknown
     * output changes nothing.
     */
    method AdviseOutputDelete(output: nat, windows: seq<nat>, workspaces: seq<int>) returns (effects: seq<Effect>)
      requires Valid()
      modifies this
      ensures Valid()
      ensures output !in old(outputs) ==> effects == [] && outputs == old(outputs) && activeOutput == old(activeOutput) && orphans == old(orphans)
      ensures output in old(outputs) ==> var p := IndexOf(old(outputs), output);
        outputs == old(outputs)[..p] + old(outputs)[p + 1..]
      ensures output in old(outputs) && outputs == [] ==> (activeOutput.None? && orphans == old(orphans) + windows
        && effects == ShellAll(windows) + DeleteAll(workspaces))
      ensures output in old(outputs) && outputs != [] ==> (activeOutput == Some(outputs[0]) && orphans == old(orphans)
        && effects == AddAll(outputs[0], windows) + DeleteAll(workspaces))
      ensures mode == old(mode) && active == old(active)
    {
      var p := Find(outputs, output);
      if p == |outputs| {
        return [];
      }
      outputs := outputs[..p] + outputs[p + 1..];
      if outputs == [] {
        orphans := orphans + windows;
        effects := ShellAll(windows) + DeleteAll(workspaces);
        activeOutput := Option.None;
      } else {
        activeOutput := Some(outputs[0]);
        effects := AddAll(outputs[0], windows) + DeleteAll(workspaces);
      }
    }
  }

  /** Each window added to the output, in order. */
  function AddAll(output: nat, windows: seq<nat>): (r: seq<Effect>)
    ensures |r| == |windows| && forall i :: 0 <= i < |r| ==> r[i] == AddImmediately(output, windows[i])
  {
    seq(|windows|, i requires 0 <= i < |windows| => AddImmediately(output, windows[i]))
  }

  /** Each window made a shell component, in order. */
  function ShellAll(windows: seq<nat>): (r: seq<Effect>)
    ensures |r| == |windows| && forall i :: 0 <= i < |r| ==> r[i] == MakeShellComponent(windows[i])
  {
    seq(|windows|, i requires 0 <= i < |windows| => MakeShellComponent(windows[i]))
  }

  /** Each workspace deleted, in order. */
  function DeleteAll(workspaces: seq<int>): (r: seq<Effect>)
    ensures |r| == |workspaces| && forall i :: 0 <= i < |r| ==> r[i] == DeleteWorkspace(workspaces[i])
  {
    seq(|workspaces|, i requires 0 <= i < |workspaces| => DeleteWorkspace(workspaces[i]))
  }
}
