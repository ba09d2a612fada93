// FilesystemConfiguration (src/config.cpp): the modifier names, the key
// bindings and how a key press is matched against them, the change
// listeners, and the per-workspace settings. Reading and watching the YAML
// file is not part of this model; its results are the fields of the class.
module Configs {
  import opened Wrappers
  import opened ContainerTypes

  /** The modifier names `parse_modifier` knows; `Primary` is the placeholder for the configured action key. */
  datatype Modifier =
    | Alt
    | AltLeft
    | AltRight
    | Shift
    | ShiftLeft
    | ShiftRight
    | Sym
    | Function
    | Ctrl
    | CtrlLeft
    | CtrlRight
    | Meta
    | MetaLeft
    | MetaRight
    | CapsLock
    | NumLock
    | ScrollLock
    | Primary

  /** The name written in the configuration file. */
  function Name(m: Modifier): string
  {
    match m
    case Alt => "alt"
    case AltLeft => "alt_left"
    case AltRight => "alt_right"
    case Shift => "shift"
    case ShiftLeft => "shift_left"
    case ShiftRight => "shift_right"
    case Sym => "sym"
    case Function => "function"
    case Ctrl => "ctrl"
    case CtrlLeft => "ctrl_left"
    case CtrlRight => "ctrl_right"
    case Meta => "meta"
    case MetaLeft => "meta_left"
    case MetaRight => "meta_right"
    case CapsLock => "caps_lock"
    case NumLock => "num_lock"
    case ScrollLock => "scroll_lock"
    case Primary => "primary"
  }

  /** Mir's modifier bits (`mir_input_event_modifier_*`, alt = 1 << 1 up to scroll_lock = 1 << 17) and miracle's placeholder bit 1 << 18. */
  function Bit(m: Modifier): bv32
  {
    match m
    case Alt => 1 << 1
    case AltLeft => 1 << 2
    case AltRight => 1 << 3
    case Shift => 1 << 4
    case ShiftLeft => 1 << 5
    case ShiftRight => 1 << 6
    case Sym => 1 << 7
    case Function => 1 << 8
    case Ctrl => 1 << 9
    case CtrlLeft => 1 << 10
    case CtrlRight => 1 << 11
    case Meta => 1 << 12
    case MetaLeft => 1 << 13
    case MetaRight => 1 << 14
    case CapsLock => 1 << 15
    case NumLock => 1 << 16
    case ScrollLock => 1 << 17
    case Primary => 1 << 18
  }

  /** `mir_input_event_modifier_none`. */
  const NoModifier: bv32 := 1
  /** `miracle_input_event_modifier_default`: stands for the primary modifier in a binding. */
  const Placeholder: bv32 := 1 << 18
  /** `mir_input_event_modifier_meta`, the primary modifier when none is configured. */
  const MetaBit: bv32 := 1 << 12

  /** Names alt to shift_right; `Option.None` when it is none of them. */
  function ParseAltShift(s: string): (r: Option<Modifier>)
    ensures r.Some? ==> Name(r.value) == s
  {
    if s == "alt" then Some(Alt)
    else if s == "alt_left" then Some(AltLeft)
    else if s == "alt_right" then Some(AltRight)
    else if s == "shift" then Some(Shift)
    else if s == "shift_left" then Some(ShiftLeft)
    else if s == "shift_right" then Some(ShiftRight)
    else Option.None
  }

  /** Names sym to meta; `Option.None` when it is none of them. */
  function ParseSymCtrlMeta(s: string): (r: Option<Modifier>)
    ensures r.Some? ==> Name(r.value) == s
  {
    if s == "sym" then Some(Sym)
    else if s == "function" then Some(Function)
    else if s == "ctrl" then Some(Ctrl)
    else if s == "ctrl_left" then Some(CtrlLeft)
    else if s == "ctrl_right" then Some(CtrlRight)
    else if s == "meta" then Some(Meta)
    else Option.None
  }

  /** Names meta_left to primary; `Option.None` when it is none of them. */
  function ParseSideLocks(s: string): (r: Option<Modifier>)
    ensures r.Some? ==> Name(r.value) == s
  {
    if s == "meta_left" then Some(MetaLeft)
    else if s == "meta_right" then Some(MetaRight)
    else if s == "caps_lock" then Some(CapsLock)
    else if s == "num_lock" then Some(NumLock)
    else if s == "scroll_lock" then Some(ScrollLock)
    else if s == "primary" then Some(Primary)
    else Option.None
  }

  /** The modifier a name stands for: exact, case-sensitive, in the order `parse_modifier` tests them. */
  function ParseName(s: string): (r: Option<Modifier>)
    ensures r.Some? ==> Name(r.value) == s
  {
    match ParseAltShift(s)
    case Some(m) => Some(m)
    case None =>
      match ParseSymCtrlMeta(s)
      case Some(m) => Some(m)
      case None => ParseSideLocks(s)
  }

  /** `parse_modifier`: the bit of a known name, and the "none" bit for anything else. */
  function ParseModifier(s: string): (r: bv32)
    ensures r == NoModifier <==> ParseName(s).None?
  {
    match ParseName(s)
    case Some(m) => BitNotNone(m); Bit(m)
    case None => NoModifier
  }

  lemma BitNotNone(m: Modifier)
    ensures Bit(m) != NoModifier
  {
  }

  /** Every name is read back as its own modifier. */
  lemma NamesRoundTrip(m: Modifier)
    ensures ParseName(Name(m)) == Some(m)
    ensures ParseModifier(Name(m)) == Bit(m)
  {
    match m
    case Alt =>
    case AltLeft =>
    case AltRight =>
    case Shift =>
    case ShiftLeft =>
    case ShiftRight =>
    case Sym =>
    case Function =>
    case Ctrl =>
    case CtrlLeft =>
    case CtrlRight =>
    case Meta =>
    case MetaLeft =>
    case MetaRight =>
    case CapsLock =>
    case NumLock =>
    case ScrollLock =>
    case Primary =>
  }

  /** Different names give different bits. */
  lemma BitsDistinct(m: Modifier, n: Modifier)
    requires m != n
    ensures Bit(m) != Bit(n)
  {
  }

  /** The `action_key` setting: a known name becomes the primary modifier; an unknown one is reported and leaves it as it was. */
  function ActionKey(primary: bv32, name: string): (r: bv32)
    ensures ParseName(name).None? ==> r == primary
    ensures ParseName(name).Some? ==> r == Bit(ParseName(name).value)
  {
    var parsed := ParseModifier(name);
    if parsed == NoModifier then primary else parsed
  }

  /** Meta stays the primary modifier after an unknown action key; "alt" replaces it. */
  lemma ActionKeyExamples()
    ensures ActionKey(MetaBit, "unknown") == MetaBit
    ensures ActionKey(MetaBit, "alt") == Bit(Alt)
  {
    NamesRoundTrip(Alt);
  }

  /** A binding's modifiers with the placeholder replaced by the primary modifier. */
  function Resolve(modifiers: bv32, primary: bv32): (r: bv32)
    ensures modifiers & Placeholder == 0 ==> r == modifiers
    ensures modifiers & Placeholder != 0 ==> r & primary == primary
    ensures modifiers & Placeholder != 0 && primary & Placeholder == 0 ==> r & Placeholder == 0
  {
    if modifiers & Placeholder != 0 then (modifiers & !Placeholder) | primary else modifiers
  }

  datatype KeyboardAction = Up | Down | Repeat

  datatype KeyCommand = KeyCommand(action: KeyboardAction, modifiers: bv32, key: int)

  datatype CustomKeyCommand = CustomKeyCommand(action: KeyboardAction, modifiers: bv32, key: int, command: string)

  /** A binding fires for a press with the same action, the same modifiers once the placeholder is resolved, and the same key. */
  predicate Fires(action: KeyboardAction, modifiers: bv32, key: int, bound: KeyboardAction, boundModifiers: bv32, boundKey: int, primary: bv32)
  {
    action == bound && Resolve(boundModifiers, primary) == modifiers && key == boundKey
  }

  /** The number of built-in key commands (`DefaultKeyCommand::MAX`). */
  const CommandCount := 41
  /** `DefaultKeyCommand::Terminal`, the first of them. */
  const Terminal := 0

  /** The built-in bindings, one per key command in the order of the enumeration (key codes are Linux's `KEY_*`). */
  const DefaultBindings: seq<KeyCommand> := [
      KeyCommand(Down, Placeholder, 28) /* KEY_ENTER */,
      KeyCommand(Down, Placeholder, 47) /* KEY_V */,
      KeyCommand(Down, Placeholder, 35) /* KEY_H */,
      KeyCommand(Down, Placeholder, 19) /* KEY_R */,
      KeyCommand(Down, Placeholder, 103) /* KEY_UP */,
      KeyCommand(Down, Placeholder, 108) /* KEY_DOWN */,
      KeyCommand(Down, Placeholder, 105) /* KEY_LEFT */,
      KeyCommand(Down, Placeholder, 106) /* KEY_RIGHT */,
      KeyCommand(Down, Placeholder | Bit(Shift), 103) /* KEY_UP */,
      KeyCommand(Down, Placeholder | Bit(Shift), 108) /* KEY_DOWN */,
      KeyCommand(Down, Placeholder | Bit(Shift), 105) /* KEY_LEFT */,
      KeyCommand(Down, Placeholder | Bit(Shift), 106) /* KEY_RIGHT */,
      KeyCommand(Down, Placeholder, 103) /* KEY_UP */,
      KeyCommand(Down, Placeholder, 108) /* KEY_DOWN */,
      KeyCommand(Down, Placeholder, 105) /* KEY_LEFT */,
      KeyCommand(Down, Placeholder, 106) /* KEY_RIGHT */,
      KeyCommand(Down, Placeholder | Bit(Shift), 16) /* KEY_Q */,
      KeyCommand(Down, Placeholder | Bit(Shift), 18) /* KEY_E */,
      KeyCommand(Down, Placeholder, 33) /* KEY_F */,
      KeyCommand(Down, Placeholder, 2) /* KEY_1 */,
      KeyCommand(Down, Placeholder, 3) /* KEY_2 */,
      KeyCommand(Down, Placeholder, 4) /* KEY_3 */,
      KeyCommand(Down, Placeholder, 5) /* KEY_4 */,
      KeyCommand(Down, Placeholder, 6) /* KEY_5 */,
      KeyCommand(Down, Placeholder, 7) /* KEY_6 */,
      KeyCommand(Down, Placeholder, 8) /* KEY_7 */,
      KeyCommand(Down, Placeholder, 9) /* KEY_8 */,
      KeyCommand(Down, Placeholder, 10) /* KEY_9 */,
      KeyCommand(Down, Placeholder, 11) /* KEY_0 */,
      KeyCommand(Down, Placeholder | Bit(Shift), 2) /* KEY_1 */,
      KeyCommand(Down, Placeholder | Bit(Shift), 3) /* KEY_2 */,
      KeyCommand(Down, Placeholder | Bit(Shift), 4) /* KEY_3 */,
      KeyCommand(Down, Placeholder | Bit(Shift), 5) /* KEY_4 */,
      KeyCommand(Down, Placeholder | Bit(Shift), 6) /* KEY_5 */,
      KeyCommand(Down, Placeholder | Bit(Shift), 7) /* KEY_6 */,
      KeyCommand(Down, Placeholder | Bit(Shift), 8) /* KEY_7 */,
      KeyCommand(Down, Placeholder | Bit(Shift), 9) /* KEY_8 */,
      KeyCommand(Down, Placeholder | Bit(Shift), 10) /* KEY_9 */,
      KeyCommand(Down, Placeholder | Bit(Shift), 11) /* KEY_0 */,
      KeyCommand(Down, Placeholder, 57) /* KEY_SPACE */,
      KeyCommand(Down, Placeholder | Bit(Shift), 25) /* KEY_P */
  ]

  /** `ConfigDetails`: a command with no binding gets its built-in one; the others keep theirs. */
  function WithDefaults(commands: seq<seq<KeyCommand>>): (r: seq<seq<KeyCommand>>)
    requires |commands| == CommandCount
    ensures |r| == CommandCount
    ensures forall i :: 0 <= i < CommandCount ==> r[i] == (if commands[i] == [] then [DefaultBindings[i]] else commands[i])
  {
    seq(CommandCount, i requires 0 <= i < CommandCount => if commands[i] == [] then [DefaultBindings[i]] else commands[i])
  }

  /** The keys, in slot order, of the built-in command bindings that fire for a press; a command appears once per binding that fires. */
  function Firing(commands: seq<seq<KeyCommand>>, action: KeyboardAction, modifiers: bv32, key: int, primary: bv32): (r: seq<nat>)
    ensures forall x :: x in r ==> x < |commands|
  {
    if |commands| == 0 then []
    else
      var n := |commands| - 1;
      Firing(commands[..n], action, modifiers, key, primary) + FiringIn(commands[n], n, action, modifiers, key, primary)
  }

  /** `slot` once for each binding of `bindings` that fires. */
  function FiringIn(bindings: seq<KeyCommand>, slot: nat, action: KeyboardAction, modifiers: bv32, key: int, primary: bv32): (r: seq<nat>)
    ensures forall x :: x in r ==> x == slot
  {
    if |bindings| == 0 then []
    else
      var b := bindings[|bindings| - 1];
      FiringIn(bindings[..|bindings| - 1], slot, action, modifiers, key, primary)
      + (if Fires(action, modifiers, key, b.action, b.modifiers, b.key, primary) then [slot] else [])
  }

  /** A listener of configuration changes: its priority and its handle. */
  datatype Listener = Listener(priority: int, handle: int)

  predicate ByPriority(s: seq<Listener>)
  {
    forall i, j :: 0 <= i < j < |s| ==> s[i].priority <= s[j].priority
  }

  /** Where `register_listener` puts a new listener: before the first one whose priority is at least its own. */
  function FirstAtLeast(s: seq<Listener>, priority: int): (p: nat)
    ensures p <= |s|
    ensures forall i :: 0 <= i < p ==> s[i].priority < priority
    ensures p < |s| ==> s[p].priority >= priority
  {
    if |s| == 0 || s[0].priority >= priority then 0
    else 1 + FirstAtLeast(s[1..], priority)
  }

  /** The list after `l` is registered. */
  function Registered(s: seq<Listener>, l: Listener): (r: seq<Listener>)
    ensures |r| == |s| + 1 && multiset(r) == multiset(s) + multiset{l}
  {
    var p := FirstAtLeast(s, l.priority);
    assert s == s[..p] + s[p..];
    s[..p] + [l] + s[p..]
  }

  /** Where each listener lands: those before the position stay, the new one is at it, the rest move one along. */
  lemma RegisteredAt(s: seq<Listener>, l: Listener, i: int)
    requires 0 <= i <= |s|
    ensures var p := FirstAtLeast(s, l.priority);
      Registered(s, l)[i] == (if i < p then s[i] else if i == p then l else s[i - 1])
  {
  }

  /** Registering keeps the list ordered by priority; the new listener follows every lower priority and precedes the rest, equal ones included. */
  lemma RegisteredOrdered(s: seq<Listener>, l: Listener)
    requires ByPriority(s)
    ensures ByPriority(Registered(s, l))
    ensures var p := FirstAtLeast(s, l.priority); var r := Registered(s, l);
      r[p] == l && (forall i :: 0 <= i < p ==> r[i].priority < l.priority)
      && forall i :: p < i < |r| ==> r[i].priority >= l.priority
  {
    var p := FirstAtLeast(s, l.priority);
    var r := Registered(s, l);
    RegisteredAt(s, l, p);
    forall i, j | 0 <= i < j < |r|
      ensures r[i].priority <= r[j].priority
    {
      RegisteredAt(s, l, i);
      RegisteredAt(s, l, j);
      if i < p && j > p {
        assert s[i].priority <= s[j - 1].priority;
      } else if i == p && j > p {
        assert s[p].priority <= s[j - 1].priority;
      }
    }
    forall i | 0 <= i < p
      ensures r[i].priority < l.priority
    {
      RegisteredAt(s, l, i);
    }
    forall i | p < i < |r|
      ensures r[i].priority >= l.priority
    {
      RegisteredAt(s, l, i);
      assert s[p].priority <= s[i - 1].priority;
    }
  }

  /** The position of the first listener with the handle; the length when there is none. */
  function FirstWithHandle(s: seq<Listener>, handle: int): (p: nat)
    ensures p <= |s| && (p < |s| ==> s[p].handle == handle)
    ensures forall i :: 0 <= i < p ==> s[i].handle != handle
  {
    if |s| == 0 || s[0].handle == handle then 0
    else 1 + FirstWithHandle(s[1..], handle)
  }

  /** The list after `unregister_listener`: the first listener with the handle is erased; without one, nothing changes. */
  function Unregistered(s: seq<Listener>, handle: int): (r: seq<Listener>)
  {
    var p := FirstWithHandle(s, handle);
    if p == |s| then s else s[..p] + s[p + 1..]
  }

  predicate DistinctHandles(s: seq<Listener>)
  {
    forall i, j :: 0 <= i < j < |s| ==> s[i].handle != s[j].handle
  }

  /** Unregistering keeps the order of the others and, with distinct handles, leaves no listener with that handle and every other one in place. */
  lemma UnregisteredKeeps(s: seq<Listener>, handle: int)
    requires ByPriority(s) && DistinctHandles(s)
    ensures ByPriority(Unregistered(s, handle)) && DistinctHandles(Unregistered(s, handle))
    ensures forall x :: x in Unregistered(s, handle) <==> x in s && x.handle != handle
  {
    var p := FirstWithHandle(s, handle);
    var r := Unregistered(s, handle);
    if p < |s| {
      assert forall i :: 0 <= i < |r| ==> r[i] == (if i < p then s[i] else s[i + 1]);
      forall x | x in s && x.handle != handle
        ensures x in r
      {
        var k :| 0 <= k < |s| && s[k] == x;
        assert k != p;
        if k < p {
          assert r[k] == x;
        } else {
          assert r[k - 1] == x;
        }
      }
    }
  }

  /** The search loop of `register_listener`. */
  method InsertionPoint(s: seq<Listener>, priority: int) returns (p: nat)
    ensures p == FirstAtLeast(s, priority)
  {
    p := 0;
    while p < |s|
      invariant p <= FirstAtLeast(s, priority)
    {
      if s[p].priority >= priority {
        return;
      }
      p := p + 1;
    }
  }

  /** The search loop of `unregister_listener`. */
  method HandlePosition(s: seq<Listener>, handle: int) returns (p: nat)
    ensures p == FirstWithHandle(s, handle)
  {
    p := 0;
    while p < |s|
      invariant p <= FirstWithHandle(s, handle)
    {
      if s[p].handle == handle {
        return;
      }
      p := p + 1;
    }
  }

  /** Handles all below `next`. */
  predicate HandlesBelow(s: seq<Listener>, next: int)
  {
    forall i :: 0 <= i < |s| ==> s[i].handle < next
  }

  /** Registering a listener with the next handle keeps the order, the distinct handles, and every handle below the one after. */
  lemma RegisteredKeepsHandles(s: seq<Listener>, l: Listener, next: int)
    requires ByPriority(s) && DistinctHandles(s) && HandlesBelow(s, next) && l.handle == next
    ensures ByPriority(Registered(s, l)) && DistinctHandles(Registered(s, l)) && HandlesBelow(Registered(s, l), next + 1)
  {
    RegisteredOrdered(s, l);
    var p := FirstAtLeast(s, l.priority);
    var r := Registered(s, l);
    forall i | 0 <= i < |r|
      ensures r[i] == (if i < p then s[i] else if i == p then l else s[i - 1])
    {
      RegisteredAt(s, l, i);
    }
  }

  /** Unregistering a listener just registered with a fresh handle restores the list. */
  lemma RegisterThenUnregister(s: seq<Listener>, l: Listener)
    requires HandlesBelow(s, l.handle)
    ensures Unregistered(Registered(s, l), l.handle) == s
  {
    var p := FirstAtLeast(s, l.priority);
    var r := Registered(s, l);
    forall i | 0 <= i < |r|
      ensures r[i] == (if i < p then s[i] else if i == p then l else s[i - 1])
    {
      RegisteredAt(s, l, i);
    }
    HandleFoundAt(r, l.handle, p);
    assert r[..p] + r[p + 1..] == s;
  }

  /** The first listener with a handle is at `p` when it is there and nowhere before. */
  lemma {:induction false} HandleFoundAt(s: seq<Listener>, handle: int, p: nat)
    requires p < |s| && s[p].handle == handle && forall i :: 0 <= i < p ==> s[i].handle != handle
    ensures FirstWithHandle(s, handle) == p
  {
    if p > 0 {
      HandleFoundAt(s[1..], handle, p - 1);
    }
  }

  /** Unregistering keeps every handle below the bound. */
  lemma UnregisteredBelow(s: seq<Listener>, handle: int, next: int)
    requires HandlesBelow(s, next)
    ensures HandlesBelow(Unregistered(s, handle), next)
  {
    var p := FirstWithHandle(s, handle);
    if p < |s| {
      var r := Unregistered(s, handle);
      assert forall i :: 0 <= i < |r| ==> r[i] == (if i < p then s[i] else s[i + 1]);
    }
  }

  /** A workspace's settings: its number and the layout it starts with. */
  datatype WorkspaceConfig = WorkspaceConfig(num: int, layout: ContainerType)

  class Configuration {
    var primaryModifier: bv32
    var customKeyCommands: seq<CustomKeyCommand>
    var keyCommands: seq<seq<KeyCommand>>
    var workspaceConfigs: seq<WorkspaceConfig>
    var listeners: seq<Listener>
    var nextHandle: int
    var hasChanges: bool

    /** Listeners stay ordered by priority, with distinct handles below the next one to be given out. */
    predicate Valid()
      reads this
    {
      |keyCommands| == CommandCount && ByPriority(listeners) && DistinctHandles(listeners)
      && HandlesBelow(listeners, nextHandle)
    }

    /** The defaults: meta as the primary modifier and every command with its built-in binding. */
    constructor(firstHandle: int)
      ensures Valid()
      ensures primaryModifier == MetaBit && keyCommands == WithDefaults(seq(CommandCount, _ => []))
      ensures customKeyCommands == [] && workspaceConfigs == [] && listeners == [] && nextHandle == firstHandle && !hasChanges
    {
      primaryModifier := MetaBit;
      customKeyCommands := [];
      keyCommands := WithDefaults(seq(CommandCount, _ => []));
      workspaceConfigs := [];
      listeners := [];
      nextHandle := firstHandle;
      hasChanges := false;
    }

    /** The `action_key` setting read from the file. */
    method SetActionKey(name: string)
      modifies this
      ensures primaryModifier == ActionKey(old(primaryModifier), name)
      ensures ParseName(name).None? ==> primaryModifier == old(primaryModifier)
      ensures keyCommands == old(keyCommands) && listeners == old(listeners) && nextHandle == old(nextHandle)
    {
      primaryModifier := ActionKey(primaryModifier, name);
    }

    /** `matches_custom_key_command`: the first custom binding that fires for the press, if any. */
    method MatchesCustomKeyCommand(action: KeyboardAction, key: int, modifiers: bv32) returns (r: Option<nat>)
      ensures r.Some? ==> (r.value < |customKeyCommands|
        && var c := customKeyCommands[r.value]; Fires(action, modifiers, key, c.action, c.modifiers, c.key, primaryModifier))
      ensures r.Some? ==> forall j :: 0 <= j < r.value ==>
        var c := customKeyCommands[j]; !Fires(action, modifiers, key, c.action, c.modifiers, c.key, primaryModifier)
      ensures r.None? ==> forall j :: 0 <= j < |customKeyCommands| ==>
        var c := customKeyCommands[j]; !Fires(action, modifiers, key, c.action, c.modifiers, c.key, primaryModifier)
    {
      var i := 0;
      while i < |customKeyCommands|
        invariant i <= |customKeyCommands|
        invariant forall j :: 0 <= j < i ==>
          var c := customKeyCommands[j]; !Fires(action, modifiers, key, c.action, c.modifiers, c.key, primaryModifier)
      {
        var c := customKeyCommands[i];
        if action == c.action {
          var resolved := Resolve(c.modifiers, primaryModifier);
          if resolved == modifiers && key == c.key {
            return Some(i);
          }
        }
        i := i + 1;
      }
      return Option.None;
    }

    /**
     * `matches_key_command`: the commands whose bindings fire are offered to
     * `accepts` in slot order, then binding order, until one is accepted.
     * `called` lists the offers made.
     */
    method MatchesKeyCommand(action: KeyboardAction, key: int, modifiers: bv32, accepts: nat -> bool)
      returns (handled: bool, called: seq<nat>)
      ensures called <= Firing(keyCommands, action, modifiers, key, primaryModifier)
      ensures !handled ==> called == Firing(keyCommands, action, modifiers, key, primaryModifier)
      ensures handled ==> |called| > 0 && accepts(called[|called| - 1])
      ensures forall k :: 0 <= k < |called| && (handled ==> k < |called| - 1) ==> !accepts(called[k])
      ensures handled <==> exists x :: x in Firing(keyCommands, action, modifiers, key, primaryModifier) && accepts(x)
    {
      handled, called := Offer(keyCommands, primaryModifier, action, key, modifiers, accepts);
    }

    /** `register_listener`: the listener gets the next handle and goes before the first listener of at least its priority. */
    method RegisterListener(priority: int) returns (handle: int)
      requires Valid()
      modifies this
      ensures Valid()
      ensures handle == old(nextHandle) && nextHandle == old(nextHandle) + 1
      ensures listeners == Registered(old(listeners), Listener(priority, handle))
      ensures keyCommands == old(keyCommands) && primaryModifier == old(primaryModifier) && hasChanges == old(hasChanges)
    {
      handle := nextHandle;
      var l := Listener(priority, handle);
      var p := InsertionPoint(listeners, priority);
      RegisteredKeepsHandles(listeners, l, nextHandle);
      listeners := listeners[..p] + [l] + listeners[p..];
      nextHandle := nextHandle + 1;
    }

    /** `register_listener` without a priority: priority 5. */
    method RegisterDefaultListener() returns (handle: int)
      requires Valid()
      modifies this
      ensures Valid()
      ensures handle == old(nextHandle) && listeners == Registered(old(listeners), Listener(5, handle))
    {
      handle := RegisterListener(5);
    }

    /** `unregister_listener`: the listener with the handle is erased; an unknown handle changes nothing. */
    method UnregisterListener(handle: int)
      requires Valid()
      modifies this
      ensures Valid()
      ensures listeners == Unregistered(old(listeners), handle)
      ensures forall x :: x in listeners <==> x in old(listeners) && x.handle != handle
      ensures nextHandle == old(nextHandle) && keyCommands == old(keyCommands) && hasChanges == old(hasChanges)
    {
      UnregisteredKeeps(listeners, handle);
      UnregisteredBelow(listeners, handle, nextHandle);
      var p := HandlePosition(listeners, handle);
      if p < |listeners| {
        listeners := listeners[..p] + listeners[p + 1..];
      }
    }

    /** A reload of the file marks the configuration as changed. */
    method NoteChange()
      modifies this
      ensures hasChanges && listeners == old(listeners) && nextHandle == old(nextHandle) && keyCommands == old(keyCommands)
    {
      hasChanges := true;
    }

    /** `try_process_change`: after a change, the flag is cleared and every listener is told, in list order; otherwise nothing happens. */
    method TryProcessChange() returns (told: seq<int>)
      modifies this
      ensures !hasChanges
      ensures old(hasChanges) ==> |told| == |listeners| && forall k :: 0 <= k < |told| ==> told[k] == listeners[k].handle
      ensures !old(hasChanges) ==> told == []
      ensures listeners == old(listeners) && nextHandle == old(nextHandle) && keyCommands == old(keyCommands)
    {
      if !hasChanges {
        return [];
      }
      hasChanges := false;
      told := [];
      var i := 0;
      while i < |listeners|
        invariant i <= |listeners| && |told| == i
        invariant forall k :: 0 <= k < i ==> told[k] == listeners[k].handle
      {
        told := told + [listeners[i].handle];
        i := i + 1;
      }
    }

    /** `get_workspace_config`: the first settings for the number, or a tiled (leaf) workspace with that number. */
    method GetWorkspaceConfig(key: int) returns (r: WorkspaceConfig)
      ensures r.num == key
      ensures r in workspaceConfigs || r == WorkspaceConfig(key, Leaf)
      ensures (exists k :: 0 <= k < |workspaceConfigs| && workspaceConfigs[k].num == key) ==>
        exists k :: 0 <= k < |workspaceConfigs| && workspaceConfigs[k] == r
          && forall j :: 0 <= j < k ==> workspaceConfigs[j].num != key
      ensures (forall k :: 0 <= k < |workspaceConfigs| ==> workspaceConfigs[k].num != key) ==> r == WorkspaceConfig(key, Leaf)
    {
      var i := 0;
      while i < |workspaceConfigs|
        invariant i <= |workspaceConfigs|
        invariant forall j :: 0 <= j < i ==> workspaceConfigs[j].num != key
      {
        if workspaceConfigs[i].num == key {
          return workspaceConfigs[i];
        }
        i := i + 1;
      }
      return WorkspaceConfig(key, Leaf);
    }
  }

  /** The loop of `matches_key_command` over the bindings of each command in turn. */
  method Offer(commands: seq<seq<KeyCommand>>, primary: bv32, action: KeyboardAction, key: int, modifiers: bv32, accepts: nat -> bool)
    returns (handled: bool, called: seq<nat>)
    ensures called <= Firing(commands, action, modifiers, key, primary)
    ensures !handled ==> called == Firing(commands, action, modifiers, key, primary)
    ensures handled ==> |called| > 0 && accepts(called[|called| - 1])
    ensures forall k :: 0 <= k < |called| && (handled ==> k < |called| - 1) ==> !accepts(called[k])
    ensures handled <==> exists x :: x in Firing(commands, action, modifiers, key, primary) && accepts(x)
  {
    called := [];
    var i := 0;
    while i < |commands|
      invariant i <= |commands|
      invariant called == Firing(commands[..i], action, modifiers, key, primary)
      invariant forall k :: 0 <= k < |called| ==> !accepts(called[k])
    {
      var accepted, offered := OfferSlot(commands[i], i, primary, action, key, modifiers, accepts);
      FiringStep(commands, i, action, modifiers, key, primary);
      FiringSplit(commands, i + 1, action, modifiers, key, primary);
      called := called + offered;
      if accepted {
        assert called[|called| - 1] == offered[|offered| - 1];
        assert Firing(commands, action, modifiers, key, primary)[|called| - 1] == called[|called| - 1];
        return true, called;
      }
      i := i + 1;
    }
    assert commands[..i] == commands;
    handled := false;
  }

  /** The offers for one command: its bindings in order, until one that fires is accepted. */
  method OfferSlot(bindings: seq<KeyCommand>, slot: nat, primary: bv32, action: KeyboardAction, key: int, modifiers: bv32, accepts: nat -> bool)
    returns (accepted: bool, offered: seq<nat>)
    ensures offered <= FiringIn(bindings, slot, action, modifiers, key, primary)
    ensures !accepted ==> offered == FiringIn(bindings, slot, action, modifiers, key, primary)
    ensures accepted ==> |offered| > 0 && accepts(slot) && offered[|offered| - 1] == slot
    ensures forall k :: 0 <= k < |offered| && (accepted ==> k < |offered| - 1) ==> !accepts(offered[k])
  {
    offered := [];
    var j := 0;
    while j < |bindings|
      invariant j <= |bindings|
      invariant offered == FiringIn(bindings[..j], slot, action, modifiers, key, primary)
      invariant forall k :: 0 <= k < |offered| ==> !accepts(offered[k])
    {
      var b := bindings[j];
      FiringInStep(bindings, j, slot, action, modifiers, key, primary);
      if action == b.action && Resolve(b.modifiers, primary) == modifiers && key == b.key {
        offered := offered + [slot];
        if accepts(slot) {
          FiringInSplit(bindings, j + 1, slot, action, modifiers, key, primary);
          return true, offered;
        }
      }
      j := j + 1;
    }
    assert bindings[..j] == bindings;
    accepted := false;
  }

  lemma FiringStep(commands: seq<seq<KeyCommand>>, i: nat, action: KeyboardAction, modifiers: bv32, key: int, primary: bv32)
    requires i < |commands|
    ensures Firing(commands[..i + 1], action, modifiers, key, primary)
      == Firing(commands[..i], action, modifiers, key, primary) + FiringIn(commands[i], i, action, modifiers, key, primary)
  {
    assert commands[..i + 1][..i] == commands[..i];
  }

  lemma FiringInStep(bindings: seq<KeyCommand>, j: nat, slot: nat, action: KeyboardAction, modifiers: bv32, key: int, primary: bv32)
    requires j < |bindings|
    ensures var b := bindings[j];
      FiringIn(bindings[..j + 1], slot, action, modifiers, key, primary)
      == FiringIn(bindings[..j], slot, action, modifiers, key, primary)
        + (if Fires(action, modifiers, key, b.action, b.modifiers, b.key, primary) then [slot] else [])
  {
    assert bindings[..j + 1][..j] == bindings[..j];
  }

  /** The offers of the first `n` commands begin the offers of all of them. */
  lemma {:induction false} FiringSplit(commands: seq<seq<KeyCommand>>, n: nat, action: KeyboardAction, modifiers: bv32, key: int, primary: bv32)
    requires n <= |commands|
    ensures Firing(commands[..n], action, modifiers, key, primary) <= Firing(commands, action, modifiers, key, primary)
    decreases |commands|
  {
    if n == |commands| {
      assert commands[..n] == commands;
    } else {
      var init := commands[..|commands| - 1];
      assert init[..n] == commands[..n];
      FiringSplit(init, n, action, modifiers, key, primary);
    }
  }

  /** The offers of a command's first `m` bindings begin the offers of all of them. */
  lemma {:induction false} FiringInSplit(bindings: seq<KeyCommand>, m: nat, slot: nat, action: KeyboardAction, modifiers: bv32, key: int, primary: bv32)
    requires m <= |bindings|
    ensures FiringIn(bindings[..m], slot, action, modifiers, key, primary) <= FiringIn(bindings, slot, action, modifiers, key, primary)
    decreases |bindings|
  {
    if m == |bindings| {
      assert bindings[..m] == bindings;
    } else {
      var init := bindings[..|bindings| - 1];
      assert init[..m] == bindings[..m];
      FiringInSplit(init, m, slot, action, modifiers, key, primary);
    }
  }

  /** A binding of the primary modifier and X for the terminal command is offered first for meta+X once meta is the primary modifier. */
  lemma OverriddenTerminalFiresFirst(commands: seq<seq<KeyCommand>>)
    requires |commands| == CommandCount && commands[Terminal] == [KeyCommand(Down, Placeholder, 45)]
    ensures var offers := Firing(commands, Down, MetaBit, 45, MetaBit); |offers| > 0 && offers[0] == Terminal
  {
    FiringSplit(commands, 1, Down, MetaBit, 45, MetaBit);
    var first := commands[..1];
    assert first[..0] == [];
    assert FiringIn([KeyCommand(Down, Placeholder, 45)][..0], Terminal, Down, MetaBit, 45, MetaBit) == [];
    assert Firing(first, Down, MetaBit, 45, MetaBit) == [Terminal];
  }
}
