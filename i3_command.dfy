// The i3 command language parser of src/i3_command.cpp: the criteria scope
// `[key="value" ...]` (I3Scope::parse) and the scoped command lists
// (I3ScopedCommandList::parse).
//
// The parser reads a NUL-terminated buffer through string views, and several of
// its reads are C-string reads. `At(v, i)` is such a read: index |v| is the
// terminator, and a read beyond it (undefined behaviour in the source) is the
// `Overrun` outcome.
module I3Command {
  import opened Wrappers
  import opened StringExtensions

  datatype ScopeType =
    | None | All | Machine | Title | Urgent | Workspace | ConMark | ConId
    | Floating | FloatingFrom | Tiling | TilingFrom
    | Class | Instance | WindowRole | WindowType | Id

  /** One criterion; `regex` is the quoted text of a key="value" criterion. */
  datatype Scope = Scope(kind: ScopeType, regex: Option<string>)

  datatype CommandType =
    | None | Exec | Split | Layout | Focus | Move | Swap | Sticky | Workspace
    | Mark | TitleFormat | TitleWindowIcon | Border | ShmLog | DebugLog
    | Restart | Reload | Exit | Scratchpad | Nop | I3Bar | Gaps | Input

  /** A parsed command: its type, the plain tokens after it and the `--` tokens after it. */
  datatype Command = Command(kind: CommandType, arguments: seq<string>, options: seq<string>)

  datatype ScopedCommandList = ScopedCommandList(commands: seq<Command>, scope: seq<Scope>)

  /** The criteria parsed and where the scan stopped (`ptr` in the source). */
  datatype ScopeParse = ScopeParse(scopes: seq<Scope>, ptr: nat)

  /** The outcome of a scan: a value, or a read past the terminating NUL. */
  datatype Read<T> = Ok(value: T) | Overrun

  const NUL: char := '\0'

  /** A read of the buffer behind the view `v`: position |v| holds the terminator. */
  function At(v: string, i: nat): char
    requires i <= |v|
  {
    if i < |v| then v[i] else NUL
  }

  predicate StartsWith(s: string, prefix: string)
  {
    |prefix| <= |s| && s[..|prefix|] == prefix
  }

  predicate NulFree(s: string)
  {
    forall i :: 0 <= i < |s| ==> s[i] != NUL
  }

  /** `std::string_view(p)` for a pointer `p` into the buffer `s` at `start`:
      the characters up to the first NUL, or up to the terminator. */
  function CStringFrom(s: string, start: nat): (r: string)
    ensures NulFree(r)
    ensures start <= |s| ==> |r| <= |s| - start && r == s[start..start + |r|]
    ensures start <= |s| && start + |r| < |s| ==> s[start + |r|] == NUL
    decreases |s| - start
  {
    if start >= |s| then []
    else if s[start] == NUL then []
    else [s[start]] + CStringFrom(s, start + 1)
  }

  // ---------------------------------------------------------------------
  // Criteria

  const ValuedKeys: seq<(string, ScopeType)> := [
    ("class", ScopeType.Class), ("window_role", ScopeType.WindowRole),
    ("machine", ScopeType.Machine), ("id", ScopeType.Id),
    ("instance", ScopeType.Instance), ("title", ScopeType.Title),
    ("urgent", ScopeType.Urgent), ("workspace", ScopeType.Workspace)
  ]

  const BareKeys: seq<(string, ScopeType)> := [
    ("all", ScopeType.All), ("floating", ScopeType.Floating), ("tiling", ScopeType.Tiling)
  ]

  /** `try_parse_i3_scope`: the new position when `key` is at `ptr`. A valued key
      must be followed by '='. For a bare key the source's boundary test indexes
      `view[possible_new_ptr == ' ']`, i.e. reads `view[1]` when the new position is
      32 and `view[0]` otherwise, and accepts when that character is not NUL. */
  function TryParseScope(v: string, ptr: nat, key: string, hasValue: bool): (r: Option<nat>)
    requires ptr <= |v|
    ensures r.Some? ==> StartsWith(v[ptr..], key) && r.value == ptr + |key| && r.value <= |v|
    ensures hasValue ==> (r.Some? <==> StartsWith(v[ptr..], key) && At(v, ptr + |key|) == '=')
    ensures hasValue && r.Some? ==> r.value < |v| && v[r.value] == '='
  {
    if !StartsWith(v[ptr..], key) then Option.None
    else
      var p := ptr + |key|;
      if hasValue then
        if At(v, p) == '=' then Some(p) else Option.None
      else
        var probe: nat := if p == 32 then 1 else 0;
        if At(v, p) == ']' || (probe <= |v| && At(v, probe) != NUL) then Some(p) else Option.None
  }

  /** The first key of `keys` that `TryParseScope` accepts at `ptr`, tried in table order. */
  function FirstKey(v: string, ptr: nat, keys: seq<(string, ScopeType)>, hasValue: bool): (r: Option<(ScopeType, nat)>)
    requires ptr <= |v|
    requires forall k :: 0 <= k < |keys| ==> keys[k].0 != []
    ensures r.Some? ==> ptr < r.value.1 <= |v|
    ensures hasValue && r.Some? ==> r.value.1 < |v| && v[r.value.1] == '='
    ensures r.Some? && KeysFree(keys, ']') ==> Free(v[ptr..r.value.1], ']')
  {
    if keys == [] then Option.None
    else match TryParseScope(v, ptr, keys[0].0, hasValue)
      case Some(p) =>
        assert v[ptr..p] == v[ptr..][..|keys[0].0|];
        assert KeysFree(keys, ']') ==> Free(keys[0].0, ']');
        Some((keys[0].1, p))
      case None =>
        assert KeysFree(keys, ']') ==> KeysFree(keys[1..], ']');
        FirstKey(v, ptr, keys[1..], hasValue)
  }

  predicate KeysFree(keys: seq<(string, ScopeType)>, c: char)
  {
    forall k :: 0 <= k < |keys| ==> Free(keys[k].0, c)
  }

  /** One pass of the scanning loop of I3Scope::parse, for a position that is
      not on ']'. */
  datatype Step = Continue(acc: seq<Scope>, ptr: nat) | Stop(acc: seq<Scope>, ptr: nat)

  function ScopeStep(v: string, acc: seq<Scope>, ptr: nat): (r: Step)
    requires ptr <= |v|
    ensures r.Continue? ==> ptr < r.ptr <= |v| + 1
    ensures r.Stop? ==> r.ptr == |v|
    ensures |acc| <= |r.acc| <= |acc| + 1 && r.acc[..|acc|] == acc
  {
    var valued := FirstKey(v, ptr, ValuedKeys, true);
    if valued.Some? then
      // the key ends on the '=': step past it and expect an opening quote
      var q := valued.value.1 + 1;
      if At(v, q) != '"' then Continue(acc, q)
      else
        var start := q + 1;
        var e := FindFrom(v, '"', start);
        if e == |v| then Stop(acc, e)
        else Continue(acc + [Scope(valued.value.0, Some(v[start..e]))], e + 1)
    else
      var bare := FirstKey(v, ptr, BareKeys, false);
      if bare.Some? then Continue(acc + [Scope(bare.value.0, Option.None)], bare.value.1)
      else Continue(acc, ptr + 1)
  }

  /** The loop `while (view[ptr] != ']')`, from position `ptr` with the criteria `acc`. */
  function ScopeLoop(v: string, acc: seq<Scope>, ptr: nat): (r: Read<ScopeParse>)
    requires ptr <= |v| + 1
    ensures r.Ok? ==> ptr <= r.value.ptr <= |v| && (r.value.ptr == |v| || v[r.value.ptr] == ']')
    ensures r.Ok? ==> |acc| <= |r.value.scopes| && r.value.scopes[..|acc|] == acc
    decreases |v| + 1 - ptr
  {
    if ptr > |v| then Overrun
    else if At(v, ptr) == ']' then Ok(ScopeParse(acc, ptr))
    else match ScopeStep(v, acc, ptr)
      case Stop(a, p) => Ok(ScopeParse(a, p))
      case Continue(a, p) => ScopeLoop(v, a, p)
  }

  /** I3Scope::parse: no criteria and position 0 unless the view opens with '[';
      otherwise the scan starts past the bracket. */
  function ParseScope(v: string): (r: Read<ScopeParse>)
    ensures r.Ok? ==> r.value.ptr <= |v|
  {
    if At(v, 0) != '[' then Ok(ScopeParse([], 0)) else ScopeLoop(v, [], 1)
  }

  /** The `for` loop that looks for the closing quote of a value. */
  method ScanToQuote(v: string, start: nat) returns (e: nat)
    requires start <= |v|
    ensures e == FindFrom(v, '"', start)
  {
    e := start;
    while e < |v| && v[e] != '"'
      invariant start <= e <= |v|
      invariant FindFrom(v, '"', e) == FindFrom(v, '"', start)
      decreases |v| - e
    {
      e := e + 1;
    }
  }

  /** The body of the scanning loop: try the keys in order, then read a quoted value. */
  method ScanCriterion(v: string, result: seq<Scope>, ptr: nat) returns (st: Step)
    requires ptr <= |v|
    ensures st == ScopeStep(v, result, ptr)
  {
    var valued := FirstKey(v, ptr, ValuedKeys, true);
    if valued.None? {
      var bare := FirstKey(v, ptr, BareKeys, false);
      if bare.Some? {
        return Continue(result + [Scope(bare.value.0, Option.None)], bare.value.1);
      }
      return Continue(result, ptr + 1);
    }
    var p := valued.value.1 + 1;
    if At(v, p) != '"' {
      return Continue(result, p);
    }
    p := p + 1;
    var start := p;
    p := ScanToQuote(v, start);
    if p == |v| {
      return Stop(result, p);
    }
    p := p + 1;
    return Continue(result + [Scope(valued.value.0, Some(v[start..p - 1]))], p);
  }

  /** I3Scope::parse as the source runs it: a loop that moves `ptr` and pushes criteria. */
  method ParseScopeLoop(v: string) returns (r: Read<ScopeParse>)
    ensures r == ParseScope(v)
  {
    if At(v, 0) != '[' {
      return Ok(ScopeParse([], 0));
    }
    var result: seq<Scope> := [];
    var ptr: nat := 1;
    while true
      invariant ptr <= |v| + 1
      invariant ScopeLoop(v, result, ptr) == ScopeLoop(v, [], 1)
      decreases |v| + 1 - ptr
    {
      if ptr > |v| {
        return Overrun;
      }
      if At(v, ptr) == ']' {
        return Ok(ScopeParse(result, ptr));
      }
      var st := ScanCriterion(v, result, ptr);
      if st.Stop? {
        return Ok(ScopeParse(st.acc, st.ptr));
      }
      result, ptr := st.acc, st.ptr;
    }
  }

  // ---------------------------------------------------------------------
  // Properties of the criteria scan

  /** Text that does not open with '[' has no criteria and leaves `ptr` at 0. */
  lemma NoBracketNoScope(v: string)
    requires v == [] || v[0] != '['
    ensures ParseScope(v) == Ok(ScopeParse([], 0))
  {
  }

  /** The scan ends on the closing ']' or, when a quoted value is never closed,
      at the end of the view. */
  lemma ScanEndsOnBracket(v: string)
    requires |v| > 0 && v[0] == '['
    requires ParseScope(v).Ok?
    ensures 1 <= ParseScope(v).value.ptr
    ensures ParseScope(v).value.ptr == |v| || v[ParseScope(v).value.ptr] == ']'
  {
  }

  /** The boundary test of a bare key always passes inside a bracketed, NUL-free
      view: only the prefix comparison decides. */
  lemma BareKeyOnlyNeedsPrefix(v: string, ptr: nat, key: string)
    requires |v| > 0 && v[0] == '[' && NulFree(v)
    requires ptr <= |v|
    ensures TryParseScope(v, ptr, key, false).Some? <==> StartsWith(v[ptr..], key)
  {
    if StartsWith(v[ptr..], key) {
      var p := ptr + |key|;
      if p == 32 {
        assert 1 < |v|;
        assert At(v, 1) == v[1] != NUL;
      } else {
        assert At(v, 0) == '[';
      }
    }
  }

  /** Every stored value is free of double quotes. */
  predicate ValuesUnquoted(scopes: seq<Scope>)
  {
    forall i :: 0 <= i < |scopes| && scopes[i].regex.Some? ==> Free(scopes[i].regex.value, '"')
  }

  lemma {:induction false} ScopeLoopValuesUnquoted(v: string, acc: seq<Scope>, ptr: nat)
    requires ptr <= |v| + 1
    requires ValuesUnquoted(acc)
    requires ScopeLoop(v, acc, ptr).Ok?
    ensures ValuesUnquoted(ScopeLoop(v, acc, ptr).value.scopes)
    decreases |v| + 1 - ptr
  {
    if ptr <= |v| && At(v, ptr) != ']' {
      var st := ScopeStep(v, acc, ptr);
      StepValuesUnquoted(v, acc, ptr);
      if st.Continue? {
        ScopeLoopValuesUnquoted(v, st.acc, st.ptr);
      }
    }
  }

  lemma StepValuesUnquoted(v: string, acc: seq<Scope>, ptr: nat)
    requires ptr <= |v|
    requires ValuesUnquoted(acc)
    ensures ValuesUnquoted(ScopeStep(v, acc, ptr).acc)
  {
    var valued := FirstKey(v, ptr, ValuedKeys, true);
    if valued.Some? {
      var q := valued.value.1 + 1;
      if At(v, q) == '"' {
        var start := q + 1;
        var e := FindFrom(v, '"', start);
        if e < |v| {
          assert ScopeStep(v, acc, ptr).acc == acc + [Scope(valued.value.0, Some(v[start..e]))];
          assert Free(v[start..e], '"');
        }
      }
    }
  }

  lemma ParseScopeValuesUnquoted(v: string)
    requires ParseScope(v).Ok?
    ensures ValuesUnquoted(ParseScope(v).value.scopes)
  {
    if At(v, 0) == '[' {
      ScopeLoopValuesUnquoted(v, [], 1);
    }
  }

  /** A key='=' not followed by a double quote is dropped and the scan goes on. */
  lemma UnquotedValueDropped()
    ensures ParseScope("[class=x]") == Ok(ScopeParse([], 8))
  {
    var v := "[class=x]";
    ClassKeyAt(v);
    assert ScopeStep(v, [], 1) == Continue([], 7);
    NoKeyStep(v, [], 7);
    assert ScopeLoop(v, [], 7) == ScopeLoop(v, [], 8);
  }

  lemma ClassKeyAt(v: string)
    requires v == "[class=x]" || v == "[class=\"XYZ\"]"
    ensures FirstKey(v, 1, ValuedKeys, true) == Some((ScopeType.Class, 6))
  {
    assert v[1..][..5] == "class";
    assert TryParseScope(v, 1, "class", true) == Some(6);
    KeyFound(v, 1, ValuedKeys, 0, true, 6);
  }

  /** A value whose closing quote is missing ends the whole scan without adding it. */
  lemma UnterminatedValueStops()
    ensures ParseScope("[title=\"ab") == Ok(ScopeParse([], 10))
  {
    var v := "[title=\"ab";
    TitleStep(v);
    assert ScopeLoop(v, [], 1) == Ok(ScopeParse([], 10));
  }

  lemma TitleStep(v: string)
    requires v == "[title=\"ab"
    ensures ScopeStep(v, [], 1) == Stop([], 10)
  {
    TitleKeyAt(v);
    assert At(v, 7) == '"';
    assert FindFrom(v, '"', 8) == 10;
  }

  lemma TitleKeyAt(v: string)
    requires v == "[title=\"ab"
    ensures FirstKey(v, 1, ValuedKeys, true) == Some((ScopeType.Title, 6))
  {
    assert v[1..][..5] == "title";
    assert TryParseScope(v, 1, "title", true) == Some(6);
    KeyFound(v, 1, ValuedKeys, 5, true, 6);
  }

  /** Keys whose first letter differs from the character at `ptr` are passed over. */
  lemma {:induction false} FirstKeySkip(v: string, ptr: nat, keys: seq<(string, ScopeType)>, n: nat, hasValue: bool)
    requires ptr < |v| && n <= |keys|
    requires forall k :: 0 <= k < |keys| ==> keys[k].0 != []
    requires forall k :: 0 <= k < n ==> keys[k].0[0] != v[ptr]
    ensures FirstKey(v, ptr, keys, hasValue) == FirstKey(v, ptr, keys[n..], hasValue)
  {
    if n > 0 {
      assert v[ptr..][0] == v[ptr];
      assert TryParseScope(v, ptr, keys[0].0, hasValue).None?;
      FirstKeySkip(v, ptr, keys[1..], n - 1, hasValue);
      assert keys[1..][n - 1..] == keys[n..];
    }
  }

  /** The first key accepted is the first one whose first letter matches and
      which `TryParseScope` accepts, when every key before it starts differently. */
  lemma KeyFound(v: string, ptr: nat, keys: seq<(string, ScopeType)>, n: nat, hasValue: bool, p: nat)
    requires ptr < |v| && n < |keys|
    requires forall k :: 0 <= k < |keys| ==> keys[k].0 != []
    requires forall k :: 0 <= k < n ==> keys[k].0[0] != v[ptr]
    requires TryParseScope(v, ptr, keys[n].0, hasValue) == Some(p)
    ensures FirstKey(v, ptr, keys, hasValue) == Some((keys[n].1, p))
  {
    FirstKeySkip(v, ptr, keys, n, hasValue);
    assert keys[n..][0] == keys[n];
  }

  // The criteria cases exercised by tests/test_i3_command.cpp.

  lemma ClassCriterion()
    ensures ParseScope("[class=\"XYZ\"]") == Ok(ScopeParse([Scope(ScopeType.Class, Some("XYZ"))], 12))
  {
    var v := "[class=\"XYZ\"]";
    ClassValueStep(v);
    assert ScopeLoop(v, [], 1) == ScopeLoop(v, [Scope(ScopeType.Class, Some("XYZ"))], 12);
  }

  lemma ClassValueStep(v: string)
    requires v == "[class=\"XYZ\"]"
    ensures ScopeStep(v, [], 1) == Continue([Scope(ScopeType.Class, Some("XYZ"))], 12)
  {
    ClassKeyAt(v);
    assert At(v, 7) == '"';
    assert v[8] != '"' && v[9] != '"' && v[10] != '"' && v[11] == '"';
    assert FindFrom(v, '"', 8) == 11;
    assert v[8..11] == "XYZ";
  }

  lemma AllCriterion()
    ensures ParseScope("[all]") == Ok(ScopeParse([Scope(ScopeType.All, Option.None)], 4))
  {
    var v := "[all]";
    AllStep(v);
    assert ScopeLoop(v, [], 1) == ScopeLoop(v, [Scope(ScopeType.All, Option.None)], 4);
  }

  lemma AllStep(v: string)
    requires v == "[all]"
    ensures ScopeStep(v, [], 1) == Continue([Scope(ScopeType.All, Option.None)], 4)
  {
    FirstKeySkip(v, 1, ValuedKeys, |ValuedKeys|, true);
    assert v[1..][..3] == "all";
    assert TryParseScope(v, 1, "all", false) == Some(4);
    KeyFound(v, 1, BareKeys, 0, false, 4);
  }

  lemma TilingCriterion()
    ensures ParseScope("[tiling ]") == Ok(ScopeParse([Scope(ScopeType.Tiling, Option.None)], 8))
  {
    var v := "[tiling ]";
    var one := [Scope(ScopeType.Tiling, Option.None)];
    TilingKeyStep(v);
    NoKeyStep(v, one, 7);
    assert ScopeLoop(v, [], 1) == ScopeLoop(v, one, 7);
    assert ScopeLoop(v, one, 7) == ScopeLoop(v, one, 8);
  }

  lemma TilingKeyStep(v: string)
    requires v == "[tiling ]"
    ensures ScopeStep(v, [], 1) == Continue([Scope(ScopeType.Tiling, Option.None)], 7)
  {
    TilingNotValued(v);
    TilingBare(v);
  }

  /** "tiling" shares its first letter with "title" but is not a valued key. */
  lemma TilingNotValued(v: string)
    requires v == "[tiling ]"
    ensures FirstKey(v, 1, ValuedKeys, true).None?
  {
    FirstKeySkip(v, 1, ValuedKeys, 5, true);
    assert ValuedKeys[5..][0].0 == "title";
    assert v[1..][..5] != "title" by { assert v[1..][..5][2] == 'l'; }
    assert TryParseScope(v, 1, "title", true).None?;
    assert FirstKey(v, 1, ValuedKeys[5..], true) == FirstKey(v, 1, ValuedKeys[6..], true);
    FirstKeySkip(v, 1, ValuedKeys[6..], 2, true);
  }

  lemma TilingBare(v: string)
    requires v == "[tiling ]"
    ensures FirstKey(v, 1, BareKeys, false) == Some((ScopeType.Tiling, 7))
  {
    assert v[1..][..6] == "tiling";
    assert TryParseScope(v, 1, "tiling", false) == Some(7);
    KeyFound(v, 1, BareKeys, 2, false, 7);
  }

  /** A position whose character begins no key is skipped. */
  lemma NoKeyStep(v: string, acc: seq<Scope>, ptr: nat)
    requires ptr < |v|
    requires v[ptr] !in {'c', 'w', 'm', 'i', 't', 'u', 'a', 'f'}
    ensures ScopeStep(v, acc, ptr) == Continue(acc, ptr + 1)
  {
    FirstKeySkip(v, ptr, ValuedKeys, |ValuedKeys|, true);
    FirstKeySkip(v, ptr, BareKeys, |BareKeys|, false);
  }

  /** One pass of the loop that does not stop leaves the rest of the scan to the new position. */
  lemma LoopContinues(v: string, acc: seq<Scope>, ptr: nat, acc': seq<Scope>, ptr': nat)
    requires ptr < |v| && v[ptr] != ']'
    requires ScopeStep(v, acc, ptr) == Continue(acc', ptr')
    ensures ptr' <= |v| + 1 && ScopeLoop(v, acc, ptr) == ScopeLoop(v, acc', ptr')
  {
  }

  lemma KeysHaveNoBracket()
    ensures KeysFree(ValuedKeys, ']') && KeysFree(BareKeys, ']')
  {
  }

  /** Inside a bracketed criteria list whose text has no double quote, a pass of
      the loop never steps over the closing ']'. */
  lemma StepStaysInBrackets(v: string, acc: seq<Scope>, ptr: nat, close: nat)
    requires 1 <= ptr < close < |v| && v[close] == ']'
    requires forall i :: 1 <= i < close ==> v[i] != '"'
    ensures ScopeStep(v, acc, ptr).Continue? && ScopeStep(v, acc, ptr).ptr <= close
  {
    KeysHaveNoBracket();
    var valued := FirstKey(v, ptr, ValuedKeys, true);
    if valued.None? {
      var bare := FirstKey(v, ptr, BareKeys, false);
      if bare.Some? {
        BracketBound(v, ptr, bare.value.1, close);
      }
    }
  }

  /** A stretch free of ']' that starts before the ']' at `close` ends at it or before. */
  lemma BracketBound(v: string, lo: nat, hi: nat, close: nat)
    requires lo <= close < |v| && lo <= hi <= |v| && v[close] == ']'
    requires Free(v[lo..hi], ']')
    ensures hi <= close
  {
    forall k | lo <= k < hi ensures v[k] != ']' {
      assert v[k] == v[lo..hi][k - lo];
    }
  }

  lemma {:induction false} LoopStaysInBrackets(v: string, acc: seq<Scope>, ptr: nat, close: nat)
    requires 1 <= ptr <= close < |v| && v[close] == ']'
    requires forall i :: 1 <= i < close ==> v[i] != '"' && v[i] != ']'
    ensures ScopeLoop(v, acc, ptr).Ok? && ScopeLoop(v, acc, ptr).value.ptr == close
    decreases close - ptr
  {
    if ptr < close {
      StepStaysInBrackets(v, acc, ptr, close);
      var st := ScopeStep(v, acc, ptr);
      LoopStaysInBrackets(v, st.acc, st.ptr, close);
    }
  }

  /** A criteria list closed by ']' with no double quote and no other ']' before it
      is read without overrun, and the scan stops on that ']'. */
  lemma ClosedScopeStopsOnBracket(v: string, close: nat)
    requires 0 < close < |v| && v[0] == '[' && v[close] == ']'
    requires forall i :: 1 <= i < close ==> v[i] != '"' && v[i] != ']'
    ensures ParseScope(v).Ok? && ParseScope(v).value.ptr == close
  {
    LoopStaysInBrackets(v, [], 1, close);
  }

  // ---------------------------------------------------------------------
  // Scoped command lists

  /** The command keywords, tried in the order of I3ScopedCommandList::parse. */
  const Keywords: seq<(string, CommandType)> := [
    ("exec", CommandType.Exec), ("split", CommandType.Split), ("layout", CommandType.Layout),
    ("focus", CommandType.Focus), ("move", CommandType.Move), ("swap", CommandType.Swap),
    ("sticky", CommandType.Sticky), ("workspace", CommandType.Workspace), ("mark", CommandType.Mark),
    ("title_format", CommandType.TitleFormat), ("title_window_icon", CommandType.TitleWindowIcon),
    ("border", CommandType.Border), ("shm_log", CommandType.ShmLog), ("debug_log", CommandType.DebugLog),
    ("restart", CommandType.Restart), ("reload", CommandType.Reload), ("exit", CommandType.Exit),
    ("scratchpad", CommandType.Scratchpad), ("nop", CommandType.Nop), ("i3_bar", CommandType.I3Bar),
    ("gaps", CommandType.Gaps), ("input", CommandType.Input)
  ]

  /** The type the first keyword of `keys` that prefixes `tok` selects; `equals`
      is a prefix test (see EqualsIsTokenPrefix). */
  function KeywordIn(tok: string, keys: seq<(string, CommandType)>): Option<CommandType>
  {
    if keys == [] then Option.None
    else if StartsWith(tok, keys[0].0) then Some(keys[0].1)
    else KeywordIn(tok, keys[1..])
  }

  /** A keyword is found exactly when the token starts with one of the keys, and
      the type is that of the first such key in table order. */
  lemma {:induction false} KeywordInFinds(tok: string, keys: seq<(string, CommandType)>)
    ensures KeywordIn(tok, keys).Some? <==> exists k :: 0 <= k < |keys| && StartsWith(tok, keys[k].0)
    ensures KeywordIn(tok, keys).Some? ==>
      exists k :: 0 <= k < |keys| && StartsWith(tok, keys[k].0) && KeywordIn(tok, keys).value == keys[k].1 &&
        forall j :: 0 <= j < k ==> !StartsWith(tok, keys[j].0)
  {
    if keys != [] {
      KeywordInFinds(tok, keys[1..]);
      assert forall k :: 1 <= k < |keys| ==> keys[k] == keys[1..][k - 1];
      if !StartsWith(tok, keys[0].0) && KeywordIn(tok, keys).Some? {
        var k' :| 0 <= k' < |keys[1..]| && StartsWith(tok, keys[1..][k'].0) &&
          KeywordIn(tok, keys[1..]).value == keys[1..][k'].1 &&
          forall j :: 0 <= j < k' ==> !StartsWith(tok, keys[1..][j].0);
        assert forall j :: 1 <= j < k' + 1 ==> !StartsWith(tok, keys[j].0) by {
          forall j | 1 <= j < k' + 1 ensures !StartsWith(tok, keys[j].0) {
            assert keys[j] == keys[1..][j - 1];
          }
        }
      }
    }
  }

  lemma KeywordsNotNone()
    ensures forall k :: 0 <= k < |Keywords| ==> Keywords[k].1 != CommandType.None
  {
  }

  /** The type the command keyword at the head of `tok` selects; never `none`. */
  function KeywordType(tok: string): (r: Option<CommandType>)
    ensures r.Some? ==> r.value != CommandType.None
  {
    KeywordInFinds(tok, Keywords);
    KeywordsNotNone();
    KeywordIn(tok, Keywords)
  }

  predicate IsOption(tok: string)
  {
    StartsWith(tok, "--")
  }

  /** One pass of the token loop: while the type is still none a token either
      selects it or is skipped; afterwards `--` tokens are options and the rest
      arguments. */
  function ApplyToken(c: Command, tok: string): Command
  {
    if c.kind == CommandType.None then
      match KeywordType(tok)
      case Some(k) => c.(kind := k)
      case None => c
    else if IsOption(tok) then c.(options := c.options + [tok])
    else c.(arguments := c.arguments + [tok])
  }

  /** The command built from its tokens, in order. */
  function ParseTokens(toks: seq<string>): Command
  {
    if toks == [] then Command(CommandType.None, [], [])
    else ApplyToken(ParseTokens(toks[..|toks| - 1]), toks[|toks| - 1])
  }

  /** The command of one ','-separated piece: trim the leading spaces and split on ' '. */
  function ParseCommand(piece: string): Command
  {
    ParseTokens(StringExtensions.Split(TrimLeft(piece), ' '))
  }

  // Reference description of a parsed command.

  /** The tokens that are not options, in order. */
  function Plain(toks: seq<string>): (r: seq<string>)
    ensures forall i :: 0 <= i < |r| ==> !IsOption(r[i])
    ensures |r| <= |toks|
  {
    if toks == [] then []
    else Plain(toks[..|toks| - 1]) + (if IsOption(toks[|toks| - 1]) then [] else [toks[|toks| - 1]])
  }

  /** The option tokens, in order. */
  function Flags(toks: seq<string>): (r: seq<string>)
    ensures forall i :: 0 <= i < |r| ==> IsOption(r[i])
    ensures |r| <= |toks|
  {
    if toks == [] then []
    else Flags(toks[..|toks| - 1]) + (if IsOption(toks[|toks| - 1]) then [toks[|toks| - 1]] else [])
  }

  /** Index of the first token that is a keyword, or |toks| when none is. */
  function FirstKeyword(toks: seq<string>): (i: nat)
    ensures i <= |toks|
    ensures i < |toks| ==> KeywordType(toks[i]).Some?
    ensures forall j :: 0 <= j < i ==> KeywordType(toks[j]).None?
  {
    if toks == [] then 0
    else if KeywordType(toks[0]).Some? then 0
    else 1 + FirstKeyword(toks[1..])
  }

  /** What a command is: the type of the first token that starts with a keyword
      (earlier tokens are dropped), then the later tokens split into arguments and
      options in their order; with no keyword token the command keeps type none
      and has nothing. */
  function Expected(toks: seq<string>): Command
  {
    var i := FirstKeyword(toks);
    if i == |toks| then Command(CommandType.None, [], [])
    else Command(KeywordType(toks[i]).value, Plain(toks[i + 1..]), Flags(toks[i + 1..]))
  }

  lemma {:induction false} ParseTokensCharacterised(toks: seq<string>)
    ensures ParseTokens(toks) == Expected(toks)
  {
    if toks != [] {
      var init := toks[..|toks| - 1];
      var last := toks[|toks| - 1];
      assert toks == init + [last];
      ParseTokensCharacterised(init);
      FirstKeywordSnoc(init, last);
      var i := FirstKeyword(init);
      assert ParseTokens(toks) == ApplyToken(ParseTokens(init), last);
      if i < |init| {
        TokenAfterKeyword(init, last, i);
        assert ParseTokens(init).kind != CommandType.None;
      } else if KeywordType(last).Some? {
        assert toks[i + 1..] == [];
      }
    }
  }

  lemma TokenAfterKeyword(init: seq<string>, last: string, i: nat)
    requires i < |init|
    ensures (init + [last])[i + 1..] == init[i + 1..] + [last]
    ensures Plain(init[i + 1..] + [last]) == Plain(init[i + 1..]) + (if IsOption(last) then [] else [last])
    ensures Flags(init[i + 1..] + [last]) == Flags(init[i + 1..]) + (if IsOption(last) then [last] else [])
  {
    var xs := init[i + 1..];
    assert (xs + [last])[..|xs|] == xs;
  }

  lemma FirstKeywordSnoc(init: seq<string>, last: string)
    ensures FirstKeyword(init) < |init| ==> FirstKeyword(init + [last]) == FirstKeyword(init)
    ensures FirstKeyword(init) == |init| && KeywordType(last).Some? ==> FirstKeyword(init + [last]) == |init|
    ensures FirstKeyword(init) == |init| && KeywordType(last).None? ==> FirstKeyword(init + [last]) == |init| + 1
  {
    var toks := init + [last];
    assert forall j :: 0 <= j < |init| ==> toks[j] == init[j];
    FirstKeywordIsLeast(toks, FirstKeyword(init));
  }

  lemma FirstKeywordIsLeast(toks: seq<string>, i: nat)
    requires i <= |toks|
    requires forall j :: 0 <= j < i ==> KeywordType(toks[j]).None?
    ensures i < |toks| && KeywordType(toks[i]).Some? ==> FirstKeyword(toks) == i
    ensures i == |toks| ==> FirstKeyword(toks) == |toks|
    ensures FirstKeyword(toks) >= i
  {
  }

  // `equals`: strncmp of the buffer at a token's start against a keyword, for
  // the keyword's length.

  /** `strncmp(b + i, kw, strlen(kw)) == 0` over the NUL-terminated buffer `b`. */
  function Strncmp(b: string, i: nat, kw: string): bool
    requires i <= |b|
    decreases |kw|
  {
    kw == [] || (At(b, i) == kw[0] && (kw[0] == NUL || Strncmp(b, i + 1, kw[1..])))
  }

  predicate Delimiter(ch: char)
  {
    ch == ' ' || ch == ',' || ch == NUL
  }

  /** A token of a command ends at ' ', at ',' or at the end of the buffer, and no
      keyword holds one of those characters, so the strncmp test reads no further
      than the token and is exactly "the token starts with the keyword". */
  lemma {:induction false} EqualsIsTokenPrefix(b: string, i: nat, t: string, kw: string)
    requires i + |t| <= |b| && b[i..i + |t|] == t
    requires Delimiter(At(b, i + |t|))
    requires forall j :: 0 <= j < |kw| ==> !Delimiter(kw[j])
    ensures Strncmp(b, i, kw) <==> StartsWith(t, kw)
    decreases |kw|
  {
    if kw != [] && t != [] {
      assert b[i] == t[0];
      assert b[i + 1..i + 1 + |t[1..]|] == t[1..];
      EqualsIsTokenPrefix(b, i + 1, t[1..], kw[1..]);
      assert StartsWith(t, kw) <==> t[0] == kw[0] && StartsWith(t[1..], kw[1..]);
    }
  }

  predicate NoDelimiterIn(s: string)
  {
    forall j :: 0 <= j < |s| ==> !Delimiter(s[j])
  }

  lemma KeywordsHaveNoDelimiter()
    ensures forall k, j :: 0 <= k < |Keywords| && 0 <= j < |Keywords[k].0| ==> !Delimiter(Keywords[k].0[j])
  {
    KeywordsUpTo6();
    Keywords6To12();
    Keywords12To17();
    Keywords17To22();
    forall k | 0 <= k < |Keywords| ensures NoDelimiterIn(Keywords[k].0) {
    }
  }

  lemma KeywordsUpTo6()
    ensures forall k :: 0 <= k < 6 ==> NoDelimiterIn(Keywords[k].0)
  {
  }

  lemma Keywords6To12()
    ensures forall k :: 6 <= k < 12 ==> NoDelimiterIn(Keywords[k].0)
  {
  }

  lemma Keywords12To17()
    ensures forall k :: 12 <= k < 17 ==> NoDelimiterIn(Keywords[k].0)
  {
  }

  lemma Keywords17To22()
    ensures forall k :: 17 <= k < 22 ==> NoDelimiterIn(Keywords[k].0)
  {
  }

  /** One ';'-separated segment starting at `start`: its text runs from `start` to
      the first NUL of the buffer, i.e. to the end of the whole input and not to the
      segment's end. The criteria are read first; the commands are the ','-pieces of
      the text from where the criteria scan stopped. */
  function ParseSegment(input: string, start: nat): Read<ScopedCommandList>
  {
    var sub := CStringFrom(input, start);
    match ParseScope(sub)
    case Overrun => Overrun
    case Ok(sp) =>
      var pieces := StringExtensions.Split(sub[sp.ptr..], ',');
      Ok(ScopedCommandList(ParseCommands(pieces), sp.scopes))
  }

  /** The command of each ','-piece, in order. */
  function ParseCommands(pieces: seq<string>): (r: seq<Command>)
    ensures |r| == |pieces| && forall k :: 0 <= k < |pieces| ==> r[k] == ParseCommand(pieces[k])
  {
    if pieces == [] then []
    else ParseCommands(pieces[..|pieces| - 1]) + [ParseCommand(pieces[|pieces| - 1])]
  }

  /** The lists of the first `k` segments. */
  function ParseSegments(input: string, segs: seq<string>, k: nat): (r: Read<seq<ScopedCommandList>>)
    requires k <= |segs|
    ensures r.Ok? ==> |r.value| == k
  {
    if k == 0 then Ok([])
    else match ParseSegments(input, segs, k - 1)
      case Overrun => Overrun
      case Ok(lists) =>
        match ParseSegment(input, PieceStart(segs, k - 1))
        case Overrun => Overrun
        case Ok(l) => Ok(lists + [l])
  }

  /** I3ScopedCommandList::parse: one list per ';'-separated segment. */
  function ParseCommandList(input: string): Read<seq<ScopedCommandList>>
  {
    var segs := StringExtensions.Split(input, ';');
    ParseSegments(input, segs, |segs|)
  }

  /** The token loop of I3ScopedCommandList::parse for one ','-piece. */
  method ParseCommandLoop(piece: string) returns (c: Command)
    ensures c == ParseCommand(piece)
  {
    var toks := StringExtensions.Split(TrimLeft(piece), ' ');
    c := Command(CommandType.None, [], []);
    for i := 0 to |toks|
      invariant c == ParseTokens(toks[..i])
    {
      assert toks[..i + 1][..i] == toks[..i];
      var tok := toks[i];
      if c.kind == CommandType.None {
        var k := KeywordType(tok);
        if k.None? {
          continue;  // an unknown type is logged and the token skipped
        }
        c := c.(kind := k.value);
      } else if IsOption(tok) {
        c := c.(options := c.options + [tok]);
      } else {
        c := c.(arguments := c.arguments + [tok]);
      }
    }
    assert toks[..|toks|] == toks;
  }

  /** The body of the segment loop: the criteria, then the ','-pieces. */
  method ParseSegmentLoop(input: string, start: nat) returns (r: Read<ScopedCommandList>)
    ensures r == ParseSegment(input, start)
  {
    var sub := CStringFrom(input, start);
    var sp := ParseScopeLoop(sub);
    if sp.Overrun? {
      return Overrun;
    }
    var pieces := StringExtensions.Split(sub[sp.value.ptr..], ',');
    var commands: seq<Command> := [];
    var j := 0;
    while j < |pieces|
      invariant j <= |pieces|
      invariant commands == ParseCommands(pieces[..j])
    {
      assert pieces[..j + 1][..j] == pieces[..j];
      var c := ParseCommandLoop(pieces[j]);
      commands := commands + [c];
      j := j + 1;
    }
    assert pieces[..j] == pieces;
    return Ok(ScopedCommandList(commands, sp.value.scopes));
  }

  /** I3ScopedCommandList::parse as the source runs it: nested loops over the
      ';'-segments, the ','-pieces and the ' '-tokens. */
  method ParseCommandListLoop(input: string) returns (r: Read<seq<ScopedCommandList>>)
    ensures r == ParseCommandList(input)
  {
    var segs := StringExtensions.Split(input, ';');
    var list: seq<ScopedCommandList> := [];
    var start: nat := 0;
    var i := 0;
    while i < |segs|
      invariant i <= |segs|
      invariant start == PieceStart(segs, i)
      invariant ParseSegments(input, segs, i) == Ok(list)
    {
      var l := ParseSegmentLoop(input, start);
      SegmentsLoopStep(input, segs, i, list, l);
      if l.Overrun? {
        return Overrun;
      }
      list := list + [l.value];
      start := start + |segs[i]| + 1;
      i := i + 1;
    }
    return Ok(list);
  }

  lemma SegmentsLoopStep(input: string, segs: seq<string>, i: nat, list: seq<ScopedCommandList>, l: Read<ScopedCommandList>)
    requires segs == StringExtensions.Split(input, ';') && i < |segs|
    requires ParseSegments(input, segs, i) == Ok(list)
    requires l == ParseSegment(input, PieceStart(segs, i))
    ensures l.Overrun? ==> ParseCommandList(input).Overrun?
    ensures l.Ok? ==> ParseSegments(input, segs, i + 1) == Ok(list + [l.value])
    ensures PieceStart(segs, i + 1) == PieceStart(segs, i) + |segs[i]| + 1
  {
    if l.Overrun? {
      OverrunPersists(input, segs, i + 1, |segs|);
    }
  }

  lemma ParseSegmentsStep(input: string, segs: seq<string>, k: nat, lists: seq<ScopedCommandList>, l: ScopedCommandList)
    requires 0 < k <= |segs|
    requires ParseSegments(input, segs, k - 1) == Ok(lists)
    requires ParseSegment(input, PieceStart(segs, k - 1)) == Ok(l)
    ensures ParseSegments(input, segs, k) == Ok(lists + [l])
  {
  }

  lemma {:induction false} OverrunPersists(input: string, segs: seq<string>, k: nat, m: nat)
    requires k <= m <= |segs|
    requires ParseSegments(input, segs, k).Overrun?
    ensures ParseSegments(input, segs, m).Overrun?
    decreases m - k
  {
    if k < m {
      OverrunPersists(input, segs, k + 1, m);
    }
  }

  // ---------------------------------------------------------------------
  // Properties of the command lists

  lemma CStringOfNulFree(s: string, start: nat)
    requires start <= |s| && NulFree(s)
    ensures CStringFrom(s, start) == s[start..]
  {
  }

  /** For input without NUL every segment's text runs from the segment's start to
      the end of the whole input, later segments included. */
  lemma SegmentTextRunsToEnd(input: string, k: nat)
    requires NulFree(input) && k < |StringExtensions.Split(input, ';')|
    ensures var segs := StringExtensions.Split(input, ';');
      PieceStart(segs, k) <= |input| &&
      ParseSegment(input, PieceStart(segs, k)) ==
        var sub := input[PieceStart(segs, k)..];
        match ParseScope(sub)
        case Overrun => Overrun
        case Ok(sp) =>
          var pieces := StringExtensions.Split(sub[sp.ptr..], ',');
          Ok(ScopedCommandList(ParseCommands(pieces), sp.scopes))
  {
    var segs := StringExtensions.Split(input, ';');
    SplitJoin(input, ';');
    PieceStartAt(segs, ';', k);
    CStringOfNulFree(input, PieceStart(segs, k));
  }

  /** A segment whose text has no ',' and does not open with '[' holds one command
      without criteria: the command of the text from the segment start to the end
      of the input. */
  lemma SegmentOfOneCommand(input: string, start: nat)
    requires start < |input| && NulFree(input)
    requires Free(input[start..], ',') && input[start] != '['
    ensures ParseSegment(input, start) == Ok(ScopedCommandList([ParseCommand(input[start..])], []))
  {
    var sub := input[start..];
    CStringOfNulFree(input, start);
    assert ParseScope(sub) == Ok(ScopeParse([], 0));
    assert sub[0..] == sub;
    JoinSplit([sub], ',');
    var pieces := StringExtensions.Split(sub, ',');
    assert pieces == [sub];
    assert ParseCommands(pieces) == [ParseCommand(sub)];
  }

  /** Text without ';' is one segment, and text with no ',' after the criteria is
      one command: the list holds exactly the parsed command of that text. */
  lemma SingleCommand(input: string)
    requires input != [] && NulFree(input) && Free(input, ';') && Free(input, ',')
    requires input[0] != '['
    ensures ParseCommandList(input) == Ok([ScopedCommandList([ParseCommand(input)], [])])
  {
    JoinSplit([input], ';');
    assert input[0..] == input;
    SegmentOfOneCommand(input, 0);
    var segs := StringExtensions.Split(input, ';');
    assert segs == [input] && PieceStart(segs, 0) == 0;
    var l := ScopedCommandList([ParseCommand(input)], []);
    ParseSegmentsStep(input, segs, 1, [], l);
    assert [] + [l] == [l];
  }

  /** A token starting with "exec" selects exec, the first keyword tried. */
  lemma ExecKeyword(tok: string)
    requires StartsWith(tok, "exec")
    ensures KeywordType(tok) == Some(CommandType.Exec)
  {
    assert Keywords[0] == ("exec", CommandType.Exec);
  }

  /** A command whose first token is a keyword has that type, and the remaining
      tokens are its arguments and options in order. */
  lemma KeywordFirst(t0: string, rest: seq<string>)
    requires KeywordType(t0).Some?
    ensures ParseTokens([t0] + rest) == Command(KeywordType(t0).value, Plain(rest), Flags(rest))
  {
    var toks := [t0] + rest;
    ParseTokensCharacterised(toks);
    assert FirstKeyword(toks) == 0;
    assert toks[1..] == rest;
  }

  /** A leading token that starts with no keyword is skipped: the command is the
      command of the tokens after it. This is how the ']' left in front of the
      commands by the criteria scan disappears. */
  lemma UnknownLeadingTokenSkipped(t: string, rest: seq<string>)
    requires KeywordType(t).None?
    ensures ParseTokens([t] + rest) == ParseTokens(rest)
  {
    var toks := [t] + rest;
    ParseTokensCharacterised(toks);
    ParseTokensCharacterised(rest);
    FirstKeywordIsLeast(toks, 1);
    assert toks[1..] == rest;
    if FirstKeyword(rest) < |rest| {
      FirstKeywordIsLeast(toks, 1 + FirstKeyword(rest));
      assert toks[1 + FirstKeyword(rest)] == rest[FirstKeyword(rest)];
      assert toks[2 + FirstKeyword(rest)..] == rest[1 + FirstKeyword(rest)..];
    }
  }

  lemma {:induction false} NoKeywordWithFirst(tok: string, keys: seq<(string, CommandType)>)
    requires tok != []
    requires forall k :: 0 <= k < |keys| ==> keys[k].0 != [] && keys[k].0[0] != tok[0]
    ensures KeywordIn(tok, keys).None?
  {
    if keys != [] {
      NoKeywordWithFirst(tok, keys[1..]);
    }
  }

  /** No command keyword starts with ']' (they all start with a letter). */
  lemma ClosingBracketIsNoKeyword(tok: string)
    requires tok != [] && tok[0] == ']'
    ensures KeywordType(tok).None?
  {
    NoKeywordWithFirst(tok, Keywords);
  }

  /** "exec" and one plain token: an exec command with that argument. */
  lemma ExecWithArgument(t0: string, t1: string)
    requires StartsWith(t0, "exec") && !IsOption(t1)
    ensures ParseTokens([t0, t1]) == Command(CommandType.Exec, [t1], [])
  {
    ExecKeyword(t0);
    KeywordFirst(t0, [t1]);
    var one: seq<string> := [t1];
    assert one[..0] == [];
  }

  /** "exec", then an option token and a plain token. */
  lemma ExecWithOptionAndArgument(t0: string, t1: string, t2: string)
    requires StartsWith(t0, "exec") && IsOption(t1) && !IsOption(t2)
    ensures ParseTokens([t0, t1, t2]) == Command(CommandType.Exec, [t2], [t1])
  {
    ExecKeyword(t0);
    KeywordFirst(t0, [t1, t2]);
    var rest: seq<string> := [t1, t2];
    assert [t0] + rest == [t0, t1, t2];
    assert rest[..1] == [t1];
    var one: seq<string> := [t1];
    assert one[..0] == [];
    assert Plain(one) == [] && Flags(one) == [t1];
    assert Plain(rest) == [t2] && Flags(rest) == [t1];
  }

  /** "exec" and two plain tokens. */
  lemma ExecWithTwoArguments(t0: string, t1: string, t2: string)
    requires StartsWith(t0, "exec") && !IsOption(t1) && !IsOption(t2)
    ensures ParseTokens([t0, t1, t2]) == Command(CommandType.Exec, [t1, t2], [])
  {
    ExecKeyword(t0);
    KeywordFirst(t0, [t1, t2]);
    var rest: seq<string> := [t1, t2];
    assert [t0] + rest == [t0, t1, t2];
    assert rest[..1] == [t1];
    var one: seq<string> := [t1];
    assert one[..0] == [];
    assert Plain(one) == [t1] && Flags(one) == [];
    assert Plain(rest) == [t1, t2] && Flags(rest) == [];
  }

  // Whole command lines. A word here is a run of text with no blank; the
  // lines are built from "exec", blanks and such words.

  /** Text holding none of the characters that end a segment or a piece. */
  predicate Unseparated(s: string)
  {
    Free(s, ';') && Free(s, ',') && NulFree(s)
  }

  lemma UnseparatedAppend(a: string, b: string)
    requires Unseparated(a) && Unseparated(b)
    ensures Unseparated(a + b)
  {
    assert forall i :: 0 <= i < |a + b| ==> (a + b)[i] == if i < |a| then a[i] else b[i - |a|];
  }

  lemma FreeAppend(a: string, b: string, c: char)
    requires Free(a, c) && Free(b, c)
    ensures Free(a + b, c)
  {
    assert forall i :: 0 <= i < |a + b| ==> (a + b)[i] == if i < |a| then a[i] else b[i - |a|];
  }

  lemma SeparatorsUnseparated()
    ensures Unseparated("exec ") && Unseparated(" ")
  {
  }

  /** "exec" and one word: an exec command with that word as its argument. */
  lemma ExecWordCommand(w: string)
    requires Free(w, ' ') && !IsOption(w)
    ensures ParseCommand("exec " + w) == Command(CommandType.Exec, [w], [])
  {
    var v := "exec " + w;
    assert v[0] == 'e';
    TrimLeftKeepsOtherWhitespace(v);
    assert v[..4] == "exec" && v[4] == ' ' && v[5..] == w;
    SplitAtOne(v, ' ', 4);
    ExecWithArgument(v[..4], v[5..]);
  }

  /** "exec", an option word and a word: the option goes to the options and the
      word to the arguments. */
  lemma ExecOptionCommand(o: string, w: string)
    requires IsOption(o) && Free(o, ' ') && Free(w, ' ') && !IsOption(w)
    ensures ParseCommand("exec " + o + " " + w) == Command(CommandType.Exec, [w], [o])
  {
    var v := "exec " + o + " " + w;
    var j := 5 + |o|;
    assert v[0] == 'e';
    TrimLeftKeepsOtherWhitespace(v);
    assert v[..4] == "exec" && v[4] == ' ' && v[5..j] == o && v[j] == ' ' && v[j + 1..] == w;
    SplitAtTwo(v, ' ', 4, j);
    ExecWithOptionAndArgument(v[..4], v[5..j], v[j + 1..]);
  }

  /** A whole input made of "exec" and one word is one list with that command. */
  lemma ExecWordList(w: string)
    requires Free(w, ' ') && Unseparated(w) && !IsOption(w)
    ensures ParseCommandList("exec " + w) == Ok([ScopedCommandList([Command(CommandType.Exec, [w], [])], [])])
  {
    ExecWordCommand(w);
    SeparatorsUnseparated();
    UnseparatedAppend("exec ", w);
    SingleCommand("exec " + w);
  }

  /** The same for "exec", an option word and a word. */
  lemma ExecOptionList(o: string, w: string)
    requires IsOption(o) && Free(o, ' ') && Unseparated(o) && Free(w, ' ') && Unseparated(w) && !IsOption(w)
    ensures ParseCommandList("exec " + o + " " + w) ==
      Ok([ScopedCommandList([Command(CommandType.Exec, [w], [o])], [])])
  {
    ExecOptionCommand(o, w);
    SeparatorsUnseparated();
    UnseparatedAppend("exec ", o);
    UnseparatedAppend("exec " + o, " ");
    UnseparatedAppend("exec " + o + " ", w);
    SingleCommand("exec " + o + " " + w);
  }

  lemma ExecGeditCommand(v: string)
    requires v == "exec gedit"
    ensures ParseCommand(v) == Command(CommandType.Exec, ["gedit"], [])
  {
    GeditIsPlain();
    assert v == "exec " + "gedit";
    ExecWordCommand("gedit");
  }

  lemma GeditIsPlain()
    ensures Free("gedit", ' ') && Unseparated("gedit") && !IsOption("gedit")
  {
    assert "gedit"[0] == 'g';
  }

  /** The unit test "exec gedit": one list, one exec command, argument "gedit". */
  lemma ExecGedit(v: string)
    requires v == "exec gedit"
    ensures ParseCommandList(v) == Ok([ScopedCommandList([Command(CommandType.Exec, ["gedit"], [])], [])])
  {
    GeditIsPlain();
    assert v == "exec " + "gedit";
    ExecWordList("gedit");
  }

  lemma NoStartupIdIsOption()
    ensures IsOption("--no-startup-id") && Free("--no-startup-id", ' ') && Unseparated("--no-startup-id")
  {
  }

  /** "exec --no-startup-id gedit": the flag is an option, not the first argument. */
  lemma ExecNoStartupIdCommand(v: string)
    requires v == "exec --no-startup-id gedit"
    ensures ParseCommand(v) == Command(CommandType.Exec, ["gedit"], ["--no-startup-id"])
  {
    NoStartupIdIsOption();
    GeditIsPlain();
    assert v == "exec " + "--no-startup-id" + " " + "gedit";
    ExecOptionCommand("--no-startup-id", "gedit");
  }

  /** The unit test at tests/test_i3_command.cpp:89-97 expects "--no-startup-id" as
      the first argument; the parser files it under the options instead. */
  lemma ExecNoStartupId(v: string)
    requires v == "exec --no-startup-id gedit"
    ensures ParseCommandList(v) ==
      Ok([ScopedCommandList([Command(CommandType.Exec, ["gedit"], ["--no-startup-id"])], [])])
  {
    NoStartupIdIsOption();
    GeditIsPlain();
    assert v == "exec " + "--no-startup-id" + " " + "gedit";
    ExecOptionList("--no-startup-id", "gedit");
  }

  /** The first segment's text runs on to the end of the input, so the command of
      "exec a;exec b" takes "a;exec" and "b" as its arguments. */
  lemma ExecThroughSemicolon(a: string, b: string)
    requires Free(a, ' ') && Free(b, ' ') && a != [] && a[0] != '-' && !IsOption(b)
    ensures ParseCommand("exec " + a + ";exec " + b) == Command(CommandType.Exec, [a + ";exec", b], [])
  {
    var v := "exec " + a + ";exec " + b;
    var j := 10 + |a|;
    assert v[0] == 'e';
    TrimLeftKeepsOtherWhitespace(v);
    assert v[..4] == "exec" && v[4] == ' ' && v[5..j] == a + ";exec" && v[j] == ' ' && v[j + 1..] == b;
    FreeAppend(a, ";exec", ' ');
    SplitAtTwo(v, ' ', 4, j);
    assert !IsOption(v[5..j]) by { assert v[5] == a[0]; }
    ExecWithTwoArguments(v[..4], v[5..j], v[j + 1..]);
  }

  /** "exec a;exec b" gives two lists, but the first segment's text runs to the end
      of the input, so its command also receives "a;exec" and "b" as arguments. */
  lemma SemicolonSegmentsOverlap(a: string, b: string)
    requires Free(a, ' ') && Unseparated(a) && a != [] && a[0] != '-'
    requires Free(b, ' ') && Unseparated(b) && !IsOption(b)
    ensures ParseCommandList("exec " + a + ";exec " + b) == Ok([
      ScopedCommandList([Command(CommandType.Exec, [a + ";exec", b], [])], []),
      ScopedCommandList([Command(CommandType.Exec, [b], [])], [])])
  {
    var v := "exec " + a + ";exec " + b;
    SemicolonPieces(a, b);
    FirstSegment(a, b);
    SecondSegment(a, b);
    TwoSegments(v, 5 + |a|,
      ScopedCommandList([Command(CommandType.Exec, [a + ";exec", b], [])], []),
      ScopedCommandList([Command(CommandType.Exec, [b], [])], []));
  }

  /** An input with one ';' at `i` is parsed as the list of its two segments. */
  lemma TwoSegments(input: string, i: nat, l0: ScopedCommandList, l1: ScopedCommandList)
    requires i < |input| && StringExtensions.Split(input, ';') == [input[..i], input[i + 1..]]
    requires ParseSegment(input, 0) == Ok(l0) && ParseSegment(input, i + 1) == Ok(l1)
    ensures ParseCommandList(input) == Ok([l0, l1])
  {
    var segs := StringExtensions.Split(input, ';');
    assert PieceStart(segs, 1) == i + 1 by { assert PieceStart(segs, 0) == 0; }
    ParseSegmentsStep(input, segs, 1, [], l0);
    assert [] + [l0] == [l0];
    ParseSegmentsStep(input, segs, 2, [l0], l1);
    assert [l0] + [l1] == [l0, l1];
  }

  /** The two ';'-segments of "exec a;exec b" and the characters the line lacks. */
  lemma SemicolonPieces(a: string, b: string)
    requires Unseparated(a) && Unseparated(b)
    ensures var v := "exec " + a + ";exec " + b; var i := 5 + |a|;
      i < |v| && StringExtensions.Split(v, ';') == [v[..i], v[i + 1..]] && v[i + 1..] == "exec " + b &&
      NulFree(v) && Free(v, ',')
  {
    var v := "exec " + a + ";exec " + b;
    var i := 5 + |a|;
    assert v[..i] == "exec " + a && v[i] == ';' && v[i + 1..] == "exec " + b;
    SeparatorsUnseparated();
    UnseparatedAppend("exec ", a);
    UnseparatedAppend("exec ", b);
    SplitAtOne(v, ';', i);
    forall k | 0 <= k < |v| ensures v[k] != NUL && v[k] != ',' {
      if k < i {
        assert v[k] == v[..i][k];
      } else if k > i {
        assert v[k] == v[i + 1..][k - i - 1];
      }
    }
  }

  lemma FirstSegment(a: string, b: string)
    requires Free(a, ' ') && Unseparated(a) && a != [] && a[0] != '-'
    requires Free(b, ' ') && Unseparated(b) && !IsOption(b)
    ensures ParseSegment("exec " + a + ";exec " + b, 0) ==
      Ok(ScopedCommandList([Command(CommandType.Exec, [a + ";exec", b], [])], []))
  {
    var v := "exec " + a + ";exec " + b;
    SemicolonPieces(a, b);
    assert v[0..] == v;
    SegmentOfOneCommand(v, 0);
    ExecThroughSemicolon(a, b);
  }

  lemma SecondSegment(a: string, b: string)
    requires Free(a, ' ') && Unseparated(a)
    requires Free(b, ' ') && Unseparated(b) && !IsOption(b)
    ensures ParseSegment("exec " + a + ";exec " + b, 6 + |a|) ==
      Ok(ScopedCommandList([Command(CommandType.Exec, [b], [])], []))
  {
    var v := "exec " + a + ";exec " + b;
    var i := 5 + |a|;
    SemicolonPieces(a, b);
    var w := v[i + 1..];
    assert Free(w, ',') by {
      forall k | 0 <= k < |w| ensures w[k] != ',' {
        assert w[k] == v[i + 1 + k];
      }
    }
    assert v[i + 1] == 'e';
    SegmentOfOneCommand(v, i + 1);
    ExecWordCommand(b);
  }

  /** The case "exec a;exec b" itself. */
  lemma SemicolonSegmentsOverlapAB()
    ensures ParseCommandList("exec a;exec b") == Ok([
      ScopedCommandList([Command(CommandType.Exec, ["a;exec", "b"], [])], []),
      ScopedCommandList([Command(CommandType.Exec, ["b"], [])], [])])
  {
    assert Free("a", ' ') && Unseparated("a") && Free("b", ' ') && Unseparated("b") && !IsOption("b");
    assert "exec a;exec b" == "exec " + "a" + ";exec " + "b";
    assert "a" + ";exec" == "a;exec";
    SemicolonSegmentsOverlap("a", "b");
  }
}
