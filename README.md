# miracle-wm core in Dafny

This project models the sequential, in-memory core of the miracle-wm tiling
window manager and proves properties of that model. One Dafny module stands
for each core source file:

- `StringExtensions` (`trim_left`, plus the `std::views::split` used by the parser) and
  `I3Command`: the i3 command language. It covers the scope parser with its
  `[key="value" ...]` criteria and the scoped command-list parser, which splits
  on `;` and `,` and classifies tokens into a type, options and arguments.
- `I3CommandExecutor`: dispatch of parsed commands, with their argument checks
  (exec, split, sticky, focus prev/next, move distances, input).
- `Container`, `LaneLayout`, `ParentContainers`, `TilingWindowTrees`: the tiling
  tree. A `ParentContainer` lays its children out along one axis with integer
  arithmetic; the tree does directional selection, move, resize, removal and
  transfer.
- `LeafContainers`, `ContainerGroups`, `FloatingWindowContainers`,
  `WindowHelpers`: the window containers. This covers staged area and state,
  visible area with gaps, grouped selection, pinned floating windows and
  `is_window_fullscreen`.
- `Workspaces`, `Outputs`, `WorkspaceManagers`: workspace bookkeeping.
  - The manager keeps a table from workspace number to owning output.
  - Each output keeps a sorted workspace list and an active key.
  - Each workspace keeps its floating-window list.
- `Policies`: the window-management policy.
  - Its modes are normal, resizing and selecting.
  - It guards the `try_*` commands by mode.
  - It tracks the active container and active output.
  - It handles the orphan and output lists.
- `Configs`, `AnimationDefinitions`, `LayoutSchemes`: configuration.
  - Modifier names and the "primary" placeholder; key-binding matching.
  - The priority-ordered change listeners; workspace settings and built-in bindings.
  - The string-to-enum lookups.
- `ObserverRegistrars`, `WorkspaceObservers`, `OutputListeners`,
  `SurfaceTrackers`: the observer registries and the surface-to-window map.
- `Wrappers` (`Option`) and `Geometry` (rectangles, directions, floor and
  ceiling division) are shared.

Objects whose fields the program updates in place are Dafny classes with
`modifies` frames. Examples are a parent container's children, a workspace's
floating list, the output list and the listener list. Pure lookups and the
tree navigation are functions over values, with lemmas.

Several headers in the repository describe earlier versions of their `.cpp`
files: `workspace_manager.h`, `miracle_config.h` (15 built-in commands where
`config.cpp` has 41) and `animation_defintion.h`. Where they disagree, the
model follows the `.cpp` bodies.

## Model

| member | source | states |
|---|---|---|
| StringExtensions.TrimLeft | src/string_extensions.h:23-29 | drops exactly the leading spaces: the result is a suffix, everything dropped is ' ', and it does not start with ' ' |
| StringExtensions.TrimLeftIdempotent | src/string_extensions.h:23-29 | trimming twice is trimming once |
| StringExtensions.TrimLeftAllSpaces | src/string_extensions.h:27 | an all-space or empty view trims to the empty view (npos clamped to the size) |
| StringExtensions.TrimLeftKeepsOtherWhitespace | src/string_extensions.h:27 | only ' ' is trimmed: a view not starting with ' ' is unchanged |
| StringExtensions.FindFrom | src/i3_command.cpp:204 | the first separator at or after a position, or the end: every character skipped differs from it |
| StringExtensions.SplitFromProps | src/i3_command.cpp:204 | the pieces of `views::split` rejoin to the input, contain no separator, and there is at least one |
| StringExtensions.SplitJoin | src/i3_command.cpp:204 | for non-empty input, splitting then joining gives the input back, and no piece holds the separator |
| StringExtensions.JoinSplit | src/i3_command.cpp:204 | joining separator-free pieces then splitting gives the pieces back (the other direction of the round trip) |
| StringExtensions.SplitAtOne | src/i3_command.cpp:214 | a text with one separator splits into the two sides |
| StringExtensions.SplitAtTwo | src/i3_command.cpp:219 | a text with two separators splits into the three parts |
| I3Command.CStringFrom | src/i3_command.cpp:210 | `string_view(scope.data())` runs from the piece's start to the first NUL of the whole buffer: NUL-free, a slice of the input, stopped by a NUL |
| I3Command.CStringOfNulFree | src/i3_command.cpp:210 | on NUL-free input that view is the entire rest of the input, not just the piece |
| I3Command.TryParseScope | src/i3_command.cpp:45-75 | a key is accepted only where it starts; a valued key exactly when '=' follows it, and the new position is the '=' |
| I3Command.BareKeyOnlyNeedsPrefix | src/i3_command.cpp:67 | a bare key (all, floating, tiling) is accepted exactly when its text starts there: the boundary test indexes `view[bool]` and always passes on a '['-opened buffer |
| I3Command.FirstKey | src/i3_command.cpp:93-126 | the keys are tried in the source's order; a match moves strictly forward, and a valued match stops at '=' |
| I3Command.ScopeStep | src/i3_command.cpp:90-157 | one pass of the criteria loop adds at most one criterion, keeps the earlier ones, and moves forward or stops at the end |
| I3Command.ScopeLoop | src/i3_command.cpp:90-157 | the loop ends at a ']' or at the end of the text and keeps the criteria it started with |
| I3Command.ParseScope | src/i3_command.cpp:79-160 | a successful scan stops within the text |
| I3Command.ScanToQuote | src/i3_command.cpp:140-144 | the quote-search loop returns the first '"' at or after the start, or the end |
| I3Command.ScanCriterion | src/i3_command.cpp:92-156 | the loop body as statements computes exactly `ScopeStep` |
| I3Command.ParseScopeLoop | src/i3_command.cpp:79-160 | `I3Scope::parse` as a loop computes exactly `ParseScope` |
| I3Command.NoBracketNoScope | src/i3_command.cpp:81-85 | text not opening with '[' has no criteria and leaves `ptr` at 0 |
| I3Command.ScanEndsOnBracket | src/i3_command.cpp:88-90 | a scope scan starts past '[' and ends on ']' or at the end |
| I3Command.ScopeLoopValuesUnquoted | src/i3_command.cpp:138-153 | no value the loop stores contains a double quote: the loop stops each value at the next quote |
| I3Command.ParseScopeValuesUnquoted | src/i3_command.cpp:138-153 | no stored criterion value contains a double quote |
| I3Command.UnquotedValueDropped | src/i3_command.cpp:133-136 | `[class=x]`: a value not opened by '"' is dropped and the scan goes on to ']' |
| I3Command.UnterminatedValueStops | src/i3_command.cpp:146-150 | `[title="ab`: a missing closing quote ends the scan without the criterion |
| I3Command.ClassCriterion | src/i3_command.cpp:93-94 | `[class="XYZ"]` gives one class criterion with value XYZ, ending on ']' |
| I3Command.AllCriterion | src/i3_command.cpp:109-114 | `[all]` gives one `all` criterion without a value |
| I3Command.TilingCriterion | src/i3_command.cpp:121-126 | `[tiling ]` gives one `tiling` criterion; the space is then skipped |
| I3Command.NoKeyStep | src/i3_command.cpp:127-131 | a character that begins no key is skipped one position at a time |
| I3Command.LoopContinues | src/i3_command.cpp:90 | a pass that does not stop hands the rest of the scan to the new position |
| I3Command.LoopStaysInBrackets | src/i3_command.cpp:90-157 | with no quote before the first ']', the scan stops exactly on that ']' |
| I3Command.ClosedScopeStopsOnBracket | src/i3_command.cpp:79-160 | a '['...']' scope without quotes is scanned up to its closing ']' |
| I3Command.KeywordInFinds | src/i3_command.cpp:192-196 | a keyword is found exactly when the token starts with one of the keys, and the type is that of the first such key in table order |
| I3Command.KeywordType | src/i3_command.cpp:221-266 | the keyword table never selects the `none` type |
| I3Command.EqualsIsTokenPrefix | src/i3_command.cpp:192-196 | `strncmp` against the rest of the buffer is the same as the token starting with the keyword, since no keyword holds a delimiter |
| I3Command.KeywordsHaveNoDelimiter | src/i3_command.cpp:223-266 | no command keyword contains ' ', ',' or NUL, the characters that end a token |
| I3Command.FirstKeyword | src/i3_command.cpp:221-271 | the first token that is a keyword, all tokens before it being keywordless |
| I3Command.FirstKeywordIsLeast | src/i3_command.cpp:221-271 | `FirstKeyword` is the least index of a keyword token |
| I3Command.ParseTokensCharacterised | src/i3_command.cpp:219-281 | the token loop's result is: tokens before the first keyword are dropped, and the tokens after it go, in order, to options ("--" prefix) or arguments |
| I3Command.KeywordFirst | src/i3_command.cpp:221-280 | a keyword first token fixes the type; the rest are sorted into arguments and options |
| I3Command.UnknownLeadingTokenSkipped | src/i3_command.cpp:267-271 | an unknown leading token is logged and dropped |
| I3Command.ExecKeyword | src/i3_command.cpp:223-224 | a token starting with "exec" selects exec |
| I3Command.ClosingBracketIsNoKeyword | src/i3_command.cpp:221-271 | a token left starting with ']' is no keyword |
| I3Command.ExecWithArgument | src/i3_command.cpp:219-280 | "exec" and one plain token: exec with that argument |
| I3Command.ExecWithOptionAndArgument | src/i3_command.cpp:276-279 | a "--" token goes to the options, the plain one to the arguments |
| I3Command.ExecWithTwoArguments | src/i3_command.cpp:276-279 | two plain tokens become two arguments, in order |
| I3Command.ExecWordCommand | src/i3_command.cpp:219-283 | "exec" followed by one non-option word parses as exec with that word as its only argument |
| I3Command.ExecOptionCommand | src/i3_command.cpp:276-279 | "exec", an option word and a word: the option is filed under the options, the word under the arguments |
| I3Command.ExecWordList | src/i3_command.cpp:199-290 | a whole input "exec w" without separators is one list holding that exec command and no criteria |
| I3Command.ExecOptionList | src/i3_command.cpp:199-290 | the same for "exec o w" with an option word o |
| I3Command.ExecGeditCommand | src/i3_command.cpp:219-283 | "exec gedit" parses as exec with argument gedit |
| I3Command.ExecGedit | src/i3_command.cpp:199-290 | the whole parse of "exec gedit": one list, one exec command with argument gedit, no scope |
| I3Command.ExecNoStartupIdCommand | src/i3_command.cpp:276-279 | "exec --no-startup-id gedit": the flag is an option, gedit the argument |
| I3Command.ExecNoStartupId | src/i3_command.cpp:199-290 | the whole parse of "exec --no-startup-id gedit" |
| I3Command.SingleCommand | src/i3_command.cpp:199-290 | input with no ';', no ',' and no '[' is one list holding one command parsed from the whole input |
| I3Command.SegmentOfOneCommand | src/i3_command.cpp:206-286 | a segment without ',' and '[' holds one command and no scope |
| I3Command.SegmentTextRunsToEnd | src/i3_command.cpp:204-211 | the text segment k hands to the scope parser runs from its start to the end of the whole input |
| I3Command.ParseSegments | src/i3_command.cpp:204-287 | the parse of k segments, when it reads nothing past the terminator, gives k lists |
| I3Command.ParseSegmentsStep | src/i3_command.cpp:204-287 | each segment appends its list after those of the earlier ones |
| I3Command.OverrunPersists | src/i3_command.cpp:204-287 | once a segment reads past the terminator, the whole parse does |
| I3Command.ParseCommandLoop | src/i3_command.cpp:216-283 | the token loop as statements computes exactly `ParseCommand` |
| I3Command.ParseSegmentLoop | src/i3_command.cpp:206-286 | the segment loop body as statements computes exactly `ParseSegment` |
| I3Command.ParseCommandListLoop | src/i3_command.cpp:199-290 | `I3ScopedCommandList::parse` as loops computes exactly `ParseCommandList` |
| I3Command.ExecThroughSemicolon | src/i3_command.cpp:210-219 | for blank-free words a and b, the first segment of "exec a;exec b" sees "a;exec" and "b" as its arguments |
| I3Command.SemicolonSegmentsOverlap | src/i3_command.cpp:204-214 | for blank- and separator-free words a and b, "exec a;exec b" gives two lists: the first command's arguments run on into the second segment's text |
| I3Command.SemicolonSegmentsOverlapAB | src/i3_command.cpp:204-214 | the literal input "exec a;exec b" gives those two lists |
| I3CommandExecutor.ValueShowNat | src/i3_command_executor.cpp:269 | reading digits back gives the number printed (reference for `std::stoi`) |
| I3CommandExecutor.StoiShow | src/i3_command_executor.cpp:269 | `Stoi` reads back every integer, sign included, that `Show` prints when it fits in an `int`, and reports `out_of_range` for any other |
| I3CommandExecutor.ExecCorrected | src/i3_command_executor.cpp:100-124 | at most one launch; a launch exactly when an application follows the optional flag; the flag is honoured wherever the parser files it; equals the as-written result when no option is given |
| I3CommandExecutor.ParsedExecNeverFlagged | src/i3_command_executor.cpp:110 | as written, a parsed exec never launches with no-startup-id: the parser never leaves "--no-startup-id" among the arguments |
| I3CommandExecutor.ExecFlagDropped | src/i3_command_executor.cpp:110-123 | "exec --no-startup-id gedit" launches gedit without the flag, as written |
| I3CommandExecutor.ExecFlagHonoured | src/i3_command_executor.cpp:110-123 | the corrected exec launches gedit with the flag |
| I3CommandExecutor.SplitAction | src/i3_command_executor.cpp:126-151 | a request is made exactly when the first argument is vertical, horizontal or toggle |
| I3CommandExecutor.StickyAction | src/i3_command_executor.cpp:418-435 | a pin request is made exactly when the first argument is enable, disable or toggle |
| I3CommandExecutor.FocusSiblingInLane | src/i3_command_executor.cpp:197-247 | focus prev/next acts exactly when the active tiled container has a sibling before/after it; it then selects the leaf `get_nth_window` reaches from that sibling through first children, throws `bad_optional_access` when that leaf has no window, and dereferences null when no leaf is reached |
| I3CommandExecutor.SelectNthFinds | src/parent_container.cpp:375-385 | the calls made for sibling i follow the first-children path from it, as `SiblingSelected` states |
| I3CommandExecutor.ParseMoveDistance | src/i3_command_executor.cpp:261-287 | a distance exactly when a number that fits in an `int` is followed by at least one more argument; it is that number unless the unit `ppt` comes last; a number out of range escapes as `std::out_of_range`; nothing otherwise |
| I3CommandExecutor.MaxEndX | src/i3_command_executor.cpp:389-398 | the largest right edge over the outputs, starting from 0, and it is attained |
| I3CommandExecutor.MaxEndY | src/i3_command_executor.cpp:389-398 | the largest bottom edge over the outputs, starting from 0, and it is attained |
| I3CommandExecutor.DirectionalMove | src/i3_command_executor.cpp:306-329 | `move <dir>` without a distance moves one step; with a pixel distance moves by it; a number out of range throws and nothing moves |
| I3CommandExecutor.MovePositionSameCoordinates | src/i3_command_executor.cpp:352-371 | `move position x y` reads both coordinates from the same argument (`parse_move_distance` never advances the index), so x == y; a move happens exactly when that argument parses, and the command throws exactly when it is out of range |
| I3CommandExecutor.CenterNeedsActive | src/i3_command_executor.cpp:339-402 | `move position center` and `move absolute position center` dereference the policy's active container unchecked: without one the command stops at a null dereference; with one a single move places the window's centre on the centre of the output, or of the box spanning every output, to within a pixel |
| I3CommandExecutor.InputCheck | src/i3_command_executor.cpp:438-493 | accepted exactly for `type:X xkb_Y [Z]`, with the prefixes stripped and Z present exactly when given |
| I3CommandExecutor.Process | src/i3_command_executor.cpp:48-79 | the commands of a list are processed one after the other, as `ProcessAll`, until an exception leaves the loop or a null pointer is dereferenced |
| I3CommandExecutor.StoppedStays | src/i3_command_executor.cpp:48-79 | once an exception or a null dereference has ended the run, the remaining commands add no call |
| I3CommandExecutor.RunAllAppend | src/i3_command_executor.cpp:50-78 | the calls of two runs follow one another unless the first run has ended |
| I3CommandExecutor.ProcessAllAppend | src/i3_command_executor.cpp:50-78 | processing two command lists one after the other is processing each in turn, unless the first already ended the run |
| I3CommandExecutor.IgnoredCommandsDoNothing | src/i3_command_executor.cpp:75-76 | command types without a handler make no calls |
| ContainerTypes.FromString | src/container.cpp:31-41 | exact, case-sensitive names tiled, floating, shell; anything else is `none` (both directions) |
| ContainerTypes.NameRoundTrip | src/container.cpp:31-41 | every nameable kind is found again from its name |
| Container.ReplaceAtFound | src/container.cpp:90-106 | after replacing a node along a path, the path leads to the new node |
| Container.Chain | src/container.cpp:92-105 | the ancestors met walking up from a container, one per path step |
| Container.HasNeighborCharacterised | src/container.cpp:90-106 | `has_neighbor` holds exactly when some ancestor lane of the direction has more than one child and the index tested there differs from the excluded one (passed up unchanged) |
| Container.HasNeighborAfterCharacterised | src/container.cpp:108-132 | the corrected right/bottom test holds exactly when some ancestor of the direction has a later child |
| Container.RightNeighborMissed | src/container.cpp:108-119 | a window with a sibling lane to its right is reported as having no right neighbour |
| Container.RightNeighborInvented | src/container.cpp:108-119 | a window with nothing to its right is reported as having a right neighbour |
| Container.Neighbors | src/container.cpp:151-159 | as written: four flags in the order up, left, down, right, from the source's neighbour tests; all false for the root |
| Container.NeighborsCorrected | src/container.cpp:100-159 | the same four flags from the corrected tests; all false for the root |
| Container.NeighborsDiffer | src/container.cpp:100-159 | for a lone window in the left vertical lane of a horizontal root, the as-written flags miss the right neighbour and the corrected ones find it |
| Container.NeighborIndex | src/container.cpp:151-159 | each direction has a flag |
| Container.SiblingsAreNeighbors | src/container.cpp:134-140 | in a horizontal lane a non-first child has a left neighbour and a non-last child a right one |
| Container.RightNeighborFromAbove | src/container.cpp:108-119 | the ancestor's index is compared with the last index of the container's own parent |
| Container.LoneChildOfRoot | src/container.cpp:90-159 | the only child of the root has no neighbour in any direction |
| LaneLayout.InsertIntoEmpty | src/parent_container.cpp:44-45 | into an empty lane the new child takes the whole lane at its start |
| LaneLayout.InsertConserves | src/parent_container.cpp:47-78 | nothing is lost or made: the new child's size is exactly what the others gave up |
| LaneLayout.LossesBounded | src/parent_container.cpp:52-58 | the floors of the children's losses add up to at most the loss owed and fall short by less than one per child |
| LaneLayout.InsertedSizeNearShare | src/parent_container.cpp:44-78 | in a full lane the new child is no larger than its first share and short of it by less than the number of children |
| LaneLayout.SlotPositions | src/parent_container.cpp:60-70 | children before the index are packed from the lane start; the child at the index and later ones are packed from the end of the reserved slot |
| LaneLayout.InsertLeavesOverlap | src/parent_container.cpp:36-81 | two children of 50 in a lane of 100, new child at 1: the new child's slot overlaps the first child and leaves one pixel uncovered until the next layout |
| LaneLayout.MakeRoomConserves | src/parent_container.cpp:127-196 | `create_space` keeps the lane total; into an empty lane the new child gets the whole placement |
| LaneLayout.ScaleBounds | src/parent_container.cpp:261-359 | a child's share of the current lane applied to the target lane, rounded up for horizontal and down for vertical lanes |
| LaneLayout.AbsorbSums | src/parent_container.cpp:261-359 | the last child takes up the rounding, so the sizes add up to the target |
| LaneLayout.PlaceAt | src/parent_container.cpp:261-359 | each slot starts after the sizes before it |
| LaneLayout.PlaceTiles | src/parent_container.cpp:261-359 | placed slots follow one another from the target's start and keep their sizes |
| LaneLayout.LayoutTiles | src/parent_container.cpp:261-359 | after `set_logical_area` the children tile the target along the axis, span it across, and all but the last have their scaled size |
| LaneLayout.ScaleSameSize | src/parent_container.cpp:261-359 | scaling to a lane of the same size keeps every size |
| LaneLayout.SetArea | src/parent_container.cpp:261-359 | a container given an area keeps its identity and kind; a lane keeps its direction and number of children |
| LaneLayout.RescaleAreas | src/parent_container.cpp:261-359 | each child's new area is its slot of `Layout` |
| LaneLayout.RescaleTiles | src/parent_container.cpp:261-359 | the rescaled children tile the target along the axis |
| LaneLayout.Stretch | src/parent_container.cpp:501-543 | a child grows by the slack along the axis and keeps its start |
| LaneLayout.RelaidTiles | src/parent_container.cpp:501-543 | after `relayout` the children tile the placement and all but the last grew by the same slack |
| LaneLayout.RelaidGrowth | src/parent_container.cpp:501-543 | every child but the last grows by the same slack |
| LaneLayout.Without | src/parent_container.cpp:427-430 | `remove_if`: exactly the children with another identity remain |
| LaneLayout.WithoutAppend | src/parent_container.cpp:427-430 | removal distributes over concatenation, so survivors keep their order |
| LaneLayout.Absorbed | src/parent_container.cpp:432-446 | a single surviving lane hands up its children and direction; otherwise the children stay |
| LaneLayout.IndexOf | src/parent_container.cpp:450-467 | the first child with the identity, or -1 exactly when there is none |
| LaneLayout.At | src/parent_container.cpp:367-373 | the child at an index, nothing past the end |
| LaneLayout.MinSizePerLeaf | src/parent_container.cpp:475-489 | the minimum width and height of a container are 50 per leaf below it |
| LaneLayout.NthWindowFollowsFirstChildren | src/parent_container.cpp:375-385 | `get_nth_window(i)` is the leaf reached by entering child i and then first children, if that ends at a leaf |
| LaneLayout.FirstMatch | src/parent_container.cpp:387-403 | the first child satisfying the test, or the count |
| LaneLayout.FindWhereSound | src/parent_container.cpp:387-403 | whatever `find_where` returns satisfies the test and lies below the lane; nothing exactly when nothing below does |
| LaneLayout.RelaidKeepsIds | src/parent_container.cpp:501-543 | relayout moves no child |
| LaneLayout.MakeRoomKeepsIds | src/parent_container.cpp:127-196 | making room moves no child |
| LaneLayout.Grafted | src/parent_container.cpp:229-237 | grafting keeps the lane's identity, area and direction and adds one child |
| LaneLayout.GraftedIds | src/parent_container.cpp:229-237 | the node is inserted at the index, the other children keep their order |
| LaneLayout.GraftedAtStart | src/parent_container.cpp:229-237 | grafting at index 0 puts the node first, ahead of the lane's children in their order |
| LaneLayout.GraftedAtEnd | src/parent_container.cpp:229-237 | grafting at the child count puts the node last, after the lane's children in their order |
| LaneLayout.GraftedPlacesNode | src/parent_container.cpp:229-237 | after a graft the node is at the index and the children tile the lane |
| LaneLayout.Removed | src/parent_container.cpp:425-448 | removal keeps the lane's identity and area |
| LaneLayout.RemovedContents | src/parent_container.cpp:425-448 | the survivors stay in order without the removed node; a lone surviving lane is absorbed with its direction |
| LaneLayout.Swapped | src/parent_container.cpp:415-423 | swapping keeps the lane's identity, area and direction |
| LaneLayout.SwappedExchanges | src/parent_container.cpp:415-423 | the two identities exchange positions and nothing else moves |
| ParentContainers.ParentContainer.constructor | src/parent_container.cpp:84-98 | a new lane over its area, horizontal, empty, nothing pending |
| ParentContainers.ParentContainer.LogicalArea | src/parent_container.cpp:100-115 | a root lane is inset by the outer gaps on every side; any other lane uses its area |
| ParentContainers.ParentContainer.CreateSpace | src/parent_container.cpp:127-196 | the children become `MakeRoom` of the old ones and the room returned is `RoomFor`; nothing else changes |
| ParentContainers.ParentContainer.InsertNodeInternal | src/parent_container.cpp:36-81 | the loop computes exactly the positions, shrunk sizes and new slot of the specification functions |
| ParentContainers.ParentContainer.CreateSpaceForWindow | src/parent_container.cpp:198-211 | a new leaf is inserted at the index (a negative index appends) and becomes pending |
| ParentContainers.ParentContainer.ConfirmWindow | src/parent_container.cpp:213-227 | the pending leaf is returned and no longer pending; nothing else changes (the fatal error without a pending leaf is listed under Left out) |
| ParentContainers.ParentContainer.IndexOfNode | src/parent_container.cpp:450-467 | the scan returns `IndexOf` |
| ParentContainers.ParentContainer.GraftExisting | src/parent_container.cpp:229-237 | the node is given the room at its index, inserted, and the lane laid out again |
| ParentContainers.ParentContainer.ConvertToParent | src/parent_container.cpp:239-259 | the child is replaced at its index by a horizontal lane with its area holding only it (the fatal error for a non-child is listed under Left out) |
| ParentContainers.ParentContainer.SetLogicalArea | src/parent_container.cpp:261-359 | the lane takes the target and its children are `Rescale`d from the old placement to the new one |
| ParentContainers.ParentContainer.PackScaled | src/parent_container.cpp:268-353 | the scaling loop computes exactly `Layout` |
| ParentContainers.ParentContainer.Relayout | src/parent_container.cpp:501-543 | the children become `Relaid` of the old ones |
| ParentContainers.ParentContainer.Remove | src/parent_container.cpp:425-448 | the node's entries go; a lone surviving lane's children move up in order with its direction; the lane is laid out again |
| ParentContainers.ParentContainer.SwapNodes | src/parent_container.cpp:415-423 | the two children exchange places and the lane is laid out again |
| ParentContainers.ParentContainer.MinimumWidth | src/parent_container.cpp:475-481 | the sum of the children's minimum widths |
| ParentContainers.ParentContainer.MinimumHeight | src/parent_container.cpp:483-489 | the sum of the children's minimum heights |
| TilingWindowTrees.AxisAndSign | src/tiling_window_tree.cpp:288-313 | the axis test agrees with `from_direction`, and a direction is fixed by its axis and sign |
| TilingWindowTrees.ClosestLeaf | src/tiling_window_tree.cpp:315-350 | the recursive search with its backward and forward loops computes exactly `Closest` |
| TilingWindowTrees.ClosestSound | src/tiling_window_tree.cpp:315-350 | what the search finds is a leaf below the container, and it finds one whenever there is one |
| TilingWindowTrees.ClosestBackwardScanComplete | src/tiling_window_tree.cpp:331-347 | the backward loop stops before index 0, yet the answer equals a scan down to index 0: the forward loop then reaches child 0 first |
| TilingWindowTrees.PopulatedHasLeaf | src/tiling_window_tree.cpp:315-350 | a container without empty lanes below it has a leaf |
| TilingWindowTrees.HandleSelect | src/tiling_window_tree.cpp:353-398 | the climb as statements computes exactly `Select` |
| TilingWindowTrees.SelectSound | src/tiling_window_tree.cpp:353-398 | what the climb selects is a window of the tree |
| TilingWindowTrees.ClosestInPopulated | src/tiling_window_tree.cpp:315-350 | in a tree without empty lanes every container has a closest window |
| TilingWindowTrees.SelectBackwardIffNeighbor | src/tiling_window_tree.cpp:353-398 | selecting left or up succeeds exactly when the window has a left or top neighbour |
| TilingWindowTrees.SelectForwardIffNeighbor | src/tiling_window_tree.cpp:353-398 | selecting right or down succeeds exactly when the corrected right or bottom test holds |
| TilingWindowTrees.ResizeTarget | src/tiling_window_tree.cpp:447-480 | the lane a resize works in is an ancestor on the path with more than one child |
| TilingWindowTrees.ResizeTargetFound | src/tiling_window_tree.cpp:447-480 | a resize happens in the nearest lane along the axis where the container is not the only child; a lone child on the way stops it |
| TilingWindowTrees.ResizePlanTiles | src/tiling_window_tree.cpp:482-551 | a resize is all or nothing, abandoned exactly when some proposed size lies from 0 up to its minimum (the signed size against an unsigned minimum); when it happens the lane stays tiled, the sizes add up to the lane and all but the last get their proposed size |
| TilingWindowTrees.ResizeCorrectedKeepsMinimums | src/tiling_window_tree.cpp:497-501 | with the signed test a resize goes ahead exactly when every proposed size is above its minimum, every container but the last then stays above it, and the resize is the source's |
| TilingWindowTrees.NegativeSizeResizes | src/tiling_window_tree.cpp:527-531 | growing the second of two 100-wide containers by 150 (minimum 50) makes the first -50 wide as written, and the signed test refuses it |
| TilingWindowTrees.ResizeLeftover | src/tiling_window_tree.cpp:482-551 | in a full lane the rounding leaves between 0 and n - 2 for the last container |
| TilingWindowTrees.RestackTiles | src/tiling_window_tree.cpp:482-551 | restacked areas follow one another from the origin and keep their sizes and place across the axis |
| TilingWindowTrees.PlanResize | src/tiling_window_tree.cpp:482-551 | the pending areas, or nothing when the loop abandons the resize, computed as `ResizePlan` |
| TilingWindowTrees.PendingResizes | src/tiling_window_tree.cpp:497-532 | each container gets its proposed size and starts where the previous pending area ends; the first one sized from 0 up to its minimum abandons the resize (a negative size passes the unsigned comparison) |
| TilingWindowTrees.AppliedKeeps | src/tiling_window_tree.cpp:535-550 | applying the pending areas keeps the containers and their order and gives each its area |
| TilingWindowTrees.ResizeApplies | src/tiling_window_tree.cpp:447-551 | a refused resize changes nothing; otherwise the lane holds the same containers in order with the pending areas |
| TilingWindowTrees.PathTo | src/tiling_window_tree.cpp:670-696 | the first path in `foreach_node` order to a container with that identity leads to it |
| TilingWindowTrees.PathToRoot | src/tiling_window_tree.cpp:670-696 | only the root has the empty path |
| TilingWindowTrees.PathToFinds | src/tiling_window_tree.cpp:670-696 | every container reached by a path is found by its identity |
| TilingWindowTrees.PathToSetArea | src/tiling_window_tree.cpp:670-696 | laying a container out again changes no path |
| TilingWindowTrees.RemovalOf | src/tiling_window_tree.cpp:553-572 | the lane removed from is a lane of the tree: the parent, or the grandparent when the container is an only child with a grandparent |
| TilingWindowTrees.RemovalOnPath | src/tiling_window_tree.cpp:553-572 | the removed container is a child on the path: the container itself, or the lane it was the only child of |
| TilingWindowTrees.RemoveAt | src/tiling_window_tree.cpp:553-572 | the root is never removed and stays a lane; otherwise exactly that lane loses the child and is laid out again |
| TilingWindowTrees.ParentOf | src/tiling_window_tree.cpp:574-587 | the path to the lane holding the container, with the container among its children |
| TilingWindowTrees.GraftAfter | src/tiling_window_tree.cpp:574-587 | the moving container is grafted into the lane holding `to` exactly when `to` has a parent |
| TilingWindowTrees.GraftAfterPlaces | src/tiling_window_tree.cpp:582-584 | the moved container comes right after `to` in that lane |
| TilingWindowTrees.MoveInsertsIffNeighbor | src/tiling_window_tree.cpp:400-445 | a move goes next to a window exactly when the container has a neighbour that way, and that window is in the tree |
| TilingWindowTrees.PathToWrapped | src/tiling_window_tree.cpp:414-430 | wrapping the root in a new lane moves every container one step down |
| TilingWindowTrees.MoveToEdge | src/tiling_window_tree.cpp:190-210 | the append and prepend branches move a container below the root to the root's end or start |
| TilingWindowTrees.MoveSwapsInLane | src/tiling_window_tree.cpp:166-189 | a target in the same lane exchanges places with the container and nothing else moves |
| TilingWindowTrees.MoveRefused | src/tiling_window_tree.cpp:414-419 | a move along the root's axis with no window beside a root child is refused |
| TilingWindowTrees.MoveToRootEdge | src/tiling_window_tree.cpp:400-445 | with no window that way the container ends first (left, up) or last (right, down) in the root |
| TilingWindowTrees.StillFoundAfterMove | src/tiling_window_tree.cpp:414-444 | the moving container is still found under the root the move leaves |
| TilingWindowTrees.DirectionChangedHolds | src/tiling_window_tree.cpp:245-264 | the container is unchanged and the lane holding it gets the direction; that lane is new exactly when the container had siblings |
| TilingWindowTrees.ToggleFlips | src/tiling_window_tree.cpp:233-243 | toggling gives the container's lane the other direction |
| TilingWindowTrees.LastInFinds | src/tiling_window_tree.cpp:718-744 | the last marked window in visiting order, or nothing exactly when none is marked |
| TilingWindowTrees.TilingWindowTree.constructor | src/tiling_window_tree.cpp:35-56 | an empty horizontal root lane over the area, shown, nothing fullscreen |
| TilingWindowTrees.TilingWindowTree.ResizeContainer | src/tiling_window_tree.cpp:95-105 | refused while fullscreen; otherwise the tree becomes `Resize` of the old one |
| TilingWindowTrees.TilingWindowTree.SelectNext | src/tiling_window_tree.cpp:107-125 | refused while fullscreen; otherwise `Select`, a window of the tree |
| TilingWindowTrees.TilingWindowTree.MoveContainer | src/tiling_window_tree.cpp:155-221 | refused while fullscreen or when the move finds nothing; otherwise the tree becomes `Moved` |
| TilingWindowTrees.TilingWindowTree.RequestLayout | src/tiling_window_tree.cpp:223-231 | refused while fullscreen; otherwise the direction change |
| TilingWindowTrees.TilingWindowTree.ToggleLayout | src/tiling_window_tree.cpp:233-243 | nothing for the root; otherwise the change to the other direction |
| TilingWindowTrees.TilingWindowTree.AdviseFullscreen | src/tiling_window_tree.cpp:599-606 | the window is selected as active and raised, the tree records fullscreen, and nothing else changes |
| TilingWindowTrees.TilingWindowTree.AdviseRestored | src/tiling_window_tree.cpp:608-619 | with no active tiled container (`active_container()` null) the source dereferences null; otherwise fullscreen ends exactly when the container is the active one, and then its own logical area is committed again; the tree is otherwise unchanged |
| TilingWindowTrees.TilingWindowTree.ToggleFullscreen | src/tiling_window_tree.cpp:127-134 | when fullscreen, the restore: a null dereference without an active tiled container, otherwise fullscreen ends exactly for the active window, whose area is committed again; when not fullscreen, the window is selected, raised and recorded as fullscreen |
| TilingWindowTrees.TilingWindowTree.AdviseDeleteWindow | src/tiling_window_tree.cpp:273-286 | the active window's fullscreen ends with it and the container is removed |
| TilingWindowTrees.TilingWindowTree.Hide | src/tiling_window_tree.cpp:698-716 | the tree is hidden and every window of it, in visiting order, is hidden and committed; repeating it does nothing |
| TilingWindowTrees.TilingWindowTree.Show | src/tiling_window_tree.cpp:718-744 | the tree is shown; when it was hidden, the last fullscreen window in visiting order is returned and the windows that are not fullscreen are raised in that order |
| TilingWindowTrees.UnmarkedExactly | src/tiling_window_tree.cpp:728-740 | the raised windows are exactly the tree's windows that are not fullscreen |
| TilingWindowTrees.TilingWindowTree.IsEmpty | src/tiling_window_tree.cpp:746-749 | empty exactly when the root has no children, and then it holds no window |
| TilingWindowTrees.TilingWindowTree.Constrain | src/tiling_window_tree.cpp:653-668 | refused while hidden |
| WindowHelpers.IsWindowFullscreen | src/window_helpers.cpp:9-15 | fullscreen and the three maximized states count as fullscreen; unknown, restored, minimized, hidden and attached do not |
| LeafContainers.HalfGapCovers | src/leaf_container.cpp:75-108 | half a gap rounded up: the two halves cover the whole gap and at most one pixel more |
| LeafContainers.VisibleWithin | src/leaf_container.cpp:75-108 | with non-negative gaps the visible area lies inside the logical one; each edge is the logical edge or half a gap inside it |
| LeafContainers.GapBetweenSideNeighbors | src/leaf_container.cpp:75-108 | two side-by-side windows are shown at least a full inner gap apart |
| LeafContainers.GapBetweenStackedNeighbors | src/leaf_container.cpp:75-108 | two stacked windows are shown at least a full inner gap apart |
| LeafContainers.LoneWindowUsesWholeArea | src/leaf_container.cpp:75-108 | the only window of a tree is shown over its whole logical area |
| LeafContainers.LeafContainer.constructor | src/leaf_container.cpp:31-43 | a container over its area for a window in its state, nothing staged |
| LeafContainers.LeafContainer.SetLogicalArea | src/leaf_container.cpp:50-58 | the area is only staged; it is what `get_logical_area` reports |
| LeafContainers.LeafContainer.SetState | src/leaf_container.cpp:70-73 | the state is staged |
| LeafContainers.LeafContainer.Constrain | src/leaf_container.cpp:110-116 | a window is left unclipped exactly in the fullscreen and the three maximized states (`is_window_fullscreen`); any other is clipped to its visible area |
| LeafContainers.LeafContainer.Hide | src/leaf_container.cpp:180-184 | remembers the window's state and stages hidden |
| LeafContainers.LeafContainer.Show | src/leaf_container.cpp:174-178 | stages the remembered state and forgets it |
| LeafContainers.LeafContainer.Commit | src/leaf_container.cpp:228-248 | a staged state is applied; a staged area is committed and, unless fullscreen, the window gets its visible area and is clipped; nothing stays staged; after a staged state the window is unclipped exactly in the four states `is_window_fullscreen` accepts |
| LeafContainers.LeafContainer.ToggleFullscreen | src/leaf_container.cpp:186-195 | the window's fullscreen status flips and the call succeeds |
| LeafContainers.LeafContainer.HandleModify | src/leaf_container.cpp:134-162 | a new state is staged and committed; a requested size (one optional width and height pair) differing from the visible size is dropped unless fullscreen; the rest is passed on |
| LeafContainers.LeafContainer.SetRestoreState | src/leaf_container.cpp:273-276 | stores the restore state |
| LeafContainers.LeafContainer.TakeRestoreState | src/leaf_container.cpp:278-283 | hands the stored state over once; a second call finds nothing |
| LeafContainers.LeafContainer.RefuseFreeMove | src/leaf_container.cpp:330-353 | a tiled window is never pinned and cannot be moved freely |
| ObserverRegistrars.Survivors | src/observer_registrar.h:39-45 | the entries `remove_if` keeps: exactly the non-matching ones |
| ObserverRegistrars.LiveEntries | src/workspace_observer.cpp:35-63 | the live observers, in order |
| ObserverRegistrars.SurvivorsCount | src/observer_registrar.h:39-45 | every entry is either kept or matched |
| ObserverRegistrars.RemoveIf | src/observer_registrar.h:39 | `std::remove_if` moves the kept entries, in order, to the front and returns the new end |
| ObserverRegistrars.ErasedOnce | src/observer_registrar.h:39-45 | erase with one iterator removes exactly one slot |
| ObserverRegistrars.OneMatchErasesAll | src/observer_registrar.h:39-45 | with exactly one match the single erase does remove it |
| ObserverRegistrars.DuplicateSurvivesErase | src/observer_registrar.h:39-45 | an observer registered twice is still registered after unregistering it |
| ObserverRegistrars.ObserverRegistrar.constructor | src/observer_registrar.h:48-49 | no observers |
| ObserverRegistrars.ObserverRegistrar.RegisterInterest | src/observer_registrar.h:32-35 | appends the observer |
| ObserverRegistrars.ObserverRegistrar.UnregisterInterest | src/observer_registrar.h:37-46 | as written: one slot erased at the new end |
| ObserverRegistrars.ObserverRegistrar.UnregisterAll | src/observer_registrar.h:37-46 | as intended: the observer and expired entries are gone; the others keep their order |
| WorkspaceObservers.NewObserver | src/workspace_observer.cpp:5-12 | as written every observer gets id 0 (`NEXT_ID` is never advanced) |
| WorkspaceObservers.UnregisterRemovesOtherObserver | src/workspace_observer.cpp:24-33 | unregistering the second of two observers takes away the first |
| WorkspaceObservers.DistinctIdsUnregisterOnlyThat | src/workspace_observer.cpp:24-33 | with distinct ids and the whole tail erased, only that observer goes |
| WorkspaceObservers.ObserverIds.NewObserver | src/workspace_observer.cpp:10-12 | each new observer takes the next id |
| WorkspaceObservers.WorkspaceObserverRegistrar.constructor | src/workspace_observer.cpp:19-22 | no observers |
| WorkspaceObservers.WorkspaceObserverRegistrar.RegisterInterest | src/workspace_observer.cpp:19-22 | appends the observer |
| WorkspaceObservers.WorkspaceObserverRegistrar.UnregisterInterest | src/workspace_observer.cpp:24-33 | as written: all expired entries and all observers with the same id match; one slot is erased |
| WorkspaceObservers.WorkspaceObserverRegistrar.Advise | src/workspace_observer.cpp:35-63 | each live observer is told, in registration order |
| OutputListeners.Without | src/output_listener.cpp:45-48 | every occurrence of the listener is taken out and every other listener keeps its count |
| OutputListeners.OutputListenerMultiplexer.constructor | src/output_listener.cpp:22-48 | no listeners |
| OutputListeners.OutputListenerMultiplexer.RegisterListener | src/output_listener.cpp:40-43 | appends the listener |
| OutputListeners.OutputListenerMultiplexer.UnregisterListener | src/output_listener.cpp:45-48 | as written: appends the listener again |
| OutputListeners.OutputListenerMultiplexer.RemoveListener | src/output_listener.cpp:45-48 | as intended: the listener is told nothing any more and no other listener is affected |
| OutputListeners.OutputListenerMultiplexer.Forward | src/output_listener.cpp:22-38 | each event goes to each listener entry, in list order |
| OutputListeners.RegisterThenUnregisterTellsTwice | src/output_listener.cpp:40-48 | as written a listener registered then unregistered is told each event twice more; the intended removal tells it nothing |
| SurfaceTrackers.SurfaceTracker.constructor | src/surface_tracker.cpp:22-43 | nothing tracked |
| SurfaceTrackers.SurfaceTracker.Add | src/surface_tracker.cpp:22-26 | `std::map::insert`: a surface already tracked keeps its window; a new one maps to the window |
| SurfaceTrackers.SurfaceTracker.Remove | src/surface_tracker.cpp:28-34 | the surface's entry is dropped; every other entry stays |
| SurfaceTrackers.SurfaceTracker.Get | src/surface_tracker.cpp:36-43 | the window on the surface, or none exactly when untracked |
| SurfaceTrackers.AddKeepsOthers | src/surface_tracker.cpp:22-26 | tracking one surface leaves the others, and a second add changes nothing |
| SurfaceTrackers.RemoveKeepsOthers | src/surface_tracker.cpp:28-34 | removing one surface leaves the others |
| LayoutSchemes.ToString | src/layout_scheme.cpp:21-39 | every layout has a name; only `none` throws |
| LayoutSchemes.NamesRoundTrip | src/layout_scheme.cpp:21-39 | each layout's name leads back to it, so names are distinct |
| LayoutSchemes.NameLookupSound | src/layout_scheme.cpp:21-39 | every known name is the name of the layout it gives |
| LayoutSchemes.NextLayout | src/layout_scheme.cpp:41-47 | the next layout, wrapping to the first instead of reaching `none` |
| LayoutSchemes.CycledWraps | src/layout_scheme.cpp:41-47 | k steps land k further on, wrapping once |
| LayoutSchemes.CyclePeriod | src/layout_scheme.cpp:41-47 | the cycle returns to the start after exactly the number of layouts and not before |
| AnimationDefinitions.EventNamesRoundTrip | src/animation_definition.cpp:24-37 | each event's name is looked up as that event, and a name looked up as an event is exactly its name |
| AnimationDefinitions.EaseFromString | src/animation_definition.cpp:39-108 | a name looked up as an easing function is exactly that function's name |
| AnimationDefinitions.EaseNamesRoundTrip | src/animation_definition.cpp:39-108 | each easing function's name is looked up as that function |
| AnimationDefinitions.TypeNamesRoundTrip | src/animation_definition.cpp:110-125 | each animation type's name round-trips, both ways |
| AnimationDefinitions.LookupIsCaseSensitive | src/animation_definition.cpp:24-125 | an event or type name differing only in letter case is unknown |
| AnimationDefinitions.EaseLookupIsCaseSensitive | src/animation_definition.cpp:39-108 | an easing name differing only in letter case is unknown |
| ContainerGroups.AllTrue | src/container_group_container.cpp:156-176 | the group's answer is yes exactly when every member answers yes |
| ContainerGroups.ContainerGroupContainer.constructor | src/container_group_container.cpp:25-28 | an empty group |
| ContainerGroups.ContainerGroupContainer.Add | src/container_group_container.cpp:30-33 | appends the member |
| ContainerGroups.ContainerGroupContainer.Remove | src/container_group_container.cpp:35-45 | the member and every expired entry go; the others keep their order |
| ContainerGroups.ContainerGroupContainer.ForEachMember | src/container_group_container.cpp:156-176 | every live member is asked in order, and the group succeeds exactly when all do (an empty group succeeds) |
| ContainerGroups.ContainerGroupContainer.IsFocused | src/container_group_container.cpp:268-271 | focused exactly when the active container is the group |
| ContainerGroups.ContainerGroupContainer.FixedAnswers | src/container_group_container.cpp:52-115 | no restore state, minimum size 0, never fullscreen or pinned; `set_parent` and `handle_ready` throw |
| FloatingWindowContainers.MovedBy | src/floating_window_container.cpp:296-330 | down is +y, up is -y, left is -x, right is +x, by exactly the pixels, the other coordinate unchanged |
| FloatingWindowContainers.MoveByUndone | src/floating_window_container.cpp:296-330 | moving by an amount and back the opposite way returns the corner |
| FloatingWindowContainers.Opposite | src/floating_window_container.cpp:296-330 | the other direction on the same axis |
| FloatingWindowContainers.VisibleInJson | src/floating_window_container.cpp:350-403 | a pinned window is visible; any other exactly when its output is active and shows its workspace |
| FloatingWindowContainers.FloatingWindowContainer.constructor | src/floating_window_container.cpp:34-48 | unpinned, nothing saved, the window's state and position |
| FloatingWindowContainers.FloatingWindowContainer.SetPinned | src/floating_window_container.cpp:151-160 | stores the flag, which `pinned()` then reads back |
| FloatingWindowContainers.FloatingWindowContainer.Hide | src/floating_window_container.cpp:207-214 | saves the state, hides the window and sends it back |
| FloatingWindowContainers.FloatingWindowContainer.Show | src/floating_window_container.cpp:189-205 | a pinned window is only raised; otherwise a saved state is applied, the window raised and the state forgotten |
| FloatingWindowContainers.FloatingWindowContainer.HideThenShow | src/floating_window_container.cpp:189-214 | hiding then showing an unpinned window gives back its state, raised |
| FloatingWindowContainers.FloatingWindowContainer.MoveBy | src/floating_window_container.cpp:296-330 | shifts the corner by `MovedBy` and succeeds |
| FloatingWindowContainers.FloatingWindowContainer.Move | src/floating_window_container.cpp:291-294 | `move_by` ten pixels |
| FloatingWindowContainers.FloatingWindowContainer.MoveTo | src/floating_window_container.cpp:332-338 | places the corner and succeeds |
| FloatingWindowContainers.FloatingWindowContainer.FixedAnswers | src/floating_window_container.cpp:74-87 | minimum size 1x1; resize, toggle_fullscreen and select_next refuse; `set_parent` throws |
| Workspaces.WorkspaceToNumber | src/workspace.cpp:456-462 | key 0 is number 10, any other key is one below itself |
| Workspaces.WorkspaceNumbersDistinct | src/workspace.cpp:456-462 | keys 0 to 10 take distinct numbers 0 to 10; key 11 would share 10 with key 0 |
| Workspaces.FilteredMembers | src/workspace.cpp:366-387 | exactly the entries marked as wanted survive the filter |
| Workspaces.FilteredSplit | src/workspace.cpp:366-387 | every entry goes to exactly one side |
| Workspaces.ErasePinned | src/workspace.cpp:366-387 | the erase loop leaves the unmarked entries in order and collects the marked ones in order |
| Workspaces.AllocatedLayout | src/workspace.cpp:103-129 | the hint's type, or the configured layout when the hint has none |
| Workspaces.Workspace.constructor | src/workspace.cpp:67-86 | a new tree with an empty root, no floating windows |
| Workspaces.Workspace.IsEmpty | src/workspace.cpp:428-431 | no tiled container and no floating window |
| Workspaces.Workspace.AddFloatingWindow | src/workspace.cpp:400-406 | appends the floating container |
| Workspaces.Workspace.HasFloatingWindow | src/workspace.cpp:389-398 | list membership |
| Workspaces.Workspace.DeleteContainer | src/workspace.cpp:189-211 | a tiled container leaves the tree, every entry of a floating one leaves the list, any other type is refused with nothing changed |
| Workspaces.Workspace.TransferPinnedTo | src/workspace.cpp:366-387 | pinned windows with a container move in order to the end of the other workspace's list; the rest stay in order |
| Workspaces.Workspace.Graft | src/workspace.cpp:433-454 | a floating window joins the list; a lane or tiled window is handed to the tree (`IntoTree`) and the list is unchanged; any other type is refused |
| Workspaces.Workspace.LayoutContainer | src/workspace.cpp:464-476 | the active container's lane, only when it belongs to this workspace |
| Outputs.InsertSortedAdds | src/output.cpp:112-121 | inserting a workspace adds exactly its key |
| Outputs.InsertSortedKeepsOrder | src/output.cpp:112-121 | inserting keeps the keys in ascending order |
| Outputs.RemoveFirst | src/output.cpp:123-133 | the list without its first entry with the key; unchanged when there is none |
| Outputs.RemoveFirstTakes | src/output.cpp:123-133 | deleting takes away exactly one copy of the key |
| Outputs.RemoveFirstWithin | src/output.cpp:123-133 | deleting introduces no key |
| Outputs.RemoveFirstKeepsOrder | src/output.cpp:123-133 | deleting keeps the keys in ascending order |
| Outputs.WorkspaceRectangle | src/output.cpp:327-335 | a workspace sits at its number times the output width across, at the top, with the output's size |
| Outputs.WorkspaceRectanglesDisjoint | src/output.cpp:327-335 | on an output of positive width the rectangles of two different workspaces 0 to 10 do not overlap |
| Outputs.AllocatedOnOutput | src/output.cpp:87-97 | a shell type (hinted, or suggested when there is no hint) stays shell; the rest go to the active workspace's allocation |
| Outputs.ZonesWithout | src/output.cpp:255-267 | exactly the zones different from the deleted one remain |
| Outputs.ZonesWithoutShrinks | src/output.cpp:255-267 | something is erased exactly when the zone was there |
| Outputs.Output.constructor | src/output.cpp:40-61 | an output over its area with no workspaces, no active key and no zones |
| Outputs.Output.GetActiveWorkspace | src/output.cpp:63-72 | the entry with the active key, or none (the source throws) when it is not listed |
| Outputs.Output.AdviseNewWorkspace | src/output.cpp:112-121 | the key joins the list, which stays sorted, as a multiset one more key |
| Outputs.Output.AdviseWorkspaceDeleted | src/output.cpp:123-133 | the first entry with the key is erased; without one nothing changes; the order is kept |
| Outputs.Output.AdviseWorkspaceActive | src/output.cpp:135-231 | nothing when already active; an unknown key is the fatal error; otherwise the key becomes active, first shown or switched from the previous one, which is to be deleted when left empty |
| Outputs.Output.AdviseZoneCreate | src/output.cpp:233-241 | only a zone containing the whole output is added, and then areas are recalculated |
| Outputs.Output.AdviseZoneUpdate | src/output.cpp:243-253 | the first zone equal to the original is replaced, and areas recalculated exactly when there was one |
| Outputs.Output.AdviseZoneDelete | src/output.cpp:255-267 | every equal zone is erased; recalculated exactly when one was |
| WorkspaceManagers.OwnedUpdate | src/workspace_manager.cpp:21-107 | giving a slot a new owner changes only that key's membership |
| WorkspaceManagers.FreeFrom | src/workspace_manager.cpp:45-63 | the first free slot from a position on, or none exactly when all are taken |
| WorkspaceManagers.FirstFree | src/workspace_manager.cpp:45-63 | the lowest free key from 1 on, else 0; some key exactly when one is free |
| WorkspaceManagers.WorkspaceManager.constructor | src/workspace_manager.cpp:11-19 | every slot free |
| WorkspaceManagers.WorkspaceManager.DeleteWorkspace | src/workspace_manager.cpp:96-107 | a used key is cleared, its owner drops it and the observers hear of it; an unused key answers false and changes nothing |
| WorkspaceManagers.WorkspaceManager.Activate | src/workspace_manager.cpp:109-118 | the owner of a used key activates it and a workspace left empty is deleted |
| WorkspaceManagers.WorkspaceManager.RequestFocus | src/workspace_manager.cpp:109-124 | as written: the key becomes active on its owner, the removals its activation causes are announced, then a focus change whose "previous" key is read after the activation, so it is the new key when the active output owns it; every slot that changes is an announced removal |
| WorkspaceManagers.WorkspaceManager.RequestFocusCorrected | src/workspace_manager.cpp:109-124 | as intended: "previous" is read before the activation, and every slot that changes is an announced removal |
| WorkspaceManagers.WorkspaceManager.RequestWorkspace | src/workspace_manager.cpp:21-43 | a used key answers its owner, an unused one goes to the screen and is announced as created; the key ends up active on the output returned; a newly created key is focused through `RequestFocus`, so its focus notice carries the previous key as read after the activation |
| WorkspaceManagers.WorkspaceManager.Create | src/workspace_manager.cpp:33-40 | the unused key goes to the screen, which lists it |
| WorkspaceManagers.WorkspaceManager.RequestFirstAvailableWorkspace | src/workspace_manager.cpp:45-63 | found exactly when a key is free, and then the `FirstFree` key is active on the screen |
| WorkspaceManagers.WorkspaceManager.MoveActiveToWorkspace | src/workspace_manager.cpp:65-94 | false and nothing changes exactly when there is no active window; otherwise the key is active on its owner |
| Configs.ParseName | src/config.cpp:910-951 | a name that is recognised is read back as exactly that modifier's own name (case-sensitive) |
| Configs.ParseModifier | src/config.cpp:910-951 | the "none" bit comes back exactly when the name is not one of the eighteen accepted names |
| Configs.NamesRoundTrip | src/config.cpp:910-951 | every modifier's name parses back to that modifier and to its bit |
| Configs.BitsDistinct | src/config.cpp:910-951 | two different modifier names never give the same bit |
| Configs.ActionKey | src/config.cpp:289-297 | an unknown `action_key` leaves the primary modifier as it was; a known one sets it to that name's bit |
| Configs.ActionKeyExamples | src/config.cpp:289-297 | meta stays primary after "unknown"; "alt" makes alt primary |
| Configs.Resolve | src/config.cpp:973-974 | a binding without the placeholder bit keeps its modifiers; with it, the result contains the primary modifier and no longer contains the placeholder |
| Configs.WithDefaults | src/config.cpp:1251-1255 | every command with no binding gets exactly its built-in one, every other command keeps its own bindings |
| Configs.FirstAtLeast | src/config.cpp:1047-1054 | the insertion point follows every listener of lower priority and is at the first of at least the same priority |
| Configs.Registered | src/config.cpp:1043-1058 | registering adds exactly the new listener to the list, one longer |
| Configs.RegisteredOrdered | src/config.cpp:1043-1058 | a list ordered by priority stays ordered; the new listener follows the lower priorities and precedes the rest |
| Configs.InsertionPoint | src/config.cpp:1047-1054 | the search loop stops at the first listener of at least the new priority, or at the end |
| Configs.RegisteredKeepsHandles | src/config.cpp:1043-1058 | with handles taken from the counter, registration keeps the handles distinct and below the next counter value |
| Configs.RegisterThenUnregister | src/config.cpp:1043-1070 | unregistering a just-registered listener by its fresh handle restores the previous list |
| Configs.FirstWithHandle | src/config.cpp:1060-1070 | the position found holds the handle and no earlier listener has it |
| Configs.HandleFoundAt | src/config.cpp:1060-1070 | the first listener with the handle is found at its position |
| Configs.UnregisteredKeeps | src/config.cpp:1060-1070 | unregistering keeps priority order and distinct handles, and removes exactly the listener with that handle |
| Configs.HandlePosition | src/config.cpp:1062-1069 | the search loop of `unregister_listener` finds the first listener with the handle, or the end |
| Configs.UnregisteredBelow | src/config.cpp:1060-1070 | unregistering keeps every handle below the counter |
| Configs.Configuration.constructor | src/config.cpp:1124-1255 | meta is the primary modifier, every command has its built-in binding, no listener and no pending change |
| Configs.Configuration.SetActionKey | src/config.cpp:289-297 | the primary modifier follows `ActionKey`; bindings and listeners are unchanged |
| Configs.Configuration.MatchesCustomKeyCommand | src/config.cpp:963-984 | the first custom binding whose action, resolved modifiers and key match; none exactly when no binding matches |
| Configs.Configuration.MatchesKeyCommand | src/config.cpp:986-1011 | commands are offered in slot order and binding order; the press is handled exactly when some firing command is accepted, and none is offered after it |
| Configs.Offer | src/config.cpp:988-1008 | the outer loop offers a prefix of the firing commands, stopping at the first accepted one |
| Configs.OfferSlot | src/config.cpp:990-1007 | the inner loop offers the command once per firing binding until the callback accepts |
| Configs.FiringSplit | src/config.cpp:988-1008 | the offers of the first commands begin the offers of all commands |
| Configs.FiringInSplit | src/config.cpp:990-1007 | the offers of a command's first bindings begin the offers of all its bindings |
| Configs.OverriddenTerminalFiresFirst | src/config.cpp:986-1011 | a user binding of primary+key for the terminal command is the first offer for that press |
| Configs.Configuration.RegisterListener | src/config.cpp:1043-1058 | the listener gets the next handle, the counter advances, and the list becomes `Registered` of the old one |
| Configs.Configuration.RegisterDefaultListener | src/config.cpp:1038-1041 | registration without a priority uses priority 5 |
| Configs.Configuration.UnregisterListener | src/config.cpp:1060-1070 | the listener with the handle is erased; every other listener remains |
| Configs.Configuration.NoteChange | src/config.cpp:883-887 | a modification of the file marks the configuration changed and touches nothing else |
| Configs.Configuration.TryProcessChange | src/config.cpp:892-903 | after a change every listener is told once in list order and the flag clears; without one, nobody is told |
| Configs.Configuration.GetWorkspaceConfig | src/config.cpp:1113-1122 | the first settings with that number, or a tiled workspace of that number when there are none |
| Policies.ResizingRefuses | src/policy.cpp:641-825 | in resizing mode every command other than resize, close and quit is refused |
| Policies.GuardsNeedTheirState | src/policy.cpp:641-825 | resizing is refused outside resizing mode; commands on the active container are refused without one; workspace selection and floating toggling are refused without an active output |
| Policies.NormalPointerAnswerAsWritten | src/policy.cpp:250-272 | the normal-mode answer dereferences the active container exactly when no floating drag is under way and there is no active container |
| Policies.PointerWithoutActiveContainer | src/policy.cpp:263 | a pointer event in normal mode with no active container and no floating drag reaches the missing container |
| Policies.NormalPointerAnswer | src/policy.cpp:250-272 | agrees with the source wherever the source is defined; the floating manager answers during a drag or for a floating active container, otherwise whether a new window was selected |
| Policies.IndexOf | src/policy.cpp:393-402 | the position found holds the element and no earlier position does |
| Policies.Find | src/policy.cpp:393-402 | the search loops find the first position of the element, or the end |
| Policies.Policy.constructor | src/policy.cpp:45-74 | normal mode, no active container or output, no outputs, orphans or pending placement |
| Policies.Policy.ToggleResizeMode | src/policy.cpp:619-639 | without an active leaf the mode becomes normal silently; otherwise normal and resizing swap and the observers hear the new mode |
| Policies.Policy.Try | src/policy.cpp:641-825 | a refused command answers false and changes nothing; moving to a workspace clears the active container; selecting a workspace requests it on the active output |
| Policies.Policy.HandleKeyboardEvent | src/policy.cpp:82-197 | modifiers are masked; a custom binding that fires launches its command and consumes the press; otherwise the press is handled exactly when a built-in command accepts it |
| Policies.Policy.HandlePointerEvent | src/policy.cpp:199-288 | the output under the pointer becomes active and its workspace is focused; a press with the primary modifier starts a selection, one without ends it; in selecting mode a press adds the container to the group; in normal mode the answer is `NormalPointerAnswer` of the drag flag before the event, the active container's type and whether another window was selected, and a floating drag starts on a press and ends on a release |
| Policies.Policy.AdviseFocusGained | src/policy.cpp:353-375 | while selecting the container joins the group; otherwise it becomes the active container |
| Policies.Policy.AdviseFocusLost | src/policy.cpp:377-389 | the active container is cleared only when it is the one losing focus |
| Policies.Policy.AdviseDeleteWindow | src/policy.cpp:391-417 | an orphan leaves the orphan list and nothing else happens; otherwise the container leaves its output and the tracker and is no longer active |
| Policies.Policy.PlaceNewWindow | src/policy.cpp:290-304 | placement succeeds exactly when there is an active output, which is remembered for the new window |
| Policies.Policy.AdviseNewWindow | src/policy.cpp:306-339 | the window goes to the remembered output if it still exists, else to the first output, else to the orphans |
| Policies.Policy.AdviseOutputCreate | src/policy.cpp:431-451 | the output joins the list and asks for a workspace, becomes active when none is, and takes every orphan |
| Policies.Policy.AdviseOutputDelete | src/policy.cpp:465-512 | a known output leaves the list; the last one's windows become orphans, otherwise the first remaining output becomes active and takes them; its workspaces are deleted |
| Policies.AddAll | src/policy.cpp:444-448 | one add effect per orphan, in order |
| Policies.ShellAll | src/policy.cpp:487-491 | one shell-component effect per window, in order |
| Policies.DeleteAll | src/policy.cpp:474-483 | one delete effect per workspace, in order |

## Left out

- Sockets, IPC transport, rendering, the animator thread, Wayland clients and process launching are outside the modelled core.
- The window controller, the miral tools, the launcher and the observers are not modelled as objects. Their calls are modelled as effects the operations return: a list of actions, notices or offers.
- Callbacks (`matches_key_command`'s handler, an observer's reaction) are modelled as function parameters, such as `accepts`.
- Facts that come from outside a method are parameters:
  - whether the output remembered by `place_new_window` still exists (`pendingAlive`);
  - the output under the pointer (`under`);
  - a window's container.
- The YAML, file and inotify reading of `config.cpp` (`_init`, `_reload`, `_watch`, `read_animation_definitions`, `parse_color`) is not modelled. A reload is only the change flag it sets (`NoteChange`).
- Mir's modifier bit values and the Linux `KEY_*` codes come from headers that are not part of this model. Their values are constants here, and the proofs only use that they are distinct.
- `next_listener_handle`'s initial value is not visible, so it is the constructor's `firstHandle` parameter.
- `NUM_WORKSPACES` is not visible, so it is the workspace manager's `count`.
- The enum values of `LayoutScheme` are not visible, so `NextLayout` works on the value and the value of `none`.
- `insert_sorted`'s definition is not visible. `Outputs.InsertSorted` is the insertion the name and its use imply.
- Floating point: `double` ratios in layout and resize code are exact integer floor and ceiling division.
- The i3 `ppt` conversion (`float`) and the `position center` halving are modelled with exact integer division truncating toward zero, as the conversion back to `int` truncates; `float` rounding of large values is not modelled.
- LaneLayout: where the source divides by a zero lane extent (an infinite or NaN `double` converted to `int`, which is undefined), the model keeps the child's size.
- The caller of `I3CommandExecutor::process` is not modelled: an exception that leaves `process` (`std::out_of_range` from `std::stoi`, `std::bad_optional_access` from `value()`) ends the list of calls with a `Threw` entry, and a null dereference with a `NullDereference` entry; what happens after them is outside the model.
- `meets_criteria` (regular-expression matching of criteria against windows) is left out. Criteria are parsed, not evaluated.
- Parent back-pointers and `shared_ptr` aliasing are not modelled.
  - The tiling tree is a value with paths.
  - Containers and windows are identified by unique ids.
  - Code that holds a pointer across a change finds the node again by id.
- `handle_select` reassigns a reference (`auto& current_node = from; current_node = parent;`). The model climbs the tree, which is what the loop evidently intends.
- `Policy::advise_output_update`, the application-zone fan-out in `policy.cpp`, `handle_modify_window`, the raise/move/resize request forwarding, `confirm_placement_on_display` and `handle_window_ready` are left out. They only forward to the miral tools or to an output.
- `handle_touch_event` always answers false and is left out.
- Transforms, borders, colours, rendering state and JSON output other than the floating window's `visible` flag are left out.
- Outputs.Output.GetActiveWorkspace: the source throws when the active key is not on the list; the model answers `None`.
- LayoutSchemes.ToString: the `logic_error` thrown for any other value is modelled as `None`.
- ContainerGroups.ContainerGroupContainer.FixedAnswers: the exceptions thrown by `set_parent` and `handle_ready` are modelled as false `setParentOk` and `handleReadyOk` results.
- FloatingWindowContainers.FloatingWindowContainer.FixedAnswers: the exception thrown by `set_parent` is modelled as a false `setParentOk` result.
- I3Command: a scan that reads past the end of its input (no closing `]`, an unterminated token) is undefined behaviour in the source. It is modelled as an `Overrun` outcome rather than a precondition.
- The boundary test at `src/i3_command.cpp:67` indexes the view with a boolean instead of comparing. It is modelled as written, so a bare `all`, `floating` or `tiling` prefix always matches.
- ObserverRegistrars.ObserverRegistrar.UnregisterInterest: with no matching entry the source's `erase(end())` is undefined, so a match is its precondition.
- ParentContainers.ParentContainer.ConfirmWindow: without a pending leaf the source calls `mir::fatal_error`; the model returns `None` and changes nothing instead of ending the program.
- ParentContainers.ParentContainer.ConvertToParent: for a container that is not a child the source calls `mir::fatal_error`; the model returns `false` and changes nothing instead of ending the program.
- TilingWindowTrees.TilingWindowTree.Hide: the per-window `hide()` and `commit_changes()` are returned as the list of windows they apply to; the leaf containers themselves are not updated (their own `hide` is `LeafContainers.LeafContainer.Hide`).
- TilingWindowTrees.TilingWindowTree.Show: the per-window `show()` and `commit_changes()` are not applied to the leaf containers; which windows are fullscreen after showing is the `fullscreenWindows` parameter, and the raises are returned as a list.
- Workspaces.Workspace.Graft: the tree's own `graft` is not part of this model, so a lane or tiled window only yields the `IntoTree` tag; `set_workspace` on a floating window is not modelled, as containers are identities.
- Policies.Policy.HandlePointerEvent: in normal mode without an active container and without a floating drag the source asks a null pointer for its type (`PointerWithoutActiveContainer`); the model answers as for a container that is not floating.
- TilingWindowTrees.Wrapped: wrapping the root in a new lane keeps the old root's area; the `recalculate_root_node_area` call that follows it in the source is not modelled.
- Outputs.Output: `delete_container` only passes the container to the workspace that holds it, which is `Workspaces.Workspace.DeleteContainer`; the hand-over itself has no member.
- `LaneLayout`: the lane and resize arithmetic is modelled on sequences of child areas inside `ParentContainer`. The children themselves are not updated in place.

## Findings

| source | as written | input that shows it | evidently intended | confidence | as-written member | corrected member |
|---|---|---|---|---|---|---|
| src/i3_command_executor.cpp:100-124 | `process_exec` looks for `--no-startup-id` as the first argument, but the parser files every token starting with `--` under options | `exec --no-startup-id gedit` launches `gedit` without the flag | the flag is honoured when given among the options | not executed | I3CommandExecutor.ParsedExecNeverFlagged | I3CommandExecutor.ExecCorrected |
| src/container.cpp:100-132 | `has_neighbor` passes the excluded index up unchanged, so at an ancestor the right/bottom test compares the ancestor's index with the last index of the innermost lane | a lone window in the left vertical lane of a horizontal root is said to have no right neighbour, and the middle of three in the right lane is said to have one | a neighbour exists after the node iff some ancestor of the same direction has a later child | not executed | Container.NeighborsDiffer | Container.HasNeighborAfterCharacterised |
| src/observer_registrar.h:39-45 | `erase(remove_if(...))` erases a single slot, so only one of several matching entries goes | an observer registered twice is still registered after one unregister | every matching entry is erased (`erase(it, end())`) | not executed | ObserverRegistrars.DuplicateSurvivesErase | ObserverRegistrars.ObserverRegistrar.UnregisterAll |
| src/workspace_observer.cpp:7-33 | `NEXT_ID` is never incremented, so every observer has id 0 and unregistering matches them all | after registering `a` then `b`, unregistering `b` leaves `b` and removes `a` | ids are distinct and only the given observer is removed | not executed | WorkspaceObservers.UnregisterRemovesOtherObserver | WorkspaceObservers.DistinctIdsUnregisterOnlyThat |
| src/output_listener.cpp:45-48 | `unregister_listener` appends the listener again instead of removing it | a listener registered then unregistered is told of each event twice | unregistering removes the listener | not executed | OutputListeners.RegisterThenUnregisterTellsTwice | OutputListeners.OutputListenerMultiplexer.RemoveListener |
| src/workspace_manager.cpp:109-124 | `request_focus` reads the active output's workspace after activating the new one, so the "previous" workspace sent to observers is the new one | focusing workspace 2 on the active output while 1 is active reports 2 as previous | the workspace that focus leaves is reported | not executed | WorkspaceManagers.WorkspaceManager.RequestFocus | WorkspaceManagers.WorkspaceManager.RequestFocusCorrected |
| src/policy.cpp:250-272 | in normal mode `state.active->get_type()` is called even when there is no active container | a pointer event with an active output, no active container and no floating drag | no active container counts as not floating | not executed | Policies.PointerWithoutActiveContainer | Policies.NormalPointerAnswer |
| src/tiling_window_tree.cpp:497-531 | the proposed `int` size is compared with the `size_t` minimum, so a negative size becomes a huge unsigned value and the resize goes ahead | resize jump 150 growing the second of two 100-wide containers of a 200-wide lane, minimum 50: the areas become -50 and 250 wide | a resize that would leave any container at or below its minimum is abandoned | not executed | TilingWindowTrees.NegativeSizeResizes | TilingWindowTrees.ResizeCorrectedKeepsMinimums |
