# ConfigDropdown: a verified model of the configuration menu's dropdown

This project models the dropdown widget of StardewConfigMenu, the in-game
configuration menu. The widget is a button next to a background panel. Pressing
it opens the panel into one row per choice of the bound selection option.
Dragging moves a hovered row. Releasing commits the hovered row and closes the
panel. While the panel is open, the selected choice is listed first and the
other choices follow in their original order.

The model keeps the widget's state: the two rectangles, the hovered row, the
active-component flag and the bound selection object. It also keeps the index
and string decisions of the draw routine. It proves these properties:

- The rectangle setters keep the button flush against the panel and the panel at least 15 wide.
- A press, drag or release that the guards reject changes nothing.
- Opening sets the panel height and keeps the hovered row inside the list.
- The open panel lists every choice exactly once.
- The commit rule selects exactly the choice listed in the hovered row, and keeps the selected index in range.

Files:

- `rectangles.dfy`: the host's integer rectangle with half-open membership.
- `config_selection.dfy`: the bound selection option (`IConfigSelection`) and its choices.
- `dropdown_rules.dfy`: the pure rules: hovered-row arithmetic, the commit rule, the visual order and the closed-state face.
- `config_dropdown.dfy`: the widget class `ConfigDropdown`, with its setters, handlers and draw decisions.
- `wrappers.dfy`: `Option`, standing in for a null help text.

Host globals become parameters: the viewport height, the pointer position and
the "available for selection" test. The host's one-active-component registry is
the widget's `active` field. Registering is assumed to take effect at once, so
the drag called from a press sees the widget as active.

The button's size comes from the host's tile, which is not part of this model.
It is a constructor parameter, and its height must be positive because rows are
computed by dividing by it.

A drag tests the pointer against the panel before pulling the panel up into the
viewport (lines 88-89), not against the moved panel. The model follows the code.

A release resets only the panel's height (line 105). A panel that a drag pulled
up keeps its raised top edge after closing, so the closed panel can sit above
its button. The model keeps this too.

## Model

| member | source | states |
|---|---|---|
| `Components.ConfigDropdown.constructor` | StardewConfigMenu/Menu/Components/ConfigDropdown.cs:58-64 | The widget starts closed and inactive at (x, y). The panel is `max(width - buttonWidth, 15)` wide and one row tall. The button sits at the panel's right edge. The layout invariant holds. |
| `Components.ConfigDropdown.SetX` | StardewConfigMenu/Menu/Components/ConfigDropdown.cs:20-26 | X reads back the value set. Only the panel's x changes, and the button moves to the panel's new right edge. |
| `Components.ConfigDropdown.SetY` | StardewConfigMenu/Menu/Components/ConfigDropdown.cs:27-33 | Both rectangles get the new top edge, and nothing else changes. |
| `Components.ConfigDropdown.SetWidth` | StardewConfigMenu/Menu/Components/ConfigDropdown.cs:35-42 | The panel width becomes `max(v - buttonWidth, 15)`, so Width is at least `15 + buttonWidth`. Width reads back `v` when `v - buttonWidth >= 15`. The button moves to the panel's right edge. |
| `Components.ConfigDropdown.ReceiveLeftClick` | StardewConfigMenu/Menu/Components/ConfigDropdown.cs:66-82 | When the press is disabled, unavailable or misses both rectangles, nothing changes. Otherwise the widget becomes active and the panel is `buttonHeight * N` tall. The hovered row is 0, or the dragged row when the opened panel holds the point, and it lies in `[0, N-1]`. The selected index is unchanged. |
| `Components.ConfigDropdown.LeftClickHeld` | StardewConfigMenu/Menu/Components/ConfigDropdown.cs:84-92 | Nothing changes unless the widget is enabled, active and the point is on the panel. Otherwise the panel top becomes `min(top, viewportHeight - height)`, so it never moves down. The hovered row becomes the clamped row under the pointer. The selected index is untouched. |
| `Components.ConfigDropdown.ReleaseLeftClick` | StardewConfigMenu/Menu/Components/ConfigDropdown.cs:94-106 | An inactive widget is unchanged. An active one always becomes inactive and closes to one row. The selected index changes only through the commit of the hovered row, only when the point is on the panel and the widget is enabled. An in-range index stays in range and becomes the choice listed in the hovered row. |
| `Components.ConfigDropdown.SelectHoveredOption` | StardewConfigMenu/Menu/Components/ConfigDropdown.cs:108-113 | The bound selection's index becomes the commit of the hovered row: unchanged for row 0, otherwise `hovered` when it exceeds the old index and `hovered - 1` when it does not. |
| `Components.ConfigDropdown.Draw` | StardewConfigMenu/Menu/Components/ConfigDropdown.cs:123-151 | The loop with its separate row counter lists exactly the visual order. When the pointer is on the panel, exactly the hovered row is highlighted, and that row lists the choice a commit would pick. Closed, the widget shows the guarded closed face. |
| `Components.ConfigDropdown.X` | StardewConfigMenu/Menu/Components/ConfigDropdown.cs:20-21 | X reads the panel's left edge. |
| `Components.ConfigDropdown.Y` | StardewConfigMenu/Menu/Components/ConfigDropdown.cs:27-28 | Y reads the button's top edge, which a drag never moves. |
| `Components.ConfigDropdown.Height` | StardewConfigMenu/Menu/Components/ConfigDropdown.cs:34 | Height is the button's height, one row, whether or not the panel is open. |
| `Components.ConfigDropdown.Width` | StardewConfigMenu/Menu/Components/ConfigDropdown.cs:35-36 | Width is the panel's width plus the button's width. |
| `Components.ConfigDropdown.Enabled` | StardewConfigMenu/Menu/Components/ConfigDropdown.cs:45 | The widget is enabled exactly when the choice list is non-empty and the bound option is enabled. Each handler's contract states its guard in terms of it. |
| `Components.ConfigDropdown.ContainsPoint` | StardewConfigMenu/Menu/Components/ConfigDropdown.cs:66-68 | A press hits the widget when the point is in the panel or in the button, by half-open membership. |
| `DropdownRules.Commit` | StardewConfigMenu/Menu/Components/ConfigDropdown.cs:108-112 | The commit rule: row 0 keeps the selected index; another row `h` gives `h` when `h` exceeds the old index and `h - 1` otherwise. Its meaning is stated by `CommitPicksDrawnRow`, `CommitInRange` and `CommitReachesEveryChoice`. |
| `DropdownRules.RowOf` | StardewConfigMenu/Menu/Components/ConfigDropdown.cs:135-145 | The open-panel row at which a choice is listed: 0 for the selected one, one further down for choices before it, its own index for choices after it. `VisualOrderIsPermutation` proves it inverts the listing. |
| `DropdownRules.ClosedFaceAsWritten` | StardewConfigMenu/Menu/Components/ConfigDropdown.cs:146-157 | The closed-state draw as written. A negative index fails at the label read on line 151. The label is blank at or past the end of the list. For an enabled widget under the pointer, the help text is read without a guard on line 154. `ClosedViewAgrees` states exactly when it fails. |
| `Components.FiveChoiceScenario` | StardewConfigMenu/Menu/Components/ConfigDropdown.cs:70-113 | An example that drives press, drag and release through the handlers' contracts alone: five choices with index 2 selected, pressed on row 0, dragged to and released on row 3, leaves index 3 selected and the widget inactive. |
| `DropdownRules.HoverRow` | StardewConfigMenu/Menu/Components/ConfigDropdown.cs:90 | The row is in `[0, N-1]`. It is the row whose band holds `y` when `y` is within the panel, 0 above the panel, and `N-1` below it. |
| `DropdownRules.Others` | StardewConfigMenu/Menu/Components/ConfigDropdown.cs:135-145 | The choices other than the selected one, each in range and none equal to the selection. There are `N-1` of them when the selection is in range. |
| `DropdownRules.VisualOrder` | StardewConfigMenu/Menu/Components/ConfigDropdown.cs:133-145 | The open panel's row listing has one row per choice when the selected index is in range. |
| `DropdownRules.OthersAt` | StardewConfigMenu/Menu/Components/ConfigDropdown.cs:136-144 | The k-th non-selected entry is `k`, shifted to `k + 1` once the skipped selection has been passed. |
| `DropdownRules.VisualOrderIsPermutation` | StardewConfigMenu/Menu/Components/ConfigDropdown.cs:133-145 | Row 0 lists the selection. Rows `1..N-1` list the other indices in strictly ascending order. All rows are distinct and in range, and every choice `i` is listed at row `RowOf(i)`. So the listing is a permutation of `0..N-1`. |
| `DropdownRules.CommitPicksDrawnRow` | StardewConfigMenu/Menu/Components/ConfigDropdown.cs:108-145 | For an in-range selection and any row `p` of the open panel, committing row `p` selects exactly the index listed at row `p`. |
| `DropdownRules.CommitInRange` | StardewConfigMenu/Menu/Components/ConfigDropdown.cs:108-113 | Committing any row `1..N-1` gives an index in `[0, N-1]` that differs from the previous one, in range or stale. |
| `DropdownRules.CommitReachesEveryChoice` | StardewConfigMenu/Menu/Components/ConfigDropdown.cs:112 | Every choice `i` is reached by committing row `RowOf(i)`. |
| `DropdownRules.FiveChoiceExample` | StardewConfigMenu/Menu/Components/ConfigDropdown.cs:133-145 | With five choices and index 2 selected, the rows list 2, 0, 1, 3, 4. Row 3 commits 3 and row 2 commits 1. |
| `DropdownRules.ClosedLabelGuard` | StardewConfigMenu/Menu/Components/ConfigDropdown.cs:151 | Without a hover, the closed label is empty when the index is at or past the end of the list, and otherwise the selected choice's text. |
| `DropdownRules.StaleIndexTooltipFails` | StardewConfigMenu/Menu/Components/ConfigDropdown.cs:151-157 | As written, a stale index on an enabled, hovered, closed widget fails on the help-text read. |
| `DropdownRules.ClosedView` | StardewConfigMenu/Menu/Components/ConfigDropdown.cs:146-158 | A help text is shown only for an enabled widget under the pointer with a selected index inside the list. |
| `DropdownRules.ClosedViewAgrees` | StardewConfigMenu/Menu/Components/ConfigDropdown.cs:146-158 | The closed-state code as written fails exactly for a negative index, or for a stale index while the enabled widget is hovered. Wherever it does not fail, it shows the same face as the guarded version. |

## Left out

- Rendering is left out: sprite batches, fonts, text measurement, colours, the 0.33 alpha of a disabled widget, the label drawn at line 121, word-wrapping and the tooltip box. These are host graphics calls. Draw keeps only the row indices, the highlighted row and the closed face's strings.
- The feedback sound on a press (line 80) has no state, so the `playSound` parameter is dropped.
- `Visible` (lines 46-51) is not modelled. Hit-testing of the button is plain half-open rectangle membership. The host library's button component, which may also consult visibility, is not part of this model.
- `Label` (line 44) is only drawn, so it is not modelled.
- The base control's registry (`RegisterAsActiveComponent`, `IsActiveComponent`, `IsAvailableForSelection`) is not part of this model. It is replaced by the `active` field and the `available` parameter.
- Only the widget itself clears its `active` flag. Another control taking the active slot is not modelled. In the source that would end this widget's active status without line 105 collapsing the panel, so the closed-panel height in `Valid` would no longer hold.
- The two-argument constructor (line 56) only delegates with `x = y = 0`, so it is covered by the four-argument constructor.
- The background's initial rectangle from the host is not part of this model. It does not matter, because the constructor sets all four of its coordinates.
- Integers are unbounded. Coordinates, widths and `buttonHeight * N` are assumed to fit in 32 bits, so C# wrap-around is not modelled.
- Line 90 routes the clamp through a float (`0f`). The model uses integer arithmetic, which gives the same value for these small non-negative integers.
- Components.ConfigDropdown.Draw: requires an in-range selected index while open. As written, line 133 indexes the list with it unguarded and throws otherwise, and that exception is not modelled.
- Components.ConfigDropdown.Draw: the closed branch shows the guarded face where the source throws. Line 151 throws for a negative selected index, pointer or not. Line 154 throws for a stale index (at or past the end of the list) when the enabled widget is under the pointer. `ClosedFaceAsWritten` keeps both failures and `ClosedViewAgrees` names them.
- Components.ConfigDropdown.Valid: assumes the host does not change the bound choice list while the panel is open. A shrinking list could leave the hovered row past the end of the list.

## Findings

| source | as written | input that shows it | evidently intended | confidence | as-written member | corrected member |
|---|---|---|---|---|---|---|
| StardewConfigMenu/Menu/Components/ConfigDropdown.cs:151-154 | Line 151 guards the label read against `SelectedIndex >= Count`. Line 154 then reads `DropdownOptions[SelectedIndex].HoverText` with no guard when the enabled, closed widget is under the pointer. | One choice `[A]`, `SelectedIndex = 1`, option enabled, widget closed, pointer over the panel: the label is blank, then the help-text read is out of range. | A stale index shows a blank label and no help text. | medium, not executed (the host's selection object might never hold a stale index) | `DropdownRules.ClosedFaceAsWritten`, exhibited by `DropdownRules.StaleIndexTooltipFails` | `DropdownRules.ClosedView`, related by `DropdownRules.ClosedViewAgrees` and used by `Components.ConfigDropdown.Draw` |
