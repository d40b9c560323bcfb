# SelectPills: the pill multi-select input as a verified state machine

`SelectPills` is a typeahead multi-select widget. It shows the chosen names as
removable pills and offers a filtered list of catalog items under a query box.
You can also type a name that is not in the catalog and add it with Enter.
The widget keeps four pieces of state: the query text (`inputValue`), the
ordered list of selected names (`selectedPills`), whether the popover is open
(`isOpen`), and the keyboard cursor into the filtered list (`highlightedIndex`,
where -1 means none). It receives three props: the catalog (`data`), an optional
controlled selection (`value`) and `disabled`.

The model has three modules:

- `Text` (text.dfy) models the JavaScript string built-ins the widget uses:
  `trim`, `toLowerCase` (ASCII letters only) and `includes`.
- `PillsInput` (select_pills.dfy) holds the catalog item, the option filter
  `FilterItems`, the removal filter `Without`, and the class `SelectPills`.
  The class has the four state cells as fields and one method per event
  handler. `FilteredItems()` is recomputed from the current fields, as
  `filteredItems` is on every render. The invariant `Valid()` says that the
  cursor is -1 or indexes an option currently offered. Every handler keeps it.
- `PillsScenarios` (scenarios.dfy) holds worked examples. One is the query
  "le" over the catalog Finance, Legal, HR. The others are client sessions:
  focus on a fresh widget, a custom entry, removal while disabled, and cursor
  moves over two options. The sessions are proved from the handlers'
  contracts alone.

Each handler is atomic. It reads the state as it was at the last render and
writes the new state, as React's batched setters do. A handler that calls
`onValueChange` returns `emitted`: the list of arguments of those calls, in order.

Three behaviours of the code differ from what an idealised widget would do.
The model keeps them as written:

- The option filter hides only the names in the internal `selectedPills`,
  even when a controlled `value` is given. Only the open checks and the pill
  display use `value || selectedPills`.
- Removal drops every occurrence of the name, not only the first one.
- Enter in the query box adds the trimmed query whether or not an option is
  highlighted and whether or not the name is already selected. So the
  selection can hold duplicates.

## Model

| member | source | states |
|---|---|---|
| `Text.Trim` | packages/ui/src/components/select-pills.tsx:74-76 | `trim` gives the empty string exactly when every character is ECMAScript whitespace or a line terminator; otherwise its result neither starts nor ends with one (`TrimIsSlice` and `TrimUnique` pin the result down completely) |
| `Text.TrimIsSlice` | packages/ui/src/components/select-pills.tsx:56 | what `trim` keeps is a prefix of a suffix of the input, that is one contiguous slice, with only trimmable characters dropped before and after it |
| `Text.TrimUnique` | packages/ui/src/components/select-pills.tsx:74-76 | the trimmed string is unique: any non-empty slice that starts and ends with a kept character and has only trimmable characters around it is the result of `trim` |
| `Text.TrimIdempotent` | packages/ui/src/components/select-pills.tsx:76 | trimming an already trimmed query changes nothing |
| `Text.ToLower` | packages/ui/src/components/select-pills.tsx:46 | case folding keeps the length, folds each character on its own and leaves no upper-case ASCII letter |
| `Text.ToLowerIdempotent` | packages/ui/src/components/select-pills.tsx:46 | folding a folded string changes nothing |
| `Text.Includes` | packages/ui/src/components/select-pills.tsx:46 | `includes` holds exactly when the needle occurs at some offset of the haystack |
| `Text.IncludesFolded` | packages/ui/src/components/select-pills.tsx:46 | a name that contains the query verbatim still contains it once both are folded |
| `Text.IncludesEmpty` | packages/ui/src/components/select-pills.tsx:46 | every string includes the empty string |
| `PillsInput.CustomItem` | packages/ui/src/components/select-pills.tsx:76 | the free-text item has no id and no value, its name is the trimmed query, and the name is empty exactly when the query is blank |
| `PillsInput.Matches` | packages/ui/src/components/select-pills.tsx:45-47 | the filter test: a selected name never matches; with the empty query exactly the unselected names match; a name that contains the query verbatim matches whatever its case, unless selected |
| `PillsInput.FilterItems` | packages/ui/src/components/select-pills.tsx:44-48 | the options are exactly the catalog items whose folded name contains the folded query and whose name is not in `selectedPills`, each as often as in the catalog, in catalog order |
| `PillsInput.FilterEmptyQuery` | packages/ui/src/components/select-pills.tsx:44-48 | with an empty query the options are the catalog minus the selected names, in catalog order |
| `PillsInput.EmptyQueryOffersAll` | packages/ui/src/components/select-pills.tsx:44-48 | with no selection and an empty query the options are the whole catalog |
| `PillsInput.FilterAntitone` | packages/ui/src/components/select-pills.tsx:47 | selecting fewer names never hides an option: the old options appear in order among the new ones |
| `PillsInput.Without` | packages/ui/src/components/select-pills.tsx:163 | removal drops every occurrence of the name and keeps all other names, with their multiplicity, in order |
| `PillsInput.WithoutAbsent` | packages/ui/src/components/select-pills.tsx:163 | removing a name that is not selected leaves the list unchanged |
| `PillsInput.WithoutIdempotent` | packages/ui/src/components/select-pills.tsx:163 | removing a name twice gives the same list as removing it once |
| `PillsInput.RemoveAfterSelect` | packages/ui/src/components/select-pills.tsx:149-163 | if a name is not in the list, selecting it and then removing it restores the list exactly |
| `PillsInput.HasUnselectedItems` | packages/ui/src/components/select-pills.tsx:213-215 | "some catalog name is not in the selection" holds exactly when the empty query would offer at least one option against that selection. A whitespace-only query still asks only this test, so the popover can open over fewer options |
| `PillsInput.SelectPills.FilteredItems` | packages/ui/src/components/select-pills.tsx:44-48 | the current options: no more than the catalog holds, and an item is offered exactly when it is in the catalog and matches the current query and internal selection, so no offered name is selected |
| `PillsInput.SelectPills.constructor` | packages/ui/src/components/select-pills.tsx:37-40 | initial state: empty query, closed popover, no highlight, selection from `value` if given and otherwise from `defaultValue` |
| `PillsInput.SelectPills.HandleInputChange` | packages/ui/src/components/select-pills.tsx:50-68 | typing stores the text and resets the cursor to -1. The popover opens exactly when the trimmed text is non-empty or some catalog name is not in `value \|\| selectedPills` |
| `PillsInput.SelectPills.HandleItemSelect` | packages/ui/src/components/select-pills.tsx:148-160 | appends the item's name, clears the query, closes the popover and resets the cursor. It reports the new list once, and the name is no longer offered |
| `PillsInput.SelectPills.HandleKeyDown` | packages/ui/src/components/select-pills.tsx:70-95 | Enter: a no-op on a blank query, otherwise it selects the trimmed query as a custom item. ArrowDown: highlights option 0 only when the popover is open and there are options. Escape: closes the popover. Other keys: no change |
| `PillsInput.SelectPills.HandleRadioKeyDown` | packages/ui/src/components/select-pills.tsx:97-146 | at cursor i: ArrowDown moves to i+1 only when i < len-1. ArrowUp moves to i-1 when i > 0, else to -1. Enter selects option i when it exists and is a no-op at -1. Escape closes the popover |
| `PillsInput.SelectPills.HandlePillRemove` | packages/ui/src/components/select-pills.tsx:162-168 | the selection becomes `Without(old, name)` and is reported once. Query, popover and cursor are unchanged, and the old options stay a subsequence of the new ones. With a controlled `value` the pills shown (`value \|\| selectedPills`, line 182) stay as they were; only the internal list, against which the options are filtered, changes |
| `PillsInput.SelectPills.ClickBadge` | packages/ui/src/components/select-pills.tsx:186 | when disabled, nothing changes and nothing is reported; otherwise it is a removal |
| `PillsInput.SelectPills.ClickRemoveButton` | packages/ui/src/components/select-pills.tsx:193-201 | the remove button exists only when not disabled. The click runs the button handler and then the badge handler, both built from the same list, so the state is that of one removal and the new list is reported twice. This assumes that the Badge component puts its `onClick` on an element that wraps the button |
| `PillsInput.SelectPills.HandleOpenChange` | packages/ui/src/components/select-pills.tsx:170-177 | sets `isOpen` to the requested value; nothing else changes |
| `PillsInput.SelectPills.HandleFocus` | packages/ui/src/components/select-pills.tsx:211-219 | focus opens the popover when some catalog name is not in `value \|\| selectedPills` or the query is not blank. It never closes the popover |
| `PillsInput.SelectPills.ClickCustomHint` | packages/ui/src/components/select-pills.tsx:278-282 | a click on the "add custom value" hint selects the trimmed query when it is not blank, and otherwise does nothing |
| `PillsScenarios.QueryLeOffersLegal` | packages/ui/src/components/select-pills.tsx:44-48 | over the catalog Finance, Legal, HR with nothing selected, the query "le" offers exactly Legal |

## Left out

- `PillsInput.SelectPills.ClickRemoveButton`: the double report assumes that
  the click bubbles from the remove button to the badge's handler. That holds
  when the Badge component of `@comp/ui/badge` attaches its `onClick` to an
  element wrapping its children. `@comp/ui/badge` is not part of this model.
- Rendering: the Badge, Input and Popover components, class names, placeholder
  texts, the hint and empty-state panels, and the accessibility attributes.
  Only the three click handlers whose logic is written in the component are
  modelled: badge, remove button and custom hint. An option's click and its
  radio's change call `handleItemSelect` directly, which is `HandleItemSelect`.
- DOM effects are not modelled: focusing, blurring, `querySelector`,
  `scrollIntoView` and the `requestAnimationFrame` deferrals. A disabled input
  receives no events, but that is the browser's doing. The input handlers are
  modelled as the component defines them.
- `HandleRadioKeyDown` takes no index parameter. Its only caller, the option
  group's `onKeyDown` (select-pills.tsx line 241), passes the current
  `highlightedIndex`, and the model binds the index to that field.
- The option list's `data-testid` slug depends on Unicode lower-casing and a
  regular expression. It is an automation hook only and is not modelled.
- `Text.ToLower`: folds only the ASCII letters A-Z, not the full Unicode
  lower-casing of `toLowerCase`.
- Strings are sequences of Unicode scalar values, not UTF-16 code units.
- `data`, `value` and `disabled` are fixed for the life of a model object.
  A change of these props on a later render, and the reconciliation that would
  follow, is not modelled.
- `onValueChange` is a caller's callback. The model returns the arguments it
  would receive rather than calling it. Without a callback those calls are
  simply not made, which changes no state.
- The other files of the repository are not part of this model: the header
  (session lookup and data fetch), the animated icon button, the menu-cookie
  action, the page-view tracker and the policy dialog. They are I/O or
  animation with no widget logic.
