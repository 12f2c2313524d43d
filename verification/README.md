# Crossword arranger: the grid model and its edit-mode state machine

This project models the core of a browser-based crossword-grid editor. The
editor shows a rectangular grid of cells. The user switches between three edit
modes: `char` (type letters), `type` (click a cell to cycle it through text,
filled and empty) and `hint` (type hint numbers). The `Crossword` object keeps
one `Cell` record per grid position. It keeps that record in step with the
cell's DOM node whenever the mode changes.

The DOM is modelled as an abstract view record per cell node (`Cells.CellView`).
Each record holds:
- the text field's value;
- the hint label's inner HTML;
- the label's `style.visibility`;
- the `invisible` class of each of the two children;
- the node's `filled` / `empty` class markers.

Everything is immutable values and pure functions over sequences.

- `optional.dfy` (`Optional`): `Option`, which stands for `null` and for a
  failed `parseInt`.
- `cell_ids.dfy` (`CellIds`): `split('-')`, `pop()`, the all-digit `parseInt`,
  the DOM id `"cell-" + n`, and `Cell.getCellId`. It proves that split and join
  are inverses, that number text and its parse are inverses, and that
  `getCellId` reads back every id written at node creation.
- `cells.dfy` (`Cells`): the `Cell` record, the view record, `Cell.createDOM`,
  the type read from the markers, and the marker cycle of `changeCellType`
  together with `toggleCellChildrenVisibility`.
- `crossword.dfy` (`Crosswords`): the `Crossword` state, the construction loop
  of `createDOM`, the two hint-mode passes, `changeMode`, `changeCellType`, and
  the mode guard of `handleCellClick`.
- `session.dfy` (`Session`): user events (mode buttons, clicks, typing) and
  runs of events. It proves an invariant of every reachable state, the
  hint-mode round trips, the three-click cycle, and the design's worked
  examples.

Where the design description and the code disagree, the model follows the code:
- **The stored type.** The design says `Cell.type` is kept in sync with the
  markers. The code never writes it after construction, so the type lives only
  in the markers (`Cells.TypeOf`). `Session.StoredTypeLagsMarkers` shows the two
  disagreeing after one click.
- **Entering hint mode.** The design says entering hint mode shows the hint
  indicator. The code collapses the label (`index.js:144`), and leaving hint
  mode makes it visible again (`index.js:136`).
- **Hint number type.** The design calls the hint number an integer. The code
  stores the field's string (`index.js:133`), so `hintNum` is an
  `Option<string>`.
- **Mode description.** The design says the description panel shows the new
  mode. The code looks it up before assigning the new mode (`index.js:153-154`),
  so on every accepted change `description` is the mode being left.
- **Rejected requests.** The design says an invalid mode request leaves the
  state untouched. From hint mode, the code has already flushed the hint fields
  by the time it rejects the request (`index.js:129-138`, `150`).

## Model

| member | source | states |
|---|---|---|
| CellIds.Split | index.js:34 | `split('-')` yields at least one piece, and no piece contains the separator |
| CellIds.SplitJoin | index.js:34 | joining the pieces of any string with `-` gives the string back |
| CellIds.JoinSplit | index.js:34 | splitting a join of separator-free pieces gives the same pieces back |
| CellIds.LastTokenAfterSeparator | index.js:34 | `split('-').pop()` of `prefix + "-" + t` is `t` for any prefix, including one with its own separators |
| CellIds.NatToDigits | index.js:49 | the text written for an id is a non-empty run of digits with no separator and no leading zero |
| CellIds.DigitsRoundTrip | index.js:34 | parsing the decimal text of `n` gives `n` |
| CellIds.DigitsValuePositive | index.js:34 | a numeral with no leading zero is at least 1, and at least 10 when it has two or more digits |
| CellIds.CanonicalDigits | index.js:34 | a numeral with no leading zero is exactly the decimal text of its value (the converse of `DigitsRoundTrip`) |
| CellIds.GetCellIdAfterPrefix | index.js:32-35 | `getCellId(prefix + "-" + n)` is `n` whatever the prefix |
| CellIds.GetCellIdOfDomId | index.js:49 | `getCellId("cell-" + n)` is `n`: the id written at node creation reads back exactly |
| CellIds.CellDomIdInjective | index.js:49 | two cells have the same DOM id exactly when they have the same id |
| CellIds.GetCellIdCanonical | index.js:34 | when `getCellId` returns `n` and the last piece has no leading zero, that piece is the decimal text of `n` |
| CellIds.GetCellIdExamples | index.js:34 | `cell-42` reads 42, `cell-7-extra-9` reads 9, and `cell-` and `cell-x` read as no number |
| Cells.NodeOf | index.js:37-64 | a cell's node shows its text in the field, `<sup>hint</sup>` in the label only when a hint is set, and starts visible, unmarked and coherent |
| Cells.CycleMarkers | index.js:166-179 | a type-mode click moves the displayed type to the next one in the cycle text, filled, empty, and never sets both markers. It flips both children exactly when entering or leaving text, leaves field and label alone, and keeps a coherent node coherent |
| Cells.NextTypeCycle | index.js:166-179 | the type cycle has no fixed point and period three |
| Cells.CycleMarkersThrice | index.js:166-179 | three clicks restore a node's markers and child visibility when it does not carry both markers |
| Cells.CycleMarkersBothSet | index.js:167-169 | a node carrying both markers is not restored by three clicks |
| Crosswords.ParseMode | index.js:140-151 | a requested string is a mode exactly when it is one of the three mode names |
| Crosswords.Populate | index.js:99-105 | each pass of the loop appends `new Cell(i)` and its node. Existing cells and nodes are kept, and the mode is untouched |
| Crosswords.CreateDom | index.js:98-105 | `createDOM` appends `rows * cols` text cells with ids 0 to N-1, no hint and no text, each with an empty, visible, coherent node. On a fresh crossword the result is well formed |
| Crosswords.NodeCellIndex | index.js:132 | the index recovered from the `k`-th node's DOM id is `k` |
| Crosswords.LeaveHint | index.js:129-138 | leaving hint mode stores each field's text as its cell's hint number and rebuilds the label as `<sup>` + that text + `</sup>`. It makes the label visible and puts the cell's text back in the field; markers, ids and types are untouched |
| Crosswords.EnterHint | index.js:140-147 | entering hint mode collapses every label, saves each field's text as its cell's text and shows the cell's hint number in the field (empty when unset). Markers, ids and types are untouched |
| Crosswords.ChangeMode | index.js:119-156 | the same mode is accepted with no change. A request is accepted exactly when it names a mode, and then the mode becomes it and the description shows the outgoing mode. A rejected request keeps the mode and, except from hint mode, the whole state; from hint mode it leaves the hint flush applied. A type/char switch changes no cell and no node. Leaving and entering hint mode apply the two flushes |
| Crosswords.FirstNodeWithId | index.js:166 | the search returns the first node carrying the DOM id. It returns none only when no node from the start position carries it |
| Crosswords.NodeWithId | index.js:166 | the node found for `cell-<id>` carries that DOM id. In a well-formed state it is node `id` when that node exists, and `null` otherwise |
| Crosswords.ChangeCellType | index.js:158-181 | outside type mode it returns false and changes nothing. In type mode it changes no cell, mode or description, and every node either stays as it was or moves one step along the cycle. In a well-formed state it throws exactly when the id has no node; otherwise it returns true, moves node `id` to the next type, and leaves every other node as it was |
| Crosswords.HandleCellClick | index.js:184-194 | outside type mode a click does nothing. In type mode a click on the `k`-th node cycles exactly that node, and a click never changes cells, mode or description |
| Session.Step | index.js:209-214 | a user event keeps the state well formed, the grid size and every stored cell type |
| Session.InitialGrid | index.js:85-105 | after load the mode is `char` and there are `rows * cols` cells. Cell `i` has id `i`, type text, no hint and no text, and its node is empty and unmarked. The invariant holds |
| Session.PageGrid | index.js:244-248 | the page's 7 by 6 grid has 42 cells, starts in `char` mode, and cell 0 is text with no hint |
| Session.StepKeepsInv | index.js:119-181 | every event keeps the invariant: one cell and one node per position, coherent nodes, stored types unchanged, labels collapsed exactly in hint mode |
| Session.RunKeepsInv | index.js:119-181 | any sequence of events keeps the invariant |
| Session.Reachable | index.js:109-181 | in every state reachable from load, each node's children are invisible exactly when it is filled or empty, and no node is both filled and empty |
| Session.StoredTypeLagsMarkers | index.js:158-181 | after one type-mode click a node shows filled while its cell's stored type is still text |
| Session.HintRoundTrip | index.js:129-147 | from `char` or `type`, going to hint mode and back restores every field. Each cell's text becomes what its field showed, its hint number and label come from the hint field, and markers are untouched |
| Session.HintEditRoundTrip | index.js:129-147 | text typed into a field in hint mode becomes that cell's hint number and label after leaving, and the cell's letters come back into the field |
| Session.CatSurvivesHintMode | index.js:135-145 | "CAT" typed in `char` mode reads "CAT" again after a trip through hint mode |
| Session.FiveBecomesHint | index.js:133-134 | "5" typed in hint mode becomes hint number "5" and label `<sup>5</sup>` after leaving |
| Session.RejectedRequestInHintMode | index.js:129-151 | a rejected request in hint mode returns false but flushes: the hint numbers take the field values and the fields show the letters while the mode stays hint. The next change out of hint mode then stores each cell's letters as its hint number |
| Session.ThreeClicksRestore | index.js:158-194 | three type-mode clicks on the same node give back the state clicked in, when the node does not carry both markers |

## Left out

- DOM construction and styling are not modelled. This covers `createElement`, class names, `maxLength`, `overflow`, the grid template and `getElementsByClassName`. A node is its view record, and the `k`-th node's DOM id is `"cell-" + cells[k].id`.
- Event-listener wiring, `initCrosswordUI`, the `active-button` class toggling of `handleModeChangeClick` and `console.log` are left out as UI glue. A mode button is modelled as `changeMode` with that button's mode name. The button handler's early return on the active button has the same effect as `changeMode`'s same-mode case.
- The mode-description text is not modelled. `description` records only which mode's text the panel shows.
- Full `parseInt` semantics are not modelled: whitespace, signs, `"12abc"` and `NaN` arithmetic. Only an all-digit last piece is read, and anything else is `None`.
- The browser's coercion of a `null` hint number written into an input is not modelled. An unset hint shows as the empty field (`Cells.HintDisplay`).
- Typing is modelled as any string stored in a field (`Session.Edit`). The browser's 5-character `maxLength` limit on typed input is not modelled.
- JavaScript numbers are modelled as `nat`: `rows`, `cols` and cell ids are never negative or fractional in the source.
- Calling `createDOM` twice is modelled (`CreateDom` appends again). The later operations take a well-formed state, which only a single `createDOM` on a fresh crossword gives.
- Unique-hint validation, "start over", save and versioned save are not implemented in the source, so they are not modelled.
- A `TypeError` raised inside an event handler is modelled as `None`, and the event then leaves the state unchanged (`Session.Step`). In every such case the throw happens before any update.
