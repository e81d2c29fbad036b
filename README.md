# User management dashboard: a verified model of its record-list state machine

The `Dashboard` component of the User-Management-System keeps a table of user
records (first name, last name, email, gender, phone number) purely in memory.
It holds three state cells: the rows (`userDetails`), the form buffer
(`formState`), and the index of the row being edited (`selectedIndex`, where
-1 means "none"). Six event handlers change them: a form field edit, Save
(append), Delete on a row, a click on a row (load it for editing), Update
(write the form back to the selected row), and Clear.

This project models that state machine in Dafny as the code is written:

- `users.dfy` (module `Users`): the `User` record, the `Field` enum naming the
  five input controls, and the field read/write functions `Get`/`With`.
- `transitions.dfy` (module `Transitions`): the three cells as a `State`
  value, one pure function per handler, runs of UI events (`Event`, `Apply`,
  `Run`) from the state at mount, and the lemmas about them.
- `dashboard.dfy` (module `DashboardComponent`): the component as a class
  `Dashboard` with fields `records`, `form` and `sel`. Each handler is a
  `modifies this` method whose postcondition gives the whole new state field
  by field, and also as the matching `Transitions` function of the old
  `Snapshot()`. Two client methods replay two walk-throughs (the Alice edit, and
  Save while editing) on a mounted component using only the handlers'
  contracts.

Behaviour kept exactly as the code has it:

- Save appends the form and clears it, but never resets the selection. Pressing
  Save while a row is selected adds a copy and leaves the selection set. The
  source's own comment at line 46 ("Add new user if selectedIndex is -1")
  describes a guard that line 47 does not have, which suggests that saving
  while editing was not meant to append.
- Delete resets the form and selection only when the deleted index is the
  selected one. Deleting a lower row keeps the old index, which then names a
  different row (`DeleteBelowShiftsSelection`). It can even point past the
  last row (`StaleSelectionReachable`). So "the selection is none or a valid
  row" is not an invariant, and no contract claims it. `DeleteKeepsSelectionInRange`
  says exactly when Delete keeps it. A later Update then overwrites the wrong
  row (`StaleUpdateOverwritesWrongRow`), or, when the stale index equals the
  row count, appends the form as a new row (`StaleUpdateAppends`).
- `gender` is a plain string, not an enumeration: the form starts with it
  empty, and the core never checks it against the offered options.
- The handlers validate nothing. The "fields are non-empty when saved" rule is
  enforced only by the browser's `required` attribute, so it is not a property
  of the model.

## Model

| member | source | states |
|---|---|---|
| `Users.With` | src/components/Dashboard.js:25-31 | writing field `f` sets exactly that field to the value; every other field keeps its value |
| `Users.WithOwnValue` | src/components/Dashboard.js:25-31 | re-entering the value a field already holds leaves the record unchanged |
| `Users.WithTwice` | src/components/Dashboard.js:25-31 | a later edit of the same field overrides an earlier one |
| `Users.WithCommutes` | src/components/Dashboard.js:25-31 | edits of two different fields can happen in either order |
| `Users.BlankIsUnique` | src/components/Dashboard.js:10-16 | the reset form is the one record whose five fields are all empty |
| `Transitions.InputChange` | src/components/Dashboard.js:25-31 | the changed field takes the value; other form fields, the rows and the selection are unchanged |
| `Transitions.Submit` | src/components/Dashboard.js:34-57 | one more row; earlier rows are unchanged; the new last row is the pre-call form; the form is all empty; the selection is unchanged |
| `Transitions.Delete` | src/components/Dashboard.js:60-76 | one row fewer; rows before `i` keep their place; rows after shift down by one; the form and selection are reset iff `i` is the selected index, otherwise both are unchanged |
| `Transitions.Initial` | src/components/Dashboard.js:10-22 | at mount there are no rows, the form is all empty and nothing is selected |
| `Transitions.StoreAt` | src/components/Dashboard.js:94-95 | the element assignment replaces element `i` (same length) or, at `i` equal to the length, appends; either way element `i` is the value and every other element is unchanged |
| `Transitions.RowClick` | src/components/Dashboard.js:79-89 | the form becomes row `i` and `i` is selected; the rows are unchanged |
| `Transitions.UpdateRow` | src/components/Dashboard.js:92-112 | with no selection nothing changes; with a selected row, same length, that row becomes the form and other rows are unchanged; with a stale selection equal to the row count, the form is appended; in both cases form all empty, selection -1 |
| `Transitions.ClearForm` | src/components/Dashboard.js:115-124 | the form is all empty and the selection -1; the rows are unchanged |
| `Transitions.FillSetsForm` | src/components/Dashboard.js:25-31 | typing the five fields of a user into any form makes the form exactly that user and changes nothing else |
| `Transitions.EnterAppends` | src/components/Dashboard.js:34-57 | entering and saving users one after another appends them in order after the existing rows and never changes the selection |
| `Transitions.SelectionNeverBelowMinusOne` | src/components/Dashboard.js:22-124 | no run of events from a state with selection at least -1 takes it below -1 |
| `Transitions.OthersKeepSelectionInRange` | src/components/Dashboard.js:25-124 | every handler other than Delete keeps "selection is none or a valid row" |
| `Transitions.DeleteKeepsSelectionInRange` | src/components/Dashboard.js:60-76 | Delete keeps the selection in range if and only if it does not delete a row below the selection while the last row is selected |
| `Transitions.DeleteBelowShiftsSelection` | src/components/Dashboard.js:66-75 | deleting a row below the selection keeps the index, which then names the row that followed the selected one |
| `Transitions.StaleSelectionReachable` | src/components/Dashboard.js:60-89 | from mount, save a and b, click row 1, delete row 0: one row remains and the selection is 1, past the last row |
| `Transitions.StaleUpdateAppends` | src/components/Dashboard.js:60-112 | continuing that run, Update stores the form at index 1, the row count, so the rows become [b, b] with no selection |
| `Transitions.StaleUpdateOverwritesWrongRow` | src/components/Dashboard.js:60-112 | in rows [a, b, c], click row 1, delete row 0, press Update: the rows become [b, b] |
| `Transitions.ClickThenUpdateKeepsRecords` | src/components/Dashboard.js:79-112 | clicking a row and pressing Update without editing leaves the rows as they were and clears the selection |
| `Transitions.EditOneField` | src/components/Dashboard.js:79-112 | click row `i`, change field `f` to `v`, press Update: the rows become the old rows with only field `f` of row `i` changed |
| `Transitions.SaveWhileEditing` | src/components/Dashboard.js:34-89 | Save while row `i` is selected keeps all old rows, appends a copy of row `i` and keeps `i` selected |
| `Transitions.EditScenario` | src/components/Dashboard.js:25-112 | save Alice Smith; select her, change her last name to Jones, press Update; delete her: the rows are [Alice Smith], then [Alice Jones] with no selection, then empty |
| `Transitions.ClearIdempotent` | src/components/Dashboard.js:115-124 | Clear twice gives the same state as Clear once |
| `Transitions.ClearDiscardsEdits` | src/components/Dashboard.js:115-124 | Clear after a field edit or a row click gives the same state as Clear alone |
| `DashboardComponent.Dashboard.constructor` | src/components/Dashboard.js:10-22 | at mount there are no rows, the form is all empty and nothing is selected |
| `DashboardComponent.Dashboard.HandleInputChange` | src/components/Dashboard.js:25-31 | exactly form field `f` becomes `v`; the other fields, the rows and the selection are unchanged |
| `DashboardComponent.Dashboard.HandleSubmit` | src/components/Dashboard.js:34-57 | `records == old(records) + [old(form)]`; the form is all empty; the selection is unchanged, even while editing |
| `DashboardComponent.Dashboard.HandleDelete` | src/components/Dashboard.js:60-76 | `records == old(records)[..index] + old(records)[index+1..]`; if `index` was selected, empty form and selection -1; otherwise form and selection unchanged |
| `DashboardComponent.Dashboard.HandleRowClick` | src/components/Dashboard.js:79-89 | the form becomes row `index` and `index` is selected; the rows are unchanged |
| `DashboardComponent.Dashboard.HandleUpdateRow` | src/components/Dashboard.js:92-112 | with selection -1 nothing changes; with a selected row `records == old(records)[old(sel) := old(form)]`; with a stale selection equal to the row count `records == old(records) + [old(form)]`; then empty form, selection -1 |
| `DashboardComponent.Dashboard.HandleClearForm` | src/components/Dashboard.js:115-124 | the form is all empty and the selection -1; the rows are unchanged |
| `DashboardComponent.EditWalkThrough` | src/components/Dashboard.js:25-112 | on a mounted component, the Alice walk-through gives [Alice Jones] with no selection after Update, then no rows after Delete |
| `DashboardComponent.SaveWhileEditingWalkThrough` | src/components/Dashboard.js:34-89 | with rows [a, b] and row 0 selected, Save gives [a, b, a] and row 0 stays selected |

## Left out

- Rendering, the table and form markup and the stylesheet (lines 3 and 126-223): presentation only.
- The routed `username` greeting (lines 6-7 and 128): read-only input from the router, not used by any handler.
- The browser's `required` and `type="email"` checks on the inputs (lines 133-183): the browser enforces them before Save fires, not the handlers.
- `e.preventDefault()` and `e.stopPropagation()` (lines 35 and 215): DOM event plumbing. The model assumes what they ensure: Save does not reload the page (which would reset all three cells), and a click on a row's Delete button is not also a click on the row (which would run the row-click handler after the delete).
- React's batching of state setters and asynchronous re-rendering: each handler is one atomic transition over the current state.
- `Transitions.UpdateRow`: requires the selection to be -1 or at most the row count. When a stale selection equals the row count the source's element assignment appends the form, and the model does the same. A stale selection greater than the row count (select the last row, then delete two rows below it) would make the assignment leave holes in the array; that JavaScript sparse-array behaviour is excluded, and `Transitions.Run` returns `None` for a run that reaches it.
- `DashboardComponent.Dashboard.HandleUpdateRow`: same precondition as `Transitions.UpdateRow`, for the same reason.
- `DashboardComponent.Dashboard.HandleDelete` and `DashboardComponent.Dashboard.HandleRowClick`: require the index to name an existing row, since the source only calls them from a rendered row (lines 207-215). `Transitions.Run` returns `None` for a run that breaks this, rather than modelling out-of-range JavaScript indexing.
- Object identity of rows: the source copies records field by field, and the model treats records as values, so aliasing between rows and the form is not modelled (it cannot be observed, since no record is ever mutated in place).
