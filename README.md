# Point-entry table of the Gaussian-process interpolator

The `PointInputTable` component (`frontend/src/PointInputTable.jsx`) of the
interpolator's front end lets a user type rows of labelled sample points
`{x, y, value}` into a table and hands every edited or shortened list to its
parent through the `onPointsChange` callback. (In the repository's own
`frontend/src/App.jsx`, the page collects its points by clicking and a
`prompt`, and does not render this table.) The component keeps the rows as an
insertion-ordered list, starting with the single row `{0, 0, 1.0}`, and
changes it through three event handlers:

- **add** appends a default row `{0, 0, 1.0}`;
- **remove** keeps every row whose position differs from the given index
  (so an index outside the list removes nothing);
- **change** overwrites one property of one row with `parseFloat` of the typed
  text.

Change and remove hand the new list to the parent's `onPointsChange`
callback; add does not.

This project models that state machine in Dafny:

- `points.dfy`, module `Points`: the values. `Number` is a JavaScript number
  as the table sees it (finite, NaN or an infinity); `Point` is a row; `Field`
  names its three properties. `Get`/`Set` read and write a property, and
  `Appended`, `WithoutIndex` (defined as the position filter
  `FilterOutPosition`) and `Updated` are the new lists the three handlers
  compute. Their contracts and the lemmas beside them characterise each one:
  removal as slice removal with re-indexing, edits as touching one property of
  one row, and how the operations undo or absorb each other.
- `point_input_table.dfy`, module `Table`: class `PointInputTable` with the
  `points` field and a `notified` field that logs every list handed to
  `onPointsChange`. Its constructor and its methods `HandleAddPoint`,
  `HandleRemovePoint` and `HandleChange` state the whole new state in terms of
  the functions above. `Session` is a small client that runs the handlers in
  sequence and checks what the contracts let a caller conclude.

`parseFloat` is a parameter of `HandleChange` (a total function from text to
`Number`), so nothing is assumed about how text is parsed.

## Model

| member | source | states |
|---|---|---|
| `Points.Set` | frontend/src/PointInputTable.jsx:9 | after `p[f] = v` the named property is `v` and the other two properties are unchanged |
| `Points.PointsAgreeingOnEveryField` | frontend/src/PointInputTable.jsx:4 | helper of the value model (rows as values, not objects): a row value is determined by its `x`, `y` and `value` properties |
| `Points.SetIsUnique` | frontend/src/PointInputTable.jsx:9 | any row with `v` at the written property and the old values elsewhere is the written row |
| `Points.Appended` | frontend/src/PointInputTable.jsx:16 | the appended list is one longer, starts with the old list and ends with `{0, 0, 1.0}` |
| `Points.FilterOutPosition` | frontend/src/PointInputTable.jsx:21 | keeps, in order, every row whose position differs from `index`: exactly one row fewer when `index` is a position of the list, the same length otherwise, and never a row that was not there; `FilterOutPositionIsSliceRemoval` states what the result equals |
| `Points.FilterOutPositionIsSliceRemoval` | frontend/src/PointInputTable.jsx:21 | the filter `i !== index` drops exactly the element at `index` when it is in range and keeps every element otherwise |
| `Points.WithoutIndex` | frontend/src/PointInputTable.jsx:21 | removing an in-range index yields `points[..index] + points[index+1..]`, one shorter; an out-of-range index leaves the list identical |
| `Points.WithoutIndexReindexes` | frontend/src/PointInputTable.jsx:20-22 | rows before the removed one keep their positions, rows after it move up by one, and exactly one copy of the removed row leaves the multiset |
| `Points.WithoutIndexUndoesAppended` | frontend/src/PointInputTable.jsx:15-22 | removing the last row undoes adding a default row |
| `Points.Updated` | frontend/src/PointInputTable.jsx:8-9 | an edit keeps the length, leaves every other row unchanged, sets the named property of the edited row and keeps its other two |
| `Points.UpdatedWithCurrentValueIsIdentity` | frontend/src/PointInputTable.jsx:8-9 | writing a property with the value it already holds leaves the list unchanged |
| `Points.UpdatedTwiceKeepsLast` | frontend/src/PointInputTable.jsx:8-9 | two edits of the same property of the same row amount to the second one |
| `Points.UpdatesOfDistinctFieldsCommute` | frontend/src/PointInputTable.jsx:8-9 | edits of two different properties of a row can be applied in either order |
| `Table.PointInputTable.constructor` | frontend/src/PointInputTable.jsx:4 | the table starts with exactly one row `{x: 0, y: 0, value: 1.0}` and has notified the parent of nothing |
| `Table.PointInputTable.HandleAddPoint` | frontend/src/PointInputTable.jsx:15-17 | the list grows by one default row at the end, earlier rows unchanged and in order; `onPointsChange` is not called |
| `Table.PointInputTable.HandleRemovePoint` | frontend/src/PointInputTable.jsx:20-24 | the new state is the list without position `index` (unchanged if `index` is out of range) and `onPointsChange` receives exactly that new state |
| `Table.PointInputTable.HandleChange` | frontend/src/PointInputTable.jsx:7-12 | for an in-range index only the named property of that row becomes `parseFloat(text)` and `onPointsChange` receives exactly the new state; for any other index the handler fails with a TypeError and neither the state nor the parent changes |

## Left out

- Rows are values. In the component, `handleChange` copies the array
  shallowly and then assigns the property on the row object that the previous
  array (and any list the parent received earlier) shares, so lists handed to
  `onPointsChange` before an edit change along with it. The model's
  `notified` log keeps each list as it was when it was handed over; the current
  state and the most recent notification agree in both.
- `HandleChange` takes the property name as one of `x`, `y`, `value` (the
  only names the table's inputs pass); an arbitrary property name, which in
  JavaScript would add a new property to the row, is not modelled. Indices
  are integers, as the table's rows supply them.
- `parseFloat` is not modelled: its result is whatever the caller's parser
  function gives, including NaN.
- The JSX rendering of the table (`frontend/src/PointInputTable.jsx:26-74`)
  is presentation only.
- React's batching of state updates is not modelled: each handler runs on the
  state left by the previous one.
- `frontend/src/App.jsx` (click-to-coordinate arithmetic, `prompt`, the
  `fetch` call to the predictor and the plot) and `backend/src/main.py` (the
  HTTP endpoint around scikit-learn's Gaussian-process regressor and numpy
  grids) are I/O and floating-point library code and are not part of this model.
- Entropy, cross-entropy and KL divergence, the debounced recomputation, the
  out-of-range coordinate warning and the empty-submission validation do not
  appear in the component's source and are not part of this model.
