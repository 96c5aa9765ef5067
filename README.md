# DwGridLayout in Dafny

This project models `DwGridLayout`, a Vaadin component that lays out user
components on a fixed grid of `amountOfColumns × amountOfRows` cells.

Each cell is a wrapper div. A wrapper carries:

- the class markers `cell-pos-col-<c>` and `cell-pos-row-<r>`;
- the marker `cell-content-default` while it holds only the grid's own empty placeholder;
- an optional tooltip (its title);
- inline style properties;
- exactly one child.

The wrappers live in the column-major matrix `colRowCellMatrix[col][row]`.
The root div shows them in row-major order.

The model has four layers:

- **Cells** (`cells.dfy`, module `Cells`): the wrapper as a value. It covers
  `createCell`, the coordinate check `validateCoordinates` with its exception
  texts, and raw indexing of the matrix.
- **GridModel and GridFacts** (`grid_model.dfy`): the matrix as a value
  `Grid`, with a closed form for each pass of the component:
  - the visiting order of `iterateOverMatrixAndExecute`;
  - the root's children after a reload;
  - the border pass;
  - the `removeIf` of `setStriped` and the colour each wrapper ends with.
- **DwGridLayout** (`grid_layout.dfy`, class `GridLayout`): the component
  itself, as imperative code.
  - The matrix is an `array2<Cell>` field, which `addComponent` replaces by a fresh array.
  - The border and stripe loops update that array in place.
  - The root's children are a sequence field that the reload clears and refills.
  - Each method is proved against the closed forms. `Valid()` holds before and after every public operation.
- **GridProperties** (`properties.dfy`): what a user of the component can rely on, stated over those closed forms.

Wrapper identity is modelled by an `id` field.

- A newly created wrapper takes the component's `nextId` counter.
- The root's children are the ids of the wrappers it holds.
- User components are opaque `Token`s.
- The grid's own empty placeholder div is `Placeholder`.

Errors are values:

- `validateCoordinates` fails with `ColumnOutOfBounds` or `RowOutOfBounds` (Java's IllegalArgumentException).
- Indexing the matrix out of range fails with `ArrayIndexOutOfBounds`.

Two behaviours of the code are worth knowing:

- **Borders are never removed.** The border pass only sets style properties. A
  wrapper keeps an inner edge it received in an earlier reload, even after its
  row or column has lost all content. So "a wrapper has a bottom edge if and
  only if its row holds content" does not hold of the code. What holds is
  "a bottom edge if its row holds content, or if it had one before"
  (`BorderedEdges`). `StaleInnerEdge` shows a concrete case. The model follows the code.
- **`setDisplayBorder` only sets the flag.** The edges appear at the next
  reload, which happens in `addComponent` or `addTooltipForComponent`.

## Model

| member | source | states |
|---|---|---|
| Text.NatToString | DwGridLayout.java:104-105 | Java's decimal rendering of an index: digits only, with no leading zero |
| Text.Repeat | DwGridLayout.java:33 | String.repeat: n copies of the string, n times its length; TemplateColumns gives its blocks |
| Text.ParseNatToString | DwGridLayout.java:104-105 | the decimal rendering of an index that Java's string concatenation produces reads back as that index |
| Text.NatToStringInjective | DwGridLayout.java:104-105 | distinct indices give distinct renderings |
| Cells.RowMarker | DwGridLayout.java:104 | the row marker is the prefix "cell-pos-row-" followed by decimal digits |
| Cells.ColumnMarker | DwGridLayout.java:105 | the column marker is the prefix "cell-pos-col-" followed by decimal digits |
| Cells.SetStyle | DwGridLayout.java:56 | getStyle().set: the property has the value afterwards; every other property keeps its presence and value; nothing but the style changes |
| Cells.RemoveStyle | DwGridLayout.java:189 | getStyle().remove: the property is absent afterwards; every other property keeps its presence and value; nothing but the style changes |
| Cells.Message | DwGridLayout.java:116-121 | the two exception texts, character for character; MessageReportsIndex states what they report |
| Cells.MarkersAreDistinct | DwGridLayout.java:17-19 | a row marker, a column marker and the default marker never coincide |
| Cells.MarkersIdentifyPosition | DwGridLayout.java:104-105 | a position marker names exactly one row (or column) index |
| Cells.CreateCell | DwGridLayout.java:102-113 | a new wrapper has the given id, no title and no style; it carries both position markers; its one child is the component or a placeholder; it carries the default marker if and only if there is no component |
| Cells.DefaultMarksPlaceholder | DwGridLayout.java:106-111 | in a well-formed wrapper the default marker is present exactly when the child is the placeholder |
| Cells.MessageReportsIndex | DwGridLayout.java:116-121 | each IllegalArgument message starts with "ColumnIndex " or "RowIndex ", then the offending index in decimal, then a space |
| Cells.ValidateCoordinates | DwGridLayout.java:115-122 | passes if and only if both indices are in range; every failure is an IllegalArgument; the column is checked first, then the row, each error carrying the index and the bound |
| Cells.MatrixAccess | DwGridLayout.java:177 | unchecked indexing passes if and only if both indices are in range; the column index is applied first; a failure is the array's own error, never IllegalArgument |
| GridModel.InitialGrid | DwGridLayout.java:41-42 | the matrix after initCellMatrix, of the given size; InitialGridWellFormed and InitialPlaceholders state its properties |
| GridModel.Row | DwGridLayout.java:77-83 | the wrappers of one row, left to right (the value GetCellsOfRow is proved to return) |
| GridModel.HasContent | DwGridLayout.java:57-58 | the anyMatch of the border pass: some wrapper lacks the default marker |
| GridModel.Traversal | DwGridLayout.java:94-100 | the visiting order of iterateOverMatrixAndExecute, row by row; TraversalAt states which coordinate each visit is |
| GridModel.RowMajor | DwGridLayout.java:45-47 | the ids the root holds after a reload; RowMajorAt states which wrapper sits at each index |
| GridModel.Replace | DwGridLayout.java:140-145 | the matrix with one wrapper replaced: the given wrapper at (c, r) and every other coordinate unchanged |
| GridModel.WithTitle | DwGridLayout.java:177 | the matrix with a tooltip on the wrapper at (c, r), that wrapper otherwise unchanged, every other coordinate unchanged |
| GridModel.Reloaded | DwGridLayout.java:45-52 | the matrix after reloadGridComposite: bordered when the flag is on, otherwise untouched, same shape |
| GridModel.Bordered | DwGridLayout.java:54-75 | the matrix after displayBorder, of the old shape; BorderedEdges states each wrapper's edges and BorderedRestyles that only styles change |
| GridModel.ComponentAt | DwGridLayout.java:131-135 | fails exactly when validateCoordinates fails, with its error; otherwise gives the child of the wrapper at the coordinate |
| GridModel.SameMarkersSameContent | DwGridLayout.java:57-58 | whether a row or column holds content depends only on the wrappers' classes |
| GridModel.SameClassesSameContent | DwGridLayout.java:67-68 | the anyMatch over a list of wrappers depends only on their classes |
| GridModel.TraversalAt | DwGridLayout.java:94-100 | the traversal has rows·cols visits, and visit number row·cols + col is the coordinate (col, row) |
| GridModel.RowMajorAt | DwGridLayout.java:45-47 | the root's child at index row·amountOfColumns + col is the wrapper at (col, row), the coordinate the traversal visits at that index |
| GridModel.RowMajorSameIds | DwGridLayout.java:45-47 | grids holding the same wrappers everywhere give the same root children |
| GridModel.Kept | DwGridLayout.java:201 | removeIf leaves no more groups than were listed, each a valid row (or column) index holding content; membership is exact by KeptMembers and the order is kept by KeptIncreasing |
| GridModel.KeptIncreasing | DwGridLayout.java:191-201 | the groups left by removeIf are in increasing index order, as they were listed |
| GridModel.KeptMembers | DwGridLayout.java:201 | a group survives removeIf if and only if it was listed and holds content |
| GridModel.KeptAt | DwGridLayout.java:201-205 | the k-th surviving group holds content, and exactly k surviving groups come before it |
| GridModel.KeptComplete | DwGridLayout.java:201-205 | a group with content survives, at the index given by the number of groups with content before it |
| GridModel.Rank | DwGridLayout.java:201-205 | the index a group with content gets in the list after removeIf: the number of groups with content before it, at most its own index |
| GridModel.Coloured | DwGridLayout.java:203-209 | whether the stripe loop colours a group: it holds content and its rank has the parity startWithColor picks |
| GridModel.StripedCell | DwGridLayout.java:189-207 | one wrapper after setStriped: it has a background exactly when its group is coloured, and then the given colour; every other property and everything but the style is kept |
| GridModel.Striped | DwGridLayout.java:188-210 | the matrix after setStriped, of the old shape; StripedAlternates, StripedEmptyLine and StripedOnlyBackground state what each wrapper ends with |
| GridModel.KeptSameMarkers | DwGridLayout.java:189-201 | which groups survive depends only on classes, so removing backgrounds first does not change it |
| GridFacts.SameWrappersKeep | DwGridLayout.java:45-47 | a pass that only restyles wrappers keeps the matrix well formed, keeps the root's children, and keeps which groups hold content |
| GridFacts.SameIdsDistinct | DwGridLayout.java:177 | a change that keeps the wrapper at every coordinate keeps them pairwise distinct |
| GridFacts.BorderedRestyles | DwGridLayout.java:54-75 | the border pass changes style properties only |
| GridFacts.StripedRestyles | DwGridLayout.java:188-210 | setStriped changes style properties only |
| GridFacts.InitialGridWellFormed | DwGridLayout.java:41-42 | after initCellMatrix every wrapper carries its own position markers, all ids are below cols·rows, and no two coordinates share a wrapper |
| GridFacts.VisitIndexInjective | DwGridLayout.java:94-100 | distinct coordinates are visited at distinct positions row·cols + col, so initCellMatrix creates a distinct wrapper for each |
| GridFacts.ReplaceWellFormed | DwGridLayout.java:140-145 | a fresh wrapper at (c, r) with the next id keeps the matrix well formed, including that no two coordinates share a wrapper |
| GridFacts.WithTitleWellFormed | DwGridLayout.java:177 | a tooltip keeps the matrix well formed |
| DwGridLayout.GridLayout.constructor | DwGridLayout.java:28-39 | the new grid has the given size and borders off; the root's style is display grid, grid-template-columns "min-content " repeated once per column, overflow-x auto and width 100%; the matrix is the initial grid of placeholders; the invariant holds |
| DwGridLayout.GridLayout.InitCellMatrix | DwGridLayout.java:41-43 | every coordinate gets a placeholder wrapper, with ids numbered in visiting order; cols·rows wrappers are created |
| DwGridLayout.GridLayout.InitRow | DwGridLayout.java:96-98 | one row of the traversal creates consecutive ids left to right and touches no other row |
| DwGridLayout.GridLayout.ReloadGridComposite | DwGridLayout.java:45-52 | afterwards the root shows every wrapper in row-major order; the matrix is bordered if and only if the flag is on and is unchanged otherwise; the invariant holds |
| DwGridLayout.GridLayout.ShowWrappers | DwGridLayout.java:46-47 | removeAll followed by adding every wrapper in visiting order makes the root's children the row-major list of ids |
| DwGridLayout.GridLayout.DisplayBorder | DwGridLayout.java:54-75 | the matrix becomes the bordered form of the old matrix: both loops over rows and columns together |
| DwGridLayout.GridLayout.BorderRows | DwGridLayout.java:55-64 | column 0 gets a left edge in every row; every wrapper of a row with content gets a bottom edge; content is judged on the matrix as it was before the pass |
| DwGridLayout.GridLayout.BorderColumns | DwGridLayout.java:65-74 | row 0 gets a top edge in every column; every wrapper of a column with content gets a right edge |
| DwGridLayout.GridLayout.SetStyleAlongRow | DwGridLayout.java:60-62 | one property is set on every wrapper of one row, and all other wrappers are untouched |
| DwGridLayout.GridLayout.SetStyleAlongColumn | DwGridLayout.java:70-72 | one property is set on every wrapper of one column, and all other wrappers are untouched |
| DwGridLayout.GridLayout.GetCellsOfRow | DwGridLayout.java:77-83 | returns the wrappers of the row, left to right |
| DwGridLayout.GridLayout.GetCellsOfColumn | DwGridLayout.java:85-92 | returns the wrappers of the column, top to bottom |
| DwGridLayout.GridLayout.GetComponent | DwGridLayout.java:131-135 | an out-of-range coordinate gives the validation error; otherwise returns the child of the wrapper there; nothing changes |
| DwGridLayout.GridLayout.AddComponent | DwGridLayout.java:137-147 | reports the validation outcome; on failure the matrix, the counter and the root are unchanged; on success there is a fresh matrix with one new wrapper at the coordinate and the old wrappers elsewhere, one new id, and a reload; the invariant holds |
| DwGridLayout.GridLayout.FillWithNewComponent | DwGridLayout.java:140-144 | the new matrix holds the old wrapper at every coordinate except the target, which gets the one wrapper created during the traversal |
| DwGridLayout.GridLayout.SetDisplayBorder | DwGridLayout.java:163-165 | only the flag changes; the matrix and the root stay as they are |
| DwGridLayout.GridLayout.AddTooltipForComponent | DwGridLayout.java:176-179 | no validation: an out-of-range coordinate fails with the array's error and changes nothing; otherwise the same wrapper gets the tooltip and the root is reloaded |
| DwGridLayout.GridLayout.SetStriped | DwGridLayout.java:188-210 | the matrix becomes the striped form of the old one: every background removed, and the colour set on the wrappers of every second group with content, starting with the first or the second; the invariant holds |
| DwGridLayout.GridLayout.ClearBackground | DwGridLayout.java:189 | the background property is removed from every wrapper, and nothing else changes |
| DwGridLayout.GridLayout.ColourEverySecondGroup | DwGridLayout.java:201-209 | given the surviving groups, every wrapper whose group is coloured gets the colour, and the others stay without background |
| DwGridLayout.GridLayout.ColourLoop | DwGridLayout.java:203-209 | the loop with i = first, first + 2, … colours exactly the groups whose rank among the survivors has the parity that startWithColor asks for |
| GridProperties.TemplateColumns | DwGridLayout.java:33 | grid-template-columns has length 12·amountOfColumns and consists of that many "min-content " blocks |
| GridProperties.InitialPlaceholders | DwGridLayout.java:41-42 | after construction every wrapper is a default placeholder with no title and no style, and getComponent returns the placeholder |
| GridProperties.AddThenGet | DwGridLayout.java:131-147 | after addComponent(c, r, x), getComponent(c, r) returns x (or the placeholder for null), and the wrapper has the new id, no tooltip, the default marker exactly when x is null, and no style when borders are off |
| GridProperties.AddKeepsOthers | DwGridLayout.java:140-146 | addComponent leaves every other coordinate with the same wrapper, with its id, classes, title and child; its style keeps every property and gains at most border edges, and is identical when borders are off |
| GridProperties.TooltipKeepsContent | DwGridLayout.java:176-177 | a tooltip sets the title of the one wrapper, changes nothing else, and leaves every getComponent result as it was |
| GridProperties.BorderedEdges | DwGridLayout.java:54-75 | a left edge in column 0, a top edge in row 0, a bottom edge when the row holds content, a right edge when the column does; each edge is present afterwards if and only if it was present before or its condition holds; every other property is kept |
| GridProperties.BorderedIdempotent | DwGridLayout.java:54-75 | a second border pass changes nothing |
| GridProperties.StaleInnerEdge | DwGridLayout.java:54-75 | in a two-column row, a wrapper that received a bottom edge keeps it after the component that caused it is replaced by a placeholder, although the row then has no content |
| GridProperties.StaleInnerEdgeFromStart | DwGridLayout.java:137-147 | the stale edge already appears on a fresh 2 × 1 grid with borders on, after addComponent(0, 0, x) and then addComponent(0, 0, null) |
| GridProperties.KeptGroups | DwGridLayout.java:191-201 | the groups left after removeIf are exactly the rows (or columns) that hold content |
| GridProperties.StripedAlternates | DwGridLayout.java:203-209 | every wrapper of the k-th group with content has the background if and only if k is even (startWithColor) or odd (otherwise), and then it is the given colour |
| GridProperties.StripedEmptyLine | DwGridLayout.java:189-201 | every wrapper of a group of placeholders ends with no background |
| GridProperties.StripedOnlyBackground | DwGridLayout.java:188-210 | setStriped adds, changes or removes no property other than background, and changes nothing but the style |
| GridProperties.StripedIdempotent | DwGridLayout.java:188-210 | striping twice with the same arguments is the same as striping once |

## Left out

- The Vaadin framework is not modelled:
  - `Composite`, `Div`, `Label` and `getContent()` are absent;
  - class and style lists are absent, and DOM attachment and rendering are absent too;
  - wrappers are values with an id for their identity, and the root is a list of ids.
- Vaadin detaches a component from its old parent when it is added elsewhere. The model does not: adding the same `Token` at two coordinates leaves it in both wrappers. In Java, the first wrapper would lose its child, and a later `getComponent` there would throw.
- `setId`, `setWidth` and `setHeight` (DwGridLayout.java:154-156, 217-228) are left out. They pass their argument to the framework and hold no logic.
- `createDebugCell` (DwGridLayout.java:231-234) is left out because it is never called.
- Negative indices and sizes are left out because indices and sizes are `nat`. Java would fail negative indices on the array, and a negative size with NegativeArraySizeException.
- Null arguments are left out. A null component is `None`; strings (tooltip, colour) are never null.
- CSS semantics are left out. Style values and colours are opaque strings.
- `DwGridLayout.GridLayout.ReloadGridComposite`: requires the grid to have at least one column and one row when borders are on.
  - In Java, the border pass indexes `[0]` and would fail on an empty dimension.
  - Through the public operations, a reload with borders on happens only after a coordinate passed its check, so the grid then has at least one cell.
  - The failing case is therefore not modelled.
- `iterateOverMatrixAndExecute` takes a callback. Here it is the function `Traversal` (the visiting order), together with the row-major nested loops of the methods that call it: `InitCellMatrix`/`InitRow`, `ShowWrappers`, `FillWithNewComponent` and `ClearBackground`.
- The `List<List<Div>>` of `setStriped` holds row (or column) indices instead of lists of wrappers. Java colours a group by setting the style on the wrapper objects in its list, which are exactly the wrappers of that row or column of the matrix. The model sets the style on those matrix cells.
- `GridModel.Kept`: its own contract states the bound and that every kept group holds content. That removeIf keeps exactly the listed groups with content is stated by `KeptMembers`, and that their order is kept by `KeptIncreasing`.
