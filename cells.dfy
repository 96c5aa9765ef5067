/**
  One cell of the grid: the wrapper div that DwGridLayout puts at every
  (column, row) coordinate, and the coordinate checks of the component.
 */
module Cells {
  import opened Wrappers
  import opened Text

  /** An opaque stand-in for a UI component handed to the grid by its user. */
  datatype Token = Token(handle: nat)

  /** The one child of a wrapper: the user's component, or the empty div the grid puts there itself. */
  datatype Child = Placeholder | Component(token: Token)

  /**
    A wrapper div. `id` stands for the identity of the wrapper object: two
    coordinates hold the same wrapper exactly when their ids agree, and a
    newly created wrapper gets an id no other wrapper has. `title` is the
    tooltip, `style` the inline style properties.
   */
  datatype Cell = Cell(
    id: nat,
    classNames: set<string>,
    title: Option<string>,
    style: map<string, string>,
    child: Child)

  const CELL_POSITION_COL_INDEX_PREFIX: string := "cell-pos-col-"
  const CELL_POSITION_ROW_INDEX_PREFIX: string := "cell-pos-row-"
  const CELL_CONTENT_DEFAULT: string := "cell-content-default"
  const BORDER_STYLE: string := "1px solid grey"

  /** The row marker: the row prefix followed by the index in decimal. */
  function RowMarker(rowIndex: nat): (m: string)
    ensures |m| > |CELL_POSITION_ROW_INDEX_PREFIX| && m[..|CELL_POSITION_ROW_INDEX_PREFIX|] == CELL_POSITION_ROW_INDEX_PREFIX
    ensures IsDigits(m[|CELL_POSITION_ROW_INDEX_PREFIX|..])
  {
    CELL_POSITION_ROW_INDEX_PREFIX + NatToString(rowIndex)
  }

  /** The column marker: the column prefix followed by the index in decimal. */
  function ColumnMarker(columnIndex: nat): (m: string)
    ensures |m| > |CELL_POSITION_COL_INDEX_PREFIX| && m[..|CELL_POSITION_COL_INDEX_PREFIX|] == CELL_POSITION_COL_INDEX_PREFIX
    ensures IsDigits(m[|CELL_POSITION_COL_INDEX_PREFIX|..])
  {
    CELL_POSITION_COL_INDEX_PREFIX + NatToString(columnIndex)
  }

  function PositionMarkers(columnIndex: nat, rowIndex: nat): set<string> {
    {RowMarker(rowIndex), ColumnMarker(columnIndex)}
  }

  /** A wrapper is a default (placeholder) wrapper when it carries the default marker class. */
  predicate IsDefault(cell: Cell) {
    CELL_CONTENT_DEFAULT in cell.classNames
  }

  /** The three kinds of marker class never coincide. */
  lemma MarkersAreDistinct(columnIndex: nat, rowIndex: nat)
    ensures RowMarker(rowIndex) != CELL_CONTENT_DEFAULT
    ensures ColumnMarker(columnIndex) != CELL_CONTENT_DEFAULT
    ensures RowMarker(rowIndex) != ColumnMarker(columnIndex)
  {
    assert RowMarker(rowIndex)[5] == 'p' && ColumnMarker(columnIndex)[5] == 'p';
    assert CELL_CONTENT_DEFAULT[5] == 'c';
    assert RowMarker(rowIndex)[9] == 'r' && ColumnMarker(columnIndex)[9] == 'c';
  }

  /** A position marker names exactly one row (or column). */
  lemma MarkersIdentifyPosition(i: nat, j: nat)
    ensures RowMarker(i) == RowMarker(j) ==> i == j
    ensures ColumnMarker(i) == ColumnMarker(j) ==> i == j
  {
    var p := |CELL_POSITION_ROW_INDEX_PREFIX|;
    assert RowMarker(i)[p..] == NatToString(i) && RowMarker(j)[p..] == NatToString(j);
    assert ColumnMarker(i)[p..] == NatToString(i) && ColumnMarker(j)[p..] == NatToString(j);
    NatToStringInjective(i, j);
  }

  /**
    The classes a wrapper at (columnIndex, rowIndex) carries: its two position
    markers, and the default marker exactly when it holds the placeholder.
   */
  predicate WellFormedCell(cell: Cell, columnIndex: nat, rowIndex: nat) {
    cell.classNames ==
      PositionMarkers(columnIndex, rowIndex) + (if cell.child.Placeholder? then {CELL_CONTENT_DEFAULT} else {})
  }

  /** In a well-formed wrapper the default marker tells placeholders from user components. */
  lemma DefaultMarksPlaceholder(cell: Cell, columnIndex: nat, rowIndex: nat)
    requires WellFormedCell(cell, columnIndex, rowIndex)
    ensures IsDefault(cell) <==> cell.child.Placeholder?
  {
    MarkersAreDistinct(columnIndex, rowIndex);
  }

  /** getStyle().set(key, value) on a wrapper. */
  function SetStyle(cell: Cell, key: string, value: string): (c: Cell)
    ensures key in c.style && c.style[key] == value
    ensures forall k :: k != key ==> (k in c.style <==> k in cell.style)
    ensures forall k :: k != key && k in cell.style ==> c.style[k] == cell.style[k]
    ensures c == cell.(style := c.style)
  {
    cell.(style := cell.style[key := value])
  }

  /** getStyle().remove(key) on a wrapper. */
  function RemoveStyle(cell: Cell, key: string): (c: Cell)
    ensures key !in c.style
    ensures forall k :: k != key ==> (k in c.style <==> k in cell.style)
    ensures forall k :: k in c.style ==> c.style[k] == cell.style[k]
    ensures c == cell.(style := c.style)
  {
    cell.(style := cell.style - {key})
  }

  function ChildOf(component: Option<Token>): Child {
    match component
    case None => Placeholder
    case Some(t) => Component(t)
  }

  /**
    createCell: a new wrapper with the position markers, the default marker
    added when there is no component and removed otherwise, and one child.
   */
  function CreateCell(id: nat, columnIndex: nat, rowIndex: nat, component: Option<Token>): (cell: Cell)
    ensures cell.id == id && cell.title == None && cell.style == map[]
    ensures cell.child == ChildOf(component)
    ensures RowMarker(rowIndex) in cell.classNames && ColumnMarker(columnIndex) in cell.classNames
    ensures IsDefault(cell) <==> component.None?
    ensures WellFormedCell(cell, columnIndex, rowIndex)
  {
    MarkersAreDistinct(columnIndex, rowIndex);
    var markers := PositionMarkers(columnIndex, rowIndex);
    var classNames :=
      if component.None? then markers + {CELL_CONTENT_DEFAULT} else markers - {CELL_CONTENT_DEFAULT};
    Cell(id, classNames, None, map[], ChildOf(component))
  }

  /** The errors the component can raise. */
  datatype GridError =
    | ColumnOutOfBounds(columnIndex: nat, amountOfColumns: nat)   // IllegalArgumentException
    | RowOutOfBounds(rowIndex: nat, amountOfRows: nat)            // IllegalArgumentException
    | ArrayIndexOutOfBounds(index: nat, length: nat)              // raised by the matrix itself
  {
    predicate IsIllegalArgument() {
      ColumnOutOfBounds? || RowOutOfBounds?
    }
  }

  const OUT_OF_BOUNDS: string := " is out of bounds of the grid."

  /** The message of an IllegalArgumentException raised by the coordinate check. */
  function Message(e: GridError): string
    requires e.IsIllegalArgument()
  {
    match e
    case ColumnOutOfBounds(c, n) =>
      "ColumnIndex " + NatToString(c) + OUT_OF_BOUNDS + " The biggest ColumnIndex in grid is: " + NatToString(n)
    case RowOutOfBounds(r, n) =>
      "RowIndex " + NatToString(r) + OUT_OF_BOUNDS + " The biggest RowIndex in grid is: " + NatToString(n)
  }

  /** m starts with prefix, then the decimal digits of index, then a space. */
  predicate ReportsIndex(m: string, prefix: string, index: nat) {
    |prefix| + |NatToString(index)| < |m| &&
    m[..|prefix|] == prefix &&
    IsDigits(m[|prefix|..|prefix| + |NatToString(index)|]) &&
    ParseNat(m[|prefix|..|prefix| + |NatToString(index)|]) == index &&
    m[|prefix| + |NatToString(index)|] == ' '
  }

  /** The message starts by naming the offending index, in decimal and followed by a space. */
  lemma MessageReportsIndex(e: GridError)
    requires e.IsIllegalArgument()
    ensures e.ColumnOutOfBounds? ==> ReportsIndex(Message(e), "ColumnIndex ", e.columnIndex)
    ensures e.RowOutOfBounds? ==> ReportsIndex(Message(e), "RowIndex ", e.rowIndex)
  {
    match e
    case ColumnOutOfBounds(c, n) =>
      var rest := OUT_OF_BOUNDS + (" The biggest ColumnIndex in grid is: " + NatToString(n));
      assert rest[0] == OUT_OF_BOUNDS[0] == ' ';
      assert Message(e) == "ColumnIndex " + NatToString(c) + rest;
      PrefixedNumber("ColumnIndex ", c, rest);
    case RowOutOfBounds(r, n) =>
      var rest := OUT_OF_BOUNDS + (" The biggest RowIndex in grid is: " + NatToString(n));
      assert rest[0] == OUT_OF_BOUNDS[0] == ' ';
      assert Message(e) == "RowIndex " + NatToString(r) + rest;
      PrefixedNumber("RowIndex ", r, rest);
  }

  lemma PrefixedNumber(prefix: string, index: nat, rest: string)
    requires |rest| > 0 && rest[0] == ' '
    ensures ReportsIndex(prefix + NatToString(index) + rest, prefix, index)
  {
    var m := prefix + NatToString(index) + rest;
    assert m[|prefix|..|prefix| + |NatToString(index)|] == NatToString(index);
    ParseNatToString(index);
  }

  /** validateCoordinates: the column is checked first, then the row. */
  function ValidateCoordinates(columnIndex: nat, rowIndex: nat, amountOfColumns: nat, amountOfRows: nat): (o: Outcome<GridError>)
    ensures o.Pass? <==> columnIndex < amountOfColumns && rowIndex < amountOfRows
    ensures o.Fail? ==> o.error.IsIllegalArgument()
    ensures columnIndex >= amountOfColumns ==> o.error == ColumnOutOfBounds(columnIndex, amountOfColumns)
    ensures columnIndex < amountOfColumns && rowIndex >= amountOfRows ==> o.error == RowOutOfBounds(rowIndex, amountOfRows)
  {
    if columnIndex >= amountOfColumns then Fail(ColumnOutOfBounds(columnIndex, amountOfColumns))
    else if rowIndex >= amountOfRows then Fail(RowOutOfBounds(rowIndex, amountOfRows))
    else Pass
  }

  /**
    Indexing the column-major matrix without a prior check: the column index
    is applied first, and an out-of-range index fails with the array's own
    error, never with IllegalArgument.
   */
  function MatrixAccess(columnIndex: nat, rowIndex: nat, amountOfColumns: nat, amountOfRows: nat): (o: Outcome<GridError>)
    ensures o.Pass? <==> columnIndex < amountOfColumns && rowIndex < amountOfRows
    ensures o.Fail? ==> !o.error.IsIllegalArgument()
    ensures columnIndex >= amountOfColumns ==> o.error == ArrayIndexOutOfBounds(columnIndex, amountOfColumns)
    ensures columnIndex < amountOfColumns && rowIndex >= amountOfRows ==> o.error == ArrayIndexOutOfBounds(rowIndex, amountOfRows)
  {
    if columnIndex >= amountOfColumns then Fail(ArrayIndexOutOfBounds(columnIndex, amountOfColumns))
    else if rowIndex >= amountOfRows then Fail(ArrayIndexOutOfBounds(rowIndex, amountOfRows))
    else Pass
  }
}
