/**
  DwGridLayout: a fixed-size matrix of wrapper divs shown by a CSS grid. The
  matrix is column-major (colRowCellMatrix[col, row]); the root div's children
  are the wrappers in row-major order.
 */
module DwGridLayout {
  import opened Wrappers
  import opened Text
  import opened Cells
  import opened GridModel
  import opened GridFacts

  class GridLayout {
    const amountOfColumns: nat
    const amountOfRows: nat
    var displayBorder: bool
    var colRowCellMatrix: array2<Cell>
    /** The root div's children: the ids of the wrappers it holds, in order. */
    var rootChildren: seq<nat>
    /** The root div's inline style properties. */
    var rootStyle: map<string, string>
    /** The id the next created wrapper gets. */
    var nextId: nat

    /** The matrix as a value. */
    function Snapshot(): (g: Grid)
      reads this`colRowCellMatrix, colRowCellMatrix
      ensures g.Valid() && g.cols == colRowCellMatrix.Length0 && g.rows == colRowCellMatrix.Length1
      ensures forall c, r :: 0 <= c < g.cols && 0 <= r < g.rows ==> g.cells[c][r] == colRowCellMatrix[c, r]
    {
      var m := colRowCellMatrix;
      Grid(m.Length0, m.Length1,
        seq(m.Length0, c requires 0 <= c < m.Length0 reads m =>
          seq(m.Length1, r requires 0 <= r < m.Length1 reads m => m[c, r])))
    }

    /** The matrix has the grid's size, its wrappers are well formed, and the root shows them in row-major order. */
    ghost predicate Valid()
      reads this, colRowCellMatrix
    {
      colRowCellMatrix.Length0 == amountOfColumns && colRowCellMatrix.Length1 == amountOfRows &&
      WellFormed(Snapshot(), nextId) &&
      rootChildren == RowMajor(Snapshot())
    }

    lemma SnapshotIs(g: Grid)
      requires g.Valid() && g.cols == colRowCellMatrix.Length0 && g.rows == colRowCellMatrix.Length1
      requires forall c, r :: 0 <= c < g.cols && 0 <= r < g.rows ==> colRowCellMatrix[c, r] == g.cells[c][r]
      ensures Snapshot() == g
    {
      var s := Snapshot();
      forall c | 0 <= c < g.cols
        ensures s.cells[c] == g.cells[c]
      {
      }
    }

    constructor (amountOfColumns: nat, amountOfRows: nat)
      ensures this.amountOfColumns == amountOfColumns && this.amountOfRows == amountOfRows
      ensures Valid() && fresh(colRowCellMatrix) && !displayBorder
      ensures rootStyle == map[
        "display" := "grid",
        "grid-template-columns" := Repeat("min-content ", amountOfColumns),
        "overflow-x" := "auto",
        "width" := "100%"]
      ensures Snapshot() == InitialGrid(amountOfColumns, amountOfRows)
    {
      this.amountOfColumns := amountOfColumns;
      this.amountOfRows := amountOfRows;
      displayBorder := false;
      colRowCellMatrix := new Cell[amountOfColumns, amountOfRows];
      var style: map<string, string> := map[];
      style := style["display" := "grid"];
      style := style["grid-template-columns" := Repeat("min-content ", amountOfColumns)];
      style := style["overflow-x" := "auto"];
      style := style["width" := "100%"];
      rootStyle := style;
      rootChildren := [];
      nextId := 0;
      new;
      InitCellMatrix();
      InitialGridWellFormed(amountOfColumns, amountOfRows);
      ReloadGridComposite();
    }

    /** initCellMatrix: a placeholder wrapper at every coordinate, created in visiting order. */
    method InitCellMatrix()
      requires colRowCellMatrix.Length0 == amountOfColumns && colRowCellMatrix.Length1 == amountOfRows
      requires nextId == 0
      modifies this`nextId, colRowCellMatrix
      ensures Snapshot() == InitialGrid(amountOfColumns, amountOfRows)
      ensures nextId == amountOfColumns * amountOfRows
    {
      var m := colRowCellMatrix;
      ghost var init := InitialGrid(amountOfColumns, amountOfRows);
      for rowIndex := 0 to amountOfRows
        invariant nextId == rowIndex * amountOfColumns
        invariant forall c, r :: 0 <= c < amountOfColumns && 0 <= r < rowIndex ==> m[c, r] == init.cells[c][r]
      {
        ghost var base := nextId;
        InitRow(rowIndex);
        forall c | 0 <= c < amountOfColumns
          ensures m[c, rowIndex] == init.cells[c][rowIndex]
        {
          assert colRowCellMatrix == m && rowIndex < m.Length1;
          assert m[c, rowIndex] == CreateCell(base + c, c, rowIndex, None);
        }
        assert nextId == (rowIndex + 1) * amountOfColumns;
      }
      SnapshotIs(init);
    }

    /** The inner loop of initCellMatrix: fresh placeholder wrappers along one row. */
    method InitRow(rowIndex: nat)
      requires colRowCellMatrix.Length0 == amountOfColumns && rowIndex < colRowCellMatrix.Length1
      modifies this`nextId, colRowCellMatrix
      ensures nextId == old(nextId) + amountOfColumns
      ensures forall c, r :: 0 <= c < colRowCellMatrix.Length0 && 0 <= r < colRowCellMatrix.Length1 ==>
        colRowCellMatrix[c, r] == if r == rowIndex then CreateCell(old(nextId) + c, c, r, None) else old(colRowCellMatrix[c, r])
    {
      var m := colRowCellMatrix;
      for colIndex := 0 to amountOfColumns
        invariant nextId == old(nextId) + colIndex
        invariant forall c, r :: 0 <= c < m.Length0 && 0 <= r < m.Length1 ==>
          m[c, r] == if r == rowIndex && c < colIndex then CreateCell(old(nextId) + c, c, r, None) else old(m[c, r])
      {
        m[colIndex, rowIndex] := CreateCell(nextId, colIndex, rowIndex, None);
        nextId := nextId + 1;
      }
    }

    /**
      reloadGridComposite: the root's children become the wrappers in visiting
      order, then the border pass runs if borders are on.
     */
    method ReloadGridComposite()
      requires colRowCellMatrix.Length0 == amountOfColumns && colRowCellMatrix.Length1 == amountOfRows
      requires WellFormed(Snapshot(), nextId)
      requires displayBorder ==> amountOfColumns > 0 && amountOfRows > 0
      modifies this`rootChildren, colRowCellMatrix
      ensures Valid()
      ensures Snapshot() == Reloaded(old(Snapshot()), displayBorder)
      ensures displayBorder == old(displayBorder) && rootStyle == old(rootStyle)
    {
      ghost var g := Snapshot();
      ShowWrappers();
      if displayBorder {
        DisplayBorder();
        BorderedRestyles(g);
        SameWrappersKeep(g, Bordered(g), nextId);
      }
    }

    /** The first half of reloadGridComposite: the root's children are cleared, then every wrapper is added in visiting order. */
    method ShowWrappers()
      requires colRowCellMatrix.Length0 == amountOfColumns && colRowCellMatrix.Length1 == amountOfRows
      modifies this`rootChildren
      ensures rootChildren == RowMajor(Snapshot())
    {
      rootChildren := [];
      ghost var g := Snapshot();
      for rowIndex := 0 to amountOfRows
        modifies this`rootChildren
        invariant rootChildren == RowMajorPrefix(g, rowIndex)
      {
        for colIndex := 0 to amountOfColumns
          modifies this`rootChildren
          invariant rootChildren == RowMajorPrefix(g, rowIndex) + RowIds(g, rowIndex)[..colIndex]
        {
          assert RowIds(g, rowIndex)[..colIndex + 1] == RowIds(g, rowIndex)[..colIndex] + [g.cells[colIndex][rowIndex].id];
          rootChildren := rootChildren + [colRowCellMatrix[colIndex, rowIndex].id];
        }
        assert RowIds(g, rowIndex)[..amountOfColumns] == RowIds(g, rowIndex);
      }
    }

    /** displayBorder: outer edges on the first column and row, inner edges on rows and columns with content. */
    method DisplayBorder()
      requires colRowCellMatrix.Length0 == amountOfColumns && colRowCellMatrix.Length1 == amountOfRows
      requires amountOfColumns > 0 && amountOfRows > 0
      modifies colRowCellMatrix
      ensures Snapshot() == Bordered(old(Snapshot()))
    {
      ghost var g := Snapshot();
      BorderRows();
      ghost var h := Snapshot();
      assert SameMarkers(g, h);
      SameMarkersSameContent(g, h);
      BorderColumns();
      SnapshotIs(Bordered(g));
    }

    /** The loop of displayBorder over the rows: left edges on column 0, bottom edges on rows with content. */
    method BorderRows()
      requires colRowCellMatrix.Length0 == amountOfColumns && colRowCellMatrix.Length1 == amountOfRows
      requires amountOfColumns > 0
      modifies colRowCellMatrix
      ensures forall c, r :: 0 <= c < amountOfColumns && 0 <= r < amountOfRows ==>
        colRowCellMatrix[c, r] == RowEdges(old(colRowCellMatrix[c, r]), c, HasContent(Row(old(Snapshot()), r)))
    {
      var m := colRowCellMatrix;
      ghost var g := Snapshot();
      ghost var rowHas := seq(amountOfRows, r requires 0 <= r < amountOfRows => HasContent(Row(g, r)));
      for rowIndex := 0 to amountOfRows
        invariant forall c, r :: 0 <= c < amountOfColumns && 0 <= r < amountOfRows ==>
          m[c, r] == if r < rowIndex then RowEdges(g.cells[c][r], c, rowHas[r]) else g.cells[c][r]
      {
        m[0, rowIndex] := SetStyle(m[0, rowIndex], BORDER_LEFT, BORDER_STYLE);
        assert forall c :: 0 <= c < amountOfColumns ==> m[c, rowIndex] == RowEdges(g.cells[c][rowIndex], c, false);
        var cells := GetCellsOfRow(rowIndex);
        SameClassesSameContent(cells, Row(g, rowIndex));
        var atLeastOneWrapperHasContent := HasContent(cells);
        if atLeastOneWrapperHasContent {
          SetStyleAlongRow(rowIndex, BORDER_BOTTOM, BORDER_STYLE);
        }
      }
    }

    /** The loop of displayBorder over the columns: top edges on row 0, right edges on columns with content. */
    method BorderColumns()
      requires colRowCellMatrix.Length0 == amountOfColumns && colRowCellMatrix.Length1 == amountOfRows
      requires amountOfRows > 0
      modifies colRowCellMatrix
      ensures forall c, r :: 0 <= c < amountOfColumns && 0 <= r < amountOfRows ==>
        colRowCellMatrix[c, r] == ColumnEdges(old(colRowCellMatrix[c, r]), r, HasContent(old(Snapshot()).cells[c]))
    {
      var m := colRowCellMatrix;
      ghost var g := Snapshot();
      ghost var columnHas := seq(amountOfColumns, c requires 0 <= c < amountOfColumns => HasContent(g.cells[c]));
      for columnIndex := 0 to amountOfColumns
        invariant forall c, r :: 0 <= c < amountOfColumns && 0 <= r < amountOfRows ==>
          m[c, r] == if c < columnIndex then ColumnEdges(g.cells[c][r], r, columnHas[c]) else g.cells[c][r]
      {
        m[columnIndex, 0] := SetStyle(m[columnIndex, 0], BORDER_TOP, BORDER_STYLE);
        assert forall r :: 0 <= r < amountOfRows ==> m[columnIndex, r] == ColumnEdges(g.cells[columnIndex][r], r, false);
        var cells := GetCellsOfColumn(columnIndex);
        SameClassesSameContent(cells, g.cells[columnIndex]);
        var atLeastOneWrapperHasContent := HasContent(cells);
        if atLeastOneWrapperHasContent {
          SetStyleAlongColumn(columnIndex, BORDER_RIGHT, BORDER_STYLE);
        }
      }
    }

    /** The inner loops of displayBorder and setStriped: one style property set on every wrapper of a row. */
    method SetStyleAlongRow(rowIndex: nat, key: string, value: string)
      requires colRowCellMatrix.Length0 == amountOfColumns && rowIndex < colRowCellMatrix.Length1
      modifies colRowCellMatrix
      ensures forall c, r :: 0 <= c < colRowCellMatrix.Length0 && 0 <= r < colRowCellMatrix.Length1 ==>
        colRowCellMatrix[c, r] == if r == rowIndex then SetStyle(old(colRowCellMatrix[c, r]), key, value) else old(colRowCellMatrix[c, r])
    {
      var m := colRowCellMatrix;
      for columnIndex := 0 to amountOfColumns
        invariant forall c, r :: 0 <= c < m.Length0 && 0 <= r < m.Length1 ==>
          m[c, r] == if r == rowIndex && c < columnIndex then SetStyle(old(m[c, r]), key, value) else old(m[c, r])
      {
        m[columnIndex, rowIndex] := SetStyle(m[columnIndex, rowIndex], key, value);
      }
    }

    /** The inner loops of displayBorder and setStriped: one style property set on every wrapper of a column. */
    method SetStyleAlongColumn(columnIndex: nat, key: string, value: string)
      requires columnIndex < colRowCellMatrix.Length0 && colRowCellMatrix.Length1 == amountOfRows
      modifies colRowCellMatrix
      ensures forall c, r :: 0 <= c < colRowCellMatrix.Length0 && 0 <= r < colRowCellMatrix.Length1 ==>
        colRowCellMatrix[c, r] == if c == columnIndex then SetStyle(old(colRowCellMatrix[c, r]), key, value) else old(colRowCellMatrix[c, r])
    {
      var m := colRowCellMatrix;
      for rowIndex := 0 to amountOfRows
        invariant forall c, r :: 0 <= c < m.Length0 && 0 <= r < m.Length1 ==>
          m[c, r] == if c == columnIndex && r < rowIndex then SetStyle(old(m[c, r]), key, value) else old(m[c, r])
      {
        m[columnIndex, rowIndex] := SetStyle(m[columnIndex, rowIndex], key, value);
      }
    }

    /** getCellsOfRow: the wrappers of one row, left to right. */
    method GetCellsOfRow(rowIndex: nat) returns (components: seq<Cell>)
      requires colRowCellMatrix.Length0 == amountOfColumns && rowIndex < colRowCellMatrix.Length1
      ensures components == Row(Snapshot(), rowIndex)
    {
      components := [];
      for i := 0 to amountOfColumns
        invariant |components| == i
        invariant forall k :: 0 <= k < i ==> components[k] == colRowCellMatrix[k, rowIndex]
      {
        components := components + [colRowCellMatrix[i, rowIndex]];
      }
    }

    /** getCellsOfColumn: the wrappers of one column, top to bottom. */
    method GetCellsOfColumn(columnIndex: nat) returns (components: seq<Cell>)
      requires columnIndex < colRowCellMatrix.Length0 && colRowCellMatrix.Length1 == amountOfRows
      ensures components == Snapshot().cells[columnIndex]
    {
      components := [];
      for i := 0 to amountOfRows
        invariant |components| == i
        invariant forall k :: 0 <= k < i ==> components[k] == colRowCellMatrix[columnIndex, k]
      {
        components := components + [colRowCellMatrix[columnIndex, i]];
      }
    }
    /** getComponent: the content of the wrapper at (columnIndex, rowIndex), after validateCoordinates. */
    method GetComponent(columnIndex: nat, rowIndex: nat) returns (result: Result<Child, GridError>)
      requires Valid()
      ensures result == ComponentAt(Snapshot(), columnIndex, rowIndex)
    {
      var validation := ValidateCoordinates(columnIndex, rowIndex, amountOfColumns, amountOfRows);
      if validation.Fail? {
        return Failure(validation.error);
      }
      var cell := colRowCellMatrix[columnIndex, rowIndex];
      result := Success(cell.child);
    }

    /**
      addComponent: a new matrix holding the old wrappers and, at the given
      coordinate, a fresh wrapper for newComponent; then the root is reloaded.
     */
    method AddComponent(columnIndex: nat, rowIndex: nat, newComponent: Option<Token>) returns (outcome: Outcome<GridError>)
      requires Valid()
      modifies this
      ensures Valid()
      ensures outcome == ValidateCoordinates(columnIndex, rowIndex, amountOfColumns, amountOfRows)
      ensures displayBorder == old(displayBorder) && rootStyle == old(rootStyle)
      ensures outcome.Fail? ==>
        colRowCellMatrix == old(colRowCellMatrix) && unchanged(colRowCellMatrix) &&
        nextId == old(nextId) && rootChildren == old(rootChildren)
      ensures outcome.Pass? ==> fresh(colRowCellMatrix) && nextId == old(nextId) + 1
      ensures outcome.Pass? ==>
        Snapshot() == Reloaded(Replace(old(Snapshot()), columnIndex, rowIndex,
          CreateCell(old(nextId), columnIndex, rowIndex, newComponent)), displayBorder)
    {
      outcome := ValidateCoordinates(columnIndex, rowIndex, amountOfColumns, amountOfRows);
      if outcome.Fail? {
        return;
      }
      ghost var g := Snapshot();
      ghost var id := nextId;
      ghost var h := Replace(g, columnIndex, rowIndex, CreateCell(id, columnIndex, rowIndex, newComponent));
      var matrixWithNewComponent := new Cell[amountOfColumns, amountOfRows];
      FillWithNewComponent(matrixWithNewComponent, columnIndex, rowIndex, newComponent);
      colRowCellMatrix := matrixWithNewComponent;
      SnapshotIs(h);
      assert WellFormed(h, nextId) by {
        ReplaceWellFormed(g, id, columnIndex, rowIndex, newComponent);
      }
      ReloadGridComposite();
    }

    /** The loop of addComponent: every coordinate of target gets the old wrapper, except the given one, which gets a new wrapper. */
    method FillWithNewComponent(target: array2<Cell>, columnIndex: nat, rowIndex: nat, newComponent: Option<Token>)
      requires target != colRowCellMatrix
      requires target.Length0 == colRowCellMatrix.Length0 == amountOfColumns
      requires target.Length1 == colRowCellMatrix.Length1 == amountOfRows
      requires columnIndex < amountOfColumns && rowIndex < amountOfRows
      modifies target, this`nextId
      ensures nextId == old(nextId) + 1
      ensures forall c, r :: 0 <= c < amountOfColumns && 0 <= r < amountOfRows ==>
        target[c, r] == if c == columnIndex && r == rowIndex then CreateCell(old(nextId), c, r, newComponent) else colRowCellMatrix[c, r]
    {
      ghost var id := nextId;
      for rowIndexE := 0 to amountOfRows
        invariant nextId == id + if rowIndexE > rowIndex then 1 else 0
        invariant forall c, r :: 0 <= c < amountOfColumns && 0 <= r < rowIndexE ==>
          target[c, r] == if c == columnIndex && r == rowIndex then CreateCell(id, c, r, newComponent) else colRowCellMatrix[c, r]
      {
        for colIndexE := 0 to amountOfColumns
          invariant nextId == id + if rowIndexE > rowIndex || (rowIndexE == rowIndex && colIndexE > columnIndex) then 1 else 0
          invariant forall c, r :: 0 <= c < amountOfColumns && 0 <= r < rowIndexE ==>
            target[c, r] == if c == columnIndex && r == rowIndex then CreateCell(id, c, r, newComponent) else colRowCellMatrix[c, r]
          invariant forall c :: 0 <= c < colIndexE ==>
            target[c, rowIndexE] == if c == columnIndex && rowIndexE == rowIndex then CreateCell(id, c, rowIndexE, newComponent) else colRowCellMatrix[c, rowIndexE]
        {
          if colIndexE == columnIndex && rowIndexE == rowIndex {
            target[colIndexE, rowIndexE] := CreateCell(nextId, colIndexE, rowIndexE, newComponent);
            nextId := nextId + 1;
          } else {
            target[colIndexE, rowIndexE] := colRowCellMatrix[colIndexE, rowIndexE];
          }
        }
      }
    }

    /** setDisplayBorder: only the flag changes; the borders follow on the next reload. */
    method SetDisplayBorder(displayBorder: bool)
      requires Valid()
      modifies this`displayBorder
      ensures Valid() && this.displayBorder == displayBorder
    {
      this.displayBorder := displayBorder;
    }

    /**
      addTooltipForComponent: setTitle on the wrapper at the coordinate, with no
      validation (an out-of-range index fails on the array), then a reload.
     */
    method AddTooltipForComponent(columnIndex: nat, rowIndex: nat, tooltip: string) returns (outcome: Outcome<GridError>)
      requires Valid()
      modifies this`rootChildren, colRowCellMatrix
      ensures Valid()
      ensures outcome == MatrixAccess(columnIndex, rowIndex, amountOfColumns, amountOfRows)
      ensures outcome.Fail? ==> unchanged(colRowCellMatrix) && rootChildren == old(rootChildren)
      ensures outcome.Pass? ==>
        Snapshot() == Reloaded(WithTitle(old(Snapshot()), columnIndex, rowIndex, tooltip), displayBorder)
    {
      outcome := MatrixAccess(columnIndex, rowIndex, amountOfColumns, amountOfRows);
      if outcome.Fail? {
        return;
      }
      ghost var g := Snapshot();
      WithTitleWellFormed(g, nextId, columnIndex, rowIndex, tooltip);
      colRowCellMatrix[columnIndex, rowIndex] := colRowCellMatrix[columnIndex, rowIndex].(title := Some(tooltip));
      SnapshotIs(WithTitle(g, columnIndex, rowIndex, tooltip));
      ReloadGridComposite();
    }
    /**
      setStriped: every background is removed; the rows (or columns) holding
      content are listed in order, and every second one of them, starting
      with the first or the second, gets the colour.
     */
    method SetStriped(cssColor: string, stripeRows: bool, startWithColor: bool)
      requires Valid()
      modifies colRowCellMatrix
      ensures Valid()
      ensures Snapshot() == Striped(old(Snapshot()), cssColor, stripeRows, startWithColor)
    {
      ghost var g := Snapshot();
      ClearBackground();
      ghost var cleared := Snapshot();
      assert SameMarkers(g, cleared);
      var rowsOrColumns: seq<nat> := [];
      var amountOfGroups := if stripeRows then amountOfRows else amountOfColumns;
      for i := 0 to amountOfGroups
        invariant rowsOrColumns == Range(i)
      {
        assert Range(i + 1) == Range(i) + [i];
        rowsOrColumns := rowsOrColumns + [i];
      }
      rowsOrColumns := Kept(Snapshot(), stripeRows, rowsOrColumns);
      KeptSameMarkers(cleared, g, stripeRows, Range(amountOfGroups));
      ColourEverySecondGroup(g, rowsOrColumns, cssColor, stripeRows, startWithColor);
      SnapshotIs(Striped(g, cssColor, stripeRows, startWithColor));
      StripedRestyles(g, cssColor, stripeRows, startWithColor);
      SameWrappersKeep(g, Striped(g, cssColor, stripeRows, startWithColor), nextId);
    }

    /** The first loop of setStriped: the background property removed from every wrapper, row by row. */
    method ClearBackground()
      requires colRowCellMatrix.Length0 == amountOfColumns && colRowCellMatrix.Length1 == amountOfRows
      modifies colRowCellMatrix
      ensures forall c, r :: 0 <= c < amountOfColumns && 0 <= r < amountOfRows ==>
        colRowCellMatrix[c, r] == RemoveStyle(old(colRowCellMatrix[c, r]), BACKGROUND)
    {
      var m := colRowCellMatrix;
      for rowIndex := 0 to amountOfRows
        invariant forall c, r :: 0 <= c < amountOfColumns && 0 <= r < amountOfRows ==>
          m[c, r] == if r < rowIndex then RemoveStyle(old(m[c, r]), BACKGROUND) else old(m[c, r])
      {
        for colIndex := 0 to amountOfColumns
          invariant forall c, r :: 0 <= c < amountOfColumns && 0 <= r < amountOfRows ==>
            m[c, r] == if r < rowIndex || (r == rowIndex && c < colIndex) then RemoveStyle(old(m[c, r]), BACKGROUND) else old(m[c, r])
        {
          m[colIndex, rowIndex] := RemoveStyle(m[colIndex, rowIndex], BACKGROUND);
        }
      }
    }

    /**
      The colouring in setStriped, prepared for its loop: the rank of every
      group among the kept ones and whether the group is to be coloured.
     */
    method ColourEverySecondGroup(ghost g: Grid, rowsOrColumns: seq<nat>, cssColor: string, stripeRows: bool, startWithColor: bool)
      requires colRowCellMatrix.Length0 == amountOfColumns && colRowCellMatrix.Length1 == amountOfRows
      requires g.Valid() && g.cols == amountOfColumns && g.rows == amountOfRows
      requires rowsOrColumns == Kept(g, stripeRows, Range(LineCount(g, stripeRows)))
      requires forall c, r :: 0 <= c < amountOfColumns && 0 <= r < amountOfRows ==>
        colRowCellMatrix[c, r] == StripedCell(g.cells[c][r], false, cssColor)
      modifies colRowCellMatrix
      ensures forall c, r :: 0 <= c < amountOfColumns && 0 <= r < amountOfRows ==>
        colRowCellMatrix[c, r] == StripedCell(g.cells[c][r], Coloured(g, stripeRows, startWithColor, LineOf(stripeRows, c, r)), cssColor)
    {
      ghost var n := LineCount(g, stripeRows);
      ghost var rank := seq(n, j requires 0 <= j < n => Rank(g, stripeRows, j));
      ghost var coloured := seq(n, j requires 0 <= j < n => Coloured(g, stripeRows, startWithColor, j));
      forall j | 0 <= j < n && coloured[j]
        ensures rank[j] < |rowsOrColumns| && rowsOrColumns[rank[j]] == j
      {
        KeptComplete(g, stripeRows, n, j);
      }
      forall k | 0 <= k < |rowsOrColumns|
        ensures rowsOrColumns[k] < n && rank[rowsOrColumns[k]] == k && (coloured[rowsOrColumns[k]] <==> (k % 2 == 0 <==> startWithColor))
      {
        KeptAt(g, stripeRows, n, k);
      }
      ColourLoop(g, rowsOrColumns, rank, coloured, cssColor, stripeRows, startWithColor);
    }

    /** The last loop of setStriped: the i-th kept group gets the colour for every i of the parity startWithColor asks for. */
    method ColourLoop(ghost g: Grid, rowsOrColumns: seq<nat>, ghost rank: seq<nat>, ghost coloured: seq<bool>,
                      cssColor: string, stripeRows: bool, startWithColor: bool)
      requires colRowCellMatrix.Length0 == amountOfColumns && colRowCellMatrix.Length1 == amountOfRows
      requires g.Valid() && g.cols == amountOfColumns && g.rows == amountOfRows
      requires |rank| == |coloured| == if stripeRows then amountOfRows else amountOfColumns
      requires forall j :: 0 <= j < |coloured| && coloured[j] ==>
        rank[j] < |rowsOrColumns| && rowsOrColumns[rank[j]] == j
      requires forall k :: 0 <= k < |rowsOrColumns| ==>
        rowsOrColumns[k] < |coloured| && rank[rowsOrColumns[k]] == k && (coloured[rowsOrColumns[k]] <==> (k % 2 == 0 <==> startWithColor))
      requires forall c, r :: 0 <= c < amountOfColumns && 0 <= r < amountOfRows ==>
        colRowCellMatrix[c, r] == StripedCell(g.cells[c][r], false, cssColor)
      modifies colRowCellMatrix
      ensures forall c, r :: 0 <= c < amountOfColumns && 0 <= r < amountOfRows ==>
        colRowCellMatrix[c, r] == StripedCell(g.cells[c][r], coloured[LineOf(stripeRows, c, r)], cssColor)
    {
      var m := colRowCellMatrix;
      var firstRowIndex := if startWithColor then 0 else 1;
      var i := firstRowIndex;
      while i < |rowsOrColumns|
        invariant (i % 2 == 0 <==> startWithColor) && i <= |rowsOrColumns| + 1
        invariant forall c, r :: 0 <= c < amountOfColumns && 0 <= r < amountOfRows ==>
          m[c, r] == StripedCell(g.cells[c][r], coloured[LineOf(stripeRows, c, r)] && rank[LineOf(stripeRows, c, r)] < i, cssColor)
      {
        var rowOrColumn := rowsOrColumns[i];
        if stripeRows {
          SetStyleAlongRow(rowOrColumn, BACKGROUND, cssColor);
        } else {
          SetStyleAlongColumn(rowOrColumn, BACKGROUND, cssColor);
        }
        i := i + 2;
      }
    }
  }
}
