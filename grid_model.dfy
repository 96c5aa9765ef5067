/**
  The cell matrix as a value, and the effect of each of DwGridLayout's passes
  on it stated in closed form. The class in module DwGridLayout is proved
  against these functions.
 */
module GridModel {
  import opened Wrappers
  import opened Text
  import opened Cells

  /** A coordinate (columnIndex, rowIndex). */
  type Coord = (nat, nat)

  /** The matrix, column-major like the component's own: cells[columnIndex][rowIndex]. */
  datatype Grid = Grid(cols: nat, rows: nat, cells: seq<seq<Cell>>)
  {
    predicate Valid() {
      |cells| == cols && forall c :: 0 <= c < cols ==> |cells[c]| == rows
    }
  }

  /** Every wrapper carries the markers of its own position, all wrappers were created before nextId,
      and no wrapper sits at two places. */
  ghost predicate WellFormed(g: Grid, nextId: nat) {
    g.Valid() &&
    (forall c, r :: 0 <= c < g.cols && 0 <= r < g.rows ==>
      WellFormedCell(g.cells[c][r], c, r) && g.cells[c][r].id < nextId) &&
    DistinctIds(g)
  }

  /** Wrappers at distinct coordinates have distinct ids. */
  ghost predicate DistinctIds(g: Grid)
    requires g.Valid()
  {
    forall c1, r1, c2, r2 ::
      (0 <= c1 < g.cols && 0 <= r1 < g.rows && 0 <= c2 < g.cols && 0 <= r2 < g.rows &&
       IdAt(g, c1, r1) == IdAt(g, c2, r2)) ==> c1 == c2 && r1 == r2
  }

  /** The id of the wrapper at (c, r). */
  ghost function IdAt(g: Grid, c: nat, r: nat): nat
    requires g.Valid() && c < g.cols && r < g.rows
  {
    g.cells[c][r].id
  }

  /** The grid right after construction: placeholders whose ids follow the row-major visiting order. */
  function InitialGrid(cols: nat, rows: nat): (g: Grid)
    ensures g.Valid() && g.cols == cols && g.rows == rows
  {
    Grid(cols, rows, seq(cols, c requires 0 <= c < cols =>
      seq(rows, r requires 0 <= r < rows => CreateCell(r * cols + c, c, r, None))))
  }

  // ---------------------------------------------------------------------------
  // Rows, columns and their content

  /** getCellsOfRow: the wrappers of one row, left to right. */
  function Row(g: Grid, rowIndex: nat): (row: seq<Cell>)
    requires g.Valid() && rowIndex < g.rows
  {
    seq(g.cols, c requires 0 <= c < g.cols => g.cells[c][rowIndex])
  }

  /** Some wrapper is not a default placeholder (the anyMatch of the border pass; removeIf's allMatch is its negation). */
  predicate HasContent(cells: seq<Cell>) {
    exists i :: 0 <= i < |cells| && !IsDefault(cells[i])
  }

  /** Two grids of one shape whose wrappers carry the same classes. */
  predicate SameMarkers(g: Grid, h: Grid) {
    g.Valid() && h.Valid() && g.cols == h.cols && g.rows == h.rows &&
    forall c, r :: 0 <= c < g.cols && 0 <= r < g.rows ==> g.cells[c][r].classNames == h.cells[c][r].classNames
  }

  /** Whether a row or column holds content depends on the classes alone. */
  lemma SameMarkersSameContent(g: Grid, h: Grid)
    requires SameMarkers(g, h)
    ensures forall r :: 0 <= r < g.rows ==> HasContent(Row(g, r)) == HasContent(Row(h, r))
    ensures forall c :: 0 <= c < g.cols ==> HasContent(g.cells[c]) == HasContent(h.cells[c])
  {
    forall r | 0 <= r < g.rows
      ensures HasContent(Row(g, r)) == HasContent(Row(h, r))
    {
      assert forall c :: 0 <= c < g.cols ==> IsDefault(Row(g, r)[c]) == IsDefault(Row(h, r)[c]);
    }
    forall c | 0 <= c < g.cols
      ensures HasContent(g.cells[c]) == HasContent(h.cells[c])
    {
      assert forall r :: 0 <= r < g.rows ==> IsDefault(g.cells[c][r]) == IsDefault(h.cells[c][r]);
    }
  }

  /** Whether a list of wrappers holds content depends on their classes alone. */
  lemma SameClassesSameContent(a: seq<Cell>, b: seq<Cell>)
    requires |a| == |b| && forall i :: 0 <= i < |a| ==> a[i].classNames == b[i].classNames
    ensures HasContent(a) == HasContent(b)
  {
    assert forall i :: 0 <= i < |a| ==> IsDefault(a[i]) == IsDefault(b[i]);
  }

  // ---------------------------------------------------------------------------
  // iterateOverMatrixAndExecute and reloadGridComposite

  /** The coordinates of one row, left to right. */
  function RowCoords(cols: nat, rowIndex: nat): seq<Coord> {
    seq(cols, c => (c, rowIndex))
  }

  /** The order in which iterateOverMatrixAndExecute visits the matrix: row by row, each row left to right. */
  function Traversal(cols: nat, rows: nat): seq<Coord> {
    if rows == 0 then [] else Traversal(cols, rows - 1) + RowCoords(cols, rows - 1)
  }

  /** The visit of (c, r) is the (r * cols + c)-th of cols * rows visits. */
  lemma {:induction false} TraversalAt(cols: nat, rows: nat, c: nat, r: nat)
    requires c < cols && r < rows
    ensures |Traversal(cols, rows)| == rows * cols
    ensures r * cols + c < rows * cols
    ensures Traversal(cols, rows)[r * cols + c] == (c, r)
  {
    TraversalLength(cols, rows - 1);
    if r < rows - 1 {
      TraversalAt(cols, rows - 1, c, r);
    }
  }

  lemma {:induction false} TraversalLength(cols: nat, rows: nat)
    ensures |Traversal(cols, rows)| == rows * cols
  {
    if rows > 0 {
      TraversalLength(cols, rows - 1);
    }
  }

  /** The ids of the wrappers of one row, left to right. */
  function RowIds(g: Grid, rowIndex: nat): seq<nat>
    requires g.Valid() && rowIndex < g.rows
  {
    seq(g.cols, c requires 0 <= c < g.cols => g.cells[c][rowIndex].id)
  }

  /** The ids of the wrappers of the first n rows, in visiting order. */
  function RowMajorPrefix(g: Grid, n: nat): seq<nat>
    requires g.Valid() && n <= g.rows
  {
    if n == 0 then [] else RowMajorPrefix(g, n - 1) + RowIds(g, n - 1)
  }

  /** reloadGridComposite's children of the root: every wrapper, in visiting order. */
  function RowMajor(g: Grid): seq<nat>
    requires g.Valid()
  {
    RowMajorPrefix(g, g.rows)
  }

  /** In the first n rows, the (r * cols + c)-th id is that of the wrapper at (c, r). */
  lemma {:induction false} RowMajorPrefixAt(g: Grid, n: nat, c: nat, r: nat)
    requires g.Valid() && n <= g.rows && c < g.cols && r < n
    ensures |RowMajorPrefix(g, n)| == n * g.cols
    ensures r * g.cols + c < n * g.cols
    ensures RowMajorPrefix(g, n)[r * g.cols + c] == g.cells[c][r].id
  {
    var m := n - 1;
    RowMajorPrefixLength(g, m);
    assert n * g.cols == m * g.cols + g.cols;
    if r < m {
      RowMajorPrefixAt(g, m, c, r);
    } else {
      assert r * g.cols + c == m * g.cols + c;
    }
  }

  lemma {:induction false} RowMajorPrefixLength(g: Grid, n: nat)
    requires g.Valid() && n <= g.rows
    ensures |RowMajorPrefix(g, n)| == n * g.cols
  {
    if n > 0 {
      RowMajorPrefixLength(g, n - 1);
    }
  }

  /** The root's child at index row * amountOfColumns + col is the wrapper at (col, row), the visit of that coordinate. */
  lemma RowMajorAt(g: Grid, c: nat, r: nat)
    requires g.Valid() && c < g.cols && r < g.rows
    ensures |RowMajor(g)| == g.rows * g.cols == |Traversal(g.cols, g.rows)|
    ensures r * g.cols + c < |RowMajor(g)|
    ensures RowMajor(g)[r * g.cols + c] == g.cells[c][r].id
    ensures Traversal(g.cols, g.rows)[r * g.cols + c] == (c, r)
  {
    RowMajorPrefixAt(g, g.rows, c, r);
    TraversalAt(g.cols, g.rows, c, r);
  }

  /** Grids holding the same wrappers everywhere have the same root children. */
  lemma {:induction false} RowMajorSameIds(g: Grid, h: Grid, n: nat)
    requires g.Valid() && h.Valid() && g.cols == h.cols && g.rows == h.rows && n <= g.rows
    requires forall c, r :: 0 <= c < g.cols && 0 <= r < g.rows ==> g.cells[c][r].id == h.cells[c][r].id
    ensures RowMajorPrefix(g, n) == RowMajorPrefix(h, n)
  {
    if n > 0 {
      RowMajorSameIds(g, h, n - 1);
      assert RowIds(g, n - 1) == RowIds(h, n - 1);
    }
  }

  // ---------------------------------------------------------------------------
  // addComponent and addTooltipForComponent

  /** The matrix with the wrapper at (c, r) replaced and every other wrapper kept. */
  function Replace(g: Grid, c: nat, r: nat, cell: Cell): (h: Grid)
    requires g.Valid() && c < g.cols && r < g.rows
    ensures h.Valid() && h.cols == g.cols && h.rows == g.rows
    ensures h.cells[c][r] == cell
    ensures forall c', r' :: 0 <= c' < g.cols && 0 <= r' < g.rows && (c', r') != (c, r) ==>
      h.cells[c'][r'] == g.cells[c'][r']
  {
    g.(cells := g.cells[c := g.cells[c][r := cell]])
  }

  /** getComponent: the content of the wrapper at (c, r), or the error validateCoordinates raises. */
  function ComponentAt(g: Grid, c: nat, r: nat): (result: Result<Child, GridError>)
    requires g.Valid()
    ensures result.Failure? <==> ValidateCoordinates(c, r, g.cols, g.rows).Fail?
    ensures result.Failure? ==> result.error == ValidateCoordinates(c, r, g.cols, g.rows).error
    ensures result.Success? ==> c < g.cols && r < g.rows && result.value == g.cells[c][r].child
  {
    match ValidateCoordinates(c, r, g.cols, g.rows)
    case Fail(e) => Failure(e)
    case Pass => Success(g.cells[c][r].child)
  }

  /** setTitle on the wrapper at (c, r): the same wrapper, now with a tooltip. */
  function WithTitle(g: Grid, c: nat, r: nat, tooltip: string): (h: Grid)
    requires g.Valid() && c < g.cols && r < g.rows
    ensures h.Valid() && h.cols == g.cols && h.rows == g.rows
    ensures h.cells[c][r] == g.cells[c][r].(title := Some(tooltip))
    ensures forall c', r' :: 0 <= c' < g.cols && 0 <= r' < g.rows && (c', r') != (c, r) ==>
      h.cells[c'][r'] == g.cells[c'][r']
  {
    Replace(g, c, r, g.cells[c][r].(title := Some(tooltip)))
  }

  /** What reloadGridComposite does to the wrappers: the border pass, when borders are on. */
  function Reloaded(g: Grid, displayBorder: bool): (h: Grid)
    requires g.Valid()
    ensures h.Valid() && h.cols == g.cols && h.rows == g.rows
  {
    if displayBorder then Bordered(g) else g
  }

  // ---------------------------------------------------------------------------
  // displayBorder

  const BORDER_LEFT: string := "border-left"
  const BORDER_TOP: string := "border-top"
  const BORDER_BOTTOM: string := "border-bottom"
  const BORDER_RIGHT: string := "border-right"

  function WithEdge(style: map<string, string>, key: string, present: bool): map<string, string> {
    if present then style[key := BORDER_STYLE] else style
  }

  /** What the pass over the rows sets on one wrapper. */
  function RowEdges(cell: Cell, c: nat, rowHasContent: bool): Cell {
    cell.(style := WithEdge(WithEdge(cell.style, BORDER_LEFT, c == 0), BORDER_BOTTOM, rowHasContent))
  }

  /** What the pass over the columns sets on one wrapper. */
  function ColumnEdges(cell: Cell, r: nat, columnHasContent: bool): Cell {
    cell.(style := WithEdge(WithEdge(cell.style, BORDER_TOP, r == 0), BORDER_RIGHT, columnHasContent))
  }

  /** The matrix after the border pass. */
  function Bordered(g: Grid): (h: Grid)
    requires g.Valid()
    ensures h.Valid() && h.cols == g.cols && h.rows == g.rows
  {
    g.(cells := seq(g.cols, c requires 0 <= c < g.cols =>
      seq(g.rows, r requires 0 <= r < g.rows =>
        ColumnEdges(RowEdges(g.cells[c][r], c, HasContent(Row(g, r))), r, HasContent(g.cells[c])))))
  }

  // ---------------------------------------------------------------------------
  // setStriped

  const BACKGROUND: string := "background"

  /** The number of row groups (stripeRows) or column groups. */
  function LineCount(g: Grid, byRows: bool): nat {
    if byRows then g.rows else g.cols
  }

  /** The number of wrappers in one group. */
  function LineLength(g: Grid, byRows: bool): nat {
    if byRows then g.cols else g.rows
  }

  /** The t-th wrapper of group j. */
  function LineCoord(byRows: bool, j: nat, t: nat): Coord {
    if byRows then (t, j) else (j, t)
  }

  /** The group the wrapper at (c, r) belongs to. */
  function LineOf(byRows: bool, c: nat, r: nat): nat {
    if byRows then r else c
  }

  /** Group j: a row (getCellsOfRow) or a column (getCellsOfColumn). */
  function Line(g: Grid, byRows: bool, j: nat): seq<Cell>
    requires g.Valid() && j < LineCount(g, byRows)
  {
    if byRows then Row(g, j) else g.cells[j]
  }

  /** 0, 1, ..., n - 1. */
  function Range(n: nat): (s: seq<nat>)
    ensures |s| == n && forall i :: 0 <= i < n ==> s[i] == i
  {
    seq(n, i => i)
  }

  predicate Groups(g: Grid, byRows: bool, js: seq<nat>) {
    forall k :: 0 <= k < |js| ==> js[k] < LineCount(g, byRows)
  }

  /** removeIf on the list of groups: the groups of js holding content, in their order. */
  function Kept(g: Grid, byRows: bool, js: seq<nat>): (kept: seq<nat>)
    requires g.Valid() && Groups(g, byRows, js)
    ensures |kept| <= |js| && Groups(g, byRows, kept)
    ensures forall k :: 0 <= k < |kept| ==> HasContent(Line(g, byRows, kept[k]))
    decreases |js|
  {
    if js == [] then []
    else
      var rest := Kept(g, byRows, js[..|js| - 1]);
      var last := js[|js| - 1];
      assert forall k :: 0 <= k < |js| - 1 ==> js[k] == js[..|js| - 1][k];
      if HasContent(Line(g, byRows, last)) then rest + [last] else rest
  }

  /** removeIf keeps exactly the listed groups that hold content. */
  lemma {:induction false} KeptMembers(g: Grid, byRows: bool, js: seq<nat>, j: nat)
    requires g.Valid() && Groups(g, byRows, js)
    ensures j in Kept(g, byRows, js) <==> j in js && j < LineCount(g, byRows) && HasContent(Line(g, byRows, j))
    decreases |js|
  {
    if js != [] {
      var init := js[..|js| - 1];
      assert js == init + [js[|js| - 1]];
      KeptMembers(g, byRows, init, j);
    }
  }

  /** The number of groups before group j that hold content: j's place among the kept groups. */
  function Rank(g: Grid, byRows: bool, j: nat): (rank: nat)
    requires g.Valid() && j <= LineCount(g, byRows)
    ensures rank <= j
  {
    |Kept(g, byRows, Range(j))|
  }

  /** Keeping from 0..n is keeping from 0..n-1, then group n - 1 if it holds content. */
  lemma KeptStep(g: Grid, byRows: bool, n: nat)
    requires g.Valid() && 0 < n <= LineCount(g, byRows)
    ensures Kept(g, byRows, Range(n)) ==
      Kept(g, byRows, Range(n - 1)) + (if HasContent(Line(g, byRows, n - 1)) then [n - 1] else [])
  {
    assert Range(n)[..n - 1] == Range(n - 1);
  }

  /** The k-th kept group has content and exactly k kept groups before it. */
  lemma {:induction false} KeptAt(g: Grid, byRows: bool, n: nat, k: nat)
    requires g.Valid() && n <= LineCount(g, byRows)
    requires k < |Kept(g, byRows, Range(n))|
    ensures Kept(g, byRows, Range(n))[k] < n
    ensures HasContent(Line(g, byRows, Kept(g, byRows, Range(n))[k]))
    ensures Rank(g, byRows, Kept(g, byRows, Range(n))[k]) == k
  {
    KeptStep(g, byRows, n);
    var kept := Kept(g, byRows, Range(n));
    var before := Kept(g, byRows, Range(n - 1));
    if k < |before| {
      KeptAt(g, byRows, n - 1, k);
      assert kept[k] == before[k];
    } else {
      assert k == |before| && kept[k] == n - 1;
    }
  }

  /** A group with content is kept, at the place its rank says. */
  lemma {:induction false} KeptComplete(g: Grid, byRows: bool, n: nat, j: nat)
    requires g.Valid() && j < n <= LineCount(g, byRows)
    requires HasContent(Line(g, byRows, j))
    ensures Rank(g, byRows, j) < |Kept(g, byRows, Range(n))|
    ensures Kept(g, byRows, Range(n))[Rank(g, byRows, j)] == j
  {
    KeptStep(g, byRows, n);
    if j < n - 1 {
      KeptComplete(g, byRows, n - 1, j);
    }
  }

  predicate Increasing(s: seq<nat>) {
    forall k1, k2 :: 0 <= k1 < k2 < |s| ==> s[k1] < s[k2]
  }

  /** Appending a number above every element keeps a sequence increasing. */
  lemma IncreasingAppend(s: seq<nat>, x: nat)
    requires Increasing(s) && forall k :: 0 <= k < |s| ==> s[k] < x
    ensures Increasing(s + [x])
  {
    var t := s + [x];
    forall k1, k2 | 0 <= k1 < k2 < |t|
      ensures t[k1] < t[k2]
    {
      assert t[k1] == s[k1];
    }
  }

  /** Keeping from 0..n keeps only groups below n. */
  lemma KeptBelow(g: Grid, byRows: bool, n: nat)
    requires g.Valid() && n <= LineCount(g, byRows)
    ensures forall k :: 0 <= k < |Kept(g, byRows, Range(n))| ==> Kept(g, byRows, Range(n))[k] < n
  {
    forall k | 0 <= k < |Kept(g, byRows, Range(n))|
      ensures Kept(g, byRows, Range(n))[k] < n
    {
      KeptAt(g, byRows, n, k);
    }
  }

  /** The kept groups are listed in increasing order, as removeIf leaves them. */
  lemma {:induction false} KeptIncreasing(g: Grid, byRows: bool, n: nat)
    requires g.Valid() && n <= LineCount(g, byRows)
    ensures Increasing(Kept(g, byRows, Range(n)))
  {
    if n > 0 {
      var m := n - 1;
      var before := Kept(g, byRows, Range(m));
      KeptIncreasing(g, byRows, m);
      KeptBelow(g, byRows, m);
      KeptStep(g, byRows, n);
      if HasContent(Line(g, byRows, m)) {
        IncreasingAppend(before, m);
        assert Kept(g, byRows, Range(n)) == before + [m];
      } else {
        assert Kept(g, byRows, Range(n)) == before;
      }
    }
  }

  /** Which groups are kept depends on the wrappers' classes alone. */
  lemma {:induction false} KeptSameMarkers(g: Grid, h: Grid, byRows: bool, js: seq<nat>)
    requires SameMarkers(g, h) && Groups(g, byRows, js)
    ensures Kept(g, byRows, js) == Kept(h, byRows, js)
    decreases |js|
  {
    SameMarkersSameContent(g, h);
    if js != [] {
      KeptSameMarkers(g, h, byRows, js[..|js| - 1]);
    }
  }

  /** Whether group j gets the colour: it holds content and its rank has the parity startWithColor asks for. */
  predicate Coloured(g: Grid, byRows: bool, startWithColor: bool, j: nat)
    requires g.Valid() && j < LineCount(g, byRows)
  {
    HasContent(Line(g, byRows, j)) && (Rank(g, byRows, j) % 2 == 0 <==> startWithColor)
  }

  /** One wrapper after setStriped: background removed, then set to the colour if its group is coloured. */
  function StripedCell(cell: Cell, coloured: bool, cssColor: string): (striped: Cell)
    ensures BACKGROUND in striped.style <==> coloured
    ensures coloured ==> striped.style[BACKGROUND] == cssColor
    ensures forall k :: k != BACKGROUND ==> (k in striped.style <==> k in cell.style)
    ensures forall k :: k != BACKGROUND && k in cell.style ==> striped.style[k] == cell.style[k]
    ensures striped == cell.(style := striped.style)
  {
    var cleared := cell.style - {BACKGROUND};
    cell.(style := if coloured then cleared[BACKGROUND := cssColor] else cleared)
  }

  /** The matrix after setStriped. */
  function Striped(g: Grid, cssColor: string, byRows: bool, startWithColor: bool): (h: Grid)
    requires g.Valid()
    ensures h.Valid() && h.cols == g.cols && h.rows == g.rows
  {
    g.(cells := seq(g.cols, c requires 0 <= c < g.cols =>
      seq(g.rows, r requires 0 <= r < g.rows =>
        StripedCell(g.cells[c][r], Coloured(g, byRows, startWithColor, LineOf(byRows, c, r)), cssColor))))
  }
}

module GridFacts {
  import opened Wrappers
  import opened Text
  import opened Cells
  import opened GridModel

  /** Two grids of one shape that hold the same wrappers, except perhaps for their style properties. */
  predicate SameWrappers(g: Grid, h: Grid) {
    g.Valid() && h.Valid() && g.cols == h.cols && g.rows == h.rows &&
    forall c, r :: 0 <= c < g.cols && 0 <= r < g.rows ==>
      h.cells[c][r] == g.cells[c][r].(style := h.cells[c][r].style)
  }

  /** Restyling keeps well-formedness, the root's children and which groups hold content. */
  lemma SameWrappersKeep(g: Grid, h: Grid, nextId: nat)
    requires SameWrappers(g, h)
    ensures WellFormed(g, nextId) ==> WellFormed(h, nextId)
    ensures RowMajor(g) == RowMajor(h)
    ensures SameMarkers(g, h)
  {
    RowMajorSameIds(g, h, g.rows);
    if WellFormed(g, nextId) {
      SameIdsDistinct(g, h);
    }
  }

  /** Grids of one shape with the same id at every coordinate are alike in having distinct ids. */
  lemma SameIdsDistinct(g: Grid, h: Grid)
    requires g.Valid() && h.Valid() && g.cols == h.cols && g.rows == h.rows
    requires forall c, r :: 0 <= c < g.cols && 0 <= r < g.rows ==> h.cells[c][r].id == g.cells[c][r].id
    requires DistinctIds(g)
    ensures DistinctIds(h)
  {
    forall c1, r1, c2, r2 |
      0 <= c1 < h.cols && 0 <= r1 < h.rows && 0 <= c2 < h.cols && 0 <= r2 < h.rows &&
      IdAt(h, c1, r1) == IdAt(h, c2, r2)
      ensures c1 == c2 && r1 == r2
    {
      assert IdAt(g, c1, r1) == IdAt(g, c2, r2);
    }
  }

  /** The border pass changes style properties only. */
  lemma BorderedRestyles(g: Grid)
    requires g.Valid()
    ensures SameWrappers(g, Bordered(g))
  {
  }

  /** setStriped changes style properties only. */
  lemma StripedRestyles(g: Grid, cssColor: string, byRows: bool, startWithColor: bool)
    requires g.Valid()
    ensures SameWrappers(g, Striped(g, cssColor, byRows, startWithColor))
  {
  }

  /** The grid after construction is well formed and its ids stop below cols * rows. */
  lemma InitialGridWellFormed(cols: nat, rows: nat)
    ensures WellFormed(InitialGrid(cols, rows), cols * rows)
  {
    var g := InitialGrid(cols, rows);
    forall c, r | 0 <= c < cols && 0 <= r < rows
      ensures g.cells[c][r].id < cols * rows
    {
      VisitIndexBelow(cols, rows, c, r);
    }
    forall c1, r1, c2, r2 |
      0 <= c1 < cols && 0 <= r1 < rows && 0 <= c2 < cols && 0 <= r2 < rows &&
      IdAt(g, c1, r1) == IdAt(g, c2, r2)
      ensures c1 == c2 && r1 == r2
    {
      VisitIndexInjective(cols, c1, r1, c2, r2);
    }
  }

  /** Row-major visiting numbers tell coordinates apart. */
  lemma VisitIndexInjective(cols: nat, c1: nat, r1: nat, c2: nat, r2: nat)
    requires c1 < cols && c2 < cols && r1 * cols + c1 == r2 * cols + c2
    ensures c1 == c2 && r1 == r2
  {
    if r1 < r2 {
      VisitIndexBelow(cols, r2, c1, r1);
    } else if r2 < r1 {
      VisitIndexBelow(cols, r1, c2, r2);
    }
  }

  lemma VisitIndexBelow(cols: nat, rows: nat, c: nat, r: nat)
    requires c < cols && r < rows
    ensures r * cols + c < cols * rows
  {
    assert r * cols + c < (r + 1) * cols <= rows * cols;
  }

  /** A new wrapper at (c, r) with the next id keeps the grid well formed. */
  lemma ReplaceWellFormed(g: Grid, nextId: nat, c: nat, r: nat, component: Option<Token>)
    requires WellFormed(g, nextId) && c < g.cols && r < g.rows
    ensures WellFormed(Replace(g, c, r, CreateCell(nextId, c, r, component)), nextId + 1)
  {
    var h := Replace(g, c, r, CreateCell(nextId, c, r, component));
    forall c1, r1, c2, r2 |
      0 <= c1 < h.cols && 0 <= r1 < h.rows && 0 <= c2 < h.cols && 0 <= r2 < h.rows &&
      IdAt(h, c1, r1) == IdAt(h, c2, r2)
      ensures c1 == c2 && r1 == r2
    {
      if (c1, r1) != (c, r) && (c2, r2) != (c, r) {
        assert IdAt(g, c1, r1) == IdAt(g, c2, r2);
      }
    }
  }

  /** A tooltip keeps the grid well formed. */
  lemma WithTitleWellFormed(g: Grid, nextId: nat, c: nat, r: nat, tooltip: string)
    requires WellFormed(g, nextId) && c < g.cols && r < g.rows
    ensures WellFormed(WithTitle(g, c, r, tooltip), nextId)
  {
    SameIdsDistinct(g, WithTitle(g, c, r, tooltip));
  }
}
