/**
  What DwGridLayout promises its users, stated over the closed forms of
  module GridModel that the class's methods are proved to follow.
 */
module GridProperties {
  import opened Wrappers
  import opened Text
  import opened Cells
  import opened GridModel
  import opened GridFacts

  // ---------------------------------------------------------------------------
  // Construction

  /** The root's grid-template-columns value: one "min-content " block of 12 characters per column. */
  lemma {:induction false} TemplateColumns(amountOfColumns: nat)
    ensures |Repeat("min-content ", amountOfColumns)| == 12 * amountOfColumns
    ensures forall k :: 0 <= k < amountOfColumns ==>
      Repeat("min-content ", amountOfColumns)[12 * k .. 12 * (k + 1)] == "min-content "
  {
    forall k | 0 <= k < amountOfColumns
      ensures Repeat("min-content ", amountOfColumns)[12 * k .. 12 * (k + 1)] == "min-content "
    {
      RepeatBlock("min-content ", amountOfColumns, k);
    }
  }

  /** After construction every wrapper is a default placeholder without tooltip or style. */
  lemma InitialPlaceholders(cols: nat, rows: nat, c: nat, r: nat)
    requires c < cols && r < rows
    ensures InitialGrid(cols, rows).cells[c][r].child == Placeholder
    ensures IsDefault(InitialGrid(cols, rows).cells[c][r])
    ensures InitialGrid(cols, rows).cells[c][r].title == None
    ensures InitialGrid(cols, rows).cells[c][r].style == map[]
    ensures ComponentAt(InitialGrid(cols, rows), c, r) == Success(Placeholder)
  {
  }

  // ---------------------------------------------------------------------------
  // addComponent, getComponent and addTooltipForComponent

  /**
    getComponent after addComponent: the added component (or a placeholder
    marked default for None), in a new wrapper without a tooltip.
   */
  lemma AddThenGet(g: Grid, displayBorder: bool, id: nat, c: nat, r: nat, component: Option<Token>)
    requires g.Valid() && c < g.cols && r < g.rows
    ensures ComponentAt(Reloaded(Replace(g, c, r, CreateCell(id, c, r, component)), displayBorder), c, r)
      == Success(ChildOf(component))
    ensures Reloaded(Replace(g, c, r, CreateCell(id, c, r, component)), displayBorder).cells[c][r].title == None
    ensures Reloaded(Replace(g, c, r, CreateCell(id, c, r, component)), displayBorder).cells[c][r].id == id
    ensures IsDefault(Reloaded(Replace(g, c, r, CreateCell(id, c, r, component)), displayBorder).cells[c][r])
      <==> component.None?
    ensures !displayBorder ==> Reloaded(Replace(g, c, r, CreateCell(id, c, r, component)), displayBorder).cells[c][r].style == map[]
  {
  }

  /** The wrapper of another coordinate differs at most in the style properties the border pass sets. */
  predicate OnlyAddsBorders(before: map<string, string>, after: map<string, string>) {
    before.Keys <= after.Keys &&
    forall k :: k in after ==>
      (k in before && after[k] == before[k]) ||
      ((k == BORDER_LEFT || k == BORDER_TOP || k == BORDER_BOTTOM || k == BORDER_RIGHT) && after[k] == BORDER_STYLE)
  }

  /**
    addComponent keeps every other wrapper: the same one, with its tooltip,
    classes and content; its style keeps every property and gains at most
    border edges, and stays as it was when borders are off.
   */
  lemma AddKeepsOthers(g: Grid, displayBorder: bool, id: nat, c: nat, r: nat, component: Option<Token>, c': nat, r': nat)
    requires g.Valid() && c < g.cols && r < g.rows && c' < g.cols && r' < g.rows && (c', r') != (c, r)
    ensures Reloaded(Replace(g, c, r, CreateCell(id, c, r, component)), displayBorder).cells[c'][r']
      == g.cells[c'][r'].(style := Reloaded(Replace(g, c, r, CreateCell(id, c, r, component)), displayBorder).cells[c'][r'].style)
    ensures OnlyAddsBorders(g.cells[c'][r'].style,
      Reloaded(Replace(g, c, r, CreateCell(id, c, r, component)), displayBorder).cells[c'][r'].style)
    ensures !displayBorder ==> Reloaded(Replace(g, c, r, CreateCell(id, c, r, component)), displayBorder).cells[c'][r'] == g.cells[c'][r']
  {
    var h := Replace(g, c, r, CreateCell(id, c, r, component));
    assert h.cells[c'][r'] == g.cells[c'][r'];
    if displayBorder {
      BorderedEdges(h, c', r');
    }
  }

  /** A tooltip changes the title of one wrapper only; its content stays. */
  lemma TooltipKeepsContent(g: Grid, c: nat, r: nat, tooltip: string, c': nat, r': nat)
    requires g.Valid() && c < g.cols && r < g.rows && c' < g.cols && r' < g.rows
    ensures WithTitle(g, c, r, tooltip).cells[c'][r'].title == if (c', r') == (c, r) then Some(tooltip) else g.cells[c'][r'].title
    ensures WithTitle(g, c, r, tooltip).cells[c'][r'] == g.cells[c'][r'].(title := WithTitle(g, c, r, tooltip).cells[c'][r'].title)
    ensures ComponentAt(WithTitle(g, c, r, tooltip), c', r') == ComponentAt(g, c', r')
  {
  }

  // ---------------------------------------------------------------------------
  // displayBorder

  lemma BorderKeysDistinct()
    ensures BORDER_LEFT != BORDER_TOP && BORDER_LEFT != BORDER_BOTTOM && BORDER_LEFT != BORDER_RIGHT
    ensures BORDER_TOP != BORDER_BOTTOM && BORDER_TOP != BORDER_RIGHT && BORDER_BOTTOM != BORDER_RIGHT
  {
    assert BORDER_LEFT[7] == 'l' && BORDER_TOP[7] == 't' && BORDER_BOTTOM[7] == 'b' && BORDER_RIGHT[7] == 'r';
  }

  /**
    The border pass on one wrapper: a left edge in column 0, a top edge in
    row 0, a bottom edge when its row holds content, a right edge when its
    column does; an edge already present stays, and nothing else changes.
   */
  lemma BorderedEdges(g: Grid, c: nat, r: nat)
    requires g.Valid() && c < g.cols && r < g.rows
    ensures Bordered(g).cells[c][r] == g.cells[c][r].(style := Bordered(g).cells[c][r].style)
    ensures BORDER_LEFT in Bordered(g).cells[c][r].style <==> BORDER_LEFT in g.cells[c][r].style || c == 0
    ensures BORDER_TOP in Bordered(g).cells[c][r].style <==> BORDER_TOP in g.cells[c][r].style || r == 0
    ensures BORDER_BOTTOM in Bordered(g).cells[c][r].style <==> BORDER_BOTTOM in g.cells[c][r].style || HasContent(Row(g, r))
    ensures BORDER_RIGHT in Bordered(g).cells[c][r].style <==> BORDER_RIGHT in g.cells[c][r].style || HasContent(g.cells[c])
    ensures c == 0 ==> Bordered(g).cells[c][r].style[BORDER_LEFT] == BORDER_STYLE
    ensures r == 0 ==> Bordered(g).cells[c][r].style[BORDER_TOP] == BORDER_STYLE
    ensures HasContent(Row(g, r)) ==> Bordered(g).cells[c][r].style[BORDER_BOTTOM] == BORDER_STYLE
    ensures HasContent(g.cells[c]) ==> Bordered(g).cells[c][r].style[BORDER_RIGHT] == BORDER_STYLE
    ensures OnlyAddsBorders(g.cells[c][r].style, Bordered(g).cells[c][r].style)
  {
    BorderKeysDistinct();
  }

  /** A second border pass changes nothing. */
  lemma BorderedIdempotent(g: Grid)
    requires g.Valid()
    ensures Bordered(Bordered(g)) == Bordered(g)
  {
    var h := Bordered(g);
    forall c, r | 0 <= c < g.cols && 0 <= r < g.rows
      ensures Bordered(h).cells[c][r] == h.cells[c][r]
    {
      BorderedTwiceAt(g, c, r);
    }
    forall c | 0 <= c < g.cols
      ensures Bordered(h).cells[c] == h.cells[c]
    {
    }
  }

  lemma BorderedTwiceAt(g: Grid, c: nat, r: nat)
    requires g.Valid() && c < g.cols && r < g.rows
    ensures Bordered(Bordered(g)).cells[c][r] == Bordered(g).cells[c][r]
  {
    var h := Bordered(g);
    BorderedRestyles(g);
    SameClassesSameContent(Row(g, r), Row(h, r));
    SameClassesSameContent(g.cells[c], h.cells[c]);
    EdgesTwice(g.cells[c][r], c, r, HasContent(Row(g, r)), HasContent(g.cells[c]));
  }

  /** The edges of one wrapper, set a second time with the same flags, change nothing. */
  lemma EdgesTwice(cell: Cell, c: nat, r: nat, rowHasContent: bool, columnHasContent: bool)
    ensures var once := ColumnEdges(RowEdges(cell, c, rowHasContent), r, columnHasContent);
      ColumnEdges(RowEdges(once, c, rowHasContent), r, columnHasContent) == once
  {
    BorderKeysDistinct();
    var once := ColumnEdges(RowEdges(cell, c, rowHasContent), r, columnHasContent);
    var twice := ColumnEdges(RowEdges(once, c, rowHasContent), r, columnHasContent);
    assert twice.style.Keys == once.style.Keys;
  }

  /**
    Borders are never removed: in a grid of two columns and one row whose
    wrapper at (1, 0) is a placeholder, with borders on, a wrapper with
    content put at (0, 0) gives the whole row a bottom edge; once a
    placeholder replaces it the row holds no content, yet (1, 0) keeps its
    bottom edge.
   */
  lemma StaleInnerEdge(g: Grid, added: Cell, placeholder: Cell)
    requires g.Valid() && g.cols == 2 && g.rows == 1 && IsDefault(g.cells[1][0])
    requires !IsDefault(added) && IsDefault(placeholder)
    ensures var g2 := Reloaded(Replace(Reloaded(Replace(g, 0, 0, added), true), 0, 0, placeholder), true);
      !HasContent(Row(g2, 0)) && BORDER_BOTTOM in g2.cells[1][0].style
  {
    var h1 := Replace(g, 0, 0, added);
    var g1 := Bordered(h1);
    assert BORDER_BOTTOM in g1.cells[1][0].style by {
      assert !IsDefault(Row(h1, 0)[0]);
      BorderedEdges(h1, 1, 0);
    }
    var h2 := Replace(g1, 0, 0, placeholder);
    var g2 := Bordered(h2);
    assert BORDER_BOTTOM in g2.cells[1][0].style by {
      assert h2.cells[1][0] == g1.cells[1][0];
      BorderedEdges(h2, 1, 0);
    }
    assert IsDefault(Row(g2, 0)[0]) by {
      BorderedEdges(h2, 0, 0);
    }
    assert IsDefault(Row(g2, 0)[1]) by {
      assert g1.cells[1][0].classNames == g.cells[1][0].classNames by {
        BorderedEdges(h1, 1, 0);
      }
      BorderedEdges(h2, 1, 0);
    }
  }

  /**
    The same from construction on: addComponent(0, 0, x) and then
    addComponent(0, 0, null) on a 2 x 1 grid with borders on leave (1, 0)
    with a bottom edge in a row without content.
   */
  lemma StaleInnerEdgeFromStart(component: Token)
    ensures var g1 := Reloaded(Replace(InitialGrid(2, 1), 0, 0, CreateCell(2, 0, 0, Some(component))), true);
      var g2 := Reloaded(Replace(g1, 0, 0, CreateCell(3, 0, 0, None)), true);
      !HasContent(Row(g2, 0)) && BORDER_BOTTOM in g2.cells[1][0].style
  {
    InitialPlaceholders(2, 1, 1, 0);
    StaleInnerEdge(InitialGrid(2, 1), CreateCell(2, 0, 0, Some(component)), CreateCell(3, 0, 0, None));
  }

  // ---------------------------------------------------------------------------
  // setStriped

  /** The kept groups, in order, for the whole matrix. */
  function KeptGroups(g: Grid, byRows: bool): (kept: seq<nat>)
    requires g.Valid()
    ensures Groups(g, byRows, kept)
    ensures forall j :: 0 <= j < LineCount(g, byRows) ==> (j in kept <==> HasContent(Line(g, byRows, j)))
  {
    var groups := Range(LineCount(g, byRows));
    assert forall j :: 0 <= j < LineCount(g, byRows) ==> (j in Kept(g, byRows, groups) <==> HasContent(Line(g, byRows, j))) by {
      forall j | 0 <= j < LineCount(g, byRows)
        ensures j in Kept(g, byRows, groups) <==> HasContent(Line(g, byRows, j))
      {
        assert groups[j] == j;
        KeptMembers(g, byRows, groups, j);
      }
    }
    Kept(g, byRows, groups)
  }

  /** The wrapper at place t of group j. */
  function LineCell(g: Grid, byRows: bool, j: nat, t: nat): Cell
    requires g.Valid() && j < LineCount(g, byRows) && t < LineLength(g, byRows)
  {
    g.cells[LineCoord(byRows, j, t).0][LineCoord(byRows, j, t).1]
  }

  /**
    The k-th group that holds content is coloured exactly when k is even
    (startWithColor) or odd (otherwise), and all its wrappers then have the colour.
   */
  lemma StripedAlternates(g: Grid, cssColor: string, byRows: bool, startWithColor: bool, k: nat, t: nat)
    requires g.Valid() && k < |KeptGroups(g, byRows)| && t < LineLength(g, byRows)
    ensures KeptGroups(g, byRows)[k] < LineCount(g, byRows)
    ensures var s := LineCell(Striped(g, cssColor, byRows, startWithColor), byRows, KeptGroups(g, byRows)[k], t).style;
      (BACKGROUND in s <==> (k % 2 == 0 <==> startWithColor)) && (BACKGROUND in s ==> s[BACKGROUND] == cssColor)
  {
    KeptAt(g, byRows, LineCount(g, byRows), k);
  }

  /** A group made of placeholders only ends with no background at all. */
  lemma StripedEmptyLine(g: Grid, cssColor: string, byRows: bool, startWithColor: bool, j: nat, t: nat)
    requires g.Valid() && j < LineCount(g, byRows) && t < LineLength(g, byRows)
    requires !HasContent(Line(g, byRows, j))
    ensures BACKGROUND !in LineCell(Striped(g, cssColor, byRows, startWithColor), byRows, j, t).style
  {
  }

  /** setStriped touches the background property only. */
  lemma StripedOnlyBackground(g: Grid, cssColor: string, byRows: bool, startWithColor: bool, c: nat, r: nat)
    requires g.Valid() && c < g.cols && r < g.rows
    ensures Striped(g, cssColor, byRows, startWithColor).cells[c][r]
      == g.cells[c][r].(style := Striped(g, cssColor, byRows, startWithColor).cells[c][r].style)
    ensures forall k :: k != BACKGROUND ==>
      (k in Striped(g, cssColor, byRows, startWithColor).cells[c][r].style <==> k in g.cells[c][r].style)
    ensures forall k :: k != BACKGROUND && k in g.cells[c][r].style ==>
      Striped(g, cssColor, byRows, startWithColor).cells[c][r].style[k] == g.cells[c][r].style[k]
  {
  }

  /** Striping twice with the same arguments is striping once. */
  lemma StripedIdempotent(g: Grid, cssColor: string, byRows: bool, startWithColor: bool)
    requires g.Valid()
    ensures Striped(Striped(g, cssColor, byRows, startWithColor), cssColor, byRows, startWithColor)
      == Striped(g, cssColor, byRows, startWithColor)
  {
    var h := Striped(g, cssColor, byRows, startWithColor);
    forall c, r | 0 <= c < g.cols && 0 <= r < g.rows
      ensures Striped(h, cssColor, byRows, startWithColor).cells[c][r] == h.cells[c][r]
    {
      StripedTwiceAt(g, cssColor, byRows, startWithColor, c, r);
    }
    forall c | 0 <= c < g.cols
      ensures Striped(h, cssColor, byRows, startWithColor).cells[c] == h.cells[c]
    {
    }
  }

  lemma StripedTwiceAt(g: Grid, cssColor: string, byRows: bool, startWithColor: bool, c: nat, r: nat)
    requires g.Valid() && c < g.cols && r < g.rows
    ensures Striped(Striped(g, cssColor, byRows, startWithColor), cssColor, byRows, startWithColor).cells[c][r]
      == Striped(g, cssColor, byRows, startWithColor).cells[c][r]
  {
    var h := Striped(g, cssColor, byRows, startWithColor);
    StripedRestyles(g, cssColor, byRows, startWithColor);
    ColouredSameMarkers(g, h, byRows, startWithColor, LineOf(byRows, c, r));
  }

  /** Which groups are coloured depends on the wrappers' classes alone. */
  lemma ColouredSameMarkers(g: Grid, h: Grid, byRows: bool, startWithColor: bool, j: nat)
    requires SameWrappers(g, h) && j < LineCount(g, byRows)
    ensures Coloured(h, byRows, startWithColor, j) == Coloured(g, byRows, startWithColor, j)
  {
    assert SameMarkers(g, h);
    SameClassesSameContent(Line(g, byRows, j), Line(h, byRows, j));
    KeptSameMarkers(g, h, byRows, Range(j));
  }
}
