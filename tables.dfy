/** Locating the data table, its data rows and their non-empty cells
    (`GetDataTable`, `GetTableRows`, `GetTableCells`). */
module TableExtraction {
  import opened Results
  import opened Failures
  import opened Seqs
  import opened Strings
  import opened Html

  /** The marker of the data table: a `class` attribute whose value is "datatable". */
  predicate IsDataTable(n: Node): (r: bool)
    ensures r <==> n.Element? && exists i :: FirstWithName(n.attributes, "class", i) && n.attributes[i].value == "datatable"
  {
    AttributeValue(n, "class") == Some("datatable")
  }

  /** `GetDataTable`: the one table below `<body>` marked as the data table. LINQ `Single`
      throws when there is none and when there are several. */
  function GetDataTable(html: Node): (r: Result<Node, Error>)
    ensures r == Err(NoBody) <==> Child(html, "body").None?
    ensures Child(html, "body").Some? ==>
      var tables := Descendants(Child(html, "body").value, "table");
      && (r == Err(NoDataTable) <==> forall i :: 0 <= i < |tables| ==> !IsDataTable(tables[i]))
      && (r == Err(AmbiguousDataTable) <==>
            exists i, j :: 0 <= i < j < |tables| && IsDataTable(tables[i]) && IsDataTable(tables[j]))
      && (r.Ok? <==> exists i :: OnlyAt(tables, IsDataTable, i))
      && (r.Ok? ==> r.value in tables && IsDataTable(r.value))
      && (r.Ok? ==> forall i :: 0 <= i < |tables| && IsDataTable(tables[i]) ==> tables[i] == r.value)
    ensures r.Err? ==> r.error == NoBody || r.error == NoDataTable || r.error == AmbiguousDataTable
  {
    match Child(html, "body")
    case None => Err(NoBody)
    case Some(body) =>
      var tables := Descendants(body, "table");
      var matches := Filter(tables, IsDataTable);
      FilterSingle(tables, IsDataTable);
      if |matches| == 0 then Err(NoDataTable)
      else if |matches| > 1 then Err(AmbiguousDataTable)
      else Ok(matches[0])
  }

  /** A data row: a `tr` element that carries a `valign` attribute. */
  predicate IsDataRow(n: Node) {
    Name(n) == "tr" && HasAttribute(n, "valign")
  }

  /** `GetTableRows`: exactly the data rows among the table's children, every occurrence of
      each, in their order. */
  function GetTableRows(table: Node): (rows: seq<Node>)
    ensures forall i :: 0 <= i < |rows| ==> IsDataRow(rows[i])
    ensures forall x :: x in rows <==> x in Children(table) && IsDataRow(x)
    ensures IsSubsequence(rows, Children(table))
    ensures forall x :: IsDataRow(x) ==> multiset(rows)[x] == multiset(Children(table))[x]
  {
    var hasAlign := (c: Node) => HasAttribute(c, "valign");
    var trs := Elements(table, "tr");
    var rows := Filter(trs, hasAlign);
    FilterMembers(trs, hasAlign);
    FilterIsSubsequence(trs, hasAlign);
    SubsequenceTransitive(rows, trs, Children(table));
    FilterOccurrences(trs, hasAlign);
    rows
  }

  /** `!String.IsNullOrWhiteSpace(p.InnerText.Trim())`. */
  predicate HasText(n: Node) {
    !IsBlank(Trim(InnerText(n)))
  }

  /** Trimming first makes no difference: a cell has text exactly when its inner text is not blank. */
  lemma HasTextIff(n: Node)
    ensures HasText(n) <==> !IsBlank(InnerText(n))
  {
    var t := Trim(InnerText(n));
    TrimSpec(InnerText(n));
    if t != [] {
      assert !IsWhiteSpace(t[0]);
    }
  }

  /** The cell filter of `GetTableCells`: a `td` whose trimmed inner text is not blank. */
  predicate IsTextCell(n: Node) {
    Name(n) == "td" && HasText(n)
  }

  /** The cells one row contributes. */
  function RowCells(row: Node): seq<Node> {
    Filter(Elements(row, "td"), HasText)
  }

  lemma RowCellsMembers(row: Node)
    ensures forall c :: c in RowCells(row) <==> c in Children(row) && IsTextCell(c)
  {
    FilterMembers(Children(row), c => Name(c) == "td");
    FilterMembers(Elements(row, "td"), HasText);
  }

  /** The cells of all rows: each row's cells, row after row. */
  function TableCells(rows: seq<Node>): seq<Node> {
    FlatMap(rows, RowCells)
  }

  /** A cell is kept exactly when it is a text cell among the children of one of the rows, and
      its inner text is then not blank. */
  lemma TableCellsMembers(rows: seq<Node>)
    ensures forall c :: c in TableCells(rows) <==> exists i :: 0 <= i < |rows| && c in Children(rows[i]) && IsTextCell(c)
    ensures forall c :: c in TableCells(rows) ==> Name(c) == "td" && !IsBlank(InnerText(c))
  {
    FlatMapMembers(rows, RowCells);
    forall i | 0 <= i < |rows| {
      RowCellsMembers(rows[i]);
    }
    forall c | c in TableCells(rows) ensures !IsBlank(InnerText(c)) {
      HasTextIff(c);
    }
  }

  /** Cells come row by row: the cells of two runs of rows are the first run's cells followed
      by the second's. */
  lemma TableCellsAppend(rows1: seq<Node>, rows2: seq<Node>)
    ensures TableCells(rows1 + rows2) == TableCells(rows1) + TableCells(rows2)
  {
    FlatMapAppend(rows1, rows2, RowCells);
  }

  /** `GetTableCells`: walks the rows and appends each row's text cells to a list. */
  method GetTableCells(rows: seq<Node>) returns (cells: seq<Node>)
    ensures cells == TableCells(rows)
    ensures forall c :: c in cells <==> exists i :: 0 <= i < |rows| && c in Children(rows[i]) && IsTextCell(c)
    ensures forall c :: c in cells ==> Name(c) == "td" && !IsBlank(InnerText(c))
  {
    cells := [];
    for i := 0 to |rows|
      invariant cells == TableCells(rows[..i])
    {
      FlatMapStep(rows, RowCells, i);
      cells := cells + Filter(Elements(rows[i], "td"), HasText);
    }
    assert rows[..|rows|] == rows;
    TableCellsMembers(rows);
  }
}
