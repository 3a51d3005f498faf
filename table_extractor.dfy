/**
 * `get_wiki_ids2` after the page has been fetched and parsed: every
 * wikitable is a sequence of rows, every row a sequence of cells, every cell
 * the sequence of `/wiki/` anchors found in it. Each anchor carries its href
 * and the text of its nearest enclosing list item, if it has one. The
 * anchors of column `col` are collected, table by table and row by row,
 * unless they have no list item or their list item marks an extinct taxon.
 */
module TableExtractor {
  import opened Wrappers
  import opened Href
  import Text

  /** An anchor of a cell: its href and the text of its enclosing `li`, `None` when it has none. */
  datatype Anchor = Anchor(href: string, listItem: Option<string>)

  /** The anchors of one cell, in document order. */
  type Cell = seq<Anchor>

  /** The cells of one row. */
  type Row = seq<Cell>

  /** The rows of one wikitable. */
  type Table = seq<Row>

  /** The anchor's href is collected: it sits in a list item whose text has no dagger. */
  predicate Collected(a: Anchor)
  {
    a.listItem.Some? && Text.Dagger !in a.listItem.value
  }

  /** The hrefs the loop over the first `n` anchors of a cell appends, in order. */
  function CellHrefs(cell: Cell, n: nat): (r: seq<string>)
    requires n <= |cell|
    ensures |r| <= n
  {
    if n == 0 then []
    else CellHrefs(cell, n - 1) + (if Collected(cell[n - 1]) then [cell[n - 1].href] else [])
  }

  /** The hrefs one row contributes: those of its cell `col`, nothing when the row has no such cell. */
  function RowHrefs(row: Row, col: int): seq<string>
  {
    if 0 <= col < |row| then CellHrefs(row[col], |row[col]|) else []
  }

  /** The hrefs the first `n` rows of a table contribute, in order. */
  function TableHrefs(rows: seq<Row>, col: int, n: nat): seq<string>
    requires n <= |rows|
  {
    if n == 0 then [] else TableHrefs(rows, col, n - 1) + RowHrefs(rows[n - 1], col)
  }

  /** The hrefs the first `n` tables of the page contribute, pooled in order. */
  function PageHrefs(tables: seq<Table>, col: int, n: nat): seq<string>
    requires n <= |tables|
  {
    if n == 0 then [] else PageHrefs(tables, col, n - 1) + TableHrefs(tables[n - 1], col, |tables[n - 1]|)
  }

  /** The hrefs of the whole page, in the order the loops append them. */
  function ColumnHrefs(tables: seq<Table>, col: int): seq<string>
  {
    PageHrefs(tables, col, |tables|)
  }

  /**
   * Anchor `a` of cell `col` of row `r` of table `t` exists and is collected:
   * the row has a cell at `col`, and the anchor has a list item without a dagger.
   */
  ghost predicate Selected(tables: seq<Table>, col: int, t: int, r: int, a: int)
  {
    0 <= t < |tables| && 0 <= r < |tables[t]| && 0 <= col < |tables[t][r]| &&
    0 <= a < |tables[t][r][col]| && Collected(tables[t][r][col][a])
  }

  /**
   * The innermost loop of `get_wiki_ids2`: for each anchor of the chosen
   * cell, append its href to the running list when it is collected.
   */
  method AppendCellHrefs(acc: seq<string>, anchors: Cell) returns (hrefs: seq<string>)
    ensures hrefs == acc + CellHrefs(anchors, |anchors|)
  {
    hrefs := acc;
    var a := 0;
    while a < |anchors|
      invariant 0 <= a <= |anchors|
      invariant hrefs == acc + CellHrefs(anchors, a)
    {
      var anchor := anchors[a];
      if Collected(anchor) {
        hrefs := hrefs + [anchor.href];
      }
      a := a + 1;
    }
  }

  /**
   * The body of the loop over rows: a row with a cell at `col` has that
   * cell's anchors appended; a shorter row (or a negative `col`) is skipped.
   */
  method AppendRowHrefs(acc: seq<string>, cells: Row, col: int) returns (hrefs: seq<string>)
    ensures hrefs == acc + RowHrefs(cells, col)
  {
    hrefs := acc;
    if 0 <= col < |cells| {
      hrefs := AppendCellHrefs(hrefs, cells[col]);
    }
  }

  /** The loop over the rows of one table, appending what each row contributes. */
  method AppendTableHrefs(acc: seq<string>, rows: Table, col: int) returns (hrefs: seq<string>)
    ensures hrefs == acc + TableHrefs(rows, col, |rows|)
  {
    hrefs := acc;
    var r := 0;
    while r < |rows|
      invariant 0 <= r <= |rows|
      invariant hrefs == acc + TableHrefs(rows, col, r)
    {
      ghost var done := TableHrefs(rows, col, r);
      hrefs := AppendRowHrefs(hrefs, rows[r], col);
      assert hrefs == acc + (done + RowHrefs(rows[r], col));
      r := r + 1;
    }
  }

  /**
   * The outer loop of `get_wiki_ids2` over every wikitable of the page,
   * pooling what each table contributes into one list.
   */
  method CollectColumnHrefs(tables: seq<Table>, col: int) returns (hrefs: seq<string>)
    ensures hrefs == ColumnHrefs(tables, col)
  {
    hrefs := [];
    var t := 0;
    while t < |tables|
      invariant 0 <= t <= |tables|
      invariant hrefs == PageHrefs(tables, col, t)
    {
      hrefs := AppendTableHrefs(hrefs, tables[t], col);
      t := t + 1;
    }
  }

  /** The status code of a successful fetch. */
  const StatusOk: int := 200

  /**
   * `get_wiki_ids2` on the response status and the parsed wikitables: no
   * identifiers at all when the fetch did not succeed, otherwise the
   * normalised, deduplicated identifiers of the collected anchors of column `col`.
   */
  method GetWikiIds2(status: int, tables: seq<Table>, col: int) returns (ids: set<string>)
    ensures status != StatusOk ==> ids == {}
    ensures status == StatusOk ==> ids == IdSet(set h | h in ColumnHrefs(tables, col))
    ensures forall id :: id in ids <==>
      (status == StatusOk &&
       exists t, r, a :: Selected(tables, col, t, r, a) && Normalize(tables[t][r][col][a].href) == id)
  {
    var hrefs: seq<string> := [];
    if status == StatusOk {
      hrefs := CollectColumnHrefs(tables, col);
    }
    ids := IdSet(set h | h in hrefs);
    forall id | id in ids
      ensures exists t, r, a :: Selected(tables, col, t, r, a) && Normalize(tables[t][r][col][a].href) == id
    {
      var h :| h in hrefs && Normalize(h) == id;
      ColumnHrefsSound(tables, col, |tables|, h);
    }
    forall id | status == StatusOk &&
                (exists t, r, a :: Selected(tables, col, t, r, a) && Normalize(tables[t][r][col][a].href) == id)
      ensures id in ids
    {
      var t, r, a :| Selected(tables, col, t, r, a) && Normalize(tables[t][r][col][a].href) == id;
      ColumnHrefsComplete(tables, col, |tables|, t, r, a);
    }
  }

  /** Every href of a cell's first `n` anchors comes from a collected anchor among them. */
  lemma {:induction false} CellHrefsSound(cell: Cell, n: nat, h: string)
    requires n <= |cell| && h in CellHrefs(cell, n)
    ensures exists a :: 0 <= a < n && Collected(cell[a]) && cell[a].href == h
  {
    if h !in CellHrefs(cell, n - 1) {
      assert Collected(cell[n - 1]) && cell[n - 1].href == h;
    } else {
      CellHrefsSound(cell, n - 1, h);
    }
  }

  /** Every collected anchor among a cell's first `n` has its href appended. */
  lemma {:induction false} CellHrefsComplete(cell: Cell, n: nat, a: int)
    requires n <= |cell| && 0 <= a < n && Collected(cell[a])
    ensures cell[a].href in CellHrefs(cell, n)
  {
    if a < n - 1 {
      CellHrefsComplete(cell, n - 1, a);
    }
  }

  /** Every href of a table's first `n` rows comes from a collected anchor in cell `col` of one of them. */
  lemma {:induction false} TableHrefsSound(rows: seq<Row>, col: int, n: nat, h: string)
    requires n <= |rows| && h in TableHrefs(rows, col, n)
    ensures exists r, a ::
      0 <= r < n && 0 <= col < |rows[r]| && 0 <= a < |rows[r][col]| &&
      Collected(rows[r][col][a]) && rows[r][col][a].href == h
  {
    if h in TableHrefs(rows, col, n - 1) {
      TableHrefsSound(rows, col, n - 1, h);
    } else {
      var row := rows[n - 1];
      assert 0 <= col < |row| && h in CellHrefs(row[col], |row[col]|);
      CellHrefsSound(row[col], |row[col]|, h);
    }
  }

  /** Every collected anchor in cell `col` of a table's first `n` rows has its href appended. */
  lemma {:induction false} TableHrefsComplete(rows: seq<Row>, col: int, n: nat, r: int, a: int)
    requires n <= |rows| && 0 <= r < n && 0 <= col < |rows[r]| && 0 <= a < |rows[r][col]|
    requires Collected(rows[r][col][a])
    ensures rows[r][col][a].href in TableHrefs(rows, col, n)
  {
    if r < n - 1 {
      TableHrefsComplete(rows, col, n - 1, r, a);
    } else {
      CellHrefsComplete(rows[r][col], |rows[r][col]|, a);
      assert TableHrefs(rows, col, n) == TableHrefs(rows, col, n - 1) + RowHrefs(rows[r], col);
    }
  }

  /** Every href of the first `n` tables comes from a selected anchor. */
  lemma {:induction false} ColumnHrefsSound(tables: seq<Table>, col: int, n: nat, h: string)
    requires n <= |tables| && h in PageHrefs(tables, col, n)
    ensures exists t, r, a :: t < n && Selected(tables, col, t, r, a) && tables[t][r][col][a].href == h
  {
    if h in PageHrefs(tables, col, n - 1) {
      ColumnHrefsSound(tables, col, n - 1, h);
    } else {
      TableHrefsSound(tables[n - 1], col, |tables[n - 1]|, h);
      var r, a :| 0 <= r < |tables[n - 1]| && 0 <= col < |tables[n - 1][r]| && 0 <= a < |tables[n - 1][r][col]| &&
        Collected(tables[n - 1][r][col][a]) && tables[n - 1][r][col][a].href == h;
      assert Selected(tables, col, n - 1, r, a);
    }
  }

  /** Every selected anchor of the first `n` tables has its href collected. */
  lemma ColumnHrefsComplete(tables: seq<Table>, col: int, n: nat, t: int, r: int, a: int)
    requires n <= |tables| && t < n && Selected(tables, col, t, r, a)
    ensures tables[t][r][col][a].href in PageHrefs(tables, col, n)
  {
    var table: Table := tables[t];
    var h := table[r][col][a].href;
    TableHrefsComplete(table, col, |table|, r, a);
    PageHrefsStep(tables, col, t + 1);
    PageHrefsGrow(tables, col, t + 1, n, h);
  }

  /** An href among the first `m` tables' stays among the first `n`'s for every `n >= m`. */
  lemma {:induction false} PageHrefsGrow(tables: seq<Table>, col: int, m: nat, n: nat, h: string)
    requires m <= n <= |tables| && h in PageHrefs(tables, col, m)
    ensures h in PageHrefs(tables, col, n)
    decreases n
  {
    if m < n {
      PageHrefsGrow(tables, col, m, n - 1, h);
      ghost var before := PageHrefs(tables, col, n - 1);
      assert h in before;
      PageHrefsStep(tables, col, n);
    }
  }

  /** The first `n` tables contribute what the first `n - 1` do, then what table `n - 1` does. */
  lemma PageHrefsStep(tables: seq<Table>, col: int, n: nat)
    requires 0 < n <= |tables|
    ensures PageHrefs(tables, col, n) == PageHrefs(tables, col, n - 1) + TableHrefs(tables[n - 1], col, |tables[n - 1]|)
  {
  }


  /** The rows of a table with `row` inserted before position `k`. */
  function InsertRow(rows: seq<Row>, k: nat, row: Row): (r: seq<Row>)
    requires k <= |rows|
    ensures |r| == |rows| + 1 && r[k] == row
    ensures forall i :: 0 <= i < k ==> r[i] == rows[i]
    ensures forall i :: k < i < |r| ==> r[i] == rows[i - 1]
  {
    rows[..k] + [row] + rows[k..]
  }

  /** Before the inserted row, both tables append the same hrefs. */
  lemma {:induction false} TableHrefsBeforeInsert(rows: seq<Row>, k: nat, row: Row, col: int, n: nat)
    requires n <= k <= |rows|
    ensures TableHrefs(InsertRow(rows, k, row), col, n) == TableHrefs(rows, col, n)
  {
    if n > 0 {
      TableHrefsBeforeInsert(rows, k, row, col, n - 1);
      var ins := InsertRow(rows, k, row);
      assert ins[n - 1] == rows[n - 1];
      assert TableHrefs(ins, col, n) == TableHrefs(ins, col, n - 1) + RowHrefs(rows[n - 1], col);
    }
  }

  /** From the inserted short row on, the longer table appends what the original appends. */
  lemma {:induction false} TableHrefsAfterShortRow(rows: seq<Row>, k: nat, row: Row, col: int, n: nat)
    requires k <= n <= |rows| && !(0 <= col < |row|)
    ensures TableHrefs(InsertRow(rows, k, row), col, n + 1) == TableHrefs(rows, col, n)
  {
    var ins := InsertRow(rows, k, row);
    if n == k {
      TableHrefsBeforeInsert(rows, k, row, col, k);
      assert TableHrefs(ins, col, k + 1) == TableHrefs(ins, col, k) + RowHrefs(row, col);
    } else {
      TableHrefsAfterShortRow(rows, k, row, col, n - 1);
      assert ins[n] == rows[n - 1];
      assert TableHrefs(ins, col, n + 1) == TableHrefs(ins, col, n) + RowHrefs(rows[n - 1], col);
    }
  }

  /** Two pages whose first `n` tables contribute the same hrefs, table by table, agree on their first `n` tables. */
  lemma {:induction false} PageHrefsSameContributions(tables: seq<Table>, tables': seq<Table>, col: int, n: nat)
    requires n <= |tables| && n <= |tables'|
    requires forall i :: 0 <= i < n ==> TableHrefs(tables'[i], col, |tables'[i]|) == TableHrefs(tables[i], col, |tables[i]|)
    ensures PageHrefs(tables', col, n) == PageHrefs(tables, col, n)
  {
    if n > 0 {
      PageHrefsSameContributions(tables, tables', col, n - 1);
    }
  }

  /**
   * A row with fewer than `col + 1` cells, inserted anywhere in any table,
   * changes nothing: it is skipped, and nothing fails.
   */
  lemma ShortRowContributesNothing(tables: seq<Table>, t: nat, k: nat, row: Row, col: int)
    requires t < |tables| && k <= |tables[t]| && !(0 <= col < |row|)
    ensures ColumnHrefs(tables[t := InsertRow(tables[t], k, row)], col) == ColumnHrefs(tables, col)
  {
    TableHrefsAfterShortRow(tables[t], k, row, col, |tables[t]|);
    var tables' := tables[t := InsertRow(tables[t], k, row)];
    PageHrefsSameContributions(tables, tables', col, |tables|);
  }
}
