/** The row extraction of `scrape_data_into_excel`: from the `<td>` texts of the
    rows of the page's first table to the list of three-column records that is
    handed to the spreadsheet writer.

    The page has already been fetched and parsed. A table is the sequence of its
    `<tr>` rows, header included, and a row is the sequence of the texts of its
    `<td>` cells, so a row made only of `<th>` cells is the empty sequence. */
module Scraper {
  import opened Text

  datatype Option<+T> = None | Some(value: T)

  /** One `<tr>`: the text of each of its `<td>` cells, in order. */
  type Row = seq<string>

  /** The dictionary built for a kept row, with its three keys. */
  datatype Record = Record(firstCol: string, secondCol: string, thirdCol: string)

  /** Python truthiness of the three fields: at least one is non-empty. */
  predicate HasData(rec: Record)
  {
    rec.firstCol != "" || rec.secondCol != "" || rec.thirdCol != ""
  }

  /** All three fields have no whitespace at either end. */
  predicate FieldsStripped(rec: Record)
  {
    IsStripped(rec.firstCol) && IsStripped(rec.secondCol) && IsStripped(rec.thirdCol)
  }

  /** The stripped text of cell `k`, or "" when the row has no cell `k`. */
  function Field(row: Row, k: nat): string
  {
    if |row| > k then Strip(row[k]) else ""
  }

  /** A field never starts or ends with whitespace, and it is empty exactly
      when the row has no such cell or the cell is all whitespace. */
  lemma FieldIsStrippedCell(row: Row, k: nat)
    ensures IsStripped(Field(row, k))
    ensures Field(row, k) == "" <==> (k >= |row| || AllSpace(row[k]))
  {
    if |row| > k {
      StripIsStripped(row[k]);
      StripEmptyIff(row[k]);
    }
  }

  /** A row has data in the mapped positions 1, 2 or 3: one of those cells
      exists and holds a non-whitespace character. */
  predicate MappedCellHasText(row: Row)
  {
    exists k :: 1 <= k <= 3 && k < |row| && !AllSpace(row[k])
  }

  /** The per-row mapping: cell 1 to `FirstCol`, cell 2 to `SecondCol`, cell 3
      to `ThirdCol`; cell 0 and cells past 3 are never read. */
  function MapRow(row: Row): Record
  {
    Record(Field(row, 1), Field(row, 2), Field(row, 3))
  }

  /** The fields of a row's record have no whitespace at either end. */
  lemma MapRowStripped(row: Row)
    ensures FieldsStripped(MapRow(row))
  {
    FieldIsStrippedCell(row, 1);
    FieldIsStrippedCell(row, 2);
    FieldIsStrippedCell(row, 3);
  }

  /** A row's record is kept exactly when a mapped cell holds text, so a row
      of at most one `<td>` (a `<th>` header row among them) never yields a
      record. */
  lemma MapRowKeepsIff(row: Row)
    ensures HasData(MapRow(row)) <==> MappedCellHasText(row)
    ensures |row| <= 1 ==> !HasData(MapRow(row))
  {
    FieldIsStrippedCell(row, 1);
    FieldIsStrippedCell(row, 2);
    FieldIsStrippedCell(row, 3);
    if MappedCellHasText(row) {
      var k :| 1 <= k <= 3 && k < |row| && !AllSpace(row[k]);
      if k == 1 { assert Field(row, 1) != ""; }
      else if k == 2 { assert Field(row, 2) != ""; }
      else { assert Field(row, 3) != ""; }
    } else {
      assert 1 < |row| ==> AllSpace(row[1]);
      assert 2 < |row| ==> AllSpace(row[2]);
      assert 3 < |row| ==> AllSpace(row[3]);
    }
  }

  /** What one row contributes to the output: its record when kept, else nothing. */
  function Emit(row: Row): seq<Record>
  {
    var rec := MapRow(row);
    if HasData(rec) then [rec] else []
  }

  /** The records produced from `rows`, in order; specifies the loop. There
      are never more records than rows. */
  function ExtractRows(rows: seq<Row>): (r: seq<Record>)
    ensures |r| <= |rows|
  {
    if rows == [] then [] else ExtractRows(rows[..|rows| - 1]) + Emit(rows[|rows| - 1])
  }

  /** Every produced record has a non-empty field, and none of its fields
      starts or ends with whitespace. */
  lemma {:induction false} ExtractRowsRecordsClean(rows: seq<Row>)
    ensures forall k :: 0 <= k < |ExtractRows(rows)| ==>
              HasData(ExtractRows(rows)[k]) && FieldsStripped(ExtractRows(rows)[k])
  {
    if rows != [] {
      var n := |rows| - 1;
      ExtractRowsRecordsClean(rows[..n]);
      MapRowStripped(rows[n]);
      var out := ExtractRows(rows[..n]);
      assert ExtractRows(rows) == out + Emit(rows[n]);
    }
  }

  /** One more row processed: the prefix's records, then that row's record
      if one of its fields is non-empty. */
  lemma ExtractRowsStep(rows: seq<Row>, i: nat)
    requires i < |rows|
    ensures var rec := MapRow(rows[i]);
            ExtractRows(rows[..i + 1]) ==
              if HasData(rec) then ExtractRows(rows[..i]) + [rec] else ExtractRows(rows[..i])
  {
    assert rows[..i + 1][..i] == rows[..i];
  }

  /** Reference definition of the filter: the positions of the kept rows. */
  function KeptIndices(rows: seq<Row>): seq<nat>
  {
    if rows == [] then []
    else
      var n := |rows| - 1;
      KeptIndices(rows[..n]) + (if HasData(MapRow(rows[n])) then [n] else [])
  }

  /** The kept positions are row positions, in strictly increasing order. */
  lemma {:induction false} KeptIndicesIncreasing(rows: seq<Row>)
    ensures forall k :: 0 <= k < |KeptIndices(rows)| ==> KeptIndices(rows)[k] < |rows|
    ensures forall a, b :: 0 <= a < b < |KeptIndices(rows)| ==>
              KeptIndices(rows)[a] < KeptIndices(rows)[b]
  {
    if rows != [] {
      var n := |rows| - 1;
      KeptIndicesIncreasing(rows[..n]);
      var idx := KeptIndices(rows[..n]);
      var all := KeptIndices(rows);
      assert all == idx + (if HasData(MapRow(rows[n])) then [n] else []);
      forall a, b | 0 <= a < b < |all| ensures all[a] < all[b] {
        if b == |idx| {
          assert all[b] == n && all[a] == idx[a];
        } else {
          assert all[b] == idx[b] && all[a] == idx[a];
        }
      }
    }
  }

  /** A position is kept if and only if its row's record has data. */
  lemma {:induction false} KeptIndicesMembership(rows: seq<Row>)
    ensures forall i :: 0 <= i < |rows| ==> (i in KeptIndices(rows) <==> HasData(MapRow(rows[i])))
  {
    if rows != [] {
      var n := |rows| - 1;
      var init := rows[..n];
      KeptIndicesMembership(init);
      KeptIndicesIncreasing(init);
      var idx := KeptIndices(init);
      var all := KeptIndices(rows);
      assert all == idx + (if HasData(MapRow(rows[n])) then [n] else []);
      forall i | 0 <= i < |rows| ensures i in all <==> HasData(MapRow(rows[i])) {
        if i < n {
          assert rows[i] == init[i];
          assert i in all <==> i in idx;
        } else {
          assert n !in idx;
        }
      }
    }
  }

  /** Record `k` of the output is the mapping of the row at the `k`-th kept
      position, and there is one record per kept position. */
  lemma {:induction false} ExtractRowsAtKept(rows: seq<Row>)
    ensures |ExtractRows(rows)| == |KeptIndices(rows)|
    ensures forall k :: 0 <= k < |KeptIndices(rows)| ==>
              KeptIndices(rows)[k] < |rows| &&
              ExtractRows(rows)[k] == MapRow(rows[KeptIndices(rows)[k]])
  {
    KeptIndicesIncreasing(rows);
    if rows != [] {
      var n := |rows| - 1;
      var init := rows[..n];
      ExtractRowsAtKept(init);
      var idx, out := KeptIndices(init), ExtractRows(init);
      var all, res := KeptIndices(rows), ExtractRows(rows);
      assert all == idx + (if HasData(MapRow(rows[n])) then [n] else []);
      assert res == out + Emit(rows[n]);
      forall k | 0 <= k < |all| ensures res[k] == MapRow(rows[all[k]]) {
        if k < |idx| {
          assert all[k] == idx[k] && res[k] == out[k];
          assert rows[idx[k]] == init[idx[k]];
        } else {
          assert all[k] == n && res[k] == MapRow(rows[n]);
        }
      }
    }
  }

  /** The whole extraction, including its two early returns: no table, or a
      table of at most one `<tr>` (counted before any filtering), gives no
      result; otherwise the records of all rows, possibly none. */
  function Scrape(table: Option<seq<Row>>): (r: Option<seq<Record>>)
  {
    match table
    case None => None
    case Some(rows) => if |rows| <= 1 then None else Some(ExtractRows(rows))
  }

  /** The body of the loop up to the filter: the dictionary of one row, built
      field by field from the cells' texts. */
  method BuildItem(columns: Row) returns (item: Record)
    ensures item == MapRow(columns)
  {
    var numOfColumns := |columns|;
    var first := if numOfColumns > 1 then Strip(columns[1]) else "";
    var second := if numOfColumns > 2 then Strip(columns[2]) else "";
    var third := if numOfColumns > 3 then Strip(columns[3]) else "";
    item := Record(first, second, third);
  }

  /** The loop of `scrape_data_into_excel`: the two guards, then one pass over
      the rows that builds each record field by field and appends it to the
      output when one of its fields is non-empty. */
  method ScrapeTable(table: Option<seq<Row>>) returns (result: Option<seq<Record>>)
    ensures result == Scrape(table)
    ensures result.None? <==> table.None? || |table.value| <= 1
  {
    if table.None? {
      return None;
    }
    var rows := table.value;
    var data: seq<Record> := [];
    if |rows| <= 1 {
      return None;
    }
    var i := 0;
    while i < |rows|
      invariant 0 <= i <= |rows|
      invariant data == ExtractRows(rows[..i])
    {
      var item := BuildItem(rows[i]);
      ExtractRowsStep(rows, i);
      if HasData(item) {
        data := data + [item];
      }
      i := i + 1;
    }
    assert rows[..i] == rows;
    result := Some(data);
  }

  /** Two rows agree on the mapped cells: cells 1, 2 and 3 are present in both
      or absent in both, with equal texts where present. */
  predicate SameMappedCells(a: Row, b: Row)
  {
    forall k :: 1 <= k <= 3 ==> (k < |a| <==> k < |b|) && (k < |a| ==> a[k] == b[k])
  }

  /** Cell 0 and cells past 3 never influence the output: tables whose rows
      agree position by position on the mapped cells give the same records. */
  lemma {:induction false} ExtractRowsIgnoresUnmappedCells(rows: seq<Row>, others: seq<Row>)
    requires |rows| == |others|
    requires forall i :: 0 <= i < |rows| ==> SameMappedCells(rows[i], others[i])
    ensures ExtractRows(rows) == ExtractRows(others)
  {
    if rows != [] {
      var n := |rows| - 1;
      ExtractRowsIgnoresUnmappedCells(rows[..n], others[..n]);
      var a, b := rows[n], others[n];
      assert SameMappedCells(a, b);
      assert Field(a, 1) == Field(b, 1) && Field(a, 2) == Field(b, 2) && Field(a, 3) == Field(b, 3);
    }
  }

  /** Every cell of every row stripped, as a table whose texts were cleaned
      beforehand; it exists only to state `ExtractRowsOfStrippedCells`. */
  function StripCells(rows: seq<Row>): (r: seq<Row>)
    ensures |r| == |rows|
    ensures forall i :: 0 <= i < |rows| ==> |r[i]| == |rows[i]|
  {
    seq(|rows|, i requires 0 <= i < |rows| => seq(|rows[i]|, j requires 0 <= j < |rows[i]| => Strip(rows[i][j])))
  }

  /** Extraction is unchanged by stripping the cells first, since stripping is
      idempotent: running it on already stripped texts gives the same records. */
  lemma ExtractRowsOfStrippedCells(rows: seq<Row>)
    ensures ExtractRows(StripCells(rows)) == ExtractRows(rows)
  {
    var cleaned := StripCells(rows);
    forall i | 0 <= i < |rows| ensures Emit(cleaned[i]) == Emit(rows[i]) {
      var a, b := cleaned[i], rows[i];
      forall k | 1 <= k <= 3 && k < |b| ensures Field(a, k) == Field(b, k) {
        StripIdempotent(b[k]);
      }
      assert MapRow(a) == MapRow(b);
    }
    ExtractRowsPointwise(cleaned, rows);
  }

  /** Tables whose rows contribute the same records position by position give
      the same output. */
  lemma {:induction false} ExtractRowsPointwise(rows: seq<Row>, others: seq<Row>)
    requires |rows| == |others|
    requires forall i :: 0 <= i < |rows| ==> Emit(rows[i]) == Emit(others[i])
    ensures ExtractRows(rows) == ExtractRows(others)
  {
    if rows != [] {
      var n := |rows| - 1;
      ExtractRowsPointwise(rows[..n], others[..n]);
    }
  }

  /** A table of two or more rows none of which holds text in a mapped cell is
      not the "no data" case: the result is an empty list of records, which
      the program still writes out and mails. */
  lemma AllRowsFilteredOut(rows: seq<Row>)
    requires |rows| >= 2
    requires forall i :: 0 <= i < |rows| ==> !MappedCellHasText(rows[i])
    ensures Scrape(Some(rows)) == Some([])
  {
    forall i | 0 <= i < |rows| ensures !HasData(MapRow(rows[i])) {
      MapRowKeepsIff(rows[i]);
    }
    ExtractRowsEmptyIff(rows);
  }

  /** No record comes out exactly when no row's record has a non-empty field. */
  lemma {:induction false} ExtractRowsEmptyIff(rows: seq<Row>)
    ensures ExtractRows(rows) == [] <==> forall i :: 0 <= i < |rows| ==> !HasData(MapRow(rows[i]))
  {
    if rows != [] {
      var n := |rows| - 1;
      var init := rows[..n];
      ExtractRowsEmptyIff(init);
      assert ExtractRows(rows) == ExtractRows(init) + Emit(rows[n]);
      assert forall i :: 0 <= i < n ==> init[i] == rows[i];
    }
  }
}
