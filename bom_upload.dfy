/** The BOM upload view `BomUpload` of InvenTree/part/views.py: the state it
    keeps between the "select fields" and "select parts" steps of the form,
    and the methods that rebuild and check that state from a request. */
module BomUploadView {
  import opened Wrappers
  import opened Strings
  import opened Ordering
  import opened BomTable
  import opened BomParts

  /** The inner loop of the rebuild: a row's cells by ascending column id. */
  method RowItems(row: map<int, string>) returns (items: seq<string>)
    ensures items == RowValues(row)
  {
    var cols := SortedInts(row.Keys);
    SortedIntsFacts(row.Keys);
    items := [];
    var j := 0;
    while j < |cols|
      invariant 0 <= j <= |cols|
      invariant |items| == j && forall k :: 0 <= k < j ==> items[k] == row[cols[k]]
    {
      items := items + [row[cols[j]]];
      j := j + 1;
    }
  }

  /** One pass of the rebuild loop: the row for `id`, appended. */
  method AppendRow(rowData: map<int, map<int, string>>, rows: seq<BomRow>, id: int)
    returns (rows': seq<BomRow>)
    requires id in rowData
    ensures rows' == rows + [NewRow(id, RowValues(rowData[id]))]
  {
    var items := RowItems(rowData[id]);
    rows' := rows + [NewRow(id, items)];
  }

  /** Rebuilding `bom_rows`: for each row id in ascending order, a new row
      holding its cells. */
  method RebuildRows(rowData: map<int, map<int, string>>) returns (rows: seq<BomRow>)
    ensures rows == TableRows(rowData)
  {
    var ids := SortedInts(rowData.Keys);
    SortedKeys(rowData);
    rows := [];
    var i := 0;
    while i < |ids|
      invariant 0 <= i <= |ids|
      invariant rows == RowsOf(rowData, ids[..i])
    {
      RowsOfAppend(rowData, ids, i);
      rows := AppendRow(rowData, rows, ids[i]);
      i := i + 1;
    }
    assert ids[..i] == ids;
  }

  /** The header of one named column: its name, its selection if any, and
      whether a non-empty selection is counted more than once among all
      selections. */
  method MakeHeader(col: int, names: map<int, string>, sel: Selections) returns (header: ColumnHeader)
    requires col in names
    ensures header == ColumnHeader(names[col], Lookup(sel, col), IsDuplicate(Lookup(sel, col), Values(sel)))
  {
    var guess := Lookup(sel, col);
    var duplicate := false;
    if guess.Some? && guess.value != "" {
      var n := multiset(Values(sel))[guess.value];
      if n > 1 {
        duplicate := true;
      }
    }
    header := ColumnHeader(names[col], guess, duplicate);
  }

  lemma AnyDuplicateAppend(columns: seq<ColumnHeader>, header: ColumnHeader)
    ensures AnyDuplicate(columns + [header]) <==> AnyDuplicate(columns) || header.duplicate
  {
    if header.duplicate {
      assert (columns + [header])[|columns|] == header;
    }
    if AnyDuplicate(columns) {
      var k :| 0 <= k < |columns| && columns[k].duplicate;
      assert (columns + [header])[k] == columns[k];
    }
  }

  lemma HeaderAt(names: map<int, string>, sel: Selections, i: int)
    requires 0 <= i < |names.Keys|
    ensures var id := SortedInts(names.Keys)[i];
      id in names &&
      Headers(names, sel)[i] == ColumnHeader(names[id], Lookup(sel, id), IsDuplicate(Lookup(sel, id), Values(sel)))
  {
    SortedIntsFacts(names.Keys);
    assert SortedInts(names.Keys)[i] in SortedInts(names.Keys);
  }

  /** Building `bom_columns` and the `duplicates` flag over the sorted
      column ids. */
  method RebuildColumns(colIds: seq<int>, names: map<int, string>, sel: Selections)
    returns (columns: seq<ColumnHeader>, duplicates: bool)
    requires colIds == SortedInts(names.Keys)
    ensures columns == Headers(names, sel)
    ensures duplicates == AnyDuplicate(columns)
  {
    ghost var headers := Headers(names, sel);
    columns := [];
    duplicates := false;
    var i := 0;
    while i < |colIds|
      invariant 0 <= i <= |colIds| == |headers|
      invariant |columns| == i && forall k :: 0 <= k < i ==> columns[k] == headers[k]
      invariant duplicates == AnyDuplicate(columns)
    {
      HeaderAt(names, sel, i);
      var header := MakeHeader(colIds[i], names, sel);
      assert header == headers[i];
      if header.duplicate {
        duplicates := true;
      }
      AnyDuplicateAppend(columns, header);
      columns := columns + [header];
      i := i + 1;
    }
  }

  /** Building `missing_columns`: the required headers in order, kept when
      no column selects them. */
  method FindMissing(required: seq<string>, sel: Selections) returns (missing: seq<string>)
    ensures missing == Missing(required, Values(sel))
  {
    var values := Values(sel);
    missing := [];
    var i := 0;
    while i < |required|
      invariant 0 <= i <= |required|
      invariant missing == Missing(required[..i], values)
    {
      if required[i] !in values {
        missing := missing + [required[i]];
      }
      assert required[..i + 1][..i] == required[..i];
      i := i + 1;
    }
    assert required[..i] == required;
  }

  /** Writing the new BOM: one item per row, an absent reference or note
      written as empty text. */
  method NewBom(rows: seq<BomRow>) returns (lines: seq<BomLine>)
    requires Complete(rows)
    ensures lines == BomLines(rows)
  {
    lines := [];
    var i := 0;
    while i < |rows|
      invariant 0 <= i <= |rows|
      invariant lines == BomLines(rows)[..i]
    {
      var row := rows[i];
      var reference := if row.reference.Some? then row.reference.value else "";
      var notes := if row.notes.Some? then row.notes.value else "";
      lines := lines + [BomLine(row.part.value, row.quantity.value, reference, notes)];
      i := i + 1;
    }
  }

  class BomUpload {
    /** The headers every BOM file must provide
        (`BomUploadManager.REQUIRED_HEADERS`). */
    const requiredHeaders: seq<string>
    var columnNames: map<int, string>
    var columnSelections: Selections
    var rowData: map<int, map<int, string>>
    var colIds: seq<int>
    var bomRows: seq<BomRow>
    var bomColumns: seq<ColumnHeader>
    var duplicates: bool
    var missingColumns: seq<string>
    /** The BOM of the part being edited. */
    var bom: seq<BomLine>

    constructor(required: seq<string>, current: seq<BomLine>)
      ensures requiredHeaders == required && bom == current
      ensures TableState() == Table(map[], [], map[], [], [], [], false, [])
    {
      requiredHeaders := required;
      bom := current;
      columnNames := map[];
      columnSelections := [];
      rowData := map[];
      colIds := [];
      bomRows := [];
      bomColumns := [];
      duplicates := false;
      missingColumns := [];
    }

    /** The three dicts filled from the request. */
    function Dicts(): Collected
      reads this
    {
      Collected(columnNames, columnSelections, rowData)
    }

    /** Everything `getTableDataFromPost` sets. */
    function TableState(): Table
      reads this
    {
      Table(columnNames, columnSelections, rowData, colIds, bomRows, bomColumns, duplicates, missingColumns)
    }

    /** The `col_name_` branch of the first loop of `getTableDataFromPost`. */
    method ReadNameField(key: string, value: string)
      modifies this`columnNames
      ensures Dicts() == ReadName(old(Dicts()), key, value)
    {
      var id := PrefixedId(key, "col_name_");
      if id.Some? {
        columnNames := columnNames[id.value := value];
      }
    }

    /** The `col_guess_` branch. */
    method ReadGuessField(key: string, value: string)
      modifies this`columnSelections
      ensures Dicts() == ReadGuess(old(Dicts()), key, value)
    {
      var id := PrefixedId(key, "col_guess_");
      if id.Some? {
        columnSelections := SetSelection(columnSelections, id.value, value);
      }
    }

    /** The `row_` branch. */
    method ReadCellField(key: string, value: string)
      modifies this`rowData
      ensures Dicts() == ReadCell(old(Dicts()), key, value)
    {
      var cell := CellId(key);
      if cell.Some? {
        var (r, c) := cell.value;
        if r !in rowData {
          rowData := rowData[r := map[]];
        }
        rowData := rowData[r := rowData[r][c := value]];
      }
    }

    /** The first loop of `getTableDataFromPost`: the three dicts, emptied
        and then filled field by field in request order. */
    method ReadPost(post: Post)
      modifies this`columnNames, this`columnSelections, this`rowData
      ensures Dicts() == Collect(post)
    {
      columnNames := map[];
      columnSelections := [];
      rowData := map[];
      var i := 0;
      while i < |post|
        invariant 0 <= i <= |post|
        invariant Dicts() == Collect(post[..i])
      {
        var (key, value) := post[i];
        ReadNameField(key, value);
        ReadGuessField(key, value);
        ReadCellField(key, value);
        assert post[..i + 1][..i] == post[..i];
        i := i + 1;
      }
      assert post[..i] == post;
    }

    /** `getTableDataFromPost`: the dicts read from the request, the sorted
        column ids, the rebuilt rows and headers, the duplicate flag and the
        missing headers. */
    method GetTableDataFromPost(post: Post)
      modifies this`columnNames, this`columnSelections, this`rowData, this`colIds
      modifies this`bomRows, this`bomColumns, this`duplicates, this`missingColumns
      ensures Dicts() == Collect(post)
      ensures TableState() == TableOf(Dicts(), requiredHeaders)
    {
      ReadPost(post);
      ghost var c := Dicts();
      colIds := SortedInts(columnNames.Keys);
      RebuildRowsField();
      RebuildColumnsField();
      FindMissingField();
      assert Dicts() == c;
    }

    /** The rows of the table, from `row_data`. */
    method RebuildRowsField()
      modifies this`bomRows
      ensures bomRows == TableRows(rowData)
    {
      bomRows := RebuildRows(rowData);
    }

    /** The headers and the duplicate flag, over the sorted column ids. */
    method RebuildColumnsField()
      requires colIds == SortedInts(columnNames.Keys)
      modifies this`bomColumns, this`duplicates
      ensures bomColumns == Headers(columnNames, columnSelections)
      ensures duplicates == AnyDuplicate(bomColumns)
    {
      bomColumns, duplicates := RebuildColumns(colIds, columnNames, columnSelections);
    }

    /** The required headers nobody selected. */
    method FindMissingField()
      modifies this`missingColumns
      ensures missingColumns == Missing(requiredHeaders, Values(columnSelections))
    {
      missingColumns := FindMissing(requiredHeaders, columnSelections);
    }

    /** `handleFieldSelection`: the selection may proceed when no required
        header is missing and no selection is duplicated. */
    method HandleFieldSelection(post: Post) returns (valid: bool)
      modifies this`columnNames, this`columnSelections, this`rowData, this`colIds
      modifies this`bomRows, this`bomColumns, this`duplicates, this`missingColumns
      ensures Dicts() == Collect(post)
      ensures TableState() == TableOf(Dicts(), requiredHeaders)
      ensures valid == SelectionValid(TableState())
    {
      GetTableDataFromPost(post);
      valid := |missingColumns| == 0 && !duplicates;
    }

    /** `getColumnIndex`: the position of the first column whose selection is
        `name`, or -1. */
    method GetColumnIndex(name: string) returns (idx: int)
      ensures -1 <= idx < |columnSelections|
      ensures idx >= 0 ==> columnSelections[idx].1 == name && name !in Values(columnSelections)[..idx]
      ensures idx == -1 <==> name !in Values(columnSelections)
    {
      var values := Values(columnSelections);
      var i := 0;
      while i < |values| && values[i] != name
        invariant 0 <= i <= |values|
        invariant name !in values[..i]
      {
        assert values[..i + 1] == values[..i] + [values[i]];
        i := i + 1;
      }
      if i == |values| {
        assert values[..i] == values;
        idx := -1;
      } else {
        idx := i;
      }
    }

    /** `getRowByIndex`: the first row with the given index, as its
        position, or none. */
    method GetRowByIndex(idx: int) returns (pos: Option<nat>)
      ensures pos == RowPosition(bomRows, idx)
    {
      var i := 0;
      while i < |bomRows|
        invariant 0 <= i <= |bomRows|
        invariant forall k :: 0 <= k < i ==> bomRows[k].index != idx
      {
        if bomRows[i].index == idx {
          return Some(i);
        }
        i := i + 1;
      }
      return None;
    }

    /** The `quantity_<r>` branch of the loop of `handlePartSelection`. */
    method ReadQuantity(key: string, value: string, parts: map<int, nat>)
      modifies this`bomRows
      ensures Selection(bomRows, parts) == ApplyQuantity(Selection(old(bomRows), parts), key, value)
    {
      if StartsWith(key, "quantity_") {
        var rowId := ParseInt(RemoveAll(key, "quantity_"));
        if rowId.Some? {
          var pos := GetRowByIndex(rowId.value);
          if pos.Some? {
            var row := bomRows[pos.value];
            var q := 1;
            var n := ParseInt(value);
            if n.Some? {
              q := n.value;
              if q <= 0 {
                row := row.(errors := row.errors[QuantityField := QuantityNotPositive]);
              }
            } else {
              row := row.(errors := row.errors[QuantityField := InvalidQuantity]);
            }
            row := row.(quantity := Some(q));
            bomRows := bomRows[pos.value := row];
          }
        }
      }
    }

    /** The `part_<r>` branch, with the `parts` counter. */
    method ReadPart(key: string, value: string, existing: set<int>, parts: map<int, nat>)
      returns (parts': map<int, nat>)
      modifies this`bomRows
      ensures Selection(bomRows, parts') == ApplyPart(Selection(old(bomRows), parts), key, value, existing)
    {
      parts' := parts;
      if StartsWith(key, "part_") {
        var rowId := ParseInt(RemoveAll(key, "part_"));
        if rowId.None? {
          return;
        }
        var pos := GetRowByIndex(rowId.value);
        if pos.None? {
          return;
        }
        var row := bomRows[pos.value];
        var partId := ParseInt(value);
        if partId.None? || partId.value !in existing {
          bomRows := bomRows[pos.value := row.(errors := row.errors[PartField := InvalidPart])];
          return;
        }
        var id := partId.value;
        if id in parts' {
          parts' := parts'[id := parts'[id] + 1];
          row := row.(errors := row.errors[PartField := DuplicatePart]);
        } else {
          parts' := parts'[id := 1];
        }
        bomRows := bomRows[pos.value := row.(part := Some(id))];
      }
    }

    /** The `reference_<r>` and `notes_<r>` branches. */
    method ReadText(field: TextField, key: string, value: string, parts: map<int, nat>)
      modifies this`bomRows
      ensures Selection(bomRows, parts) == ApplyText(Selection(old(bomRows), parts), field, key, value)
    {
      var prefix := TextPrefix(field);
      if StartsWith(key, prefix) {
        var rowId := ParseInt(RemoveAll(key, prefix));
        if rowId.Some? {
          var pos := GetRowByIndex(rowId.value);
          if pos.Some? {
            var row := bomRows[pos.value];
            match field {
              case Reference => row := row.(reference := Some(value));
              case Notes => row := row.(notes := Some(value));
            }
            bomRows := bomRows[pos.value := row];
          }
        }
      }
    }

    /** One pass of the loop over the request in `handlePartSelection`. */
    method ReadRowField(key: string, value: string, existing: set<int>, parts: map<int, nat>)
      returns (parts': map<int, nat>)
      modifies this`bomRows
      ensures Selection(bomRows, parts') == ApplyField(Selection(old(bomRows), parts), key, value, existing)
    {
      ReadQuantity(key, value, parts);
      parts' := ReadPart(key, value, existing, parts);
      ReadText(Reference, key, value, parts');
      ReadText(Notes, key, value, parts');
    }

    /** The loop over the request in `handlePartSelection`, with its
        `parts` counter starting empty. */
    method ReadRowFields(post: Post, existing: set<int>) returns (parts: map<int, nat>)
      modifies this`bomRows
      ensures Selection(bomRows, parts) == ApplyFields(Selection(old(bomRows), map[]), post, existing)
    {
      ghost var rows0 := bomRows;
      parts := map[];
      var i := 0;
      while i < |post|
        invariant 0 <= i <= |post|
        invariant Selection(bomRows, parts) == ApplyFields(Selection(rows0, map[]), post[..i], existing)
      {
        parts := ReadRowField(post[i].0, post[i].1, existing, parts);
        assert post[..i + 1][..i] == post[..i];
        i := i + 1;
      }
      assert post[..i] == post;
    }

    /** The final loop of `handlePartSelection`: every row without a part or
        a quantity is reported, and the submission is valid when no row has
        an error. */
    method CheckRows() returns (valid: bool)
      modifies this`bomRows
      ensures bomRows == Finished(old(bomRows))
      ensures valid == AllClear(bomRows)
    {
      ghost var rows0 := bomRows;
      valid := true;
      var i := 0;
      while i < |bomRows|
        invariant 0 <= i <= |bomRows| && |bomRows| == |rows0|
        invariant forall k :: 0 <= k < i ==> bomRows[k] == FinishRow(rows0[k])
        invariant forall k :: i <= k < |rows0| ==> bomRows[k] == rows0[k]
        invariant valid == forall k :: 0 <= k < i ==> bomRows[k].errors == map[]
      {
        var row := bomRows[i];
        if row.part.None? {
          row := row.(errors := row.errors[PartField := NoPart]);
        }
        if row.quantity.None? {
          row := row.(errors := row.errors[QuantityField := NoQuantity]);
        }
        if |row.errors| > 0 {
          assert row.errors != map[];
          valid := false;
        } else {
          assert row.errors.Keys == {};
        }
        bomRows := bomRows[i := row];
        i := i + 1;
      }
    }

    /** `handlePartSelection`: the table rebuilt from the request, the row
        fields applied and checked; only a valid submission replaces the
        BOM, by one line per row. */
    method HandlePartSelection(post: Post, existing: set<int>) returns (valid: bool)
      modifies this`columnNames, this`columnSelections, this`rowData, this`colIds
      modifies this`bomRows, this`bomColumns, this`duplicates, this`missingColumns, this`bom
      ensures Dicts() == Collect(post)
      ensures bomRows == SelectedRows(TableRows(rowData), post, existing)
      ensures TableState() == TableOf(Dicts(), requiredHeaders).(rows := bomRows)
      ensures valid == AllClear(bomRows)
      ensures valid ==> Complete(bomRows) && bom == BomLines(bomRows)
      ensures !valid ==> bom == old(bom)
    {
      GetTableDataFromPost(post);
      ghost var table := TableState();
      ghost var bom0 := bom;
      var parts := ReadRowFields(post, existing);
      ghost var applied := bomRows;
      assert applied == ApplyFields(Selection(table.rows, map[]), post, existing).rows;
      valid := CheckRows();
      assert bomRows == Finished(applied);
      assert TableState() == table.(rows := bomRows);
      assert bom == bom0;
      if valid {
        ValidSelection(rowData, post, existing);
        bom := NewBom(bomRows);
      }
    }
  }
}
