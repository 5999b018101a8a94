/** The table the BOM upload view of InvenTree/part/views.py carries between
    its form steps, and how `getTableDataFromPost` rebuilds it from the
    flat form fields `col_name_<c>`, `col_guess_<c>` and `row_<r>_col_<c>`. */
module BomTable {
  import opened Wrappers
  import opened Strings
  import opened Ordering

  /** The fields of a request, in iteration order: each key once, with its
      value. */
  type Post = seq<(string, string)>

  /** An insertion-ordered dict from column id to selected header. */
  type Selections = seq<(int, string)>

  /** The two row fields part selection validates. */
  datatype RowField = QuantityField | PartField

  /** The per-row messages of part selection. */
  datatype RowError =
    | QuantityNotPositive   // "Quantity must be greater than zero"
    | InvalidQuantity       // "Enter a valid quantity"
    | InvalidPart           // "Select valid part"
    | DuplicatePart         // "Duplicate part selected"
    | NoPart                // "Select a part"
    | NoQuantity            // "Specify quantity"

  /** One row dict of `bom_rows`; the keys a row dict may lack are `None`. */
  datatype BomRow = BomRow(
    index: int,
    data: seq<string>,
    errors: map<RowField, RowError>,
    quantity: Option<int>,
    part: Option<int>,
    reference: Option<string>,
    notes: Option<string>)

  /** One header dict of `bom_columns`; an absent 'duplicate' key is false. */
  datatype ColumnHeader = ColumnHeader(name: string, guess: Option<string>, duplicate: bool)

  // ---------------------------------------------------------------------
  // The insertion-ordered dict `column_selections`.

  function Ids(sel: Selections): (r: seq<int>)
    ensures |r| == |sel| && forall i :: 0 <= i < |sel| ==> r[i] == sel[i].0
  {
    seq(|sel|, i requires 0 <= i < |sel| => sel[i].0)
  }

  /** `list(d.values())`. */
  function Values(sel: Selections): (r: seq<string>)
    ensures |r| == |sel| && forall i :: 0 <= i < |sel| ==> r[i] == sel[i].1
  {
    seq(|sel|, i requires 0 <= i < |sel| => sel[i].1)
  }

  predicate UniqueIds(sel: Selections) {
    forall i, j :: 0 <= i < j < |sel| ==> sel[i].0 != sel[j].0
  }

  /** `d.get(k)`. */
  function Lookup(sel: Selections, k: int): (r: Option<string>)
    ensures r.Some? ==> exists i :: 0 <= i < |sel| && sel[i] == (k, r.value)
    ensures r.None? ==> k !in Ids(sel)
  {
    if |sel| == 0 then None
    else if sel[0].0 == k then Some(sel[0].1)
    else
      var r := Lookup(sel[1..], k);
      assert r.Some? ==> exists i :: 0 <= i < |sel[1..]| && sel[1..][i] == (k, r.value);
      assert forall i :: 0 <= i < |sel[1..]| ==> sel[1..][i] == sel[i + 1];
      r
  }

  /** `d[k] = v`: an existing key keeps its place, a new key goes last. */
  function SetSelection(sel: Selections, k: int, v: string): Selections {
    if |sel| == 0 then [(k, v)]
    else if sel[0].0 == k then [(k, v)] + sel[1..]
    else [sel[0]] + SetSelection(sel[1..], k, v)
  }

  lemma IdsCons(sel: Selections)
    requires |sel| > 0
    ensures Ids(sel) == [sel[0].0] + Ids(sel[1..])
  {
    assert forall i :: 0 < i < |sel| ==> Ids(sel)[i] == Ids(sel[1..])[i - 1];
  }

  /** Dict assignment keeps the keys in insertion order and appends a new
      key. */
  lemma {:induction false} SetSelectionIds(sel: Selections, k: int, v: string)
    ensures Ids(SetSelection(sel, k, v)) == if k in Ids(sel) then Ids(sel) else Ids(sel) + [k]
    decreases |sel|
  {
    var r := SetSelection(sel, k, v);
    if |sel| == 0 {
      assert Ids(r) == [k];
    } else if sel[0].0 != k {
      var rest := sel[1..];
      SetSelectionIds(rest, k, v);
      var r' := SetSelection(rest, k, v);
      assert r == [sel[0]] + r';
      assert r[1..] == r';
      IdsCons(sel);
      IdsCons(r);
      assert k in Ids(sel) <==> k in Ids(rest);
    } else {
      IdsCons(sel);
      IdsCons(r);
      assert r[1..] == sel[1..];
      assert k in Ids(sel);
    }
  }

  /** ... and so keeps each key once. */
  lemma SetSelectionUnique(sel: Selections, k: int, v: string)
    requires UniqueIds(sel)
    ensures UniqueIds(SetSelection(sel, k, v))
  {
    var r := SetSelection(sel, k, v);
    SetSelectionIds(sel, k, v);
    if k !in Ids(sel) {
      assert forall i :: 0 <= i < |sel| ==> r[i].0 == sel[i].0;
      assert r[|sel|].0 == k;
    } else {
      assert forall i :: 0 <= i < |sel| ==> r[i].0 == sel[i].0;
    }
  }

  /** Afterwards `k` maps to `v` and every other key keeps its value. */
  lemma {:induction false} SetSelectionLookup(sel: Selections, k: int, v: string, j: int)
    ensures Lookup(SetSelection(sel, k, v), k) == Some(v)
    ensures j != k ==> Lookup(SetSelection(sel, k, v), j) == Lookup(sel, j)
    decreases |sel|
  {
    var r := SetSelection(sel, k, v);
    if |sel| > 0 && sel[0].0 != k {
      SetSelectionLookup(sel[1..], k, v, j);
      assert r[1..] == SetSelection(sel[1..], k, v);
    } else if |sel| > 0 {
      assert r[1..] == sel[1..];
    }
  }

  // ---------------------------------------------------------------------
  // Reading the form fields.

  /** The dicts the first loop fills: `column_names`, `column_selections`
      and `row_data`. */
  datatype Collected = Collected(names: map<int, string>, selections: Selections, cells: map<int, map<int, string>>)

  /** The integer after `prefix` in a key such as `col_name_3`; every
      occurrence of the prefix is removed before `int()` is applied. */
  function PrefixedId(key: string, prefix: string): Option<int>
    requires |prefix| > 0
  {
    if StartsWith(key, prefix) then ParseInt(RemoveAll(key, prefix)) else None
  }

  /** The row and column of a key `row_<r>_<anything>_<c>[_...]`: at least
      four '_'-separated parts, the second and fourth integers. */
  function CellId(key: string): Option<(int, int)> {
    if !StartsWith(key, "row_") then None
    else
      var parts := SplitOn(key, '_');
      if |parts| < 4 then None
      else
        match (ParseInt(parts[1]), ParseInt(parts[3]))
        case (Some(r), Some(c)) => Some((r, c))
        case _ => None
  }

  /** A `col_name_<c>` field sets `column_names[c]`. */
  function ReadName(c: Collected, key: string, value: string): Collected {
    match PrefixedId(key, "col_name_")
    case Some(id) => c.(names := c.names[id := value])
    case None => c
  }

  /** A `col_guess_<c>` field sets `column_selections[c]`. */
  function ReadGuess(c: Collected, key: string, value: string): Collected {
    match PrefixedId(key, "col_guess_")
    case Some(id) => c.(selections := SetSelection(c.selections, id, value))
    case None => c
  }

  /** A `row_<r>_col_<c>` field sets `row_data[r][c]`. */
  function ReadCell(c: Collected, key: string, value: string): Collected {
    match CellId(key)
    case Some((r, col)) =>
      c.(cells := c.cells[r := (if r in c.cells then c.cells[r] else map[])[col := value]])
    case None => c
  }

  /** One pass of the first loop. A key matches at most one of the three
      prefixes, so the early `continue`s of the source change nothing. */
  function CollectField(c: Collected, key: string, value: string): Collected {
    ReadCell(ReadGuess(ReadName(c, key, value), key, value), key, value)
  }

  /** The dicts after the first `n` fields of the request. */
  function Collect(post: Post): Collected {
    if |post| == 0 then Collected(map[], [], map[])
    else CollectField(Collect(post[..|post| - 1]), post[|post| - 1].0, post[|post| - 1].1)
  }

  lemma {:induction false} CollectUniqueIds(post: Post)
    ensures UniqueIds(Collect(post).selections)
    decreases |post|
  {
    if |post| > 0 {
      var c := Collect(post[..|post| - 1]);
      CollectUniqueIds(post[..|post| - 1]);
      var key := post[|post| - 1].0;
      match PrefixedId(key, "col_guess_")
      case Some(id) => SetSelectionUnique(c.selections, id, post[|post| - 1].1);
      case None =>
    }
  }

  lemma ShowIntChars(n: int)
    ensures forall k :: 0 <= k < |ShowInt(n)| ==> ShowInt(n)[k] == '-' || IsDigit(ShowInt(n)[k])
  {
    var s := ShowNat(if n < 0 then -n else n);
    assert forall k :: 0 <= k < |s| ==> IsDigit(s[k]);
    if n < 0 {
      assert forall k :: 1 <= k < |ShowInt(n)| ==> ShowInt(n)[k] == s[k - 1];
    }
  }

  /** The integer written after a prefix is read back. */
  lemma PrefixedIdShow(prefix: string, n: int)
    requires |prefix| > 0 && prefix[0] != '-' && !IsDigit(prefix[0])
    ensures PrefixedId(prefix + ShowInt(n), prefix) == Some(n)
  {
    var key := prefix + ShowInt(n);
    assert key[..|prefix|] == prefix;
    assert key[|prefix|..] == ShowInt(n);
    ShowIntChars(n);
    RemoveAllAbsent(ShowInt(n), prefix);
    ParseShowInt(n);
  }

  /** The column name field the page writes for column `n` is read into
      `column_names[n]`, and nothing else changes. */
  lemma ColumnNameField(c: Collected, n: int, value: string)
    ensures CollectField(c, "col_name_" + ShowInt(n), value) == c.(names := c.names[n := value])
  {
    var key := "col_name_" + ShowInt(n);
    PrefixedIdShow("col_name_", n);
    assert key[4] == 'n';
    assert !StartsWith(key, "col_guess_");
    assert key[0] == 'c';
    assert !StartsWith(key, "row_");
  }

  /** The column guess field for column `n` sets `column_selections[n]`. */
  lemma ColumnGuessField(c: Collected, n: int, value: string)
    ensures CollectField(c, "col_guess_" + ShowInt(n), value)
         == c.(selections := SetSelection(c.selections, n, value))
  {
    var key := "col_guess_" + ShowInt(n);
    PrefixedIdShow("col_guess_", n);
    assert key[4] == 'g';
    assert !StartsWith(key, "col_name_");
    assert key[0] == 'c';
    assert !StartsWith(key, "row_");
  }

  /** The cell field `row_<r>_col_<c>` sets `row_data[r][c]`. */
  lemma CellField(c: Collected, r: int, col: int, value: string)
    ensures CollectField(c, "row_" + ShowInt(r) + "_col_" + ShowInt(col), value)
         == c.(cells := c.cells[r := (if r in c.cells then c.cells[r] else map[])[col := value]])
  {
    var key := "row_" + ShowInt(r) + "_col_" + ShowInt(col);
    CellIdShow(r, col);
    assert key[0] == 'r';
    assert !StartsWith(key, "col_name_");
    assert !StartsWith(key, "col_guess_");
  }

  lemma CellIdShow(r: int, col: int)
    ensures CellId("row_" + ShowInt(r) + "_col_" + ShowInt(col)) == Some((r, col))
  {
    var a, b := ShowInt(r), ShowInt(col);
    var key := "row_" + a + "_col_" + b;
    var parts := ["row", a, "col", b];
    ShowIntChars(r);
    ShowIntChars(col);
    assert forall i :: 0 <= i < |parts| ==> '_' !in parts[i];
    assert Join(parts, '_') == key by {
      assert Join(parts[3..], '_') == b;
      assert Join(parts[2..], '_') == "col" + "_" + b;
      assert Join(parts[1..], '_') == a + "_" + ("col" + "_" + b);
    }
    SplitOnJoin(parts, '_');
    assert key[..4] == "row_";
    ParseShowInt(r);
    ParseShowInt(col);
  }

  /** A `row_` key with fewer than three '_' is ignored. */
  lemma ShortRowKeyIgnored(c: Collected, key: string, value: string)
    requires StartsWith(key, "row_") && Occurrences(key, '_') < 3
    ensures CollectField(c, key, value) == c
  {
    SplitOnCount(key, '_');
    assert key[0] == 'r';
    assert !StartsWith(key, "col_name_");
    assert !StartsWith(key, "col_guess_");
  }

  /** A `col_name_` or `col_guess_` key whose column id is not an integer
      is skipped. */
  lemma BadColumnKeyIgnored(c: Collected, key: string, prefix: string, value: string)
    requires prefix == "col_name_" || prefix == "col_guess_"
    requires StartsWith(key, prefix) && ParseInt(RemoveAll(key, prefix)).None?
    ensures CollectField(c, key, value) == c
  {
    assert key[0] == 'c' && key[4] == prefix[4];
    assert !StartsWith(key, "row_");
    if prefix == "col_name_" {
      assert !StartsWith(key, "col_guess_");
    } else {
      assert !StartsWith(key, "col_name_");
    }
  }

  /** A `row_` key with four or more parts is skipped when its row or its
      column part is not an integer. */
  lemma BadCellKeyIgnored(c: Collected, key: string, value: string)
    requires StartsWith(key, "row_") && |SplitOn(key, '_')| >= 4
    requires ParseInt(SplitOn(key, '_')[1]).None? || ParseInt(SplitOn(key, '_')[3]).None?
    ensures CollectField(c, key, value) == c
  {
    assert key[0] == 'r';
    assert !StartsWith(key, "col_name_");
    assert !StartsWith(key, "col_guess_");
  }

  // ---------------------------------------------------------------------
  // Rebuilding the table.

  /** A row as first built: its index, its cells and no errors. */
  function NewRow(index: int, data: seq<string>): BomRow {
    BomRow(index, data, map[], None, None, None, None)
  }

  /** The values of one row, by ascending column id; gaps collapse. */
  function RowValues(row: map<int, string>): (r: seq<string>)
    ensures |r| == |row.Keys|
  {
    var cols := SortedInts(row.Keys);
    SortedIntsFacts(row.Keys);
    seq(|cols|, i requires 0 <= i < |cols| => row[cols[i]])
  }

  /** New rows for the given row ids, in the given order. */
  function RowsOf(cells: map<int, map<int, string>>, ids: seq<int>): (r: seq<BomRow>)
    requires forall k :: 0 <= k < |ids| ==> ids[k] in cells
    ensures |r| == |ids|
  {
    if |ids| == 0 then []
    else
      var last := ids[|ids| - 1];
      RowsOf(cells, ids[..|ids| - 1]) + [NewRow(last, RowValues(cells[last]))]
  }

  lemma {:induction false} RowsOfAt(cells: map<int, map<int, string>>, ids: seq<int>, i: int)
    requires forall k :: 0 <= k < |ids| ==> ids[k] in cells
    requires 0 <= i < |ids|
    ensures RowsOf(cells, ids)[i] == NewRow(ids[i], RowValues(cells[ids[i]]))
  {
    if i < |ids| - 1 {
      RowsOfAt(cells, ids[..|ids| - 1], i);
    }
  }

  lemma RowsOfAppend(cells: map<int, map<int, string>>, ids: seq<int>, i: int)
    requires forall k :: 0 <= k < |ids| ==> ids[k] in cells
    requires 0 <= i < |ids|
    ensures RowsOf(cells, ids[..i + 1]) == RowsOf(cells, ids[..i]) + [NewRow(ids[i], RowValues(cells[ids[i]]))]
  {
    assert ids[..i + 1][..i] == ids[..i];
  }

  /** Every position of the sorted keys holds a key. */
  lemma SortedKeys<V>(m: map<int, V>)
    ensures forall k :: 0 <= k < |SortedInts(m.Keys)| ==> SortedInts(m.Keys)[k] in m
  {
    SortedIntsFacts(m.Keys);
    assert forall k :: 0 <= k < |SortedInts(m.Keys)| ==> SortedInts(m.Keys)[k] in SortedInts(m.Keys);
  }

  /** `bom_rows`: one new row per row id, by ascending id. */
  function TableRows(cells: map<int, map<int, string>>): (r: seq<BomRow>)
    ensures |r| == |cells.Keys|
  {
    SortedKeys(cells);
    RowsOf(cells, SortedInts(cells.Keys))
  }

  /** The rebuilt rows are strictly ascending by index; each is a new row,
      with no errors, holding the cells supplied for its index by
      ascending column id. */
  lemma TableRowsSorted(cells: map<int, map<int, string>>)
    ensures var r := TableRows(cells);
      && (forall i, j :: 0 <= i < j < |r| ==> r[i].index < r[j].index)
      && (forall i :: 0 <= i < |r| ==> r[i].index in cells && r[i] == NewRow(r[i].index, RowValues(cells[r[i].index])))
      && (forall i :: 0 <= i < |r| ==> r[i].errors == map[])
  {
    var ids := SortedInts(cells.Keys);
    var r := TableRows(cells);
    SortedKeys(cells);
    SortedIntsFacts(cells.Keys);
    forall i | 0 <= i < |r|
      ensures r[i] == NewRow(ids[i], RowValues(cells[ids[i]]))
    {
      RowsOfAt(cells, ids, i);
    }
  }

  /** Each row's values are its cells by ascending column id, one per
      distinct column id. */
  lemma RowValuesSorted(row: map<int, string>)
    ensures var cols := SortedInts(row.Keys);
      forall i :: 0 <= i < |RowValues(row)| ==> cols[i] in row && RowValues(row)[i] == row[cols[i]]
  {
    var cols := SortedInts(row.Keys);
    SortedIntsFacts(row.Keys);
    assert forall i :: 0 <= i < |cols| ==> cols[i] in cols;
  }

  /** Every row id supplied gets its row. */
  lemma TableRowsComplete(cells: map<int, map<int, string>>, idx: int)
    requires idx in cells
    ensures exists i :: 0 <= i < |TableRows(cells)| && TableRows(cells)[i].index == idx
  {
    var ids := SortedInts(cells.Keys);
    SortedIntsFacts(cells.Keys);
    SortedKeys(cells);
    var i :| 0 <= i < |ids| && ids[i] == idx;
    RowsOfAt(cells, ids, i);
    assert TableRows(cells)[i].index == idx;
  }

  /** A non-empty guess is a duplicate when it is selected more than once,
      counting the selections of every column, named or not. */
  predicate IsDuplicate(guess: Option<string>, values: seq<string>) {
    guess.Some? && guess.value != "" && multiset(values)[guess.value] > 1
  }

  /** `bom_columns`: one header per named column, by ascending column id. */
  function Headers(names: map<int, string>, sel: Selections): (r: seq<ColumnHeader>)
    ensures |r| == |names.Keys|
  {
    var ids := SortedInts(names.Keys);
    SortedIntsFacts(names.Keys);
    seq(|ids|, i requires 0 <= i < |ids| =>
      ColumnHeader(names[ids[i]], Lookup(sel, ids[i]), IsDuplicate(Lookup(sel, ids[i]), Values(sel))))
  }

  predicate AnyDuplicate(headers: seq<ColumnHeader>) {
    exists i :: 0 <= i < |headers| && headers[i].duplicate
  }

  /** `missing_columns`: the required headers nobody selected, in the
      order they are required. */
  function Missing(required: seq<string>, values: seq<string>): (r: seq<string>)
    ensures |r| <= |required|
    ensures forall h :: h in r <==> h in required && h !in values
  {
    if |required| == 0 then []
    else
      var last := required[|required| - 1];
      var rest := Missing(required[..|required| - 1], values);
      assert forall h :: h in required <==> h == last || h in required[..|required| - 1];
      if last in values then rest else rest + [last]
  }

  /** Nothing selected: every required header is missing, in the order
      they are required. */
  lemma {:induction false} MissingNoneSelected(required: seq<string>, values: seq<string>)
    requires forall h :: h in required ==> h !in values
    ensures Missing(required, values) == required
  {
    if |required| > 0 {
      var init := required[..|required| - 1];
      assert forall h :: h in init ==> h in required;
      MissingNoneSelected(init, values);
      assert required[|required| - 1] in required;
      assert init + [required[|required| - 1]] == required;
    }
  }

  /** The missing headers of a list of required headers are those of its
      first part followed by those of the rest, so they keep the order in
      which the headers are required. */
  lemma {:induction false} MissingAppend(a: seq<string>, b: seq<string>, values: seq<string>)
    ensures Missing(a + b, values) == Missing(a, values) + Missing(b, values)
    decreases |b|
  {
    if |b| == 0 {
      assert a + b == a;
    } else {
      var init, last := b[..|b| - 1], b[|b| - 1];
      var ab := a + b;
      var ma, mi := Missing(a, values), Missing(init, values);
      assert Missing(ab, values) == if last in values then Missing(a + init, values) else Missing(a + init, values) + [last] by {
        assert ab[..|ab| - 1] == a + init;
        assert ab[|ab| - 1] == last;
        MissingLast(ab, values);
      }
      assert Missing(b, values) == if last in values then mi else mi + [last] by {
        MissingLast(b, values);
      }
      MissingAppend(a, init, values);
      AppendAssociative(ma, mi, [last]);
    }
  }

  lemma AppendAssociative(x: seq<string>, y: seq<string>, z: seq<string>)
    ensures x + (y + z) == (x + y) + z
  {
  }

  lemma MissingLast(required: seq<string>, values: seq<string>)
    requires |required| > 0
    ensures var init, last := required[..|required| - 1], required[|required| - 1];
      Missing(required, values) == if last in values then Missing(init, values) else Missing(init, values) + [last]
  {
  }

  /** Everything `getTableDataFromPost` leaves in the view. */
  datatype Table = Table(
    names: map<int, string>,
    selections: Selections,
    cells: map<int, map<int, string>>,
    colIds: seq<int>,
    rows: seq<BomRow>,
    columns: seq<ColumnHeader>,
    duplicates: bool,
    missing: seq<string>)

  /** The table rebuilt from the three dicts. */
  function TableOf(c: Collected, required: seq<string>): Table {
    var columns := Headers(c.names, c.selections);
    Table(c.names, c.selections, c.cells, SortedInts(c.names.Keys), TableRows(c.cells),
          columns, AnyDuplicate(columns), Missing(required, Values(c.selections)))
  }

  /** The rule of `handleFieldSelection`: nothing missing, no duplicate. */
  predicate SelectionValid(t: Table) {
    |t.missing| == 0 && !t.duplicates
  }

  /** Field selection passes exactly when every required header is selected
      for some column and no named column's non-empty selection is also
      selected for another column. */
  lemma SelectionValidIff(c: Collected, required: seq<string>)
    ensures SelectionValid(TableOf(c, required)) <==>
      && (forall h :: h in required ==> h in Values(c.selections))
      && (forall id, g :: id in c.names && Lookup(c.selections, id) == Some(g) && g != "" ==>
            multiset(Values(c.selections))[g] == 1)
  {
    var t := TableOf(c, required);
    assert t.missing == Missing(required, Values(c.selections));
    assert t.duplicates == AnyDuplicate(Headers(c.names, c.selections));
    NoDuplicateIff(c.names, c.selections);
    NothingMissingIff(required, Values(c.selections));
  }

  lemma NothingMissingIff(required: seq<string>, values: seq<string>)
    ensures |Missing(required, values)| == 0 <==> forall h :: h in required ==> h in values
  {
    var m := Missing(required, values);
    if |m| > 0 {
      assert m[0] in m;
    }
  }

  lemma NoDuplicateIff(names: map<int, string>, sel: Selections)
    ensures !AnyDuplicate(Headers(names, sel)) <==>
      forall id, g :: id in names && Lookup(sel, id) == Some(g) && g != "" ==> multiset(Values(sel))[g] == 1
  {
    var columns := Headers(names, sel);
    var ids := SortedInts(names.Keys);
    SortedIntsFacts(names.Keys);
    if !AnyDuplicate(columns) {
      forall id, g | id in names && Lookup(sel, id) == Some(g) && g != ""
        ensures multiset(Values(sel))[g] == 1
      {
        assert id in ids;
        var i :| 0 <= i < |ids| && ids[i] == id;
        assert !columns[i].duplicate;
        var j :| 0 <= j < |sel| && sel[j] == (id, g);
        assert Values(sel)[j] == g;
      }
    } else {
      var i :| 0 <= i < |columns| && columns[i].duplicate;
      var id := ids[i];
      assert id in names;
      var g := Lookup(sel, id).value;
      assert Lookup(sel, id) == Some(g) && g != "" && multiset(Values(sel))[g] != 1;
    }
  }
}
