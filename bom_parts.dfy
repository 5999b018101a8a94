/** What `handlePartSelection` of InvenTree/part/views.py does to the rows
    of the BOM table: the `quantity_<r>`, `part_<r>`, `reference_<r>` and
    `notes_<r>` fields of the request, the final check of every row, and the
    BOM lines built from a valid table. The part database is the set of
    part ids that exist. */
module BomParts {
  import opened Wrappers
  import opened Strings
  import opened BomTable

  /** The rows of the table and the `parts` counter: how often each part id
      has been accepted so far. */
  datatype Selection = Selection(rows: seq<BomRow>, counts: map<int, nat>)

  /** The two free-text row fields. */
  datatype TextField = Reference | Notes

  /** One new BOM item: sub-part, quantity, reference and note. */
  datatype BomLine = BomLine(part: int, quantity: int, reference: string, notes: string)

  /** `getRowByIndex`: the position of the first row with the given index. */
  function RowPosition(rows: seq<BomRow>, idx: int): (r: Option<nat>)
    ensures r.Some? ==> r.value < |rows| && rows[r.value].index == idx
    ensures r.Some? ==> forall k :: 0 <= k < r.value ==> rows[k].index != idx
    ensures r.None? <==> forall k :: 0 <= k < |rows| ==> rows[k].index != idx
  {
    if |rows| == 0 then None
    else if rows[0].index == idx then Some(0)
    else
      match RowPosition(rows[1..], idx)
      case Some(p) => Some(p + 1)
      case None =>
        assert forall k :: 1 <= k < |rows| ==> rows[k] == rows[1..][k - 1];
        None
  }

  /** The value of a `quantity_` field written into its row: a value that is
      not an integer is reported and 1 is stored; an integer is stored, and
      reported when it is not positive. */
  function SetQuantity(row: BomRow, value: string): BomRow {
    match ParseInt(value)
    case None => row.(errors := row.errors[QuantityField := InvalidQuantity], quantity := Some(1))
    case Some(q) =>
      if q <= 0 then row.(errors := row.errors[QuantityField := QuantityNotPositive], quantity := Some(q))
      else row.(quantity := Some(q))
  }

  /** A `quantity_<r>` field; ignored when `<r>` is not an integer or names
      no row. */
  function ApplyQuantity(s: Selection, key: string, value: string): Selection {
    match PrefixedId(key, "quantity_")
    case None => s
    case Some(idx) =>
      match RowPosition(s.rows, idx)
      case None => s
      case Some(p) => s.(rows := s.rows[p := SetQuantity(s.rows[p], value)])
  }

  /** A `part_<r>` field. A value that is not an integer or not the id of a
      part is reported; a part seen before is reported as a duplicate but
      still selected; a part not seen before is selected and counted. */
  function ApplyPart(s: Selection, key: string, value: string, existing: set<int>): Selection {
    match PrefixedId(key, "part_")
    case None => s
    case Some(idx) =>
      match RowPosition(s.rows, idx)
      case None => s
      case Some(p) =>
        var row := s.rows[p];
        var id := ParseInt(value);
        if id.None? || id.value !in existing then
          s.(rows := s.rows[p := row.(errors := row.errors[PartField := InvalidPart])])
        else if id.value in s.counts then
          Selection(s.rows[p := row.(errors := row.errors[PartField := DuplicatePart], part := id)],
                    s.counts[id.value := s.counts[id.value] + 1])
        else
          Selection(s.rows[p := row.(part := id)], s.counts[id.value := 1])
  }

  function TextPrefix(field: TextField): string {
    match field
    case Reference => "reference_"
    case Notes => "notes_"
  }

  /** A `reference_<r>` or `notes_<r>` field: stored as given. */
  function ApplyText(s: Selection, field: TextField, key: string, value: string): Selection {
    match PrefixedId(key, TextPrefix(field))
    case None => s
    case Some(idx) =>
      match RowPosition(s.rows, idx)
      case None => s
      case Some(p) =>
        var row := s.rows[p];
        var row' := match field
          case Reference => row.(reference := Some(value))
          case Notes => row.(notes := Some(value));
        s.(rows := s.rows[p := row'])
  }

  /** One pass of the loop over the request. A key starts with at most one
      of the four prefixes, so the early `continue`s change nothing. */
  function ApplyField(s: Selection, key: string, value: string, existing: set<int>): Selection {
    var s1 := ApplyQuantity(s, key, value);
    var s2 := ApplyPart(s1, key, value, existing);
    ApplyText(ApplyText(s2, Reference, key, value), Notes, key, value)
  }

  /** The rows and counter after the given fields, in request order. */
  function ApplyFields(s: Selection, post: Post, existing: set<int>): Selection {
    if |post| == 0 then s
    else
      var last := post[|post| - 1];
      ApplyField(ApplyFields(s, post[..|post| - 1], existing), last.0, last.1, existing)
  }

  /** The final check of one row: a row without a part or without a quantity
      is reported. Nothing else changes. */
  function FinishRow(row: BomRow): (r: BomRow)
    ensures r.index == row.index && r.data == row.data && r.part == row.part && r.quantity == row.quantity
    ensures r.reference == row.reference && r.notes == row.notes
    ensures row.errors.Keys <= r.errors.Keys
    ensures r.part.None? ==> PartField in r.errors && r.errors[PartField] == NoPart
    ensures r.quantity.None? ==> QuantityField in r.errors && r.errors[QuantityField] == NoQuantity
    ensures r.part.Some? && r.quantity.Some? ==> r.errors == row.errors
  {
    var r1 := if row.part.None? then row.(errors := row.errors[PartField := NoPart]) else row;
    if r1.quantity.None? then r1.(errors := r1.errors[QuantityField := NoQuantity]) else r1
  }

  function Finished(rows: seq<BomRow>): (r: seq<BomRow>)
    ensures |r| == |rows| && forall i :: 0 <= i < |rows| ==> r[i] == FinishRow(rows[i])
  {
    seq(|rows|, i requires 0 <= i < |rows| => FinishRow(rows[i]))
  }

  /** The submission is valid when no row has an error. */
  predicate AllClear(rows: seq<BomRow>) {
    forall i :: 0 <= i < |rows| ==> rows[i].errors == map[]
  }

  /** The rows `handlePartSelection` ends with: the rows of the table
      rebuilt from the request, the row fields applied, every row checked. */
  function SelectedRows(rows: seq<BomRow>, post: Post, existing: set<int>): seq<BomRow> {
    Finished(ApplyFields(Selection(rows, map[]), post, existing).rows)
  }

  predicate Complete(rows: seq<BomRow>) {
    forall i :: 0 <= i < |rows| ==> rows[i].part.Some? && rows[i].quantity.Some?
  }

  function Line(row: BomRow): BomLine
    requires row.part.Some? && row.quantity.Some?
  {
    BomLine(row.part.value, row.quantity.value,
            if row.reference.Some? then row.reference.value else "",
            if row.notes.Some? then row.notes.value else "")
  }

  /** The new BOM: one line per row, in row order. */
  function BomLines(rows: seq<BomRow>): (r: seq<BomLine>)
    requires Complete(rows)
    ensures |r| == |rows|
    ensures forall i :: 0 <= i < |rows| ==>
      r[i].part == rows[i].part.value && r[i].quantity == rows[i].quantity.value
    ensures forall i :: 0 <= i < |rows| ==>
      && r[i].reference == (if rows[i].reference.Some? then rows[i].reference.value else "")
      && r[i].notes == (if rows[i].notes.Some? then rows[i].notes.value else "")
  {
    seq(|rows|, i requires 0 <= i < |rows| => Line(rows[i]))
  }

  // ---------------------------------------------------------------------
  // What a valid submission guarantees.

  /** The invariant of the loop over the request: every selected part
      exists and has been counted, of two rows that select the same part
      at least one carries a part error, and a row whose quantity is not
      positive carries a quantity error. */
  predicate Consistent(s: Selection, existing: set<int>) {
    && (forall i :: 0 <= i < |s.rows| && s.rows[i].part.Some? ==>
          s.rows[i].part.value in s.counts && s.rows[i].part.value in existing)
    && (forall i, j ::
          (0 <= i < |s.rows| && 0 <= j < |s.rows| && i != j
           && s.rows[i].part.Some? && s.rows[i].part == s.rows[j].part) ==>
          PartField in s.rows[i].errors || PartField in s.rows[j].errors)
    && (forall i :: 0 <= i < |s.rows| && s.rows[i].quantity.Some? && s.rows[i].quantity.value <= 0 ==>
          QuantityField in s.rows[i].errors)
  }

  /** Only the one row changes, and its errors can only grow. */
  predicate RowUpdate(s: Selection, s': Selection, p: int) {
    && |s'.rows| == |s.rows| && 0 <= p < |s.rows|
    && (forall k :: 0 <= k < |s.rows| && k != p ==> s'.rows[k] == s.rows[k])
    && s.rows[p].errors.Keys <= s'.rows[p].errors.Keys
    && s.counts.Keys <= s'.counts.Keys
  }

  lemma QuantityConsistent(s: Selection, key: string, value: string, existing: set<int>)
    requires Consistent(s, existing)
    ensures Consistent(ApplyQuantity(s, key, value), existing)
  {
    var s' := ApplyQuantity(s, key, value);
    if s' != s {
      var idx := PrefixedId(key, "quantity_").value;
      var p := RowPosition(s.rows, idx).value;
      assert RowUpdate(s, s', p);
      assert s'.rows[p].part == s.rows[p].part;
      ConsistentAfterUpdate(s, s', p, existing);
    }
  }

  lemma TextConsistent(s: Selection, field: TextField, key: string, value: string, existing: set<int>)
    requires Consistent(s, existing)
    ensures Consistent(ApplyText(s, field, key, value), existing)
  {
    var s' := ApplyText(s, field, key, value);
    if s' != s {
      var idx := PrefixedId(key, TextPrefix(field)).value;
      var p := RowPosition(s.rows, idx).value;
      assert RowUpdate(s, s', p);
      assert s'.rows[p].part == s.rows[p].part;
      ConsistentAfterUpdate(s, s', p, existing);
    }
  }

  /** An update of one row that keeps its part and quantity, or whose new
      quantity is reported, keeps the invariant. */
  lemma ConsistentAfterUpdate(s: Selection, s': Selection, p: int, existing: set<int>)
    requires Consistent(s, existing) && RowUpdate(s, s', p)
    requires s'.rows[p].part == s.rows[p].part
    requires s'.rows[p].quantity == s.rows[p].quantity || QuantityField in s'.rows[p].errors
             || (s'.rows[p].quantity.Some? && s'.rows[p].quantity.value > 0)
    ensures Consistent(s', existing)
  {
    forall i, j | 0 <= i < |s'.rows| && 0 <= j < |s'.rows| && i != j
          && s'.rows[i].part.Some? && s'.rows[i].part == s'.rows[j].part
      ensures PartField in s'.rows[i].errors || PartField in s'.rows[j].errors
    {
      assert s.rows[i].part == s'.rows[i].part && s.rows[j].part == s'.rows[j].part;
    }
  }

  lemma PartConsistent(s: Selection, key: string, value: string, existing: set<int>)
    requires Consistent(s, existing)
    ensures Consistent(ApplyPart(s, key, value, existing), existing)
  {
    var s' := ApplyPart(s, key, value, existing);
    if s' != s {
      var idx := PrefixedId(key, "part_").value;
      var p := RowPosition(s.rows, idx).value;
      var id := ParseInt(value);
      assert RowUpdate(s, s', p);
      if id.None? || id.value !in existing {
        ConsistentAfterUpdate(s, s', p, existing);
      } else if id.value in s.counts {
        NewPartFlagged(s, s', p, existing);
      } else {
        NewPartFirst(s, s', p, id.value, existing);
      }
    }
  }

  /** Selecting a part for a row that is then reported keeps the
      invariant. */
  lemma NewPartFlagged(s: Selection, s': Selection, p: int, existing: set<int>)
    requires Consistent(s, existing) && RowUpdate(s, s', p)
    requires s'.rows[p].quantity == s.rows[p].quantity && PartField in s'.rows[p].errors
    requires s'.rows[p].part.Some? ==> s'.rows[p].part.value in s'.counts && s'.rows[p].part.value in existing
    ensures Consistent(s', existing)
  {
    forall i, j | 0 <= i < |s'.rows| && 0 <= j < |s'.rows| && i != j
          && s'.rows[i].part.Some? && s'.rows[i].part == s'.rows[j].part
      ensures PartField in s'.rows[i].errors || PartField in s'.rows[j].errors
    {
      if i != p && j != p {
        assert s.rows[i] == s'.rows[i] && s.rows[j] == s'.rows[j];
      }
    }
  }

  /** Selecting a part no row has selected yet keeps the invariant: the
      row that takes it is the only one with it. */
  lemma NewPartFirst(s: Selection, s': Selection, p: int, id: int, existing: set<int>)
    requires Consistent(s, existing) && RowUpdate(s, s', p)
    requires id !in s.counts && id in existing && id in s'.counts
    requires s'.rows[p] == s.rows[p].(part := Some(id))
    ensures Consistent(s', existing)
  {
    forall i, j | 0 <= i < |s'.rows| && 0 <= j < |s'.rows| && i != j
          && s'.rows[i].part.Some? && s'.rows[i].part == s'.rows[j].part
      ensures PartField in s'.rows[i].errors || PartField in s'.rows[j].errors
    {
      if i == p || j == p {
        assert false;
      } else {
        assert s.rows[i] == s'.rows[i] && s.rows[j] == s'.rows[j];
      }
    }
  }

  lemma FieldConsistent(s: Selection, key: string, value: string, existing: set<int>)
    requires Consistent(s, existing)
    ensures Consistent(ApplyField(s, key, value, existing), existing)
  {
    var s1 := ApplyQuantity(s, key, value);
    QuantityConsistent(s, key, value, existing);
    var s2 := ApplyPart(s1, key, value, existing);
    PartConsistent(s1, key, value, existing);
    TextConsistent(s2, Reference, key, value, existing);
    TextConsistent(ApplyText(s2, Reference, key, value), Notes, key, value, existing);
  }

  lemma {:induction false} FieldsConsistent(s: Selection, post: Post, existing: set<int>)
    requires Consistent(s, existing)
    ensures Consistent(ApplyFields(s, post, existing), existing)
    decreases |post|
  {
    if |post| > 0 {
      FieldsConsistent(s, post[..|post| - 1], existing);
      var last := post[|post| - 1];
      FieldConsistent(ApplyFields(s, post[..|post| - 1], existing), last.0, last.1, existing);
    }
  }

  /** Freshly rebuilt rows select nothing yet. */
  lemma FreshRowsConsistent(cells: map<int, map<int, string>>, existing: set<int>)
    ensures Consistent(Selection(TableRows(cells), map[]), existing)
  {
    var rows := TableRows(cells);
    TableRowsSorted(cells);
    assert forall i :: 0 <= i < |rows| ==> rows[i].part.None? && rows[i].quantity.None?;
  }

  /** A valid submission names an existing part and a positive quantity on
      every row, and no part on two rows. */
  lemma ValidSelection(cells: map<int, map<int, string>>, post: Post, existing: set<int>)
    requires AllClear(SelectedRows(TableRows(cells), post, existing))
    ensures var rows := SelectedRows(TableRows(cells), post, existing);
      && Complete(rows)
      && (forall i :: 0 <= i < |rows| ==> rows[i].part.value in existing && rows[i].quantity.value > 0)
      && (forall i, j :: 0 <= i < j < |rows| ==> rows[i].part != rows[j].part)
  {
    var s0 := Selection(TableRows(cells), map[]);
    var s := ApplyFields(s0, post, existing);
    FreshRowsConsistent(cells, existing);
    FieldsConsistent(s0, post, existing);
    ClearRows(s, existing);
  }

  lemma ClearRows(s: Selection, existing: set<int>)
    requires Consistent(s, existing) && AllClear(Finished(s.rows))
    ensures var rows := Finished(s.rows);
      && Complete(rows)
      && (forall i :: 0 <= i < |rows| ==> rows[i].part.value in existing && rows[i].quantity.value > 0)
      && (forall i, j :: 0 <= i < j < |rows| ==> rows[i].part != rows[j].part)
  {
    var rows := Finished(s.rows);
    forall i | 0 <= i < |rows|
      ensures rows[i].part.Some? && rows[i].quantity.Some?
      ensures rows[i].part.value in existing && rows[i].quantity.value > 0
    {
      assert rows[i].errors == map[];
      assert s.rows[i].errors == map[];
    }
    forall i, j | 0 <= i < j < |rows|
      ensures rows[i].part != rows[j].part
    {
      assert rows[i].errors == map[] && rows[j].errors == map[];
      assert s.rows[i].errors == map[] && s.rows[j].errors == map[];
    }
  }

  /** ... so the new BOM has one line per row, each with an existing part
      and a positive quantity, and no part twice. */
  lemma ValidBom(cells: map<int, map<int, string>>, post: Post, existing: set<int>)
    requires AllClear(SelectedRows(TableRows(cells), post, existing))
    ensures Complete(SelectedRows(TableRows(cells), post, existing))
    ensures var lines := BomLines(SelectedRows(TableRows(cells), post, existing));
      && |lines| == |cells.Keys|
      && (forall i :: 0 <= i < |lines| ==> lines[i].part in existing && lines[i].quantity > 0)
      && (forall i, j :: 0 <= i < j < |lines| ==> lines[i].part != lines[j].part)
  {
    ValidSelection(cells, post, existing);
    FieldsKeepShape(Selection(TableRows(cells), map[]), post, existing);
  }

  // ---------------------------------------------------------------------
  // Rows keep their place.

  /** The rows of `s'` are those of `s`, each with its index and cells. */
  predicate SameShape(s: Selection, s': Selection) {
    |s'.rows| == |s.rows| && forall i :: 0 <= i < |s.rows| ==>
      s'.rows[i].index == s.rows[i].index && s'.rows[i].data == s.rows[i].data
  }

  lemma QuantityShape(s: Selection, key: string, value: string)
    ensures SameShape(s, ApplyQuantity(s, key, value))
  {
  }

  lemma PartShape(s: Selection, key: string, value: string, existing: set<int>)
    ensures SameShape(s, ApplyPart(s, key, value, existing))
  {
  }

  lemma TextShape(s: Selection, field: TextField, key: string, value: string)
    ensures SameShape(s, ApplyText(s, field, key, value))
  {
  }

  lemma SameShapeTransitive(a: Selection, b: Selection, c: Selection)
    requires SameShape(a, b) && SameShape(b, c)
    ensures SameShape(a, c)
  {
  }

  lemma FieldKeepsShape(s: Selection, key: string, value: string, existing: set<int>)
    ensures SameShape(s, ApplyField(s, key, value, existing))
  {
    var s1 := ApplyQuantity(s, key, value);
    var s2 := ApplyPart(s1, key, value, existing);
    var s3 := ApplyText(s2, Reference, key, value);
    QuantityShape(s, key, value);
    PartShape(s1, key, value, existing);
    TextShape(s2, Reference, key, value);
    TextShape(s3, Notes, key, value);
    SameShapeTransitive(s, s1, s2);
    SameShapeTransitive(s, s2, s3);
    SameShapeTransitive(s, s3, ApplyText(s3, Notes, key, value));
  }

  /** The row fields change no row's index or cells and add or remove no
      row. */
  lemma {:induction false} FieldsKeepShape(s: Selection, post: Post, existing: set<int>)
    ensures SameShape(s, ApplyFields(s, post, existing))
    decreases |post|
  {
    if |post| > 0 {
      FieldsKeepShape(s, post[..|post| - 1], existing);
      var last := post[|post| - 1];
      FieldKeepsShape(ApplyFields(s, post[..|post| - 1], existing), last.0, last.1, existing);
    }
  }

  /** Part selection keeps the rows of the table, each with its index and
      cells. */
  lemma SelectionKeepsTable(table: seq<BomRow>, post: Post, existing: set<int>)
    ensures var rows := SelectedRows(table, post, existing);
      |rows| == |table| && forall i :: 0 <= i < |rows| ==>
        rows[i].index == table[i].index && rows[i].data == table[i].data
  {
    FieldsKeepShape(Selection(table, map[]), post, existing);
  }

  // ---------------------------------------------------------------------
  // Single fields, as the page writes them.

  /** The field names the page writes for row `idx`. */
  lemma QuantityKey(idx: int)
    ensures var key := "quantity_" + ShowInt(idx);
      && PrefixedId(key, "quantity_") == Some(idx) && PrefixedId(key, "part_") == None
      && PrefixedId(key, "reference_") == None && PrefixedId(key, "notes_") == None
  {
    var key := "quantity_" + ShowInt(idx);
    PrefixedIdShow("quantity_", idx);
    assert key[0] == 'q';
    OtherPrefix(key, "part_");
    OtherPrefix(key, "reference_");
    OtherPrefix(key, "notes_");
  }

  lemma PartKey(idx: int)
    ensures var key := "part_" + ShowInt(idx);
      && PrefixedId(key, "part_") == Some(idx) && PrefixedId(key, "quantity_") == None
      && PrefixedId(key, "reference_") == None && PrefixedId(key, "notes_") == None
  {
    var key := "part_" + ShowInt(idx);
    PrefixedIdShow("part_", idx);
    assert key[0] == 'p';
    OtherPrefix(key, "quantity_");
    OtherPrefix(key, "reference_");
    OtherPrefix(key, "notes_");
  }

  /** A key whose first character differs from the prefix's is not read
      under that prefix. */
  lemma OtherPrefix(key: string, prefix: string)
    requires |prefix| > 0 && |key| > 0 && key[0] != prefix[0]
    ensures PrefixedId(key, prefix) == None
  {
    if |prefix| <= |key| {
      assert key[..|prefix|][0] != prefix[0];
    }
  }

  lemma TextIgnored(s: Selection, key: string, value: string)
    requires PrefixedId(key, "reference_") == None && PrefixedId(key, "notes_") == None
    ensures ApplyText(ApplyText(s, Reference, key, value), Notes, key, value) == s
  {
  }

  /** The quantity field of row `idx`: a non-integer is reported and 1 is
      stored, a non-positive integer is reported and stored, a positive
      one is stored; no other row changes. */
  lemma QuantityFieldStep(s: Selection, idx: int, p: nat, value: string, existing: set<int>)
    requires RowPosition(s.rows, idx) == Some(p)
    ensures var s' := ApplyField(s, "quantity_" + ShowInt(idx), value, existing);
      var row := s.rows[p];
      && s'.counts == s.counts && |s'.rows| == |s.rows|
      && (forall k :: 0 <= k < |s.rows| && k != p ==> s'.rows[k] == s.rows[k])
      && (ParseInt(value).None? ==>
            s'.rows[p] == row.(errors := row.errors[QuantityField := InvalidQuantity], quantity := Some(1)))
      && (ParseInt(value).Some? && ParseInt(value).value <= 0 ==>
            s'.rows[p] == row.(errors := row.errors[QuantityField := QuantityNotPositive], quantity := ParseInt(value)))
      && (ParseInt(value).Some? && ParseInt(value).value > 0 ==>
            s'.rows[p] == row.(quantity := ParseInt(value)))
  {
    var key := "quantity_" + ShowInt(idx);
    QuantityKey(idx);
    var s1 := ApplyQuantity(s, key, value);
    assert ApplyPart(s1, key, value, existing) == s1;
    TextIgnored(s1, key, value);
  }

  /** The part field of row `idx` naming an existing part: the first row to
      select a part is not reported, every later one is reported as a
      duplicate; either way the part is selected and counted. */
  lemma PartFieldStep(s: Selection, idx: int, p: nat, id: int, existing: set<int>)
    requires RowPosition(s.rows, idx) == Some(p) && id in existing
    ensures var s' := ApplyField(s, "part_" + ShowInt(idx), ShowInt(id), existing);
      var row := s.rows[p];
      && |s'.rows| == |s.rows|
      && (forall k :: 0 <= k < |s.rows| && k != p ==> s'.rows[k] == s.rows[k])
      && s'.rows[p].part == Some(id)
      && (id !in s.counts ==> s'.rows[p].errors == row.errors && s'.counts == s.counts[id := 1])
      && (id in s.counts ==> s'.rows[p].errors == row.errors[PartField := DuplicatePart]
                             && s'.counts == s.counts[id := s.counts[id] + 1])
  {
    var key := "part_" + ShowInt(idx);
    PartKey(idx);
    ParseShowInt(id);
    PartFieldIsPart(s, idx, ShowInt(id), existing);
    SelectPart(s, key, idx, p, ShowInt(id), id, existing);
  }

  /** Only the part reader acts on a `part_<r>` field. */
  lemma PartFieldIsPart(s: Selection, idx: int, value: string, existing: set<int>)
    ensures var key := "part_" + ShowInt(idx);
      ApplyField(s, key, value, existing) == ApplyPart(s, key, value, existing)
  {
    var key := "part_" + ShowInt(idx);
    PartKey(idx);
    assert ApplyQuantity(s, key, value) == s;
    TextIgnored(ApplyPart(s, key, value, existing), key, value);
  }

  lemma SelectPart(s: Selection, key: string, idx: int, p: nat, value: string, id: int, existing: set<int>)
    requires PrefixedId(key, "part_") == Some(idx) && RowPosition(s.rows, idx) == Some(p)
    requires ParseInt(value) == Some(id) && id in existing
    ensures var s' := ApplyPart(s, key, value, existing);
      var row := s.rows[p];
      && |s'.rows| == |s.rows|
      && (forall k :: 0 <= k < |s.rows| && k != p ==> s'.rows[k] == s.rows[k])
      && s'.rows[p].part == Some(id)
      && (id !in s.counts ==> s'.rows[p].errors == row.errors && s'.counts == s.counts[id := 1])
      && (id in s.counts ==> s'.rows[p].errors == row.errors[PartField := DuplicatePart]
                             && s'.counts == s.counts[id := s.counts[id] + 1])
  {
  }

  /** A part field whose value is not the id of an existing part reports
      the row and selects nothing. */
  lemma InvalidPartField(s: Selection, idx: int, p: nat, value: string, existing: set<int>)
    requires RowPosition(s.rows, idx) == Some(p)
    requires ParseInt(value).None? || ParseInt(value).value !in existing
    ensures var s' := ApplyField(s, "part_" + ShowInt(idx), value, existing);
      var row := s.rows[p];
      && s'.counts == s.counts
      && s'.rows == s.rows[p := row.(errors := row.errors[PartField := InvalidPart])]
  {
    PartFieldIsPart(s, idx, value, existing);
    PartKey(idx);
  }
}
