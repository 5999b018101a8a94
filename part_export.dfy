/** `PartExport.get_parts`: which parts go into an export. The base list is
    the requested category's parts when that category exists and all parts
    otherwise; it is then narrowed to the comma-separated ids in the `parts`
    query parameter, provided at least one of them is an integer. */
module PartExport {
  import opened Wrappers
  import opened Strings

  /** The integers among the pieces, in order; pieces that `int()` rejects
      are dropped. */
  function ParsedIds(pieces: seq<string>): (r: seq<int>)
    ensures |r| <= |pieces|
  {
    if |pieces| == 0 then []
    else
      var rest := ParsedIds(pieces[..|pieces| - 1]);
      match ParseInt(pieces[|pieces| - 1])
      case Some(n) => rest + [n]
      case None => rest
  }

  /** The ids named by the `parts` parameter. */
  function PartIds(param: string): seq<int> {
    ParsedIds(SplitOn(param, ','))
  }

  /** An id is kept exactly when some piece parses to it. */
  lemma {:induction false} ParsedIdsMembership(pieces: seq<string>, n: int)
    ensures n in ParsedIds(pieces) <==> exists i :: 0 <= i < |pieces| && ParseInt(pieces[i]) == Some(n)
  {
    if |pieces| > 0 {
      var init := pieces[..|pieces| - 1];
      ParsedIdsMembership(init, n);
      assert forall i :: 0 <= i < |init| ==> init[i] == pieces[i];
      if exists i :: 0 <= i < |pieces| && ParseInt(pieces[i]) == Some(n) {
        var i :| 0 <= i < |pieces| && ParseInt(pieces[i]) == Some(n);
        if i < |init| {
          assert ParseInt(init[i]) == Some(n);
        }
      }
    }
  }

  /** Pieces that all parse give one id each, in order. */
  lemma {:induction false} ParsedIdsAll(pieces: seq<string>, ids: seq<int>)
    requires |pieces| == |ids|
    requires forall i :: 0 <= i < |pieces| ==> ParseInt(pieces[i]) == Some(ids[i])
    ensures ParsedIds(pieces) == ids
  {
    if |pieces| > 0 {
      ParsedIdsAll(pieces[..|pieces| - 1], ids[..|ids| - 1]);
      assert ids[..|ids| - 1] + [ids[|ids| - 1]] == ids;
    }
  }

  /** The decimal text of each id. */
  function ShowIds(ids: seq<int>): (r: seq<string>)
    ensures |r| == |ids|
    ensures forall i :: 0 <= i < |ids| ==> r[i] == ShowInt(ids[i])
  {
    if |ids| == 0 then [] else [ShowInt(ids[0])] + ShowIds(ids[1..])
  }

  lemma ShowIntNoComma(n: int)
    ensures ',' !in ShowInt(n)
  {
    var d := if n < 0 then -n else n;
    assert AllDigits(ShowNat(d));
  }

  /** A parameter written as `",".join(str(pk) for pk in ids)` is read back
      as exactly those ids. */
  lemma PartIdsRoundTrip(ids: seq<int>)
    requires |ids| >= 1
    ensures PartIds(Join(ShowIds(ids), ',')) == ids
  {
    var pieces := ShowIds(ids);
    forall i | 0 <= i < |pieces|
      ensures ',' !in pieces[i] && ParseInt(pieces[i]) == Some(ids[i])
    {
      ShowIntNoComma(ids[i]);
      ParseShowInt(ids[i]);
    }
    SplitOnJoin(pieces, ',');
    ParsedIdsAll(pieces, ids);
  }

  /** An absent or empty parameter names no part. */
  lemma EmptyParamNoIds()
    ensures PartIds("") == []
  {
    assert SplitOn("", ',') == [""];
    assert ParseInt("") == None;
  }

  /** `part_list.filter(pk__in=ids)`: the parts of the list whose id is
      among the ids, in list order. */
  function FilterIds(parts: seq<int>, ids: seq<int>): (r: seq<int>)
    ensures |r| <= |parts|
    ensures forall x :: x in r <==> x in parts && x in ids
  {
    if |parts| == 0 then []
    else
      var rest := FilterIds(parts[1..], ids);
      assert forall x :: x in parts <==> x == parts[0] || x in parts[1..];
      if parts[0] in ids then [parts[0]] + rest else rest
  }

  /** The filter keeps the list's order: a list whose parts are all named
      comes back unchanged. */
  lemma {:induction false} FilterIdsAllNamed(parts: seq<int>, ids: seq<int>)
    requires forall x :: x in parts ==> x in ids
    ensures FilterIds(parts, ids) == parts
  {
    if |parts| > 0 {
      var first := parts[0];
      assert first in parts;
      assert first in ids;
      assert forall x :: x in parts[1..] ==> x in parts;
      FilterIdsAllNamed(parts[1..], ids);
      assert FilterIds(parts, ids) == [first] + FilterIds(parts[1..], ids);
      assert [parts[0]] + parts[1..] == parts;
    }
  }

  /** The base list: the category's parts when the lookup succeeded, all
      parts otherwise. */
  function BaseList(allParts: seq<int>, categoryParts: Option<seq<int>>): seq<int> {
    if categoryParts.Some? then categoryParts.value else allParts
  }

  /** The exported parts for a request. */
  function ExportedParts(allParts: seq<int>, categoryParts: Option<seq<int>>, param: Option<string>): seq<int> {
    var base := BaseList(allParts, categoryParts);
    var ids := PartIds(if param.Some? then param.value else "");
    if |ids| > 0 then FilterIds(base, ids) else base
  }

  /** No piece of the parameter is an integer. */
  predicate NoPieceParses(pieces: seq<string>) {
    forall i :: 0 <= i < |pieces| ==> ParseInt(pieces[i]).None?
  }

  /** Some piece of the parameter is the integer `x`. */
  predicate SomePieceNames(pieces: seq<string>, x: int) {
    exists i :: 0 <= i < |pieces| && ParseInt(pieces[i]) == Some(x)
  }

  /** No id is collected exactly when no piece parses. */
  lemma {:induction false} NoParsedIds(pieces: seq<string>)
    ensures |ParsedIds(pieces)| == 0 <==> NoPieceParses(pieces)
  {
    if |pieces| > 0 {
      var init := pieces[..|pieces| - 1];
      NoParsedIds(init);
      assert forall i :: 0 <= i < |init| ==> init[i] == pieces[i];
    }
  }

  /** The id filter applies only when some id parsed; then a part is
      exported exactly when it is in the base list and named. */
  lemma ExportedPartsIff(allParts: seq<int>, categoryParts: Option<seq<int>>, param: Option<string>, x: int)
    ensures var pieces := SplitOn(if param.Some? then param.value else "", ',');
      x in ExportedParts(allParts, categoryParts, param) <==>
        x in BaseList(allParts, categoryParts) && (NoPieceParses(pieces) || SomePieceNames(pieces, x))
  {
    var base := BaseList(allParts, categoryParts);
    var text := if param.Some? then param.value else "";
    var pieces := SplitOn(text, ',');
    var ids := ParsedIds(pieces);
    assert PartIds(text) == ids;
    NoParsedIds(pieces);
    if |ids| > 0 {
      ExportedFiltered(base, pieces, x);
    }
  }

  /** When some piece parses, a part of the base list survives the filter
      exactly when some piece names it. */
  lemma ExportedFiltered(base: seq<int>, pieces: seq<string>, x: int)
    requires |ParsedIds(pieces)| > 0
    ensures x in FilterIds(base, ParsedIds(pieces)) <==> x in base && SomePieceNames(pieces, x)
  {
    ParsedIdsMembership(pieces, x);
  }

  /** The loop of `get_parts` over the comma-separated pieces. */
  method ParsePartIds(param: string) returns (ids: seq<int>)
    ensures ids == PartIds(param)
  {
    var pieces := SplitOn(param, ',');
    ids := [];
    var i := 0;
    while i < |pieces|
      invariant 0 <= i <= |pieces|
      invariant ids == ParsedIds(pieces[..i])
    {
      var n := ParseInt(pieces[i]);
      if n.Some? {
        ids := ids + [n.value];
      }
      assert pieces[..i + 1][..i] == pieces[..i];
      i := i + 1;
    }
    assert pieces[..i] == pieces;
  }

  /** `get_parts`: the category lookup's outcome is a parameter (`None`
      when there is no `category` parameter, it is not a number, or no such
      category exists). */
  method GetParts(allParts: seq<int>, categoryParts: Option<seq<int>>, param: Option<string>)
    returns (partList: seq<int>)
    ensures partList == ExportedParts(allParts, categoryParts, param)
  {
    partList := if categoryParts.Some? then categoryParts.value else allParts;
    var ids := ParsePartIds(if param.Some? then param.value else "");
    if |ids| > 0 {
      partList := FilterIds(partList, ids);
    }
  }
}
