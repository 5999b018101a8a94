/** `ExtractSerialNumbers` of InvenTree/InvenTree/helpers.py: turns text such
    as "1-5, 10-15" into a list of distinct serial numbers whose length must
    match an expected quantity, reporting every problem found at once. */
module SerialNumbers {
  import opened Wrappers
  import opened Strings

  /** The messages of the raised `ValidationError`, one constructor each. */
  datatype SerialError =
    | InvalidQuantity               // "Invalid quantity provided"
    | EmptySerialString             // "Empty serial number string"
    | DuplicateSerial(n: int)       // "Duplicate serial: {n}"
    | InvalidGroup(group: string)   // "Invalid group: {g}"
    | NoSerialNumbers               // "No serial numbers found"
    | QuantityMismatch(found: nat, expected: int)

  /** The separator class `[\s,]` of the splitting regex. */
  predicate IsSeparator(c: char) {
    IsSpace(c) || c == ','
  }

  /** `re.split("[\s,]+", s)`: the text between maximal runs of separators;
      a leading or trailing run yields an empty first or last group. */
  function SplitGroups(s: string): (r: seq<string>)
    ensures |r| >= 1
    ensures forall i, j :: 0 <= i < |r| && 0 <= j < |r[i]| ==> !IsSeparator(r[i][j])
  {
    if |s| == 0 then [""]
    else
      var rest := SplitGroups(s[1..]);
      if IsSeparator(s[0]) then
        (if |s| > 1 && IsSeparator(s[1]) then rest else [""] + rest)
      else [[s[0]] + rest[0]] + rest[1..]
  }

  predicate Distinct(s: seq<int>) {
    forall i, j :: 0 <= i < j < |s| ==> s[i] != s[j]
  }

  /** `range(lo, hi)`. */
  function Range(lo: int, hi: int): (r: seq<int>)
    ensures |r| == if lo < hi then hi - lo else 0
    ensures forall k :: 0 <= k < |r| ==> r[k] == lo + k
    decreases hi - lo
  {
    if lo >= hi then [] else [lo] + Range(lo + 1, hi)
  }

  /** What one group of the loop comes to: the numbers a well-formed group
      stands for, or the stripped text of a malformed one. */
  datatype Outcome = Numbers(ns: seq<int>) | Malformed(text: string)

  /** A well-formed group is a single integer, or `a-b` with integers
      `a < b`, standing for `a, a+1, ..., b`; anything else (no integer,
      `a >= b`, more than one '-') is malformed. */
  function GroupValues(group: string): (r: Outcome)
    ensures r.Numbers? ==> |r.ns| >= 1
    ensures r.Numbers? ==> forall k :: 0 <= k < |r.ns| ==> r.ns[k] >= 0
    ensures r.Malformed? ==> r.text == Strip(group)
  {
    var g := Strip(group);
    if '-' in g then
      var items := SplitOn(g, '-');
      if |items| == 2 then
        StripKeepsAbsent(items[0], '-');
        var a := ParseInt(Strip(items[0]));
        var b := ParseInt(Strip(items[1]));
        if a.Some? && b.Some? && a.value < b.value then Numbers(Range(a.value, b.value + 1))
        else Malformed(g)
      else Malformed(g)
    else
      match ParseInt(g)
      case Some(n) => Numbers([n])
      case None => Malformed(g)
  }

  function Outcomes(groups: seq<string>): (r: seq<Outcome>)
    ensures |r| == |groups|
    ensures forall k :: 0 <= k < |groups| ==> r[k] == GroupValues(groups[k])
  {
    seq(|groups|, k requires 0 <= k < |groups| => GroupValues(groups[k]))
  }

  /** The numbers all groups stand for, in order, if every group is
      well-formed. */
  function Denotation(os: seq<Outcome>): Option<seq<int>>
  {
    if |os| == 0 then Some([])
    else if os[0].Malformed? then None
    else
      match Denotation(os[1..])
      case Some(rest) => Some(os[0].ns + rest)
      case None => None
  }

  /** The two lists the loop of the source grows: `numbers` and `errors`. */
  datatype Tally = Tally(numbers: seq<int>, errors: seq<SerialError>)

  /** The numbers the duplicate errors name, in order. */
  function DupNs(es: seq<SerialError>): seq<int> {
    if |es| == 0 then []
    else DupNs(es[..|es| - 1]) + (if es[|es| - 1].DuplicateSerial? then [es[|es| - 1].n] else [])
  }

  /** Every candidate counted once: as a kept number or as a reported
      duplicate. */
  function Accounted(t: Tally): multiset<int> {
    multiset(t.numbers) + multiset(DupNs(t.errors))
  }

  /** One candidate serial: a repeat is reported, a new one appended. */
  function AddSerial(t: Tally, n: int): Tally {
    if n in t.numbers then Tally(t.numbers, t.errors + [DuplicateSerial(n)])
    else Tally(t.numbers + [n], t.errors)
  }

  function AddAll(t: Tally, xs: seq<int>): Tally
    decreases |xs|
  {
    if |xs| == 0 then t else AddAll(AddSerial(t, xs[0]), xs[1..])
  }

  /** One pass of the source's `for group in groups` loop. */
  function ProcessGroup(t: Tally, o: Outcome): Tally {
    match o
    case Numbers(ns) => AddAll(t, ns)
    case Malformed(g) => Tally(t.numbers, t.errors + [InvalidGroup(g)])
  }

  function ProcessGroups(t: Tally, os: seq<Outcome>): Tally
    decreases |os|
  {
    if |os| == 0 then t else ProcessGroups(ProcessGroup(t, os[0]), os[1..])
  }

  /** The groups of the serial text and the tally the loop ends with. */
  function Groups(serials: string): seq<string> {
    SplitGroups(Strip(serials))
  }

  function Scan(serials: string): Tally {
    ProcessGroups(Tally([], []), Outcomes(Groups(serials)))
  }

  /** The specification of `ExtractSerialNumbers(serials, expected_quantity)`:
      the checks in the source's order. */
  function SerialNumbers(serials: string, expectedQuantity: string): Result<seq<int>, seq<SerialError>> {
    match ParseInt(expectedQuantity)
    case None => Failure([InvalidQuantity])
    case Some(q) =>
      if |Strip(serials)| == 0 then Failure([EmptySerialString])
      else
        var t := Scan(serials);
        if |t.errors| > 0 then Failure(t.errors)
        else if |t.numbers| == 0 then Failure([NoSerialNumbers])
        else if q != |t.numbers| then Failure([QuantityMismatch(|t.numbers|, q)])
        else Success(t.numbers)
  }

  // ---------------------------------------------------------------------
  // The imperative procedure, as the source writes it.

  method ExtractSerialNumbers(serials: string, expectedQuantity: string)
    returns (r: Result<seq<int>, seq<SerialError>>)
    ensures r == SerialNumbers(serials, expectedQuantity)
    ensures r.Success? ==> Distinct(r.value) && ParseInt(expectedQuantity) == Some(|r.value|)
  {
    var s := Strip(serials);
    var groups := SplitGroups(s);
    ghost var os := Outcomes(groups);
    var numbers: seq<int> := [];
    var errors: seq<SerialError> := [];
    var q := ParseInt(expectedQuantity);
    if q.None? {
      return Failure([InvalidQuantity]);
    }
    if |s| == 0 {
      return Failure([EmptySerialString]);
    }
    var i := 0;
    while i < |groups|
      invariant 0 <= i <= |groups|
      invariant ProcessGroups(Tally(numbers, errors), os[i..]) == Scan(serials)
    {
      numbers, errors := ScanGroup(groups[i], numbers, errors);
      assert os[i..][1..] == os[i + 1..];
      i := i + 1;
    }
    assert os[i..] == [];
    if |errors| > 0 {
      return Failure(errors);
    }
    if |numbers| == 0 {
      return Failure([NoSerialNumbers]);
    }
    if q.value != |numbers| {
      return Failure([QuantityMismatch(|numbers|, q.value)]);
    }
    r := Success(numbers);
    ExtractSucceedsIff(serials, expectedQuantity, numbers);
  }

  /** The body of the source's `for group in groups` loop. */
  method ScanGroup(rawGroup: string, numbers: seq<int>, errors: seq<SerialError>)
    returns (numbers': seq<int>, errors': seq<SerialError>)
    ensures Tally(numbers', errors') == ProcessGroup(Tally(numbers, errors), GroupValues(rawGroup))
  {
    numbers', errors' := numbers, errors;
    var group := Strip(rawGroup);
    if '-' in group {
      var items := SplitOn(group, '-');
      if |items| == 2 {
        var a := ParseInt(Strip(items[0]));
        var b := ParseInt(Strip(items[1]));
        if a.Some? && b.Some? {
          if a.value < b.value {
            RangeOutcome(rawGroup, a.value, b.value);
            numbers', errors' := AddRange(a.value, b.value, numbers, errors);
          } else {
            assert GroupValues(rawGroup) == Malformed(group);
            errors' := errors + [InvalidGroup(group)];
          }
        } else {
          assert GroupValues(rawGroup) == Malformed(group);
          errors' := errors + [InvalidGroup(group)];
        }
      } else {
        assert GroupValues(rawGroup) == Malformed(group);
        errors' := errors + [InvalidGroup(group)];
      }
    } else {
      var n := ParseInt(group);
      if n.Some? {
        assert GroupValues(rawGroup) == Numbers([n.value]);
        assert AddAll(Tally(numbers, errors), [n.value]) == AddSerial(Tally(numbers, errors), n.value);
        if n.value in numbers {
          errors' := errors + [DuplicateSerial(n.value)];
        } else {
          numbers' := numbers + [n.value];
        }
      } else {
        assert GroupValues(rawGroup) == Malformed(group);
        errors' := errors + [InvalidGroup(group)];
      }
    }
  }

  /** The source's `for n in range(a, b + 1)` loop. */
  method AddRange(a: int, b: int, numbers: seq<int>, errors: seq<SerialError>)
    returns (numbers': seq<int>, errors': seq<SerialError>)
    ensures Tally(numbers', errors') == AddAll(Tally(numbers, errors), Range(a, b + 1))
  {
    numbers', errors' := numbers, errors;
    var n := a;
    while n < b + 1
      invariant n == a || a <= n <= b + 1
      invariant AddAll(Tally(numbers', errors'), Range(n, b + 1))
             == AddAll(Tally(numbers, errors), Range(a, b + 1))
      decreases b + 1 - n
    {
      if n in numbers' {
        errors' := errors' + [DuplicateSerial(n)];
      } else {
        numbers' := numbers' + [n];
      }
      n := n + 1;
    }
  }

  // ---------------------------------------------------------------------
  // Properties of the specification.

  /** Every candidate is either kept or reported as a duplicate; kept
      numbers stay distinct; both lists only grow; and nothing is reported
      exactly when the candidates are new and pairwise different, in which
      case they are appended in order. */
  lemma AddAllFacts(t: Tally, xs: seq<int>)
    requires Distinct(t.numbers)
    ensures Distinct(AddAll(t, xs).numbers)
    ensures t.numbers <= AddAll(t, xs).numbers && t.errors <= AddAll(t, xs).errors
    ensures |AddAll(t, xs).numbers| + |AddAll(t, xs).errors| == |t.numbers| + |t.errors| + |xs|
    ensures forall x :: x in AddAll(t, xs).numbers <==> x in t.numbers || x in xs
    ensures forall k :: |t.errors| <= k < |AddAll(t, xs).errors| ==>
              AddAll(t, xs).errors[k].DuplicateSerial? && AddAll(t, xs).errors[k].n in xs
    ensures AddAll(t, xs).errors == t.errors <==> Distinct(t.numbers + xs)
    ensures AddAll(t, xs).errors == t.errors ==> AddAll(t, xs).numbers == t.numbers + xs
    ensures Accounted(AddAll(t, xs)) == Accounted(t) + multiset(xs)
  {
    AddAllShape(t, xs);
    AddAllCleanIff(t, xs);
    AddAllAccounted(t, xs);
  }

  /** One candidate is either kept or reported as a duplicate of itself. */
  lemma AddSerialAccounted(t: Tally, x: int)
    ensures Accounted(AddSerial(t, x)) == Accounted(t) + multiset{x}
  {
    if x in t.numbers {
      var es := t.errors + [DuplicateSerial(x)];
      assert es[..|es| - 1] == t.errors;
      assert DupNs(es) == DupNs(t.errors) + [x];
    }
  }

  /** The multiset part of `AddAllFacts`. */
  lemma {:induction false} AddAllAccounted(t: Tally, xs: seq<int>)
    ensures Accounted(AddAll(t, xs)) == Accounted(t) + multiset(xs)
    decreases |xs|
  {
    if |xs| > 0 {
      var t' := AddSerial(t, xs[0]);
      calc {
        Accounted(AddAll(t, xs));
        Accounted(AddAll(t', xs[1..]));
        { AddAllAccounted(t', xs[1..]); }
        Accounted(t') + multiset(xs[1..]);
        { AddSerialAccounted(t, xs[0]); }
        (Accounted(t) + multiset{xs[0]}) + multiset(xs[1..]);
        { assert xs == [xs[0]] + xs[1..]; }
        Accounted(t) + multiset(xs);
      }
    }
  }

  /** The size, growth and membership part of `AddAllFacts`. */
  lemma {:induction false} AddAllShape(t: Tally, xs: seq<int>)
    requires Distinct(t.numbers)
    ensures Distinct(AddAll(t, xs).numbers)
    ensures t.numbers <= AddAll(t, xs).numbers && t.errors <= AddAll(t, xs).errors
    ensures |AddAll(t, xs).numbers| + |AddAll(t, xs).errors| == |t.numbers| + |t.errors| + |xs|
    ensures forall x :: x in AddAll(t, xs).numbers <==> x in t.numbers || x in xs
    ensures forall k :: |t.errors| <= k < |AddAll(t, xs).errors| ==>
              AddAll(t, xs).errors[k].DuplicateSerial? && AddAll(t, xs).errors[k].n in xs
    decreases |xs|
  {
    if |xs| > 0 {
      var x := xs[0];
      var t' := AddSerial(t, x);
      assert Distinct(t'.numbers);
      AddAllShape(t', xs[1..]);
      assert AddAll(t, xs) == AddAll(t', xs[1..]);
      assert xs == [x] + xs[1..];
    }
  }

  /** The no-error part of `AddAllFacts`: nothing is reported exactly when
      the candidates are new and pairwise different. */
  lemma {:induction false} AddAllCleanIff(t: Tally, xs: seq<int>)
    requires Distinct(t.numbers)
    ensures AddAll(t, xs).errors == t.errors <==> Distinct(t.numbers + xs)
    ensures AddAll(t, xs).errors == t.errors ==> AddAll(t, xs).numbers == t.numbers + xs
    decreases |xs|
  {
    if |xs| > 0 {
      var x := xs[0];
      var t' := AddSerial(t, x);
      assert Distinct(t'.numbers);
      AddAllCleanIff(t', xs[1..]);
      var r := AddAll(t, xs);
      assert r == AddAll(t', xs[1..]);
      if x in t.numbers {
        var j :| 0 <= j < |t.numbers| && t.numbers[j] == x;
        assert (t.numbers + xs)[j] == (t.numbers + xs)[|t.numbers|];
        AddAllErrorsGrow(t', xs[1..]);
        assert |r.errors| > |t.errors|;
      } else {
        assert t'.numbers + xs[1..] == t.numbers + xs;
      }
    } else {
      assert t.numbers + xs == t.numbers;
    }
  }

  /** One group adds at least one number or error; a malformed group adds
      an error. */
  lemma ProcessGroupFacts(t: Tally, o: Outcome)
    requires Distinct(t.numbers)
    ensures var r := ProcessGroup(t, o);
      && Distinct(r.numbers)
      && t.numbers <= r.numbers && t.errors <= r.errors
      && (o.Numbers? ==> |r.numbers| + |r.errors| == |t.numbers| + |t.errors| + |o.ns|)
      && (r.errors == t.errors <==> o.Numbers? && Distinct(t.numbers + o.ns))
      && (r.errors == t.errors ==> r.numbers == t.numbers + o.ns)
  {
    match o
    case Numbers(ns) => AddAllFacts(t, ns);
    case Malformed(_) =>
  }

  lemma Associative(a: seq<int>, b: seq<int>, c: seq<int>)
    ensures a + (b + c) == a + b + c
  {
  }

  lemma DistinctSplit(a: seq<int>, b: seq<int>, c: seq<int>)
    requires Distinct(a + b + c)
    ensures Distinct(a + b)
  {
    assert forall i :: 0 <= i < |a + b| ==> (a + b)[i] == (a + b + c)[i];
  }

  /** Across all groups: nothing is reported exactly when every group is
      well-formed and all the numbers they stand for are new and pairwise
      different; then those numbers are the result, in order. Every
      group produces at least one number or error. */
  lemma {:induction false} ProcessGroupsFacts(t: Tally, os: seq<Outcome>)
    requires Distinct(t.numbers)
    requires forall k :: 0 <= k < |os| ==> os[k].Numbers? ==> |os[k].ns| >= 1
    ensures var r := ProcessGroups(t, os);
      && Distinct(r.numbers)
      && t.numbers <= r.numbers && t.errors <= r.errors
      && (|os| > 0 ==> |r.numbers| + |r.errors| > |t.numbers| + |t.errors|)
      && (r.errors == t.errors <==> Denotation(os).Some? && Distinct(t.numbers + Denotation(os).value))
      && (r.errors == t.errors ==> r.numbers == t.numbers + Denotation(os).value)
    decreases |os|
  {
    if |os| > 0 {
      var t' := ProcessGroup(t, os[0]);
      ProcessGroupFacts(t, os[0]);
      assert forall k :: 0 <= k < |os[1..]| ==> os[1..][k] == os[k + 1];
      ProcessGroupsFacts(t', os[1..]);
      var r := ProcessGroups(t, os);
      assert r == ProcessGroups(t', os[1..]);
      if r.errors == t.errors {
        assert t'.errors == t.errors;
        var ns := os[0].ns;
        var rest := Denotation(os[1..]).value;
        assert Denotation(os) == Some(ns + rest);
        Associative(t.numbers, ns, rest);
      } else if Denotation(os).Some? && Distinct(t.numbers + Denotation(os).value) {
        var ns := os[0].ns;
        var rest := Denotation(os[1..]).value;
        Associative(t.numbers, ns, rest);
        DistinctSplit(t.numbers, ns, rest);
        assert false;
      }
    }
  }

  /** The loop's tally over real groups: their outcomes are never empty. */
  lemma ScanFacts(serials: string)
    ensures var os := Outcomes(Groups(serials));
      var t := Scan(serials);
      && |os| >= 1
      && Distinct(t.numbers)
      && |t.numbers| + |t.errors| > 0
      && (t.errors == [] <==> Denotation(os).Some? && Distinct(Denotation(os).value))
      && (t.errors == [] ==> t.numbers == Denotation(os).value)
  {
    var os := Outcomes(Groups(serials));
    ProcessGroupsFacts(Tally([], []), os);
    var d := Denotation(os);
    assert d.Some? ==> [] + d.value == d.value;
  }

  /** The main theorem: `ExtractSerialNumbers` succeeds with `ns` exactly
      when the text is not blank, the expected quantity is an integer equal
      to the length of `ns`, every group is well-formed, and the numbers the
      groups stand for, in order, are `ns` and pairwise different. */
  lemma ExtractSucceedsIff(serials: string, expectedQuantity: string, ns: seq<int>)
    ensures SerialNumbers(serials, expectedQuantity) == Success(ns) <==>
      && |Strip(serials)| > 0
      && ParseInt(expectedQuantity) == Some(|ns|)
      && Denotation(Outcomes(Groups(serials))) == Some(ns)
      && Distinct(ns)
  {
    ScanFacts(serials);
  }

  /** On success the serial numbers are distinct, exactly as many as
      expected, and none is negative (a leading '-' makes a group a range
      with an empty endpoint); zero is accepted. */
  lemma SuccessIsDistinctAndCounted(serials: string, expectedQuantity: string)
    requires SerialNumbers(serials, expectedQuantity).Success?
    ensures var ns := SerialNumbers(serials, expectedQuantity).value;
      && Distinct(ns)
      && ParseInt(expectedQuantity) == Some(|ns|)
      && forall k :: 0 <= k < |ns| ==> ns[k] >= 0
  {
    var ns := SerialNumbers(serials, expectedQuantity).value;
    ExtractSucceedsIff(serials, expectedQuantity, ns);
    DenotationNonNegative(Outcomes(Groups(serials)));
  }

  lemma {:induction false} DenotationNonNegative(os: seq<Outcome>)
    requires forall k :: 0 <= k < |os| ==> os[k].Numbers? ==> forall j :: 0 <= j < |os[k].ns| ==> os[k].ns[j] >= 0
    ensures Denotation(os).Some? ==>
      forall k :: 0 <= k < |Denotation(os).value| ==> Denotation(os).value[k] >= 0
    decreases |os|
  {
    if |os| > 0 {
      assert forall k :: 0 <= k < |os[1..]| ==> os[1..][k] == os[k + 1];
      DenotationNonNegative(os[1..]);
    }
  }

  /** "No serial numbers found" can never be reported: blank text fails
      earlier, and every group yields a number or an error. */
  lemma NoSerialNumbersUnreachable(serials: string, expectedQuantity: string)
    ensures SerialNumbers(serials, expectedQuantity) != Failure([NoSerialNumbers])
  {
    var t := Scan(serials);
    ScanFacts(serials);
    ScanErrorKinds(Tally([], []), Outcomes(Groups(serials)));
    if |t.errors| > 0 {
      assert t.errors[0] in t.errors;
      assert t.errors[0] !in Tally([], []).errors;
    }
  }

  /** The loop reports only duplicates and malformed groups. */
  lemma {:induction false} ScanErrorKinds(t: Tally, os: seq<Outcome>)
    ensures forall e :: e in ProcessGroups(t, os).errors ==>
      e in t.errors || e.DuplicateSerial? || e.InvalidGroup?
    decreases |os|
  {
    if |os| > 0 {
      var t' := ProcessGroup(t, os[0]);
      ScanErrorKinds(t', os[1..]);
      match os[0]
      case Numbers(ns) => AddAllErrorKinds(t, ns);
      case Malformed(_) =>
    }
  }

  lemma {:induction false} AddAllErrorKinds(t: Tally, xs: seq<int>)
    ensures forall e :: e in AddAll(t, xs).errors ==> e in t.errors || e.DuplicateSerial?
    decreases |xs|
  {
    if |xs| > 0 {
      AddAllErrorKinds(AddSerial(t, xs[0]), xs[1..]);
    }
  }

  /** Errors never short-circuit: a malformed group is reported whatever
      the other groups hold. */
  lemma {:induction false} InvalidGroupReported(t: Tally, os: seq<Outcome>, i: nat)
    requires i < |os| && os[i].Malformed?
    ensures InvalidGroup(os[i].text) in ProcessGroups(t, os).errors
    decreases i
  {
    var t' := ProcessGroup(t, os[0]);
    assert ProcessGroups(t, os) == ProcessGroups(t', os[1..]);
    if i == 0 {
      ErrorsOnlyGrow(t', os[1..]);
      assert t'.errors == t.errors + [InvalidGroup(os[0].text)];
      assert InvalidGroup(os[0].text) in t'.errors;
    } else {
      assert os[1..][i - 1] == os[i];
      InvalidGroupReported(t', os[1..], i - 1);
    }
  }

  lemma {:induction false} ErrorsOnlyGrow(t: Tally, os: seq<Outcome>)
    ensures t.errors <= ProcessGroups(t, os).errors
    decreases |os|
  {
    if |os| > 0 {
      var t' := ProcessGroup(t, os[0]);
      if os[0].Numbers? {
        AddAllErrorsGrow(t, os[0].ns);
      }
      ErrorsOnlyGrow(t', os[1..]);
    }
  }

  lemma {:induction false} AddAllErrorsGrow(t: Tally, xs: seq<int>)
    ensures t.errors <= AddAll(t, xs).errors
    decreases |xs|
  {
    if |xs| > 0 {
      AddAllErrorsGrow(AddSerial(t, xs[0]), xs[1..]);
    }
  }

  /** A malformed group makes the whole call fail, and the failure names
      the group's stripped text. */
  lemma MalformedGroupFails(serials: string, expectedQuantity: string, i: nat)
    requires ParseInt(expectedQuantity).Some? && |Strip(serials)| > 0
    requires i < |Groups(serials)| && GroupValues(Groups(serials)[i]).Malformed?
    ensures SerialNumbers(serials, expectedQuantity).Failure?
    ensures InvalidGroup(Strip(Groups(serials)[i])) in SerialNumbers(serials, expectedQuantity).error
  {
    var os := Outcomes(Groups(serials));
    assert os[i] == GroupValues(Groups(serials)[i]);
    InvalidGroupReported(Tally([], []), os, i);
  }

  /** When every group is well-formed, each repeated number is reported on
      its own: the kept numbers are the distinct values, every error is a
      duplicate of one of them, and kept plus reported is the total count. */
  lemma EachRepeatReported(serials: string, ns: seq<int>)
    requires Denotation(Outcomes(Groups(serials))) == Some(ns)
    ensures Distinct(Scan(serials).numbers)
    ensures forall x :: x in Scan(serials).numbers <==> x in ns
    ensures |Scan(serials).numbers| + |Scan(serials).errors| == |ns|
    ensures forall e :: e in Scan(serials).errors ==> e.DuplicateSerial? && e.n in ns
    ensures Accounted(Scan(serials)) == multiset(ns)
    ensures forall x :: x in ns ==> multiset(DupNs(Scan(serials).errors))[x] == multiset(ns)[x] - 1
  {
    var t := Scan(serials);
    WellFormedScan(Tally([], []), Outcomes(Groups(serials)), ns);
    assert Accounted(Tally([], [])) == multiset{};
    RepeatsLeftOver(t.numbers, DupNs(t.errors), ns);
  }

  /** When a list without repeats holds each value of `ns` and, together
      with `rest`, all of `ns`, then `rest` holds each value one time fewer
      than `ns`. */
  lemma RepeatsLeftOver(kept: seq<int>, rest: seq<int>, ns: seq<int>)
    requires Distinct(kept)
    requires forall x :: x in kept <==> x in ns
    requires multiset(kept) + multiset(rest) == multiset(ns)
    ensures forall x :: x in ns ==> multiset(rest)[x] == multiset(ns)[x] - 1
  {
    forall x | x in ns
      ensures multiset(rest)[x] == multiset(ns)[x] - 1
    {
      DistinctOnce(kept, x);
    }
  }

  /** A number of a list without repeats occurs in it once. */
  lemma {:induction false} DistinctOnce(s: seq<int>, x: int)
    requires Distinct(s) && x in s
    ensures multiset(s)[x] == 1
  {
    assert s == [s[0]] + s[1..];
    if s[0] == x {
      assert x !in s[1..];
    } else {
      DistinctOnce(s[1..], x);
    }
  }

  lemma {:induction false} WellFormedScan(t: Tally, os: seq<Outcome>, ns: seq<int>)
    requires Distinct(t.numbers)
    requires Denotation(os) == Some(ns)
    ensures var r := ProcessGroups(t, os);
      && Distinct(r.numbers)
      && (forall x :: x in r.numbers <==> x in t.numbers || x in ns)
      && |r.numbers| + |r.errors| == |t.numbers| + |t.errors| + |ns|
      && t.errors <= r.errors
      && (forall k :: |t.errors| <= k < |r.errors| ==> r.errors[k].DuplicateSerial? && r.errors[k].n in ns)
      && Accounted(r) == Accounted(t) + multiset(ns)
    decreases |os|
  {
    ProcessGroupsAccounted(t, os, ns);
    if |os| > 0 {
      var first := os[0].ns;
      var rest := Denotation(os[1..]).value;
      var t' := ProcessGroup(t, os[0]);
      AddAllFacts(t, first);
      WellFormedScan(t', os[1..], rest);
      var r := ProcessGroups(t, os);
      assert r == ProcessGroups(t', os[1..]);
      assert ns == first + rest;
      forall k | |t.errors| <= k < |r.errors|
        ensures r.errors[k].DuplicateSerial? && r.errors[k].n in ns
      {
        if k < |t'.errors| {
          assert r.errors[k] == t'.errors[k];
        }
      }
    }
  }

  /** Over well-formed groups, every number they stand for is kept or
      reported as a duplicate of itself. */
  lemma {:induction false} ProcessGroupsAccounted(t: Tally, os: seq<Outcome>, ns: seq<int>)
    requires Denotation(os) == Some(ns)
    ensures Accounted(ProcessGroups(t, os)) == Accounted(t) + multiset(ns)
    decreases |os|
  {
    if |os| > 0 {
      var first := os[0].ns;
      var rest := Denotation(os[1..]).value;
      AddAllAccounted(t, first);
      ProcessGroupsAccounted(ProcessGroup(t, os[0]), os[1..], rest);
      assert ns == first + rest;
    }
  }

  /** Text that is whitespace only fails as empty (once the quantity is an
      integer). */
  lemma BlankFails(serials: string, expectedQuantity: string)
    requires ParseInt(expectedQuantity).Some?
    requires forall i :: 0 <= i < |serials| ==> IsSpace(serials[i])
    ensures SerialNumbers(serials, expectedQuantity) == Failure([EmptySerialString])
  {
    StripFacts(serials);
  }

  /** Separators alone are not blank: the empty groups around them are
      reported as malformed. */
  lemma SeparatorOnlyFails()
    ensures SerialNumbers(", , ,", "0").Failure?
    ensures InvalidGroup("") in SerialNumbers(", , ,", "0").error
  {
    assert TrimStart(", , ,") == ", , ,";
    assert TrimEnd(", , ,") == ", , ,";
    assert SplitGroups(",") == ["", ""];
    assert SplitGroups(" ,") == ["", ""];
    assert SplitGroups(", ,") == ["", ""];
    assert SplitGroups(" , ,") == ["", ""];
    assert Groups(", , ,") == ["", ""];
    assert Strip("") == "";
    assert GroupValues("") == Malformed("");
    assert ParseInt("0") == Some(0);
    MalformedGroupFails(", , ,", "0", 0);
  }

  /** Text without separators is one group. */
  lemma {:induction false} SplitGroupsWord(s: string)
    requires |s| > 0 && forall i :: 0 <= i < |s| ==> !IsSeparator(s[i])
    ensures SplitGroups(s) == [s]
  {
    if |s| > 1 {
      SplitGroupsWord(s[1..]);
      assert [s[0]] + s[1..] == s;
    } else {
      assert s[1..] == "";
      assert SplitGroups(s[1..]) == [""];
      assert [s[0]] + "" == s;
    }
  }

  /** Text free of separators joins the first group of what follows it. */
  lemma {:induction false} SplitGroupsPrepend(g: string, t: string)
    requires forall i :: 0 <= i < |g| ==> !IsSeparator(g[i])
    ensures SplitGroups(g + t) == [g + SplitGroups(t)[0]] + SplitGroups(t)[1..]
    decreases |g|
  {
    if |g| > 0 {
      SplitGroupsPrepend(g[1..], t);
      assert (g + t)[1..] == g[1..] + t;
      assert [g[0]] + (g[1..] + SplitGroups(t)[0]) == g + SplitGroups(t)[0];
    } else {
      var r := SplitGroups(t);
      assert g + t == t && g + r[0] == r[0];
      assert [r[0]] + r[1..] == r;
    }
  }

  /** A single separator before a group (or at the end) starts a new group. */
  lemma SplitGroupsSeparator(sep: char, t: string)
    requires IsSeparator(sep) && (|t| == 0 || !IsSeparator(t[0]))
    ensures SplitGroups([sep] + t) == [""] + SplitGroups(t)
  {
    assert ([sep] + t)[1..] == t;
  }

  /** Splitting is the inverse of joining with a separator: groups that hold
      no separator, joined by a space or a comma, split back into the same
      groups, provided only the first and the last may be empty. */
  lemma {:induction false} SplitGroupsJoin(gs: seq<string>, sep: char)
    requires |gs| >= 1 && IsSeparator(sep)
    requires forall i, j :: 0 <= i < |gs| && 0 <= j < |gs[i]| ==> !IsSeparator(gs[i][j])
    requires forall i :: 0 < i < |gs| - 1 ==> |gs[i]| > 0
    ensures SplitGroups(Join(gs, sep)) == gs
    decreases |gs|
  {
    if |gs| == 1 {
      SplitGroupsPrepend(gs[0], "");
      assert gs[0] + "" == gs[0];
    } else {
      var tail := gs[1..];
      var j := Join(tail, sep);
      assert forall i :: 0 <= i < |tail| ==> tail[i] == gs[i + 1];
      SplitGroupsJoin(tail, sep);
      if |tail| > 1 {
        assert j == tail[0] + [sep] + Join(tail[1..], sep);
        assert j[0] == tail[0][0];
      }
      SplitGroupsSeparator(sep, j);
      SplitGroupsPrepend(gs[0], [sep] + j);
      assert Join(gs, sep) == gs[0] + ([sep] + j);
      assert gs[0] + "" == gs[0];
      assert gs == [gs[0]] + tail;
    }
  }

  /** A group that is a natural number stands for that number alone. */
  lemma SingleGroup(group: string, n: nat)
    requires Strip(group) == ShowNat(n)
    ensures GroupValues(group) == Numbers([n])
  {
    ShowNatNoSign(n);
    ParseShowInt(n);
  }

  /** A negative number is not a serial number: its '-' makes the group a
      range whose left end is empty. */
  lemma NegativeGroupMalformed(group: string, n: int)
    requires n < 0 && Strip(group) == ShowInt(n)
    ensures GroupValues(group) == Malformed(Strip(group))
  {
    var d := ShowNat(-n);
    ShowNatNoSign(-n);
    assert ShowInt(n) == "" + ['-'] + d;
    assert ShowInt(n)[0] == '-';
    SplitOnCons("", '-', d);
    SplitOnSingle(d, '-');
    StripFacts("");
  }

  /** The first example of the tests: "1-5" with quantity 5 gives 1 to 5. */
  lemma RangeExample()
    ensures SerialNumbers("1-5", "5") == Success([1, 2, 3, 4, 5])
  {
    RangeExampleGroups();
    var ns := Range(1, 6);
    var expected := [1, 2, 3, 4, 5];
    assert |ns| == |expected| && forall k :: 0 <= k < 5 ==> ns[k] == expected[k];
    assert ns == expected;
    ParseShowInt(5);
    assert ShowInt(5) == "5";
    ExtractSucceedsIff("1-5", "5", ns);
  }

  lemma RangeExampleGroups()
    ensures |Strip("1-5")| > 0
    ensures Denotation(Outcomes(Groups("1-5"))) == Some(Range(1, 6))
  {
    var g := "1-5";
    StripFacts(g);
    SplitGroupsWord(g);
    assert ShowInt(1) + "-" + ShowInt(5) == g;
    RangeGroup(g, 1, 5);
    var os := Outcomes(Groups(g));
    assert |os| == 1 && os[0] == Numbers(Range(1, 6));
    assert Denotation(os[1..]) == Some([]);
    assert Range(1, 6) + [] == Range(1, 6);
  }

  lemma RangeOutcome(group: string, a: int, b: int)
    requires var g := Strip(group);
      && '-' in g
      && |SplitOn(g, '-')| == 2
      && ParseInt(Strip(SplitOn(g, '-')[0])) == Some(a)
      && ParseInt(Strip(SplitOn(g, '-')[1])) == Some(b)
      && a < b
    ensures GroupValues(group) == Numbers(Range(a, b + 1))
  {
  }

  /** A range group `a-b` with `a < b` stands for `a, a+1, ..., b`. */
  lemma RangeGroup(group: string, a: int, b: int)
    requires Strip(group) == ShowInt(a) + "-" + ShowInt(b)
    requires a >= 0 && a < b
    ensures GroupValues(group) == Numbers(Range(a, b + 1))
    ensures |Range(a, b + 1)| == b - a + 1
  {
    RangeText(a, b);
    RangeOutcome(group, a, b);
  }

  /** A range written high-to-low (or a one-element range such as `3-3`)
      is an invalid group, and so is its serial text. */
  lemma DescendingRangeMalformed(group: string, a: int, b: int)
    requires Strip(group) == ShowInt(a) + "-" + ShowInt(b)
    requires a >= b >= 0
    ensures GroupValues(group) == Malformed(Strip(group))
  {
    RangeText(a, b);
  }

  /** A group with more than one '-' (such as `1-5-10`) is invalid. */
  lemma ManyHyphensMalformed(group: string)
    requires Occurrences(Strip(group), '-') >= 2
    ensures GroupValues(group) == Malformed(Strip(group))
  {
    var g := Strip(group);
    OccurrencesPositive(g, '-');
    SplitOnCount(g, '-');
  }

  lemma RangeText(a: int, b: int)
    requires a >= 0 && b >= 0
    ensures var g := ShowInt(a) + "-" + ShowInt(b);
      && '-' in g
      && SplitOn(g, '-') == [ShowInt(a), ShowInt(b)]
      && ParseInt(Strip(ShowInt(a))) == Some(a)
      && ParseInt(Strip(ShowInt(b))) == Some(b)
  {
    var left, right := ShowInt(a), ShowInt(b);
    var g := left + "-" + right;
    ShowNatNoSign(a);
    ShowNatNoSign(b);
    assert g[|left|] == '-';
    SplitOnCons(left, '-', right);
    SplitOnSingle(right, '-');
    NoSpace(left);
    NoSpace(right);
    ParseShowInt(a);
    ParseShowInt(b);
  }

  lemma ShowNatNoSign(n: nat)
    ensures '-' !in ShowNat(n)
  {
    var s := ShowNat(n);
    assert forall k :: 0 <= k < |s| ==> IsDigit(s[k]);
  }

  lemma NoSpace(s: string)
    requires AllDigits(s)
    ensures Strip(s) == s
  {
    StripFacts(s);
  }
}
