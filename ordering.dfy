/** Python's `sorted()` on the two kinds of keys the core sorts: integer
    ids (`sorted(d.keys())`) and strings (`json.dumps(..., sort_keys=True)`
    and `order_by('name')`), the latter compared code point by code point. */
module Ordering {

  predicate StrictlyIncreasing(s: seq<int>) {
    forall i, j :: 0 <= i < j < |s| ==> s[i] < s[j]
  }

  lemma {:induction false} HasMinimum(s: set<int>)
    requires s != {}
    ensures exists m :: m in s && forall y :: y in s ==> m <= y
  {
    var m := MinimumOf(s);
  }

  lemma {:induction false} MinimumOf(s: set<int>) returns (m: int)
    requires s != {}
    ensures m in s && forall y :: y in s ==> m <= y
    decreases |s|
  {
    if forall y :: y !in s {
      assert false;
    }
    var x :| x in s;
    if s == {x} {
      m := x;
    } else {
      var m' := MinimumOf(s - {x});
      m := if x < m' then x else m';
      assert forall y :: y in s ==> y == x || y in s - {x};
    }
  }

  /** `sorted(keys)`: the set's elements, each once, in ascending order. */
  function SortedInts(s: set<int>): (r: seq<int>)
    ensures |r| == |s|
    decreases s
  {
    if s == {} then []
    else
      HasMinimum(s);
      var m :| m in s && forall y :: y in s ==> m <= y;
      [m] + SortedInts(s - {m})
  }

  /** The first element is the least, and the rest is the sorted
      remainder. */
  lemma SortedIntsCons(s: set<int>)
    requires s != {}
    ensures var r := SortedInts(s);
      && |r| > 0 && r[0] in s && (forall y :: y in s ==> r[0] <= y)
      && r[1..] == SortedInts(s - {r[0]})
  {
  }

  /** ... ascending, and holding exactly the set's elements. */
  lemma SortedIntsFacts(s: set<int>)
    ensures StrictlyIncreasing(SortedInts(s))
    ensures forall x :: x in SortedInts(s) <==> x in s
  {
    SortedIntsMembers(s);
    SortedIntsIncreasing(s);
  }

  lemma {:induction false} SortedIntsMembers(s: set<int>)
    ensures forall x :: x in SortedInts(s) <==> x in s
    decreases s
  {
    if s != {} {
      var r := SortedInts(s);
      SortedIntsCons(s);
      var m := r[0];
      SortedIntsMembers(s - {m});
      assert r == [m] + r[1..];
      forall x
        ensures x in r <==> x in s
      {
        assert x in r <==> x == m || x in r[1..];
      }
    }
  }

  lemma {:induction false} SortedIntsIncreasing(s: set<int>)
    ensures StrictlyIncreasing(SortedInts(s))
    decreases s
  {
    if s != {} {
      var r := SortedInts(s);
      SortedIntsCons(s);
      var m := r[0];
      var rest := r[1..];
      SortedIntsIncreasing(s - {m});
      SortedIntsMembers(s - {m});
      forall i, j | 0 <= i < j < |r|
        ensures r[i] < r[j]
      {
        var y := rest[j - 1];
        assert r[j] == y;
        if i == 0 {
          assert y in rest;
          assert y in s && y != m;
          assert m < y;
        } else {
          assert r[i] == rest[i - 1];
          assert rest[i - 1] < y;
        }
      }
    }
  }

  /** Python's `a <= b` on strings: lexicographic by code point, a proper
      prefix coming first. */
  predicate LexLessEq(a: string, b: string) {
    |a| == 0 || (|b| > 0 && (a[0] < b[0] || (a[0] == b[0] && LexLessEq(a[1..], b[1..]))))
  }

  lemma {:induction false} LexTotal(a: string, b: string)
    ensures LexLessEq(a, b) || LexLessEq(b, a)
  {
    if |a| > 0 && |b| > 0 && a[0] == b[0] {
      LexTotal(a[1..], b[1..]);
    }
  }

  lemma {:induction false} LexAntisymmetric(a: string, b: string)
    requires LexLessEq(a, b) && LexLessEq(b, a)
    ensures a == b
  {
    if |a| > 0 && |b| > 0 {
      LexAntisymmetric(a[1..], b[1..]);
      assert a == [a[0]] + a[1..];
      assert b == [b[0]] + b[1..];
    }
  }

  lemma {:induction false} LexTransitive(a: string, b: string, c: string)
    requires LexLessEq(a, b) && LexLessEq(b, c)
    ensures LexLessEq(a, c)
  {
    if |a| > 0 && |b| > 0 && |c| > 0 && a[0] == b[0] == c[0] {
      LexTransitive(a[1..], b[1..], c[1..]);
    }
  }

  predicate LexStrictlyIncreasing(s: seq<string>) {
    forall i, j :: 0 <= i < j < |s| ==> LexLessEq(s[i], s[j]) && s[i] != s[j]
  }

  lemma {:induction false} HasLeastString(s: set<string>)
    requires s != {}
    ensures exists m :: m in s && forall y :: y in s ==> LexLessEq(m, y)
  {
    var m := LeastString(s);
  }

  lemma {:induction false} LeastString(s: set<string>) returns (m: string)
    requires s != {}
    ensures m in s && forall y :: y in s ==> LexLessEq(m, y)
    decreases |s|
  {
    if forall y :: y !in s {
      assert false;
    }
    var x :| x in s;
    if s == {x} {
      m := x;
      LexTotal(x, x);
    } else {
      var m' := LeastString(s - {x});
      LexTotal(x, m');
      if LexLessEq(x, m') {
        m := x;
        forall y | y in s ensures LexLessEq(x, y) {
          if y == x { LexTotal(x, x); } else { LexTransitive(x, m', y); }
        }
      } else {
        m := m';
      }
    }
  }

  /** `sorted(keys)` for string keys: each key once, in ascending order. */
  function SortedStrings(s: set<string>): (r: seq<string>)
    ensures |r| == |s|
    decreases s
  {
    if s == {} then []
    else
      HasLeastString(s);
      LeastStringUnique(s);
      var m :| m in s && forall y :: y in s ==> LexLessEq(m, y);
      [m] + SortedStrings(s - {m})
  }

  /** The first key is the least, and the rest is the sorted remainder. */
  lemma SortedStringsCons(s: set<string>)
    requires s != {}
    ensures var r := SortedStrings(s);
      && |r| > 0 && r[0] in s && (forall y :: y in s ==> LexLessEq(r[0], y))
      && r[1..] == SortedStrings(s - {r[0]})
  {
  }

  /** ... ascending, and holding exactly the set's keys. */
  lemma SortedStringsFacts(s: set<string>)
    ensures LexStrictlyIncreasing(SortedStrings(s))
    ensures forall x :: x in SortedStrings(s) <==> x in s
  {
    SortedStringsMembers(s);
    SortedStringsIncreasing(s);
  }

  lemma {:induction false} SortedStringsMembers(s: set<string>)
    ensures forall x :: x in SortedStrings(s) <==> x in s
    decreases s
  {
    if s != {} {
      var r := SortedStrings(s);
      SortedStringsCons(s);
      var m := r[0];
      SortedStringsMembers(s - {m});
      assert r == [m] + r[1..];
      forall x
        ensures x in r <==> x in s
      {
        assert x in r <==> x == m || x in r[1..];
      }
    }
  }

  lemma {:induction false} SortedStringsIncreasing(s: set<string>)
    ensures LexStrictlyIncreasing(SortedStrings(s))
    decreases s
  {
    if s != {} {
      var r := SortedStrings(s);
      SortedStringsCons(s);
      var m := r[0];
      var rest := r[1..];
      SortedStringsIncreasing(s - {m});
      SortedStringsMembers(s - {m});
      forall i, j | 0 <= i < j < |r|
        ensures LexLessEq(r[i], r[j]) && r[i] != r[j]
      {
        var y := rest[j - 1];
        assert r[j] == y;
        if i == 0 {
          assert y in rest;
          assert y in s && y != m;
          assert LexLessEq(m, y);
        } else {
          assert r[i] == rest[i - 1];
          assert LexLessEq(rest[i - 1], y) && rest[i - 1] != y;
        }
      }
    }
  }

  lemma LeastStringUnique(s: set<string>)
    ensures forall m, n ::
      (m in s && n in s && (forall y :: y in s ==> LexLessEq(m, y)) && (forall y :: y in s ==> LexLessEq(n, y)))
      ==> m == n
  {
    forall m, n | m in s && n in s && (forall y :: y in s ==> LexLessEq(m, y))
                  && (forall y :: y in s ==> LexLessEq(n, y))
      ensures m == n
    {
      LexAntisymmetric(m, n);
    }
  }
}
