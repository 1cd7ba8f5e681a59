/** The dye check: the row labels, sorted, must equal the header dyes, sorted. `sorted` on
    strings orders them character by character, a proper prefix first. The check is shown to
    be the same as "the labels and the dyes are the same multiset", and so to hold exactly
    when the header dyes are pairwise distinct and are the row labels. It never looks at the
    cells of a row, which is why a short row gets past it. */
module DyeCheck {
  import opened SpilloverCsv

  /** Python's `<` on strings: lexicographic on characters, a proper prefix being smaller. */
  predicate Less(a: string, b: string)
  {
    if a == [] then b != []
    else if b == [] then false
    else if a[0] != b[0] then a[0] < b[0]
    else Less(a[1..], b[1..])
  }

  /** Python's `<=` on strings. */
  predicate LessEq(a: string, b: string)
  {
    a == b || Less(a, b)
  }

  lemma {:induction false} LessIrreflexive(a: string)
    ensures !Less(a, a)
    decreases |a|
  {
    if a != [] {
      LessIrreflexive(a[1..]);
    }
  }

  lemma {:induction false} LessAsymmetric(a: string, b: string)
    requires Less(a, b)
    ensures !Less(b, a)
    decreases |a|
  {
    if a != [] && b != [] && a[0] == b[0] {
      LessAsymmetric(a[1..], b[1..]);
    }
  }

  lemma {:induction false} LessTransitive(a: string, b: string, c: string)
    requires Less(a, b) && Less(b, c)
    ensures Less(a, c)
    decreases |a|
  {
    if a != [] && a[0] == b[0] && b[0] == c[0] {
      LessTransitive(a[1..], b[1..], c[1..]);
    }
  }

  /** Any two different strings are ordered one way or the other. */
  lemma {:induction false} LessTotal(a: string, b: string)
    requires a != b
    ensures Less(a, b) || Less(b, a)
    decreases |a|
  {
    if a != [] && b != [] && a[0] == b[0] {
      assert a == [a[0]] + a[1..] && b == [b[0]] + b[1..];
      LessTotal(a[1..], b[1..]);
    }
  }

  lemma LessEqTransitive(a: string, b: string, c: string)
    requires LessEq(a, b) && LessEq(b, c)
    ensures LessEq(a, c)
  {
    if a != b && b != c {
      LessTransitive(a, b, c);
    }
  }

  lemma LessEqAntisymmetric(a: string, b: string)
    requires LessEq(a, b) && LessEq(b, a)
    ensures a == b
  {
    if a != b {
      LessAsymmetric(a, b);
    }
  }

  /** Ascending order. */
  predicate Sorted(s: seq<string>)
  {
    forall i, j :: 0 <= i < j < |s| ==> LessEq(s[i], s[j])
  }

  /** Puts `x` into a sorted list in front of the first element it does not exceed. */
  function Insert(x: string, s: seq<string>): (r: seq<string>)
    ensures |r| == |s| + 1
  {
    if s == [] || LessEq(x, s[0]) then [x] + s else [s[0]] + Insert(x, s[1..])
  }

  /** `sorted(s)`. Python sorts with a different algorithm, but a sorted permutation is unique
      (SortedUnique), so insertion sort gives the same list. */
  function Sort(s: seq<string>): (r: seq<string>)
    ensures |r| == |s|
  {
    if s == [] then [] else Insert(s[0], Sort(s[1..]))
  }

  lemma {:induction false} InsertPermutes(x: string, s: seq<string>)
    ensures multiset(Insert(x, s)) == multiset(s) + multiset{x}
    decreases |s|
  {
    if s != [] && !LessEq(x, s[0]) {
      InsertPermutes(x, s[1..]);
      assert s == [s[0]] + s[1..];
    }
  }

  lemma {:induction false} InsertSorted(x: string, s: seq<string>)
    requires Sorted(s)
    ensures Sorted(Insert(x, s))
    decreases |s|
  {
    if s != [] && !LessEq(x, s[0]) {
      var rest := Insert(x, s[1..]);
      InsertSorted(x, s[1..]);
      InsertPermutes(x, s[1..]);
      LessTotal(x, s[0]);
      var r := [s[0]] + rest;
      forall j | 1 <= j < |r|
        ensures LessEq(s[0], r[j])
      {
        assert r[j] in multiset(rest);
        assert r[j] in multiset(s[1..]) + multiset{x};
        if r[j] != x {
          var k :| 0 <= k < |s[1..]| && s[1..][k] == r[j];
          assert s[k + 1] == r[j];
        }
      }
      forall i, j | 0 <= i < j < |r|
        ensures LessEq(r[i], r[j])
      {
        if i > 0 {
          assert r[i] == rest[i - 1] && r[j] == rest[j - 1];
        }
      }
    } else if s != [] {
      var r := [x] + s;
      forall i, j | 0 <= i < j < |r|
        ensures LessEq(r[i], r[j])
      {
        if i == 0 {
          LessEqTransitive(x, s[0], s[j - 1]);
        } else {
          assert r[i] == s[i - 1] && r[j] == s[j - 1];
        }
      }
    }
  }

  /** The result of Sort is in ascending order and holds the same elements, as many times. */
  lemma {:induction false} SortSpec(s: seq<string>)
    ensures Sorted(Sort(s))
    ensures multiset(Sort(s)) == multiset(s)
    decreases |s|
  {
    if s != [] {
      SortSpec(s[1..]);
      InsertSorted(s[0], Sort(s[1..]));
      InsertPermutes(s[0], Sort(s[1..]));
      assert s == [s[0]] + s[1..];
    }
  }

  /** The first element of a sorted list is at most any element of it. */
  lemma SortedHead(s: seq<string>, x: string)
    requires Sorted(s) && x in multiset(s)
    ensures LessEq(s[0], x)
  {
    var k :| 0 <= k < |s| && s[k] == x;
  }

  /** Two sorted lists with the same elements are the same list. */
  lemma {:induction false} SortedUnique(a: seq<string>, b: seq<string>)
    requires Sorted(a) && Sorted(b) && multiset(a) == multiset(b)
    ensures a == b
    decreases |a|
  {
    if a != [] {
      assert a[0] in multiset(b) && b != [];
      assert b[0] in multiset(a);
      SortedHead(b, a[0]);
      SortedHead(a, b[0]);
      LessEqAntisymmetric(a[0], b[0]);
      assert a == [a[0]] + a[1..] && b == [b[0]] + b[1..];
      assert multiset(a) == multiset{a[0]} + multiset(a[1..]);
      assert multiset(b) == multiset{b[0]} + multiset(b[1..]);
      assert Sorted(a[1..]) by {
        forall i, j | 0 <= i < j < |a[1..]|
          ensures LessEq(a[1..][i], a[1..][j])
        {
          assert a[1..][i] == a[i + 1] && a[1..][j] == a[j + 1];
        }
      }
      assert Sorted(b[1..]) by {
        forall i, j | 0 <= i < j < |b[1..]|
          ensures LessEq(b[1..][i], b[1..][j])
        {
          assert b[1..][i] == b[i + 1] && b[1..][j] == b[j + 1];
        }
      }
      assert multiset(a[1..]) == multiset(a) - multiset{a[0]};
      assert multiset(b[1..]) == multiset(b) - multiset{b[0]};
      SortedUnique(a[1..], b[1..]);
    } else {
      assert |b| == |multiset(b)| == 0;
    }
  }

  /** Sorting two lists gives the same result exactly when they hold the same elements,
      as many times each. */
  lemma SortEqualIff(a: seq<string>, b: seq<string>)
    ensures Sort(a) == Sort(b) <==> multiset(a) == multiset(b)
  {
    SortSpec(a);
    SortSpec(b);
    if multiset(a) == multiset(b) {
      SortedUnique(Sort(a), Sort(b));
    }
  }

  /** No name occurs twice. */
  predicate Distinct(s: seq<string>)
  {
    forall i, j :: 0 <= i < j < |s| ==> s[i] != s[j]
  }

  /** The names of a list, as a set. */
  function Elements(s: seq<string>): (r: set<string>)
    ensures forall x :: x in r <==> x in s
  {
    set i | 0 <= i < |s| :: s[i]
  }

  /** A list has no repetition exactly when its multiset counts every name at most once. */
  lemma {:induction false} DistinctCounts(s: seq<string>)
    ensures Distinct(s) <==> forall x :: multiset(s)[x] <= 1
    decreases |s|
  {
    if s != [] {
      var t := s[1..];
      DistinctCounts(t);
      assert s == [s[0]] + t;
      assert multiset(s) == multiset{s[0]} + multiset(t);
      if Distinct(s) {
        assert Distinct(t) by {
          forall i, j | 0 <= i < j < |t|
            ensures t[i] != t[j]
          {
            assert t[i] == s[i + 1] && t[j] == s[j + 1];
          }
        }
        assert s[0] !in t by {
          forall k | 0 <= k < |t|
            ensures t[k] != s[0]
          {
            assert t[k] == s[k + 1];
          }
        }
      } else {
        var i, j :| 0 <= i < j < |s| && s[i] == s[j];
        if i == 0 {
          assert t[j - 1] == s[0];
          assert multiset(s)[s[0]] >= 2;
        } else {
          assert t[i - 1] == t[j - 1];
          assert !Distinct(t);
          var x :| multiset(t)[x] > 1;
          assert multiset(s)[x] > 1;
        }
      }
    }
  }

  /** The dye check as the script performs it, `sorted(keys) == sorted(dyes)`, with `keys` the
      row labels in the dictionary's own order. */
  predicate SortedCheck(keys: seq<string>, dyes: seq<string>)
  {
    Sort(keys) == Sort(dyes)
  }

  /** What the check means: the header dyes and the row labels are the same names, each
      header dye once. */
  predicate DyesMatch(dyes: seq<string>, spillover: Matrix)
  {
    multiset(dyes) == multiset(spillover.Keys)
  }

  /** The sorted-list comparison holds exactly when the dyes match, whatever order the
      dictionary lists its labels in. */
  lemma SortedCheckIff(keys: seq<string>, dyes: seq<string>, spillover: Matrix)
    requires Distinct(keys) && Elements(keys) == spillover.Keys
    ensures SortedCheck(keys, dyes) <==> DyesMatch(dyes, spillover)
  {
    DistinctCounts(keys);
    forall x
      ensures multiset(keys)[x] == multiset(spillover.Keys)[x]
    {
      assert x in keys <==> x in spillover.Keys;
    }
    assert multiset(keys) == multiset(spillover.Keys);
    SortEqualIff(keys, dyes);
  }

  /** A passing check means the header dyes are pairwise distinct and are exactly the row
      labels, and conversely. */
  lemma DyesMatchIff(dyes: seq<string>, spillover: Matrix)
    ensures DyesMatch(dyes, spillover) <==> Distinct(dyes) && Elements(dyes) == spillover.Keys
  {
    DistinctCounts(dyes);
    if DyesMatch(dyes, spillover) {
      forall x
        ensures x in dyes <==> x in spillover.Keys
      {
        assert x in multiset(dyes) <==> x in multiset(spillover.Keys);
      }
    }
    if Distinct(dyes) && Elements(dyes) == spillover.Keys {
      forall x
        ensures multiset(dyes)[x] == multiset(spillover.Keys)[x]
      {
        assert x in dyes <==> x in spillover.Keys;
      }
    }
  }

  /** `spillover.keys()`: the row labels, once each, in an order the dictionary chooses. */
  method KeyList(spillover: Matrix) returns (keys: seq<string>)
    ensures Distinct(keys) && Elements(keys) == spillover.Keys
  {
    keys := [];
    var rest := spillover.Keys;
    while rest != {}
      invariant rest <= spillover.Keys
      invariant Distinct(keys) && Elements(keys) == spillover.Keys - rest
      decreases |rest|
    {
      var k :| k in rest;
      keys := keys + [k];
      rest := rest - {k};
    }
  }

  /** Every lookup `spillover[d][d2]` the renderer makes, for dyes `d` and `d2` of the header,
      finds a value. */
  predicate Complete(dyes: seq<string>, spillover: Matrix)
  {
    forall i :: 0 <= i < |dyes| ==> dyes[i] in spillover && forall j :: 0 <= j < |dyes| ==> dyes[j] in spillover[dyes[i]]
  }

  /** The rows the matrix keeps are the last entries with each label. */
  predicate LastEntry(entries: seq<(string, seq<string>)>, i: int)
    requires 0 <= i < |entries|
  {
    forall j :: i < j < |entries| ==> entries[j].0 != entries[i].0
  }

  /** The position of the last entry with a label that occurs among the entries. */
  ghost function LastWith(entries: seq<(string, seq<string>)>, name: string): (i: nat)
    requires exists k :: 0 <= k < |entries| && entries[k].0 == name
    ensures i < |entries| && entries[i].0 == name && LastEntry(entries, i)
    decreases |entries|
  {
    if entries[|entries| - 1].0 == name then |entries| - 1
    else
      var k :| 0 <= k < |entries| && entries[k].0 == name;
      assert k < |entries| - 1 && entries[..|entries| - 1][k].0 == name;
      LastWith(entries[..|entries| - 1], name)
  }

  /** A zipped row holds the last of distinct keys only if there were values for all keys. */
  lemma ZipHoldsLast(keys: seq<string>, values: seq<string>)
    requires Distinct(keys) && keys != []
    requires keys[|keys| - 1] in Zip(keys, values)
    ensures |values| >= |keys|
  {
    ZipKeys(keys, values);
    var j :| 0 <= j < |keys| && j < |values| && keys[j] == keys[|keys| - 1];
    assert j == |keys| - 1;
  }

  /** A row with at least one cell per dye gives a value for every dye. */
  lemma ZipHoldsAll(keys: seq<string>, values: seq<string>, j: nat)
    requires |values| >= |keys| && j < |keys|
    ensures keys[j] in Zip(keys, values)
  {
    ZipKeys(keys, values);
  }

  /** If every lookup finds a value, no kept row is shorter than the header. */
  lemma CompleteNeedsLongRows(dyes: seq<string>, entries: seq<(string, seq<string>)>, i: nat)
    requires Distinct(dyes)
    requires Complete(dyes, Rows(dyes, entries))
    requires DyesMatch(dyes, Rows(dyes, entries))
    requires i < |entries| && LastEntry(entries, i)
    ensures |entries[i].1| >= |dyes|
  {
    var spillover := Rows(dyes, entries);
    DyesMatchIff(dyes, spillover);
    RowsKeys(dyes, entries);
    RowsValue(dyes, entries, i);
    var d := entries[i].0;
    assert d in spillover.Keys;
    var k :| 0 <= k < |dyes| && dyes[k] == d;
    assert dyes[|dyes| - 1] in spillover[dyes[k]];
    ZipHoldsLast(dyes, entries[i].1);
  }

  /** If no kept row is shorter than the header and the dyes match, every lookup finds a
      value. */
  lemma LongRowsComplete(dyes: seq<string>, entries: seq<(string, seq<string>)>)
    requires DyesMatch(dyes, Rows(dyes, entries))
    requires forall i :: 0 <= i < |entries| && LastEntry(entries, i) ==> |entries[i].1| >= |dyes|
    ensures Complete(dyes, Rows(dyes, entries))
  {
    var spillover := Rows(dyes, entries);
    DyesMatchIff(dyes, spillover);
    RowsKeys(dyes, entries);
    forall i, j | 0 <= i < |dyes| && 0 <= j < |dyes|
      ensures dyes[i] in spillover && dyes[j] in spillover[dyes[i]]
    {
      assert dyes[i] in spillover.Keys;
      var e := LastWith(entries, dyes[i]);
      RowsValue(dyes, entries, e);
      ZipHoldsAll(dyes, entries[e].1, j);
    }
  }

  /** With distinct header dyes and matching labels, every lookup finds a value exactly when no
      row has fewer coefficient cells than there are dyes: `zip` drops the dyes past the end of
      a short row, and the check never looks at the cells. */
  lemma CompleteIff(dyes: seq<string>, entries: seq<(string, seq<string>)>)
    requires DyesMatch(dyes, Rows(dyes, entries))
    ensures Complete(dyes, Rows(dyes, entries))
            <==> forall i :: 0 <= i < |entries| && LastEntry(entries, i) ==> |entries[i].1| >= |dyes|
  {
    DyesMatchIff(dyes, Rows(dyes, entries));
    if Complete(dyes, Rows(dyes, entries)) {
      forall i | 0 <= i < |entries| && LastEntry(entries, i)
        ensures |entries[i].1| >= |dyes|
      {
        CompleteNeedsLongRows(dyes, entries, i);
      }
    } else if forall i :: 0 <= i < |entries| && LastEntry(entries, i) ==> |entries[i].1| >= |dyes| {
      LongRowsComplete(dyes, entries);
    }
  }
}
