/**
 Chromosome names and the readers that list them.

 Every stage walks chromosomes with `for chr_name in sorted(chr_list)`; Python
 orders `str` values lexicographically by character code. This module defines
 that order, an insertion sort over it, and the abstract reader a stage reads
 from: the reader's chromosome list plus one table of rows per name.
 */
module Chromosomes {
  import opened Seqs

  /** Python's `a < b` on strings: lexicographic by character code, a proper prefix first. */
  predicate Less(a: string, b: string)
    decreases |a|
  {
    if |a| == 0 then |b| > 0
    else if |b| == 0 then false
    else a[0] < b[0] || (a[0] == b[0] && Less(a[1..], b[1..]))
  }

  predicate LessEq(a: string, b: string)
  {
    a == b || Less(a, b)
  }

  lemma {:induction false} LessIrreflexive(a: string)
    ensures !Less(a, a)
  {
    if |a| > 0 {
      LessIrreflexive(a[1..]);
    }
  }

  lemma {:induction false} LessTransitive(a: string, b: string, c: string)
    requires Less(a, b) && Less(b, c)
    ensures Less(a, c)
  {
    if |a| > 0 && a[0] == b[0] && b[0] == c[0] {
      LessTransitive(a[1..], b[1..], c[1..]);
    }
  }

  lemma {:induction false} LessTotal(a: string, b: string)
    ensures a == b || Less(a, b) || Less(b, a)
  {
    if |a| > 0 && |b| > 0 && a[0] == b[0] {
      LessTotal(a[1..], b[1..]);
      if a[1..] == b[1..] {
        assert a == [a[0]] + a[1..];
        assert b == [b[0]] + b[1..];
      }
    }
  }

  lemma LessEqTransitive(a: string, b: string, c: string)
    requires LessEq(a, b) && LessEq(b, c)
    ensures LessEq(a, c)
  {
    if a != b && b != c {
      LessTransitive(a, b, c);
    }
  }

  lemma LessEqAntisymmetric(a: string, b: string)
    requires LessEq(a, b) && LessEq(b, a)
    ensures a == b
  {
    if a != b {
      LessTransitive(a, b, a);
      LessIrreflexive(a);
    }
  }

  /** Ascending in Python's string order (duplicates allowed). */
  predicate Sorted(s: seq<string>)
  {
    forall i, j :: 0 <= i < j < |s| ==> LessEq(s[i], s[j])
  }

  /** Inserts `x` before the first element it does not exceed. */
  function InsertName(x: string, s: seq<string>): (r: seq<string>)
    requires Sorted(s)
    ensures Sorted(r)
    ensures multiset(r) == multiset(s) + multiset{x}
  {
    if |s| == 0 then [x]
    else if LessEq(x, s[0]) then
      SortedHeadLeast(x, s);
      InsertFrontSorted(x, s);
      [x] + s
    else
      var rest := InsertName(x, s[1..]);
      LessTotal(x, s[0]);
      assert forall e :: e in rest ==> LessEq(s[0], e) by {
        forall e | e in rest
          ensures LessEq(s[0], e)
        {
          assert e in multiset(rest);
          if e != x {
            assert e in multiset(s[1..]);
            var k :| 0 <= k < |s[1..]| && s[1..][k] == e;
            assert s[k+1] == e;
          }
        }
      }
      InsertFrontSorted(s[0], rest);
      assert s == [s[0]] + s[1..];
      [s[0]] + rest
  }

  lemma SortedHeadLeast(x: string, s: seq<string>)
    requires Sorted(s) && |s| > 0 && LessEq(x, s[0])
    ensures forall e :: e in s ==> LessEq(x, e)
  {
    forall e | e in s
      ensures LessEq(x, e)
    {
      var k :| 0 <= k < |s| && s[k] == e;
      if k > 0 {
        LessEqTransitive(x, s[0], e);
      }
    }
  }

  lemma InsertFrontSorted(x: string, s: seq<string>)
    requires Sorted(s)
    requires forall e :: e in s ==> LessEq(x, e)
    ensures Sorted([x] + s)
  {
    var r := [x] + s;
    forall i, j | 0 <= i < j < |r|
      ensures LessEq(r[i], r[j])
    {
      if i > 0 {
        assert r[i] == s[i-1] && r[j] == s[j-1];
      } else {
        assert r[j] == s[j-1];
      }
    }
  }

  /** `sorted(chr_list)`. */
  function SortNames(s: seq<string>): (r: seq<string>)
    ensures Sorted(r)
    ensures multiset(r) == multiset(s)
  {
    if |s| == 0 then []
    else
      assert s == [s[0]] + s[1..];
      InsertName(s[0], SortNames(s[1..]))
  }

  /** A sorted permutation is unique, so SortNames agrees with any other correct sort. */
  lemma {:induction false} SortedPermutationUnique(a: seq<string>, b: seq<string>)
    requires Sorted(a) && Sorted(b)
    requires multiset(a) == multiset(b)
    ensures a == b
  {
    if |a| == 0 {
      assert |multiset(b)| == 0;
    } else {
      SortedHeads(a, b);
      SortedTail(a);
      SortedTail(b);
      assert a == [a[0]] + a[1..];
      assert b == [b[0]] + b[1..];
      assert multiset(a[1..]) == multiset(a) - multiset{a[0]};
      assert multiset(b[1..]) == multiset(b) - multiset{b[0]};
      SortedPermutationUnique(a[1..], b[1..]);
    }
  }

  lemma SortedTail(a: seq<string>)
    requires Sorted(a) && |a| > 0
    ensures Sorted(a[1..])
  {
  }

  /** Two sorted lists with the same elements start with the same (least) element. */
  lemma SortedHeads(a: seq<string>, b: seq<string>)
    requires Sorted(a) && Sorted(b) && multiset(a) == multiset(b) && |a| > 0
    ensures |b| > 0 && a[0] == b[0]
  {
    assert a[0] in multiset(b);
    assert b[0] in multiset(a);
    var i :| 0 <= i < |b| && b[i] == a[0];
    var j :| 0 <= j < |a| && a[j] == b[0];
    assert LessEq(b[0], a[0]) by { if i > 0 { assert LessEq(b[0], b[i]); } }
    assert LessEq(a[0], b[0]) by { if j > 0 { assert LessEq(a[0], a[j]); } }
    LessEqAntisymmetric(a[0], b[0]);
  }

  /** Sorting a list of distinct names gives each name exactly once. */
  lemma SortNamesDistinct(s: seq<string>)
    requires Distinct(s)
    ensures Distinct(SortNames(s))
  {
    forall x
      ensures multiset(SortNames(s))[x] <= 1
    {
      DistinctCount(s, x);
    }
    CountDistinct(SortNames(s));
  }

  /**
   A reader of a per-chromosome table file: `get_chr_list()` and, for every
   listed name, the table `get_rows(name)` (whose length is `get_chr_size(name)`).
   */
  datatype Reader<R> = Reader(chrList: seq<string>, tables: map<string, seq<R>>)
  {
    /** The list names each table once, and every listed name has a table. */
    ghost predicate Valid()
    {
      && Distinct(chrList)
      && forall c :: c in chrList ==> c in tables
    }
  }
}
