/**
 Small sequence helpers shared by the rest of the model: concatenation of a
 list of lists (numpy's vstack/hstack and Python's list.extend), sums of real
 vectors, and the integer minimum that Python's min() computes.
 */
module Seqs {

  function Min(a: int, b: int): int
  {
    if a <= b then a else b
  }

  /** Concatenation of every inner sequence, in order. */
  function Flatten<T>(ss: seq<seq<T>>): seq<T>
  {
    if |ss| == 0 then [] else ss[0] + Flatten(ss[1..])
  }

  lemma {:induction false} FlattenAppend<T>(a: seq<seq<T>>, b: seq<seq<T>>)
    ensures Flatten(a + b) == Flatten(a) + Flatten(b)
  {
    if |a| == 0 {
      assert a + b == b;
    } else {
      assert (a + b)[1..] == a[1..] + b;
      FlattenAppend(a[1..], b);
    }
  }

  /** Dropping the first element takes exactly that element out of the multiset. */
  lemma MultisetTail<T>(s: seq<T>)
    requires |s| > 0
    ensures multiset(s[1..]) + multiset{s[0]} == multiset(s)
  {
    assert s == [s[0]] + s[1..];
  }

  /**
   `ys` is `xs` with `x` put in at index `p` (Python's `list.insert(p, x)`):
   the entries before `p` stay where they were, `x` sits at `p`, and the
   entries from `p` on move up by one.
   */
  ghost predicate PlacedAt<T>(xs: seq<T>, x: T, p: nat, ys: seq<T>)
  {
    && p <= |xs|
    && |ys| == |xs| + 1
    && ys[p] == x
    && (forall k :: 0 <= k < p ==> ys[k] == xs[k])
    && (forall k :: p <= k < |xs| ==> ys[k + 1] == xs[k])
  }

  /** Popping the first entry of an insertion and putting it back gives the insertion again. */
  lemma PlacedAtHead<T>(xs: seq<T>, x: T, p: nat, ys: seq<T>)
    requires PlacedAt(xs, x, p, ys)
    ensures PlacedAt(xs, x, p, [ys[0]] + ys[1..])
  {
    assert [ys[0]] + ys[1..] == ys;
  }

  lemma InsertPlaced<T>(xs: seq<T>, x: T, p: nat)
    requires p <= |xs|
    ensures PlacedAt(xs, x, p, xs[..p] + [x] + xs[p..])
  {
  }

  lemma FlattenSnoc<T>(a: seq<seq<T>>, x: seq<T>)
    ensures Flatten(a + [x]) == Flatten(a) + x
  {
    FlattenAppend(a, [x]);
    assert Flatten([x]) == x + Flatten([x][1..]);
  }

  /** Blocks of one length b concatenate to |ss| * b elements. */
  lemma {:induction false} FlattenUniform<T>(ss: seq<seq<T>>, b: nat)
    requires forall k :: 0 <= k < |ss| ==> |ss[k]| == b
    ensures |Flatten(ss)| == |ss| * b
  {
    if |ss| > 0 {
      FlattenUniform(ss[1..], b);
      assert |ss| * b == (|ss| - 1) * b + b;
    }
  }

  /** In a concatenation of blocks of length b, element j of block i sits at i * b + j. */
  lemma {:induction false} FlattenIndex<T>(ss: seq<seq<T>>, b: nat, i: nat, j: nat)
    requires forall k :: 0 <= k < |ss| ==> |ss[k]| == b
    requires i < |ss| && j < b
    ensures 0 <= i * b + j < |Flatten(ss)| && Flatten(ss)[i * b + j] == ss[i][j]
  {
    var head, rest := ss[0], Flatten(ss[1..]);
    assert Flatten(ss) == head + rest;
    if i > 0 {
      FlattenIndex(ss[1..], b, i - 1, j);
      var k := (i - 1) * b + j;
      assert i * b + j == b + k;
      assert (head + rest)[b + k] == rest[k];
    }
  }

  /** Sum of a real vector (numpy's row sum). */
  function Sum(xs: seq<real>): real
  {
    if |xs| == 0 then 0.0 else xs[0] + Sum(xs[1..])
  }

  /** The first entry plus the sum of the rest. */
  lemma SumCons(xs: seq<real>)
    requires |xs| > 0
    ensures Sum(xs) == xs[0] + Sum(xs[1..])
  {
  }

  lemma {:induction false} SumAppend(a: seq<real>, b: seq<real>)
    ensures Sum(a + b) == Sum(a) + Sum(b)
  {
    if |a| == 0 {
      assert a + b == b;
    } else {
      assert (a + b)[1..] == a[1..] + b;
      SumAppend(a[1..], b);
    }
  }

  /** No value occurs twice. */
  predicate Distinct<T(==)>(s: seq<T>)
  {
    forall i, j :: 0 <= i < j < |s| ==> s[i] != s[j]
  }

  lemma DistinctConcat<T>(a: seq<T>, b: seq<T>)
    requires Distinct(a) && Distinct(b)
    requires forall i, j :: 0 <= i < |a| && 0 <= j < |b| ==> a[i] != b[j]
    ensures Distinct(a + b)
  {
    var s := a + b;
    forall i, j | 0 <= i < j < |s|
      ensures s[i] != s[j]
    {
      if j < |a| {
        assert s[i] == a[i] && s[j] == a[j];
      } else if i < |a| {
        assert s[i] == a[i] && s[j] == b[j - |a|];
      } else {
        assert s[i] == b[i - |a|] && s[j] == b[j - |a|];
      }
    }
  }

  lemma {:induction false} DistinctCount<T>(s: seq<T>, x: T)
    requires Distinct(s)
    ensures multiset(s)[x] <= 1
  {
    if |s| > 0 {
      assert s == [s[0]] + s[1..];
      assert Distinct(s[1..]);
      DistinctCount(s[1..], x);
      if x == s[0] {
        assert x !in s[1..];
      }
    }
  }

  lemma CountDistinct<T>(s: seq<T>)
    requires forall x :: multiset(s)[x] <= 1
    ensures Distinct(s)
  {
    forall i, j | 0 <= i < j < |s|
      ensures s[i] != s[j]
    {
      assert s == s[..i] + [s[i]] + s[i+1..j] + [s[j]] + s[j+1..];
      assert multiset(s) == multiset(s[..i]) + multiset{s[i]} + multiset(s[i+1..j]) + multiset{s[j]} + multiset(s[j+1..]);
      assert multiset(s)[s[i]] >= multiset{s[i]}[s[i]] + multiset{s[j]}[s[i]];
      assert multiset(s)[s[i]] <= 1;
    }
  }
}
