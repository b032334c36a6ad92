/**
 The independent-to-joint combiner of the independent model runner. The normal
 and the tumour sample are classified separately, giving an n x a and an n x b
 matrix of per-site genotype probabilities; the combiner returns the n x (a*b)
 matrix of their products, column i*b + j holding normal class i together with
 tumour class j.

 The source computes exp(log(normal[:, i]) + log(tumour)); over the reals that
 is the product normal[r][i] * tumour[r][j], which is what is modelled here.
 */
module Combiner {
  import opened Seqs
  import opened Wrappers

  /** A numpy 2-D array: its column count (kept even with no rows) and its rows. */
  datatype Matrix = Matrix(cols: nat, rows: seq<seq<real>>)
  {
    ghost predicate Valid()
    {
      forall r :: 0 <= r < |rows| ==> |rows[r]| == cols
    }

    /** A responsibility matrix: non-negative entries and every row summing to 1. */
    ghost predicate Stochastic()
    {
      && Valid()
      && (forall r, k :: 0 <= r < |rows| && 0 <= k < cols ==> 0.0 <= rows[r][k])
      && (forall r :: 0 <= r < |rows| ==> Sum(rows[r]) == 1.0)
    }
  }

  /** The tumour row `ys` scaled by one normal probability `x`. */
  function Scale(x: real, ys: seq<real>): (r: seq<real>)
    ensures |r| == |ys|
  {
    if |ys| == 0 then [] else [x * ys[0]] + Scale(x, ys[1..])
  }

  /** Entry j of the scaled row is x * ys[j]. */
  lemma {:induction false} ScaleAt(x: real, ys: seq<real>, j: nat)
    requires j < |ys|
    ensures Scale(x, ys)[j] == x * ys[j]
  {
    if j > 0 {
      ScaleAt(x, ys[1..], j - 1);
    }
  }

  /** Scaling a non-negative row by a non-negative factor keeps it non-negative. */
  lemma ScaleNonNegative(x: real, ys: seq<real>)
    requires 0.0 <= x && forall j :: 0 <= j < |ys| ==> 0.0 <= ys[j]
    ensures forall j :: 0 <= j < |ys| ==> 0.0 <= Scale(x, ys)[j]
  {
    forall j | 0 <= j < |ys|
      ensures 0.0 <= Scale(x, ys)[j]
    {
      ScaleAt(x, ys, j);
    }
  }

  /**
   One row of the joint matrix: the block for normal class 0, then the block
   for class 1, and so on, each block being the tumour row scaled by that
   normal probability (the `hstack` of the per-class blocks).
   */
  function OuterRow(xs: seq<real>, ys: seq<real>): seq<real>
  {
    if |xs| == 0 then [] else Scale(xs[0], ys) + OuterRow(xs[1..], ys)
  }

  /** The per-class blocks of a joint row, block i being the tumour row scaled by xs[i]. */
  function Blocks(xs: seq<real>, ys: seq<real>): (bs: seq<seq<real>>)
    ensures |bs| == |xs|
  {
    seq(|xs|, i requires 0 <= i < |xs| => Scale(xs[i], ys))
  }

  lemma {:induction false} OuterRowFlatten(xs: seq<real>, ys: seq<real>)
    ensures OuterRow(xs, ys) == Flatten(Blocks(xs, ys))
  {
    if |xs| > 0 {
      OuterRowFlatten(xs[1..], ys);
      assert Blocks(xs, ys)[1..] == Blocks(xs[1..], ys);
    }
  }

  /**
   `row` is the joint row of `xs` (normal) and `ys` (tumour): it has |xs|*|ys|
   entries and column i*|ys| + j holds xs[i] * ys[j], normal being the outer index.
   */
  ghost predicate IsProductRow(row: seq<real>, xs: seq<real>, ys: seq<real>)
  {
    && |row| == |xs| * |ys|
    && forall i: nat, j: nat :: i < |xs| && j < |ys| ==> HasColumn(row, xs, ys, i, j)
  }

  /** Column i*|ys| + j of `row` exists and holds xs[i] * ys[j]. */
  ghost predicate HasColumn(row: seq<real>, xs: seq<real>, ys: seq<real>, i: nat, j: nat)
    requires i < |xs| && j < |ys|
  {
    i * |ys| + j < |row| && row[i * |ys| + j] == xs[i] * ys[j]
  }

  lemma OuterRowIsProduct(xs: seq<real>, ys: seq<real>)
    ensures IsProductRow(OuterRow(xs, ys), xs, ys)
  {
    OuterRowFlatten(xs, ys);
    BlocksProduct(xs, ys);
  }

  /** The blocks laid end to end: block i, column j is xs[i] * ys[j]. */
  lemma BlocksProduct(xs: seq<real>, ys: seq<real>)
    ensures IsProductRow(Flatten(Blocks(xs, ys)), xs, ys)
  {
    FlattenUniform(Blocks(xs, ys), |ys|);
    forall i: nat, j: nat | i < |xs| && j < |ys|
      ensures HasColumn(Flatten(Blocks(xs, ys)), xs, ys, i, j)
    {
      BlockColumn(xs, ys, i, j);
    }
  }

  /** Column i*|ys| + j of the blocks laid end to end is xs[i] * ys[j]. */
  lemma BlockColumn(xs: seq<real>, ys: seq<real>, i: nat, j: nat)
    requires i < |xs| && j < |ys|
    ensures HasColumn(Flatten(Blocks(xs, ys)), xs, ys, i, j)
  {
    FlattenIndex(Blocks(xs, ys), |ys|, i, j);
    BlockEntry(xs, ys, i, j);
  }

  /** Entry j of block i is xs[i] * ys[j]. */
  lemma BlockEntry(xs: seq<real>, ys: seq<real>, i: nat, j: nat)
    requires i < |xs| && j < |ys|
    ensures |Blocks(xs, ys)[i]| == |ys| && Blocks(xs, ys)[i][j] == xs[i] * ys[j]
  {
    assert Blocks(xs, ys)[i] == Scale(xs[i], ys);
    ScaleAt(xs[i], ys, j);
  }

  /** The row sum of a joint row is the product of the two row sums. */
  lemma {:induction false} OuterRowSum(xs: seq<real>, ys: seq<real>)
    ensures Sum(OuterRow(xs, ys)) == Sum(xs) * Sum(ys)
  {
    if |xs| > 0 {
      OuterRowSum(xs[1..], ys);
      HeadSum(xs, ys);
      SumCons(xs);
      assert Sum(OuterRow(xs, ys)) == xs[0] * Sum(ys) + Sum(OuterRow(xs[1..], ys));
      assert Sum(OuterRow(xs[1..], ys)) == Sum(xs[1..]) * Sum(ys);
      assert Sum(xs) == xs[0] + Sum(xs[1..]);
      Distribute(Sum(OuterRow(xs, ys)), Sum(OuterRow(xs[1..], ys)), xs[0], Sum(xs[1..]), Sum(xs), Sum(ys));
    }
  }

  /** The first block of a joint row adds xs[0] times the tumour row sum. */
  lemma HeadSum(xs: seq<real>, ys: seq<real>)
    requires |xs| > 0
    ensures Sum(OuterRow(xs, ys)) == xs[0] * Sum(ys) + Sum(OuterRow(xs[1..], ys))
  {
    var head := Scale(xs[0], ys);
    var rest := OuterRow(xs[1..], ys);
    assert OuterRow(xs, ys) == head + rest;
    ScaleSum(xs[0], ys);
    SumSplit(OuterRow(xs, ys), head, rest, xs[0] * Sum(ys));
  }

  lemma SumSplit(whole: seq<real>, head: seq<real>, rest: seq<real>, h: real)
    requires whole == head + rest && Sum(head) == h
    ensures Sum(whole) == h + Sum(rest)
  {
    SumAppend(head, rest);
  }

  /** A whole made of a*t and u*t is s*t when s is a + u. */
  lemma Distribute(whole: real, r: real, a: real, u: real, s: real, t: real)
    requires whole == a * t + r && r == u * t && s == a + u
    ensures whole == s * t
  {
  }

  lemma {:induction false} ScaleSum(x: real, ys: seq<real>)
    ensures Sum(Scale(x, ys)) == x * Sum(ys)
  {
    if |ys| > 0 {
      ScaleSum(x, ys[1..]);
    }
  }

  /**
   `_get_joint_responsibilities`: the joint matrix, or None when the normal
   matrix has no columns (np.hstack of an empty list raises). Both matrices
   come from classifying the same window, so they have the same row count.
   */
  function Combine(normal: Matrix, tumour: Matrix): (joint: Option<Matrix>)
    requires normal.Valid() && tumour.Valid()
    requires |normal.rows| == |tumour.rows|
    ensures joint.None? <==> normal.cols == 0
    ensures joint.Some? ==> joint.value.Valid()
    ensures joint.Some? ==> |joint.value.rows| == |normal.rows|
    ensures joint.Some? ==> joint.value.cols == normal.cols * tumour.cols
    ensures joint.Some? ==>
      forall r :: 0 <= r < |normal.rows| ==> IsProductRow(joint.value.rows[r], normal.rows[r], tumour.rows[r])
  {
    if normal.cols == 0 then None
    else
      var rows := seq(|normal.rows|, r requires 0 <= r < |normal.rows| => OuterRow(normal.rows[r], tumour.rows[r]));
      assert forall r :: 0 <= r < |rows| ==> IsProductRow(rows[r], normal.rows[r], tumour.rows[r]) by {
        forall r | 0 <= r < |rows|
          ensures IsProductRow(rows[r], normal.rows[r], tumour.rows[r])
        {
          OuterRowIsProduct(normal.rows[r], tumour.rows[r]);
        }
      }
      Some(Matrix(normal.cols * tumour.cols, rows))
  }

  /** Combining two responsibility matrices gives a responsibility matrix. */
  lemma CombineStochastic(normal: Matrix, tumour: Matrix)
    requires normal.Stochastic() && tumour.Stochastic()
    requires |normal.rows| == |tumour.rows|
    requires normal.cols > 0
    ensures Combine(normal, tumour).Some?
    ensures Combine(normal, tumour).value.Stochastic()
  {
    var joint := Combine(normal, tumour).value;
    forall r | 0 <= r < |joint.rows|
      ensures Sum(joint.rows[r]) == 1.0
    {
      OuterRowSum(normal.rows[r], tumour.rows[r]);
    }
    forall r | 0 <= r < |joint.rows|
      ensures forall k :: 0 <= k < |joint.rows[r]| ==> 0.0 <= joint.rows[r][k]
    {
      OuterRowNonNegative(normal.rows[r], tumour.rows[r]);
    }
  }

  lemma {:induction false} OuterRowNonNegative(xs: seq<real>, ys: seq<real>)
    requires forall i :: 0 <= i < |xs| ==> 0.0 <= xs[i]
    requires forall j :: 0 <= j < |ys| ==> 0.0 <= ys[j]
    ensures forall k :: 0 <= k < |OuterRow(xs, ys)| ==> 0.0 <= OuterRow(xs, ys)[k]
  {
    if |xs| > 0 {
      OuterRowNonNegative(xs[1..], ys);
      ScaleNonNegative(xs[0], ys);
      assert OuterRow(xs, ys) == Scale(xs[0], ys) + OuterRow(xs[1..], ys);
    }
  }

  /** [[0.9, 0.1]] with [[0.8, 0.2]] gives [[0.72, 0.18, 0.08, 0.02]]. */
  lemma TwoByTwo()
    ensures Combine(Matrix(2, [[0.9, 0.1]]), Matrix(2, [[0.8, 0.2]])) == Some(Matrix(4, [[0.72, 0.18, 0.08, 0.02]]))
  {
    var xs, ys := [0.9, 0.1], [0.8, 0.2];
    assert Scale(0.1, ys) == [0.08, 0.02] by {
      assert Scale(0.1, ys[1..]) == [0.02] + Scale(0.1, []);
    }
    assert Scale(0.9, ys) == [0.72, 0.18] by {
      assert Scale(0.9, ys[1..]) == [0.18] + Scale(0.9, []);
    }
    assert OuterRow(xs[1..], ys) == [0.08, 0.02] by {
      assert xs[1..] == [0.1] && xs[1..][1..] == [];
    }
    assert OuterRow(xs, ys) == [0.72, 0.18, 0.08, 0.02];
    var joint := Combine(Matrix(2, [xs]), Matrix(2, [ys])).value;
    assert joint.rows == [OuterRow(xs, ys)];
  }
}
