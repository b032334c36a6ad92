/**
 The training-data subsamplers of the model runners.

 `_subsample` draws from every chromosome a share of the requested sample
 size proportional to the chromosome's length, quota
 `min(C, ceil(C / N * S))` for a chromosome of C rows out of N in all, and
 stacks the drawn rows in `chr_list` order. `_chrom_subsample` draws
 `min(C, S)` rows of one chromosome. `random.sample(xrange(C), q)` is not
 modelled as a generator: its result is a parameter, constrained to be what
 it may return (q distinct indices below C).
 */
module Subsample {
  import opened Seqs
  import opened Wrappers
  import opened Chromosomes

  /** The least m with m * b >= a, i.e. the ceiling of a / b. */
  function CeilDiv(a: nat, b: nat): (m: nat)
    requires b > 0
    ensures m * b >= a
    ensures m == 0 || (m - 1) * b < a
  {
    var m := (a + b - 1) / b;
    var r := (a + b - 1) % b;
    assert m * b + r == a + b - 1;
    assert (m - 1) * b == m * b - b;
    m
  }

  /** `min(chr_size, int(ceil(chr_size / nrows * sample_size)))`, over exact rationals. */
  function Quota(c: nat, total: nat, target: nat): (q: nat)
    requires total > 0
    ensures q <= c
    ensures target >= total ==> q == c
    ensures q < c ==> q * total >= c * target
    ensures q == 0 || (q - 1) * total < c * target
  {
    var m := CeilDiv(c * target, total);
    assert target >= total ==> c <= m by {
      if target >= total {
        MulMonotone(c, target, total);
        MulCancel(c, m, total);
      }
    }
    assert 0 < c < m ==> (c - 1) * total < c * target by {
      if 0 < c < m {
        MulMonotone(total, m - 1, c - 1);
      }
    }
    Min(c, m)
  }

  lemma MulMonotone(c: nat, a: nat, b: nat)
    requires a >= b
    ensures c * a >= c * b
  {
  }

  /** x * n <= y * n with n > 0 gives x <= y. */
  lemma MulCancel(x: int, y: int, n: nat)
    requires n > 0
    requires x * n <= y * n
    ensures x <= y
  {
    if x > y {
      Distribute(x - y, y, n);
    }
  }

  lemma Distribute(a: int, b: int, n: int)
    ensures (a + b) * n == a * n + b * n
  {
  }

  /** What `random.sample(xrange(size), count)` may return: `count` distinct indices below `size`. */
  predicate IsSample(d: seq<nat>, size: nat, count: nat)
  {
    && |d| == count
    && Distinct(d)
    && forall k :: 0 <= k < |d| ==> d[k] < size
  }

  /** numpy fancy indexing `rows[d]`: row d[k] in place k. */
  function Pick<R>(rows: seq<R>, d: seq<nat>): (r: seq<R>)
    requires forall k :: 0 <= k < |d| ==> d[k] < |rows|
    ensures |r| == |d|
    ensures forall k :: 0 <= k < |d| ==> r[k] == rows[d[k]]
  {
    seq(|d|, k requires 0 <= k < |d| => rows[d[k]])
  }

  /** Rows picked at distinct indices are a sub-multiset of the rows. */
  lemma {:induction false} PickSubMultiset<R>(rows: seq<R>, d: seq<nat>)
    requires forall k :: 0 <= k < |d| ==> d[k] < |rows|
    requires Distinct(d)
    ensures multiset(Pick(rows, d)) <= multiset(rows)
    decreases |d|
  {
    if |d| > 0 {
      var i := d[0];
      var rest := rows[..i] + rows[i + 1..];
      var e := Renumber(d);
      RenumberPick(rows, d);
      PickSubMultiset(rest, e);
      assert rows == rows[..i] + [rows[i]] + rows[i + 1..];
      assert multiset(rows) == multiset(rest) + multiset{rows[i]};
      assert Pick(rows, d) == [rows[i]] + Pick(rows, d)[1..];
    }
  }

  /** The indices after the first, renumbered for the rows with row d[0] taken out. */
  function Renumber(d: seq<nat>): (e: seq<nat>)
    requires |d| > 0
    ensures |e| == |d| - 1
  {
    seq(|d| - 1, k requires 0 <= k < |d| - 1 => if d[k + 1] <= d[0] then d[k + 1] else d[k + 1] - 1)
  }

  lemma RenumberPick<R>(rows: seq<R>, d: seq<nat>)
    requires |d| > 0
    requires forall k :: 0 <= k < |d| ==> d[k] < |rows|
    requires Distinct(d)
    ensures var e := Renumber(d);
      && (forall k :: 0 <= k < |e| ==> e[k] < |rows| - 1)
      && Distinct(e)
      && Pick(rows[..d[0]] + rows[d[0] + 1..], e) == Pick(rows, d)[1..]
  {
    var e := Renumber(d);
    var rest := rows[..d[0]] + rows[d[0] + 1..];
    forall k | 0 <= k < |e|
      ensures e[k] < |rows| - 1
      ensures rest[e[k]] == rows[d[k + 1]]
    {
      assert d[0] != d[k + 1];
    }
    forall k, l | 0 <= k < l < |e|
      ensures e[k] != e[l]
    {
      assert d[k + 1] != d[l + 1];
    }
  }

  /** A sub-multiset of the same size is the whole multiset. */
  lemma SubMultisetFull<R>(a: multiset<R>, b: multiset<R>)
    requires a <= b && |a| == |b|
    ensures a == b
  {
    assert b == a + (b - a);
  }

  /** Picking every index once reorders the rows. */
  lemma PickAll<R>(rows: seq<R>, d: seq<nat>)
    requires IsSample(d, |rows|, |rows|)
    ensures multiset(Pick(rows, d)) == multiset(rows)
  {
    PickSubMultiset(rows, d);
    SubMultisetFull(multiset(Pick(rows, d)), multiset(rows));
  }

  /**
   `_chrom_subsample`: `min(C, S)` rows of the chromosome, each at most as
   often as it occurs there; all of them, reordered, when S >= C.
   */
  function ChromSubsample<R>(rows: seq<R>, target: nat, d: seq<nat>): (sample: seq<R>)
    requires IsSample(d, |rows|, Min(|rows|, target))
    ensures |sample| == Min(|rows|, target)
    ensures multiset(sample) <= multiset(rows)
    ensures target >= |rows| ==> multiset(sample) == multiset(rows)
    ensures forall k :: 0 <= k < |sample| ==> sample[k] == rows[d[k]]
  {
    PickSubMultiset(rows, d);
    assert target >= |rows| ==> multiset(Pick(rows, d)) == multiset(rows) by {
      if target >= |rows| {
        PickAll(rows, d);
      }
    }
    Pick(rows, d)
  }

  /* ---------------- proportional subsample over all chromosomes ---------------- */

  function SumNat(xs: seq<nat>): nat
  {
    if |xs| == 0 then 0 else xs[0] + SumNat(xs[1..])
  }

  /** Number of chromosomes with at least one row. */
  function Positives(sizes: seq<nat>): nat
  {
    if |sizes| == 0 then 0 else (if sizes[0] > 0 then 1 else 0) + Positives(sizes[1..])
  }

  function Quotas(sizes: seq<nat>, total: nat, target: nat): (qs: seq<nat>)
    requires total > 0
    ensures |qs| == |sizes|
  {
    seq(|sizes|, i requires 0 <= i < |sizes| => Quota(sizes[i], total, target))
  }

  /** The reader's tables in `chr_list` order (the order `_subsample` visits them). */
  function ChromTables<R>(reader: Reader<R>): (tables: seq<seq<R>>)
    requires reader.Valid()
    ensures |tables| == |reader.chrList|
  {
    seq(|reader.chrList|, i requires 0 <= i < |reader.chrList| => reader.tables[reader.chrList[i]])
  }

  function Sizes<R>(tables: seq<seq<R>>): (sizes: seq<nat>)
    ensures |sizes| == |tables|
  {
    seq(|tables|, i requires 0 <= i < |tables| => |tables[i]|)
  }

  /** `get_data_set_size()`: the rows of all chromosomes together. */
  function RowCount<R>(reader: Reader<R>): nat
    requires reader.Valid()
  {
    SumNat(Sizes(ChromTables(reader)))
  }

  /** The draws are what `random.sample` may return for every chromosome's quota. */
  predicate DrawsFit<R>(reader: Reader<R>, target: nat, draws: seq<seq<nat>>)
    requires reader.Valid()
  {
    var tables := ChromTables(reader);
    && |draws| == |tables|
    && (RowCount(reader) > 0 ==>
          forall i :: 0 <= i < |tables| ==>
            IsSample(draws[i], |tables[i]|, Quota(|tables[i]|, RowCount(reader), target)))
  }

  /**
   `sample` is one chunk per chromosome stacked in `chr_list` order (the
   `np.vstack`): chunk i holds `quotas[i]` rows and starts after the chunks
   before it, and its k-th row is the row of table i at index `draws[i][k]`
   (`chr_counts[chr_sample_indices]`).
   */
  ghost predicate Stacked<R>(sample: seq<R>, tables: seq<seq<R>>, quotas: seq<nat>, draws: seq<seq<nat>>)
  {
    && |quotas| == |tables| == |draws|
    && |sample| == SumNat(quotas)
    && (forall i :: 0 <= i < |tables| ==> |draws[i]| == quotas[i])
    && (forall i, k :: 0 <= i < |tables| && 0 <= k < |draws[i]| ==>
          && draws[i][k] < |tables[i]|
          && SumNat(quotas[..i]) + k < |sample|
          && sample[SumNat(quotas[..i]) + k] == tables[i][draws[i][k]])
  }

  /**
   `_subsample`: the per-chromosome picks stacked in `chr_list` order. None
   when the data set is empty (division by `nrows == 0`, or `np.vstack` of
   an empty list). The sample has the summed quotas as size, which lies in
   [min(S, N), S + k - 1] for k non-empty chromosomes; it never repeats a row
   more often than the data do, and is the whole data set, reordered within
   each chromosome, when S >= N.
   */
  function Subsample<R>(reader: Reader<R>, target: nat, draws: seq<seq<nat>>): (sample: Option<seq<R>>)
    requires reader.Valid()
    requires DrawsFit(reader, target, draws)
    ensures sample.None? <==> RowCount(reader) == 0
    ensures sample.Some? ==>
      |sample.value| == SumNat(Quotas(Sizes(ChromTables(reader)), RowCount(reader), target))
    ensures sample.Some? ==>
      Min(target, RowCount(reader)) <= |sample.value| < target + Positives(Sizes(ChromTables(reader)))
    ensures sample.Some? ==> multiset(sample.value) <= multiset(Flatten(ChromTables(reader)))
    ensures sample.Some? && target >= RowCount(reader) ==>
      multiset(sample.value) == multiset(Flatten(ChromTables(reader)))
    ensures sample.Some? ==>
      Stacked(sample.value, ChromTables(reader), Quotas(Sizes(ChromTables(reader)), RowCount(reader), target), draws)
  {
    var tables := ChromTables(reader);
    var total := RowCount(reader);
    if total == 0 then None
    else
      var chunks := seq(|tables|, i requires 0 <= i < |tables| => Pick(tables[i], draws[i]));
      var sizes := Sizes(tables);
      assert Sizes(chunks) == Quotas(sizes, total, target);
      FlattenLength(chunks);
      QuotaSumBounds(sizes, total, target);
      forall i | 0 <= i < |tables|
        ensures multiset(chunks[i]) <= multiset(tables[i])
        ensures target >= total ==> multiset(chunks[i]) == multiset(tables[i])
      {
        PickSubMultiset(tables[i], draws[i]);
        if target >= total {
          PickAll(tables[i], draws[i]);
        }
      }
      FlattenSubMultiset(chunks, tables);
      assert target >= total ==> multiset(Flatten(chunks)) == multiset(Flatten(tables)) by {
        if target >= total {
          FlattenSameMultiset(chunks, tables);
        }
      }
      StackedPicks(tables, draws, chunks, Quotas(sizes, total, target));
      Some(Flatten(chunks))
  }

  lemma StackedPicks<R>(tables: seq<seq<R>>, draws: seq<seq<nat>>, chunks: seq<seq<R>>, quotas: seq<nat>)
    requires |draws| == |tables| == |chunks|
    requires forall i :: 0 <= i < |tables| ==> forall k :: 0 <= k < |draws[i]| ==> draws[i][k] < |tables[i]|
    requires forall i :: 0 <= i < |tables| ==> chunks[i] == Pick(tables[i], draws[i])
    requires Sizes(chunks) == quotas
    ensures Stacked(Flatten(chunks), tables, quotas, draws)
  {
    FlattenLength(chunks);
    forall i, k | 0 <= i < |tables| && 0 <= k < |draws[i]|
      ensures SumNat(quotas[..i]) + k < |Flatten(chunks)|
      ensures Flatten(chunks)[SumNat(quotas[..i]) + k] == tables[i][draws[i][k]]
    {
      FlattenAt(chunks, i, k);
    }
  }

  /** Row k of block i sits after the rows of the blocks before it. */
  lemma {:induction false} FlattenAt<T>(ss: seq<seq<T>>, i: nat, k: nat)
    requires i < |ss| && k < |ss[i]|
    ensures SumNat(Sizes(ss)[..i]) + k < |Flatten(ss)|
    ensures Flatten(ss)[SumNat(Sizes(ss)[..i]) + k] == ss[i][k]
  {
    FlattenLength(ss[1..]);
    if i == 0 {
      assert Sizes(ss)[..0] == [];
    } else {
      FlattenAt(ss[1..], i - 1, k);
      assert Sizes(ss)[..i] == [|ss[0]|] + Sizes(ss[1..])[..i - 1];
    }
  }

  lemma {:induction false} FlattenLength<T>(ss: seq<seq<T>>)
    ensures |Flatten(ss)| == SumNat(Sizes(ss))
  {
    if |ss| > 0 {
      FlattenLength(ss[1..]);
      assert Sizes(ss)[1..] == Sizes(ss[1..]);
    }
  }

  lemma {:induction false} FlattenSubMultiset<T>(a: seq<seq<T>>, b: seq<seq<T>>)
    requires |a| == |b|
    requires forall i :: 0 <= i < |a| ==> multiset(a[i]) <= multiset(b[i])
    ensures multiset(Flatten(a)) <= multiset(Flatten(b))
  {
    if |a| > 0 {
      FlattenSubMultiset(a[1..], b[1..]);
      assert multiset(Flatten(a)) == multiset(a[0]) + multiset(Flatten(a[1..]));
      assert multiset(Flatten(b)) == multiset(b[0]) + multiset(Flatten(b[1..]));
    }
  }

  lemma {:induction false} FlattenSameMultiset<T>(a: seq<seq<T>>, b: seq<seq<T>>)
    requires |a| == |b|
    requires forall i :: 0 <= i < |a| ==> multiset(a[i]) == multiset(b[i])
    ensures multiset(Flatten(a)) == multiset(Flatten(b))
  {
    if |a| > 0 {
      FlattenSameMultiset(a[1..], b[1..]);
      assert multiset(Flatten(a)) == multiset(a[0]) + multiset(Flatten(a[1..]));
      assert multiset(Flatten(b)) == multiset(b[0]) + multiset(Flatten(b[1..]));
    }
  }

  /**
   The summed quotas of chromosomes of sizes `sizes` (N rows in all, S
   requested) lie between min(S, N) and S + k - 1, k the number of non-empty
   chromosomes: every quota is at least C*S/N and less than C*S/N + 1.
   */
  lemma QuotaSumBounds(sizes: seq<nat>, total: nat, target: nat)
    requires total == SumNat(sizes) > 0
    ensures Min(target, total) <= SumNat(Quotas(sizes, total, target))
    ensures SumNat(Quotas(sizes, total, target)) < target + Positives(sizes)
  {
    var sum := SumNat(Quotas(sizes, total, target));
    if target >= total {
      QuotasFull(sizes, total, target);
    } else {
      QuotaSumLower(sizes, total, target);
      MulCancel(target, sum, total);
    }
    QuotaSumUpper(sizes, total, target);
    PositivesNonZero(sizes);
    UpperStep(sum, target, Positives(sizes), total);
  }

  /** sum * n <= n * s + k * (n - 1) with k > 0 gives sum < s + k. */
  lemma UpperStep(sum: nat, s: nat, k: nat, n: nat)
    requires n > 0 && k > 0
    requires sum * n <= n * s + k * (n - 1)
    ensures sum < s + k
  {
    Distribute(n - 1, 1, k);
    Distribute(s, k, n);
    LessCancel(sum, s + k, n);
  }

  /** x * n < y * n with n > 0 gives x < y. */
  lemma LessCancel(x: int, y: int, n: nat)
    requires n > 0
    requires x * n < y * n
    ensures x < y
  {
    if x >= y {
      Distribute(x - y, y, n);
    }
  }

  lemma {:induction false} QuotasFull(sizes: seq<nat>, total: nat, target: nat)
    requires total > 0 && target >= total
    ensures SumNat(Quotas(sizes, total, target)) == SumNat(sizes)
  {
    if |sizes| > 0 {
      assert Quotas(sizes, total, target)[1..] == Quotas(sizes[1..], total, target);
      QuotasFull(sizes[1..], total, target);
    }
  }

  lemma {:induction false} PositivesNonZero(sizes: seq<nat>)
    requires SumNat(sizes) > 0
    ensures Positives(sizes) > 0
  {
    if |sizes| > 0 && sizes[0] == 0 {
      PositivesNonZero(sizes[1..]);
    }
  }

  /** Below the full data set, every quota is at least C * S / N. */
  lemma QuotaLower(c: nat, total: nat, target: nat)
    requires 0 < total && target < total
    ensures Quota(c, total, target) * total >= c * target
  {
    if Quota(c, total, target) == c {
      MulMonotone(c, total, target);
    }
  }

  /** Every quota of a non-empty chromosome is below C * S / N + 1. */
  lemma QuotaUpper(c: nat, total: nat, target: nat)
    requires 0 < total
    ensures Quota(c, total, target) * total <= c * target + (if c > 0 then total - 1 else 0)
  {
    var m := CeilDiv(c * target, total);
    var q := Quota(c, total, target);
    assert q <= m;
    MulMonotone(total, m, q);
    if m > 0 {
      Distribute(m - 1, 1, total);
    }
  }

  lemma {:induction false} QuotaSumLower(sizes: seq<nat>, total: nat, target: nat)
    requires 0 < total && target < total
    ensures SumNat(Quotas(sizes, total, target)) * total >= SumNat(sizes) * target
  {
    if |sizes| > 0 {
      var qs := Quotas(sizes, total, target);
      assert qs[1..] == Quotas(sizes[1..], total, target);
      QuotaSumLower(sizes[1..], total, target);
      QuotaLower(sizes[0], total, target);
      Distribute(qs[0], SumNat(qs[1..]), total);
      Distribute(sizes[0], SumNat(sizes[1..]), target);
    }
  }

  lemma {:induction false} QuotaSumUpper(sizes: seq<nat>, total: nat, target: nat)
    requires 0 < total
    ensures SumNat(Quotas(sizes, total, target)) * total <= SumNat(sizes) * target + Positives(sizes) * (total - 1)
  {
    if |sizes| > 0 {
      var qs := Quotas(sizes, total, target);
      assert qs[1..] == Quotas(sizes[1..], total, target);
      QuotaSumUpper(sizes[1..], total, target);
      QuotaUpper(sizes[0], total, target);
      Distribute(qs[0], SumNat(qs[1..]), total);
      Distribute(sizes[0], SumNat(sizes[1..]), target);
      Distribute(if sizes[0] > 0 then 1 else 0, Positives(sizes[1..]), total - 1);
    }
  }

  /** Chromosomes of 3, 0 and 7 rows with 5 requested give quotas 2, 0 and 4. */
  lemma ProportionalQuotas()
    ensures Quotas([3, 0, 7], 10, 5) == [2, 0, 4]
  {
    assert CeilDiv(15, 10) == 2;
    assert CeilDiv(35, 10) == 4;
  }
}
