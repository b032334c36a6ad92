/**
 The somatic-site extractor.

 `load_somatics` reads every classified site of a JointSNVMix output file,
 chromosome by chromosome in sorted name order (Y and MT skipped), scores
 it with P(normal aa, tumour ab) + P(normal aa, tumour bb), and keeps the
 best-scoring sites in a bounded reservoir: two parallel lists, `scores`
 ascending and `rows` holding the formatted row of each score. After the
 scan the rows below the largest gap between consecutive scores are cut
 away, and `main` writes what is left in descending score order.
 */
module Somatics {
  import opened Seqs
  import opened Chromosomes

  /** A field value of a row: a number or a string. */
  datatype Value = Num(x: real) | Text(s: string)

  /** A row as a dict from field name to value. */
  type Record = map<string, Value>

  /** `excluded_chrom`. */
  const ExcludedChroms: seq<string> := ["Y", "MT"]

  /** The reservoir bound `n` and the score `threshold` of `load_somatics`. */
  datatype Params = Params(capacity: nat, threshold: real)

  const Defaults: Params := Params(100000, 0.000001)

  /* ---------------- output columns ---------------- */

  /** The fixed leading columns of `fields`. */
  const BaseFields: seq<string> := [
    "chrom", "position", "ref_base", "normal_base", "tumour_base",
    "normal_counts_a", "normal_counts_b", "tumour_counts_a", "tumour_counts_b",
    "somatic_prob"]

  const Genotypes: seq<string> := ["aa", "ab", "bb"]

  /** `"_".join(('p', g_1, g_2))`. */
  function ProbField(g1: string, g2: string): string
  {
    "p_" + g1 + "_" + g2
  }

  /** The inner loop over `g_2` for one `g_1`. */
  function InnerFields(g1: string, inner: seq<string>): seq<string>
  {
    if |inner| == 0 then [] else [ProbField(g1, inner[0])] + InnerFields(g1, inner[1..])
  }

  /** The outer loop over `g_1`. */
  function PairFields(outer: seq<string>, inner: seq<string>): seq<string>
  {
    if |outer| == 0 then [] else InnerFields(outer[0], inner) + PairFields(outer[1..], inner)
  }

  /** `fields` after the module-level loops. */
  function Fields(): seq<string>
  {
    BaseFields + PairFields(Genotypes, Genotypes)
  }

  /**
   The header: 19 distinct names; column 10 + 3*i + j is normal genotype i
   with tumour genotype j, the same order as the joint classes (normal
   outer), so `p_aa_ab` and `p_aa_bb` are joint classes 1 and 2.
   */
  lemma FieldsLayout()
    ensures |Fields()| == 19 && Distinct(Fields())
    ensures forall i, j :: 0 <= i < 3 && 0 <= j < 3 ==>
      Fields()[|BaseFields| + 3 * i + j] == ProbField(Genotypes[i], Genotypes[j])
    ensures Fields()[|BaseFields| + 1] == "p_aa_ab" && Fields()[|BaseFields| + 2] == "p_aa_bb"
  {
    FieldNames();
    BaseFieldsDistinct();
    ProbNamesDistinct();
    NamesDisjoint();
    DistinctConcat(BaseFields, ProbNames);
    ProbNamesLayout();
  }

  /** The leading columns have no `p_` prefix: no base name is a probability column. */
  lemma NamesDisjoint()
    ensures forall a, b :: 0 <= a < |BaseFields| && 0 <= b < |ProbNames| ==> BaseFields[a] != ProbNames[b]
  {
    forall a, b | 0 <= a < |BaseFields| && 0 <= b < |ProbNames|
      ensures BaseFields[a] != ProbNames[b]
    {
      assert BaseFields[a][1] != ProbNames[b][1];
    }
  }

  lemma ProbNamesLayout()
    ensures forall i, j :: 0 <= i < 3 && 0 <= j < 3 ==> ProbNames[3 * i + j] == ProbField(Genotypes[i], Genotypes[j])
  {
    forall i, j | 0 <= i < 3 && 0 <= j < 3
      ensures ProbNames[3 * i + j] == ProbField(Genotypes[i], Genotypes[j])
    {
      assert ProbField(Genotypes[i], Genotypes[j]) == ['p', '_'] + Genotypes[i] + ['_'] + Genotypes[j];
    }
  }

  /** The names the two loops produce, written out. */
  const ProbNames: seq<string> := [
    "p_aa_aa", "p_aa_ab", "p_aa_bb",
    "p_ab_aa", "p_ab_ab", "p_ab_bb",
    "p_bb_aa", "p_bb_ab", "p_bb_bb"]

  lemma BaseFieldsDistinct()
    ensures Distinct(BaseFields)
  {
    var f := BaseFields;
    forall a, b | 0 <= a < b < |f|
      ensures f[a] != f[b]
    {
      assert |f[a]| != |f[b]| || f[a][0] != f[b][0] || f[a][|f[a]| - 1] != f[b][|f[b]| - 1];
    }
  }

  lemma ProbNamesDistinct()
    ensures Distinct(ProbNames)
  {
    var f := ProbNames;
    forall a, b | 0 <= a < b < |f|
      ensures f[a] != f[b]
    {
      assert f[a][2] != f[b][2] || f[a][3] != f[b][3] || f[a][5] != f[b][5] || f[a][6] != f[b][6];
    }
  }

  lemma FieldNames()
    ensures Fields() == BaseFields + ProbNames
  {
    var g := Genotypes;
    assert g[1..] == ["ab", "bb"] && g[1..][1..] == ["bb"] && g[1..][1..][1..] == [];
    forall x | x in g
      ensures InnerFields(x, g) == [ProbField(x, "aa"), ProbField(x, "ab"), ProbField(x, "bb")]
    {
      assert InnerFields(x, g[1..][1..]) == [ProbField(x, "bb")];
    }
    assert PairFields(g[1..][1..], g) == InnerFields("bb", g);
    assert PairFields(g, g) == InnerFields("aa", g) + InnerFields("ab", g) + InnerFields("bb", g);
    assert ProbField("aa", "aa") == "p_aa_aa";
    assert ProbField("aa", "ab") == "p_aa_ab";
    assert ProbField("aa", "bb") == "p_aa_bb";
    assert ProbField("ab", "aa") == "p_ab_aa";
    assert ProbField("ab", "ab") == "p_ab_ab";
    assert ProbField("ab", "bb") == "p_ab_bb";
    assert ProbField("bb", "aa") == "p_bb_aa";
    assert ProbField("bb", "ab") == "p_bb_ab";
    assert ProbField("bb", "bb") == "p_bb_bb";
  }

  /* ---------------- scores and formatted rows ---------------- */

  /** The two joint probabilities the score reads are present and numeric. */
  predicate Scorable(row: Record)
  {
    && "p_aa_ab" in row && row["p_aa_ab"].Num?
    && "p_aa_bb" in row && row["p_aa_bb"].Num?
  }

  /**
   `row['p_aa_ab'] + row['p_aa_bb']`: the posterior mass on a homozygous
   reference normal with a variant tumour. With non-negative columns it is
   non-negative and at least each of them.
   */
  function Score(row: Record): (s: real)
    requires Scorable(row)
    ensures 0.0 <= row["p_aa_ab"].x && 0.0 <= row["p_aa_bb"].x ==>
      0.0 <= s && row["p_aa_ab"].x <= s && row["p_aa_bb"].x <= s
  {
    row["p_aa_ab"].x + row["p_aa_bb"].x
  }

  /** A formatted row carries its score as a number under `somatic_prob`. */
  predicate HasProb(row: Record)
  {
    "somatic_prob" in row && row["somatic_prob"].Num?
  }

  function Prob(row: Record): real
    requires HasProb(row)
  {
    row["somatic_prob"].x
  }

  /**
   `format_rows`: the row with `somatic_prob` set to its score and `chrom`
   set to the chromosome name; every other field unchanged.
   */
  function FormatRow(row: Record, chrom: string): (r: Record)
    requires Scorable(row)
    ensures r.Keys == row.Keys + {"somatic_prob", "chrom"}
    ensures r["chrom"] == Text(chrom)
    ensures HasProb(r) && Prob(r) == Score(row)
    ensures forall k :: k in row && k != "somatic_prob" && k != "chrom" ==> r[k] == row[k]
    ensures Scorable(r) && Score(r) == Prob(r)
  {
    row["somatic_prob" := Num(Score(row))]["chrom" := Text(chrom)]
  }

  /** Formatting again with the same chromosome changes nothing. */
  lemma FormatRowIdempotent(row: Record, chrom: string)
    requires Scorable(row)
    ensures FormatRow(FormatRow(row, chrom), chrom) == FormatRow(row, chrom)
  {
    var once := FormatRow(row, chrom);
    var twice := FormatRow(once, chrom);
    assert forall k :: k in twice <==> k in once;
    assert forall k :: k in twice ==> twice[k] == once[k];
  }

  /* ---------------- the reservoir ---------------- */

  predicate Ascending(s: seq<real>)
  {
    forall i, j :: 0 <= i < j < |s| ==> s[i] <= s[j]
  }

  /** The parallel lists `scores` and `rows`. */
  datatype Reservoir = Reservoir(scores: seq<real>, rows: seq<Record>)
  {
    /** `rows[k]` is the formatted row whose score is `scores[k]`. */
    predicate Aligned()
    {
      && |scores| == |rows|
      && forall k :: 0 <= k < |rows| ==> HasProb(rows[k]) && Prob(rows[k]) == scores[k]
    }

    /** Aligned, ascending, within the bound, and every score above the threshold. */
    ghost predicate Valid(p: Params)
    {
      && Aligned()
      && Ascending(scores)
      && |scores| <= p.capacity
      && forall k :: 0 <= k < |scores| ==> p.threshold < scores[k]
    }
  }

  /** `bisect.bisect(a, x, lo, hi)` (bisect_right) on an ascending list, as the library's loop runs it. */
  function BisectRight(a: seq<real>, x: real, lo: nat, hi: nat): (i: nat)
    requires Ascending(a) && lo <= hi <= |a|
    requires forall k :: 0 <= k < lo ==> a[k] <= x
    requires forall k :: hi <= k < |a| ==> x < a[k]
    ensures lo <= i <= hi
    ensures forall k :: 0 <= k < i ==> a[k] <= x
    ensures forall k :: i <= k < |a| ==> x < a[k]
    decreases hi - lo
  {
    if lo >= hi then lo
    else
      var mid := (lo + hi) / 2;
      if x < a[mid] then BisectRight(a, x, lo, mid) else BisectRight(a, x, mid + 1, hi)
  }

  /** `bisect.bisect(a, x)`: the position after every element <= x. */
  function Bisect(a: seq<real>, x: real): (i: nat)
    requires Ascending(a)
    ensures i <= |a|
    ensures forall k :: 0 <= k < i ==> a[k] <= x
    ensures forall k :: i <= k < |a| ==> x < a[k]
  {
    BisectRight(a, x, 0, |a|)
  }

  /**
   `insert_position > 0 or len(scores) == 0`: a score is turned away exactly
   when it is strictly below a non-empty reservoir's minimum; a tie with the
   minimum is taken, bisect_right placing it after the equal scores.
   */
  function Accepts(scores: seq<real>, s: real): (b: bool)
    requires Ascending(scores)
    ensures b <==> |scores| == 0 || scores[0] <= s
  {
    Bisect(scores, s) > 0 || |scores| == 0
  }

  /**
   The first entry once an accepted `x` is in: the old first entry, or `x`
   in an empty reservoir. For scores this is the smallest score; for rows
   it is the row paired with it.
   */
  function MinAfter<T>(s: seq<T>, x: T): T
  {
    if |s| == 0 then x else s[0]
  }

  /**
   `scores.insert(pos, score)` and `rows.insert(pos, row)` at the bisect
   position: both lists stay aligned, the scores stay ascending and gain
   exactly `s`, and the new first score is the smallest of old and new.
   */
  function Insert(res: Reservoir, s: real, row: Record): (ins: Reservoir)
    requires res.Aligned() && Ascending(res.scores)
    requires HasProb(row) && Prob(row) == s
    ensures ins.Aligned() && Ascending(ins.scores)
    ensures |ins.scores| == |res.scores| + 1
    ensures multiset(ins.scores) == multiset(res.scores) + multiset{s}
    ensures Accepts(res.scores, s) ==> ins.scores[0] == MinAfter(res.scores, s)
    ensures multiset(ins.rows) == multiset(res.rows) + multiset{row}
    ensures Accepts(res.scores, s) ==> ins.rows[0] == MinAfter(res.rows, row)
    ensures forall k :: 0 <= k < |ins.rows| ==> ins.rows[k] in res.rows || ins.rows[k] == row
    ensures forall k :: 0 <= k < |ins.scores| ==> ins.scores[k] == s || ins.scores[k] in res.scores
    ensures PlacedAt(res.scores, s, Bisect(res.scores, s), ins.scores)
    ensures PlacedAt(res.rows, row, Bisect(res.scores, s), ins.rows)
  {
    var pos := Bisect(res.scores, s);
    var ins := Reservoir(res.scores[..pos] + [s] + res.scores[pos..], res.rows[..pos] + [row] + res.rows[pos..]);
    InsertFacts(res, s, row, pos, ins);
    ins
  }

  lemma InsertFacts(res: Reservoir, s: real, row: Record, pos: nat, ins: Reservoir)
    requires res.Aligned() && Ascending(res.scores)
    requires HasProb(row) && Prob(row) == s
    requires pos == Bisect(res.scores, s)
    requires ins == Reservoir(res.scores[..pos] + [s] + res.scores[pos..], res.rows[..pos] + [row] + res.rows[pos..])
    ensures ins.Aligned() && Ascending(ins.scores)
    ensures multiset(ins.scores) == multiset(res.scores) + multiset{s}
    ensures Accepts(res.scores, s) ==> ins.scores[0] == MinAfter(res.scores, s)
    ensures multiset(ins.rows) == multiset(res.rows) + multiset{row}
    ensures Accepts(res.scores, s) ==> ins.rows[0] == MinAfter(res.rows, row)
    ensures forall k :: 0 <= k < |ins.rows| ==> ins.rows[k] in res.rows || ins.rows[k] == row
    ensures forall k :: 0 <= k < |ins.scores| ==> ins.scores[k] == s || ins.scores[k] in res.scores
    ensures PlacedAt(res.scores, s, pos, ins.scores) && PlacedAt(res.rows, row, pos, ins.rows)
  {
    InsertScores(res.scores, s, pos);
    InsertRows(res, s, row, pos, ins);
    InsertPlaced(res.scores, s, pos);
    InsertPlaced(res.rows, row, pos);
    if Accepts(res.scores, s) && |res.rows| > 0 {
      assert pos > 0;
      assert ins.rows[0] == res.rows[0];
    }
  }

  lemma InsertScores(scores: seq<real>, s: real, pos: nat)
    requires Ascending(scores)
    requires pos == Bisect(scores, s)
    ensures var r := scores[..pos] + [s] + scores[pos..];
      && Ascending(r)
      && multiset(r) == multiset(scores) + multiset{s}
      && (Accepts(scores, s) ==> r[0] == MinAfter(scores, s))
      && forall k :: 0 <= k < |r| ==> r[k] == s || r[k] in scores
  {
    var r := scores[..pos] + [s] + scores[pos..];
    InsertMultiset(scores, s, pos);
    forall i, j | 0 <= i < j < |r|
      ensures r[i] <= r[j]
    {
      InsertIndex(scores, s, pos, i);
      InsertIndex(scores, s, pos, j);
    }
    forall k | 0 <= k < |r|
      ensures r[k] == s || r[k] in scores
    {
      InsertIndex(scores, s, pos, k);
    }
    if |scores| > 0 && Accepts(scores, s) {
      InsertIndex(scores, s, pos, 0);
    }
  }

  /** Putting `s` in at any position adds exactly one `s` to the multiset. */
  lemma InsertMultiset<T>(xs: seq<T>, x: T, pos: nat)
    requires pos <= |xs|
    ensures multiset(xs[..pos] + [x] + xs[pos..]) == multiset(xs) + multiset{x}
  {
    assert xs == xs[..pos] + xs[pos..];
  }

  lemma InsertIndex(scores: seq<real>, s: real, pos: nat, k: nat)
    requires pos <= |scores| && k <= |scores|
    ensures var r := scores[..pos] + [s] + scores[pos..];
      r[k] == if k < pos then scores[k] else if k == pos then s else scores[k - 1]
  {
  }

  lemma InsertRows(res: Reservoir, s: real, row: Record, pos: nat, ins: Reservoir)
    requires res.Aligned()
    requires HasProb(row) && Prob(row) == s
    requires pos <= |res.rows|
    requires ins == Reservoir(res.scores[..pos] + [s] + res.scores[pos..], res.rows[..pos] + [row] + res.rows[pos..])
    ensures ins.Aligned()
    ensures multiset(ins.rows) == multiset(res.rows) + multiset{row}
    ensures forall k :: 0 <= k < |ins.rows| ==> ins.rows[k] in res.rows || ins.rows[k] == row
  {
    InsertMultiset(res.rows, row, pos);
    forall k | 0 <= k < |ins.rows|
      ensures HasProb(ins.rows[k]) && Prob(ins.rows[k]) == ins.scores[k]
      ensures ins.rows[k] in res.rows || ins.rows[k] == row
    {
      if k < pos {
        assert ins.rows[k] == res.rows[k] && ins.scores[k] == res.scores[k];
      } else if k > pos {
        assert ins.rows[k] == res.rows[k - 1] && ins.scores[k] == res.scores[k - 1];
      }
    }
  }

  /** `scores.pop(0)` and `rows.pop(0)`. */
  function PopMin(res: Reservoir): (r: Reservoir)
    requires res.Aligned() && |res.scores| > 0
    ensures r.Aligned()
    ensures r.scores == res.scores[1..]
    ensures r.rows == res.rows[1..]
    ensures multiset(r.scores) + multiset{res.scores[0]} == multiset(res.scores)
    ensures multiset(r.rows) + multiset{res.rows[0]} == multiset(res.rows)
    ensures forall k :: 0 <= k < |r.rows| ==> r.rows[k] in res.rows
  {
    MultisetTail(res.scores);
    MultisetTail(res.rows);
    assert forall k :: 0 <= k < |res.rows| - 1 ==> res.rows[1..][k] == res.rows[k + 1];
    Reservoir(res.scores[1..], res.rows[1..])
  }

  /** The item the scan offers: a row and the chromosome it came from. */
  datatype Item = Item(chrom: string, row: Record)

  /**
   One iteration of the inner loop of `load_somatics`: an accepted row is
   formatted and inserted at its bisect position in both lists; then, if the
   smallest score is <= threshold or the lists are over the bound, the first
   entry of both is popped. The reservoir stays valid; a row turned away
   changes nothing; otherwise the new score is added and, exactly when one
   of the two conditions holds, the smallest score is removed again.
   */
  function Offer(p: Params, res: Reservoir, item: Item): (r: Reservoir)
    requires res.Valid(p) && Scorable(item.row)
    ensures r.Valid(p)
    ensures !Accepts(res.scores, Score(item.row)) ==> r == res
    ensures Accepts(res.scores, Score(item.row)) && |r.scores| == |res.scores| + 1 ==>
      && multiset(r.scores) == multiset(res.scores) + multiset{Score(item.row)}
      && multiset(r.rows) == multiset(res.rows) + multiset{FormatRow(item.row, item.chrom)}
      && !(MinAfter(res.scores, Score(item.row)) <= p.threshold || |res.scores| + 1 > p.capacity)
    ensures Accepts(res.scores, Score(item.row)) && |r.scores| != |res.scores| + 1 ==>
      && |r.scores| == |res.scores|
      && (MinAfter(res.scores, Score(item.row)) <= p.threshold || |res.scores| + 1 > p.capacity)
      && multiset(r.scores) + multiset{MinAfter(res.scores, Score(item.row))} == multiset(res.scores) + multiset{Score(item.row)}
      && multiset(r.rows) + multiset{MinAfter(res.rows, FormatRow(item.row, item.chrom))}
           == multiset(res.rows) + multiset{FormatRow(item.row, item.chrom)}
    ensures forall k :: 0 <= k < |r.rows| ==> r.rows[k] in res.rows || r.rows[k] == FormatRow(item.row, item.chrom)
    ensures Accepts(res.scores, Score(item.row)) && |r.scores| == |res.scores| + 1 ==>
      && PlacedAt(res.scores, Score(item.row), Bisect(res.scores, Score(item.row)), r.scores)
      && PlacedAt(res.rows, FormatRow(item.row, item.chrom), Bisect(res.scores, Score(item.row)), r.rows)
    ensures Accepts(res.scores, Score(item.row)) && |r.scores| != |res.scores| + 1 ==>
      && PlacedAt(res.scores, Score(item.row), Bisect(res.scores, Score(item.row)),
           [MinAfter(res.scores, Score(item.row))] + r.scores)
      && PlacedAt(res.rows, FormatRow(item.row, item.chrom), Bisect(res.scores, Score(item.row)),
           [MinAfter(res.rows, FormatRow(item.row, item.chrom))] + r.rows)
  {
    var s := Score(item.row);
    if Accepts(res.scores, s) then
      var row := FormatRow(item.row, item.chrom);
      var ins := Insert(res, s, row);
      if ins.scores[0] <= p.threshold || |ins.scores| > p.capacity then
        EvictFacts(p, res, s, row, ins);
        EvictRows(res, s, row, ins);
        PopMin(ins)
      else
        KeepFacts(p, res, s, row, ins);
        ins
    else
      res
  }

  /** The accepted row stays: the reservoir is valid with one more score. */
  lemma KeepFacts(p: Params, res: Reservoir, s: real, row: Record, ins: Reservoir)
    requires res.Valid(p) && HasProb(row) && Prob(row) == s
    requires Accepts(res.scores, s) && ins == Insert(res, s, row)
    requires !(ins.scores[0] <= p.threshold || |ins.scores| > p.capacity)
    ensures ins.Valid(p)
    ensures !(MinAfter(res.scores, s) <= p.threshold || |res.scores| + 1 > p.capacity)
  {
    AboveThreshold(p, res, s, ins);
  }

  /** The smallest entry is popped again: the reservoir is valid and keeps its size. */
  lemma EvictFacts(p: Params, res: Reservoir, s: real, row: Record, ins: Reservoir)
    requires res.Valid(p) && HasProb(row) && Prob(row) == s
    requires Accepts(res.scores, s) && ins == Insert(res, s, row)
    requires ins.scores[0] <= p.threshold || |ins.scores| > p.capacity
    ensures var r := PopMin(ins);
      && r.Valid(p)
      && |r.scores| == |res.scores|
      && (MinAfter(res.scores, s) <= p.threshold || |res.scores| + 1 > p.capacity)
      && multiset(r.scores) + multiset{MinAfter(res.scores, s)} == multiset(res.scores) + multiset{s}
  {
    AboveThreshold(p, res, s, ins);
  }

  /** The rows after an eviction: the insertion with the row paired with the smallest score popped. */
  lemma EvictRows(res: Reservoir, s: real, row: Record, ins: Reservoir)
    requires res.Aligned() && Ascending(res.scores) && HasProb(row) && Prob(row) == s
    requires Accepts(res.scores, s) && ins == Insert(res, s, row)
    ensures var r := PopMin(ins);
      && multiset(r.rows) + multiset{MinAfter(res.rows, row)} == multiset(res.rows) + multiset{row}
      && (forall k :: 0 <= k < |r.rows| ==> r.rows[k] in res.rows || r.rows[k] == row)
      && PlacedAt(res.scores, s, Bisect(res.scores, s), [MinAfter(res.scores, s)] + r.scores)
      && PlacedAt(res.rows, row, Bisect(res.scores, s), [MinAfter(res.rows, row)] + r.rows)
  {
    PopMinRows(res, row, ins);
    PopMinPlaced(res, s, row, ins);
  }

  /** Putting the popped first entry back in front gives the insertion again. */
  lemma PopMinPlaced(res: Reservoir, s: real, row: Record, ins: Reservoir)
    requires res.Aligned() && Ascending(res.scores) && HasProb(row) && Prob(row) == s
    requires Accepts(res.scores, s) && ins == Insert(res, s, row)
    ensures PlacedAt(res.scores, s, Bisect(res.scores, s), [MinAfter(res.scores, s)] + PopMin(ins).scores)
    ensures PlacedAt(res.rows, row, Bisect(res.scores, s), [MinAfter(res.rows, row)] + PopMin(ins).rows)
  {
    PlacedAtHead(res.scores, s, Bisect(res.scores, s), ins.scores);
    PlacedAtHead(res.rows, row, Bisect(res.scores, s), ins.rows);
  }

  lemma PopMinRows(res: Reservoir, row: Record, ins: Reservoir)
    requires ins.Aligned() && |ins.scores| > 0
    requires forall k :: 0 <= k < |ins.rows| ==> ins.rows[k] in res.rows || ins.rows[k] == row
    ensures forall k :: 0 <= k < |PopMin(ins).rows| ==> PopMin(ins).rows[k] in res.rows || PopMin(ins).rows[k] == row
  {
    var r := PopMin(ins);
    forall k | 0 <= k < |r.rows|
      ensures r.rows[k] in res.rows || r.rows[k] == row
    {
      var m :| 0 <= m < |ins.rows| && ins.rows[m] == r.rows[k];
    }
  }

  /** After an accepted insertion every score but the first is above the threshold, and the first too unless the reservoir was empty. */
  lemma AboveThreshold(p: Params, res: Reservoir, s: real, ins: Reservoir)
    requires res.Valid(p)
    requires Accepts(res.scores, s)
    requires Ascending(ins.scores) && |ins.scores| == |res.scores| + 1
    requires ins.scores[0] == MinAfter(res.scores, s)
    requires forall k :: 0 <= k < |ins.scores| ==> ins.scores[k] == s || ins.scores[k] in res.scores
    ensures forall k :: 1 <= k < |ins.scores| ==> p.threshold < ins.scores[k]
    ensures |res.scores| > 0 ==> p.threshold < ins.scores[0]
  {
    forall k | 0 <= k < |ins.scores| && (k >= 1 || |res.scores| > 0)
      ensures p.threshold < ins.scores[k]
    {
      if ins.scores[k] == s {
        assert |res.scores| > 0 && res.scores[0] <= s;
      } else {
        var m :| 0 <= m < |res.scores| && res.scores[m] == ins.scores[k];
      }
    }
  }

  /** The rows the reservoir may hold after the scan of `items`: their formatted versions. */
  ghost function Formatted(items: seq<Item>): set<Record>
  {
    set t | 0 <= t < |items| && Scorable(items[t].row) :: FormatRow(items[t].row, items[t].chrom)
  }

  predicate AllScorable(items: seq<Item>)
  {
    forall k :: 0 <= k < |items| ==> Scorable(items[k].row)
  }

  /** The reservoir after offering `items` in order, starting empty. */
  function Run(p: Params, items: seq<Item>): (r: Reservoir)
    requires AllScorable(items)
    ensures r.Valid(p)
    ensures forall k :: 0 <= k < |r.rows| ==> r.rows[k] in Formatted(items)
    decreases |items|
  {
    if |items| == 0 then Reservoir([], [])
    else
      var pre := items[..|items| - 1];
      var last := items[|items| - 1];
      var before := Run(p, pre);
      var r := Offer(p, before, last);
      FormattedStep(items, before.rows, r.rows);
      r
  }

  /** Rows kept from before the last item, or the last item formatted, are formatted items. */
  lemma FormattedStep(items: seq<Item>, before: seq<Record>, after: seq<Record>)
    requires |items| > 0 && AllScorable(items)
    requires forall k :: 0 <= k < |before| ==> before[k] in Formatted(items[..|items| - 1])
    requires forall k :: 0 <= k < |after| ==>
      after[k] in before || after[k] == FormatRow(items[|items| - 1].row, items[|items| - 1].chrom)
    ensures forall k :: 0 <= k < |after| ==> after[k] in Formatted(items)
  {
    var pre := items[..|items| - 1];
    forall k | 0 <= k < |after|
      ensures after[k] in Formatted(items)
    {
      if after[k] in before {
        var m :| 0 <= m < |before| && before[m] == after[k];
        var t :| 0 <= t < |pre| && Scorable(pre[t].row) && after[k] == FormatRow(pre[t].row, pre[t].chrom);
        assert items[t] == pre[t];
      } else {
        var t := |items| - 1;
        assert after[k] == FormatRow(items[t].row, items[t].chrom);
      }
    }
  }

  /** Scanning one more item is one more offer. */
  lemma RunSnoc(p: Params, items: seq<Item>, item: Item)
    requires AllScorable(items) && Scorable(item.row)
    ensures AllScorable(items + [item])
    ensures Run(p, items + [item]) == Offer(p, Run(p, items), item)
  {
    assert (items + [item])[..|items|] == items;
  }

  /**
   Bound 2, threshold 0: scores 5, 1, 9, 2, 7 leave [7, 9]. 1 and 2 fall
   below the minimum 5 and are turned away; 7 fills the reservoir past its
   bound and the minimum 5 is evicted.
   */
  lemma SmallScan(r5: Item, r1: Item, r9: Item, r2: Item, r7: Item)
    requires Scorable(r5.row) && Score(r5.row) == 5.0
    requires Scorable(r1.row) && Score(r1.row) == 1.0
    requires Scorable(r9.row) && Score(r9.row) == 9.0
    requires Scorable(r2.row) && Score(r2.row) == 2.0
    requires Scorable(r7.row) && Score(r7.row) == 7.0
    ensures Run(Params(2, 0.0), [r5, r1, r9, r2, r7]).scores == [7.0, 9.0]
  {
    var p := Params(2, 0.0);
    var s3 := [r5, r1, r9];
    var s4 := s3 + [r2];
    var s5 := s4 + [r7];
    assert s5 == [r5, r1, r9, r2, r7];
    SmallScanPrefix(2, r5, r1, r9);
    RunSnoc(p, s3, r2);
    RunSnoc(p, s4, r7);
    SmallScanSuffix(Run(p, s3), r2, r7);
  }

  /**
   Ties go after the rows already held (bisect_right): a row scoring the same
   as the largest held score, offered with room to spare, joins at the end.
   */
  lemma {:induction false} TieJoinsLast(p: Params, res: Reservoir, item: Item)
    requires res.Valid(p) && Scorable(item.row)
    requires |res.scores| > 0 && Score(item.row) == res.scores[|res.scores| - 1]
    requires |res.scores| < p.capacity
    ensures Offer(p, res, item).rows == res.rows + [FormatRow(item.row, item.chrom)]
  {
    var s, row := Score(item.row), FormatRow(item.row, item.chrom);
    var n := |res.scores|;
    assert Bisect(res.scores, s) == n;
    assert res.scores[0] <= s;
    var r := Offer(p, res, item);
    assert |r.scores| == n + 1;
    assert PlacedAt(res.rows, row, n, r.rows);
    assert r.rows == res.rows + [row];
  }

  /** With room for three the same scores leave [5, 7, 9]: 7 joins without an eviction. */
  lemma RoomyScan(r5: Item, r1: Item, r9: Item, r2: Item, r7: Item)
    requires Scorable(r5.row) && Score(r5.row) == 5.0
    requires Scorable(r1.row) && Score(r1.row) == 1.0
    requires Scorable(r9.row) && Score(r9.row) == 9.0
    requires Scorable(r2.row) && Score(r2.row) == 2.0
    requires Scorable(r7.row) && Score(r7.row) == 7.0
    ensures Run(Params(3, 0.0), [r5, r1, r9, r2, r7]).scores == [5.0, 7.0, 9.0]
  {
    var p := Params(3, 0.0);
    var s3 := [r5, r1, r9];
    var s4 := s3 + [r2];
    var s5 := s4 + [r7];
    assert s5 == [r5, r1, r9, r2, r7];
    SmallScanPrefix(3, r5, r1, r9);
    RunSnoc(p, s3, r2);
    assert !Accepts(Run(p, s3).scores, 2.0);
    RunSnoc(p, s4, r7);
    SevenJoins(Run(p, s4), r7);
  }

  lemma SevenJoins(d: Reservoir, r7: Item)
    requires d.Valid(Params(3, 0.0)) && d.scores == [5.0, 9.0]
    requires Scorable(r7.row) && Score(r7.row) == 7.0
    ensures Offer(Params(3, 0.0), d, r7).scores == [5.0, 7.0, 9.0]
  {
    OfferKeeps(Params(3, 0.0), d, r7);
    SevenSlotsIn(Offer(Params(3, 0.0), d, r7).scores, d.scores);
  }

  lemma SevenSlotsIn(e: seq<real>, d: seq<real>)
    requires d == [5.0, 9.0] && Ascending(e) && multiset(e) == multiset(d) + multiset{7.0}
    ensures e == [5.0, 7.0, 9.0]
  {
    assert multiset(d) == multiset{5.0, 9.0};
    ThreeSorted(e, 5.0, 7.0, 9.0);
  }

  /** A score at or above the minimum, with room left and the minimum above the threshold, is only added. */
  lemma OfferKeeps(p: Params, res: Reservoir, item: Item)
    requires res.Valid(p) && Scorable(item.row)
    requires |res.scores| < p.capacity
    requires |res.scores| > 0 && res.scores[0] <= Score(item.row)
    ensures multiset(Offer(p, res, item).scores) == multiset(res.scores) + multiset{Score(item.row)}
  {
    assert Accepts(res.scores, Score(item.row));
    assert p.threshold < MinAfter(res.scores, Score(item.row));
  }

  /** An ascending list holding exactly x, y and z, x < y < z, is [x, y, z]. */
  lemma ThreeSorted(s: seq<real>, x: real, y: real, z: real)
    requires x < y < z && Ascending(s) && multiset(s) == multiset{x, y, z}
    ensures s == [x, y, z]
  {
    assert |s| == 3 by {
      assert |multiset(s)| == |s|;
    }
    assert s == [s[0], s[1], s[2]];
    assert multiset(s) == multiset{s[0], s[1], s[2]};
    assert s[0] in multiset(s) && s[1] in multiset(s) && s[2] in multiset(s);
    assert x in multiset(s) && y in multiset(s) && z in multiset(s);
  }

  /** The last two offers of `SmallScan`: 2 is turned away, 7 evicts the minimum 5. */
  lemma SmallScanSuffix(c: Reservoir, r2: Item, r7: Item)
    requires c.Valid(Params(2, 0.0)) && c.scores == [5.0, 9.0]
    requires Scorable(r2.row) && Score(r2.row) == 2.0
    requires Scorable(r7.row) && Score(r7.row) == 7.0
    ensures Offer(Params(2, 0.0), Offer(Params(2, 0.0), c, r2), r7).scores == [7.0, 9.0]
  {
    var p := Params(2, 0.0);
    assert !Accepts(c.scores, 2.0);
    SevenEvictsFive(Offer(p, c, r2), r7);
  }

  lemma SevenEvictsFive(d: Reservoir, r7: Item)
    requires d.Valid(Params(2, 0.0)) && d.scores == [5.0, 9.0]
    requires Scorable(r7.row) && Score(r7.row) == 7.0
    ensures Offer(Params(2, 0.0), d, r7).scores == [7.0, 9.0]
  {
    var e := Offer(Params(2, 0.0), d, r7);
    OfferFull(Params(2, 0.0), d, r7);
    SwapFiveForSeven(multiset(e.scores), d.scores);
    TwoSorted(e.scores, 7.0, 9.0);
  }

  lemma SwapFiveForSeven(m: multiset<real>, ds: seq<real>)
    requires ds == [5.0, 9.0] && m + multiset{ds[0]} == multiset(ds) + multiset{7.0}
    ensures m == multiset{7.0, 9.0}
  {
    assert multiset(ds) == multiset{5.0, 9.0};
    assert m + multiset{5.0} == multiset{7.0, 9.0} + multiset{5.0};
    MultisetCancel(m, multiset{7.0, 9.0}, 5.0);
  }

  /** Offering a score at or above the minimum of a full reservoir swaps the minimum out for it. */
  lemma OfferFull(p: Params, res: Reservoir, item: Item)
    requires res.Valid(p) && Scorable(item.row)
    requires |res.scores| == p.capacity > 0 && res.scores[0] <= Score(item.row)
    ensures multiset(Offer(p, res, item).scores) + multiset{res.scores[0]} == multiset(res.scores) + multiset{Score(item.row)}
  {
  }

  /** The first three offers of `SmallScan`: 5 is kept, 1 is turned away, 9 is kept. */
  lemma SmallScanPrefix(cap: nat, r5: Item, r1: Item, r9: Item)
    requires cap >= 2
    requires Scorable(r5.row) && Score(r5.row) == 5.0
    requires Scorable(r1.row) && Score(r1.row) == 1.0
    requires Scorable(r9.row) && Score(r9.row) == 9.0
    ensures AllScorable([r5, r1, r9])
    ensures Run(Params(cap, 0.0), [r5, r1, r9]).scores == [5.0, 9.0]
  {
    var p := Params(cap, 0.0);
    var s2 := [r5, r1];
    assert s2 + [r9] == [r5, r1, r9];
    OneRejected(cap, r5, r1);
    RunSnoc(p, s2, r9);
    NineJoins(cap, Run(p, s2), r9);
  }

  /** 5 is kept and 1, below it, is turned away. */
  lemma OneRejected(cap: nat, r5: Item, r1: Item)
    requires cap >= 1
    requires Scorable(r5.row) && Score(r5.row) == 5.0
    requires Scorable(r1.row) && Score(r1.row) == 1.0
    ensures AllScorable([r5, r1])
    ensures Run(Params(cap, 0.0), [r5, r1]).scores == [5.0]
  {
    FiveAlone(cap, r5);
    RunRejects(Params(cap, 0.0), [r5], r1);
    assert [r5] + [r1] == [r5, r1];
  }

  /** An item scored below the minimum so far leaves the run's reservoir as it was. */
  lemma RunRejects(p: Params, items: seq<Item>, item: Item)
    requires AllScorable(items) && Scorable(item.row)
    requires |Run(p, items).scores| > 0 && Score(item.row) < Run(p, items).scores[0]
    ensures AllScorable(items + [item])
    ensures Run(p, items + [item]) == Run(p, items)
  {
    RunSnoc(p, items, item);
    BelowMinimum(p, Run(p, items), item);
  }

  /** The first score offered is kept. */
  lemma FiveAlone(cap: nat, r5: Item)
    requires cap >= 1
    requires Scorable(r5.row) && Score(r5.row) == 5.0
    ensures AllScorable([r5])
    ensures Run(Params(cap, 0.0), [r5]).scores == [5.0]
  {
    RunSnoc(Params(cap, 0.0), [], r5);
    assert [] + [r5] == [r5];
    FiveFirst(cap, r5);
  }

  /** A score strictly below a non-empty reservoir's minimum leaves it as it was. */
  lemma BelowMinimum(p: Params, res: Reservoir, item: Item)
    requires res.Valid(p) && Scorable(item.row)
    requires |res.scores| > 0 && Score(item.row) < res.scores[0]
    ensures Offer(p, res, item) == res
  {
    assert !Accepts(res.scores, Score(item.row));
  }

  lemma FiveFirst(cap: nat, r5: Item)
    requires cap >= 1
    requires Scorable(r5.row) && Score(r5.row) == 5.0
    ensures Offer(Params(cap, 0.0), Reservoir([], []), r5).scores == [5.0]
  {
    var a := Offer(Params(cap, 0.0), Reservoir([], []), r5);
    assert multiset(a.scores) == multiset{5.0};
    assert 5.0 in multiset(a.scores);
  }

  lemma NineJoins(cap: nat, b: Reservoir, r9: Item)
    requires cap >= 2
    requires b.Valid(Params(cap, 0.0)) && b.scores == [5.0]
    requires Scorable(r9.row) && Score(r9.row) == 9.0
    ensures Offer(Params(cap, 0.0), b, r9).scores == [5.0, 9.0]
  {
    var c := Offer(Params(cap, 0.0), b, r9);
    assert Accepts(b.scores, 9.0) && MinAfter(b.scores, 9.0) == 5.0;
    assert |c.scores| == 2;
    assert multiset(c.scores) == multiset{5.0} + multiset{9.0};
    TwoSorted(c.scores, 5.0, 9.0);
  }

  lemma MultisetCancel(a: multiset<real>, b: multiset<real>, x: real)
    requires a + multiset{x} == b + multiset{x}
    ensures a == b
  {
    assert a == (a + multiset{x}) - multiset{x};
    assert b == (b + multiset{x}) - multiset{x};
  }

  /** An ascending list holding exactly x and y, x < y, is [x, y]. */
  lemma TwoSorted(s: seq<real>, x: real, y: real)
    requires x < y && Ascending(s) && multiset(s) == multiset{x, y}
    ensures s == [x, y]
  {
    assert |s| == 2 by {
      assert |multiset(s)| == |s|;
    }
    assert s == [s[0], s[1]];
    assert s[0] in multiset(s) && s[1] in multiset(s);
  }

  /** A single score at or below the threshold is inserted into the empty reservoir and popped at once. */
  lemma TinyScoreDropped(row: Record)
    requires Scorable(row) && Score(row) <= Defaults.threshold
    ensures Offer(Defaults, Reservoir([], []), Item("1", row)) == Reservoir([], [])
  {
  }

  /* ---------------- the chromosomes scanned ---------------- */

  function ChromItems(c: string, rows: seq<Record>): (items: seq<Item>)
    ensures |items| == |rows|
    ensures forall k :: 0 <= k < |rows| ==> items[k] == Item(c, rows[k])
  {
    seq(|rows|, k requires 0 <= k < |rows| => Item(c, rows[k]))
  }

  /** The rows of the items from chromosome `c`, in order. */
  function RowsOf(items: seq<Item>, c: string): seq<Record>
  {
    if |items| == 0 then []
    else RowsOf(items[..|items| - 1], c) + (if items[|items| - 1].chrom == c then [items[|items| - 1].row] else [])
  }

  lemma {:induction false} RowsOfAppend(a: seq<Item>, b: seq<Item>, c: string)
    ensures RowsOf(a + b, c) == RowsOf(a, c) + RowsOf(b, c)
    decreases |b|
  {
    if |b| == 0 {
      assert a + b == a;
    } else {
      assert (a + b)[..|a + b| - 1] == a + b[..|b| - 1];
      RowsOfAppend(a, b[..|b| - 1], c);
    }
  }

  lemma {:induction false} RowsOfChrom(c: string, rows: seq<Record>, d: string)
    ensures RowsOf(ChromItems(c, rows), d) == if c == d then rows else []
    decreases |rows|
  {
    if |rows| > 0 {
      var pre := rows[..|rows| - 1];
      assert ChromItems(c, rows)[..|rows| - 1] == ChromItems(c, pre);
      RowsOfChrom(c, pre, d);
      if c == d {
        assert rows == pre + [rows[|rows| - 1]];
      }
    }
  }

  /**
   The items of the outer loop over `names`: chromosomes in list order,
   each one's rows in table order, Y and MT skipped.
   */
  function Items(tables: map<string, seq<Record>>, names: seq<string>): (items: seq<Item>)
    requires forall c :: c in names ==> c in tables
    ensures forall k :: 0 <= k < |items| ==>
      items[k].chrom in names && items[k].chrom !in ExcludedChroms && items[k].row in tables[items[k].chrom]
    ensures forall c :: c !in names ==> RowsOf(items, c) == []
    ensures Distinct(names) ==> forall c :: c in names ==>
      RowsOf(items, c) == if c in ExcludedChroms then [] else tables[c]
    ensures Sorted(names) ==> forall k, l :: 0 <= k < l < |items| ==> LessEq(items[k].chrom, items[l].chrom)
    decreases |names|
  {
    if |names| == 0 then []
    else
      var pre := names[..|names| - 1];
      var c := names[|names| - 1];
      var front := Items(tables, pre);
      var chunk := if c in ExcludedChroms then [] else ChromItems(c, tables[c]);
      JoinItemMembers(tables, names, front, chunk);
      JoinItemRows(tables, names, front, chunk);
      JoinItemOrder(names, front, chunk);
      front + chunk
  }

  lemma JoinItemMembers(tables: map<string, seq<Record>>, names: seq<string>, front: seq<Item>, chunk: seq<Item>)
    requires |names| > 0 && forall c :: c in names ==> c in tables
    requires var c := names[|names| - 1]; chunk == if c in ExcludedChroms then [] else ChromItems(c, tables[c])
    requires forall k :: 0 <= k < |front| ==>
      front[k].chrom in names[..|names| - 1] && front[k].chrom !in ExcludedChroms && front[k].row in tables[front[k].chrom]
    ensures forall k :: 0 <= k < |chunk| ==> chunk[k].chrom == names[|names| - 1]
    ensures forall k :: 0 <= k < |front| ==> front[k].chrom in names[..|names| - 1]
    ensures forall k :: 0 <= k < |front + chunk| ==>
      (front + chunk)[k].chrom in names && (front + chunk)[k].chrom !in ExcludedChroms
      && (front + chunk)[k].row in tables[(front + chunk)[k].chrom]
  {
    var last := names[|names| - 1];
    assert names == names[..|names| - 1] + [last];
    forall k | 0 <= k < |front + chunk|
      ensures (front + chunk)[k].chrom in names && (front + chunk)[k].chrom !in ExcludedChroms
      ensures (front + chunk)[k].row in tables[(front + chunk)[k].chrom]
    {
      if k < |front| {
        assert (front + chunk)[k] == front[k];
      } else {
        var m := k - |front|;
        assert (front + chunk)[k] == chunk[m] == Item(last, tables[last][m]);
      }
    }
  }

  lemma JoinItemRows(tables: map<string, seq<Record>>, names: seq<string>, front: seq<Item>, chunk: seq<Item>)
    requires |names| > 0 && forall c :: c in names ==> c in tables
    requires var c := names[|names| - 1]; chunk == if c in ExcludedChroms then [] else ChromItems(c, tables[c])
    requires forall c :: c !in names[..|names| - 1] ==> RowsOf(front, c) == []
    requires Distinct(names[..|names| - 1]) ==> forall c :: c in names[..|names| - 1] ==>
      RowsOf(front, c) == if c in ExcludedChroms then [] else tables[c]
    ensures forall c :: c !in names ==> RowsOf(front + chunk, c) == []
    ensures Distinct(names) ==> forall c :: c in names ==>
      RowsOf(front + chunk, c) == if c in ExcludedChroms then [] else tables[c]
  {
    forall c | c !in names
      ensures RowsOf(front + chunk, c) == []
    {
      JoinChromRows(tables, names, front, chunk, c);
    }
    if Distinct(names) {
      DistinctSplit(names);
      forall c | c in names
        ensures RowsOf(front + chunk, c) == if c in ExcludedChroms then [] else tables[c]
      {
        JoinChromRows(tables, names, front, chunk, c);
      }
    }
  }

  /** JoinItemRows for one chromosome `c`. */
  lemma JoinChromRows(tables: map<string, seq<Record>>, names: seq<string>, front: seq<Item>, chunk: seq<Item>, c: string)
    requires |names| > 0 && forall c :: c in names ==> c in tables
    requires var c := names[|names| - 1]; chunk == if c in ExcludedChroms then [] else ChromItems(c, tables[c])
    requires c !in names[..|names| - 1] ==> RowsOf(front, c) == []
    requires Distinct(names[..|names| - 1]) && c in names[..|names| - 1] ==>
      RowsOf(front, c) == if c in ExcludedChroms then [] else tables[c]
    ensures c !in names ==> RowsOf(front + chunk, c) == []
    ensures Distinct(names) && c in names ==>
      RowsOf(front + chunk, c) == if c in ExcludedChroms then [] else tables[c]
  {
    var pre := names[..|names| - 1];
    var last := names[|names| - 1];
    assert names == pre + [last];
    RowsOfAppend(front, chunk, c);
    ChunkRows(tables, last, chunk, c);
    if Distinct(names) {
      DistinctSplit(names);
    }
  }

  lemma DistinctSplit(names: seq<string>)
    requires |names| > 0 && Distinct(names)
    ensures Distinct(names[..|names| - 1]) && names[|names| - 1] !in names[..|names| - 1]
  {
  }

  lemma ChunkRows(tables: map<string, seq<Record>>, last: string, chunk: seq<Item>, c: string)
    requires last in tables
    requires chunk == if last in ExcludedChroms then [] else ChromItems(last, tables[last])
    ensures RowsOf(chunk, c) == if c == last && last !in ExcludedChroms then tables[last] else []
  {
    if last !in ExcludedChroms {
      RowsOfChrom(last, tables[last], c);
    }
  }

  lemma JoinItemOrder(names: seq<string>, front: seq<Item>, chunk: seq<Item>)
    requires |names| > 0
    requires forall k :: 0 <= k < |front| ==> front[k].chrom in names[..|names| - 1]
    requires forall k :: 0 <= k < |chunk| ==> chunk[k].chrom == names[|names| - 1]
    requires Sorted(names[..|names| - 1]) ==> forall k, l :: 0 <= k < l < |front| ==> LessEq(front[k].chrom, front[l].chrom)
    ensures Sorted(names) ==> forall k, l :: 0 <= k < l < |front + chunk| ==> LessEq((front + chunk)[k].chrom, (front + chunk)[l].chrom)
  {
    if Sorted(names) {
      var all := front + chunk;
      var pre := names[..|names| - 1];
      assert Sorted(pre);
      forall k, l | 0 <= k < l < |all|
        ensures LessEq(all[k].chrom, all[l].chrom)
      {
        if k < |front| && l >= |front| {
          var i :| 0 <= i < |pre| && pre[i] == all[k].chrom;
          assert names[i] == all[k].chrom;
        } else if k >= |front| {
          assert all[k] == chunk[k - |front|] && all[l] == chunk[l - |front|];
        } else {
          assert all[k] == front[k] && all[l] == front[l];
        }
      }
    }
  }

  /**
   Every row the scan reads carries the two probabilities the score reads;
   the skipped Y and MT tables are never read, so nothing is asked of them.
   */
  ghost predicate ScorableReader(reader: Reader<Record>)
  {
    forall c, k :: c in reader.tables && c !in ExcludedChroms && 0 <= k < |reader.tables[c]| ==> Scorable(reader.tables[c][k])
  }

  /**
   The rows `load_somatics` offers, in order: every chromosome but Y and MT,
   in sorted name order, each one's rows whole and in file order.
   */
  function Stream(reader: Reader<Record>): (items: seq<Item>)
    requires reader.Valid()
    ensures forall c :: c in reader.chrList ==>
      RowsOf(items, c) == if c in ExcludedChroms then [] else reader.tables[c]
    ensures forall c :: c !in reader.chrList ==> RowsOf(items, c) == []
    ensures forall k :: 0 <= k < |items| ==> items[k].chrom in reader.chrList && items[k].chrom !in ExcludedChroms
    ensures forall k, l :: 0 <= k < l < |items| ==> LessEq(items[k].chrom, items[l].chrom)
  {
    var names := SortNames(reader.chrList);
    assert forall c :: c in names <==> c in reader.chrList by {
      forall c
        ensures c in names <==> c in reader.chrList
      {
        assert c in names <==> c in multiset(names);
        assert c in reader.chrList <==> c in multiset(reader.chrList);
      }
    }
    SortNamesDistinct(reader.chrList);
    Items(reader.tables, names)
  }

  lemma StreamScorable(reader: Reader<Record>)
    requires reader.Valid() && ScorableReader(reader)
    ensures AllScorable(Stream(reader))
  {
    var items := Stream(reader);
    forall k | 0 <= k < |items|
      ensures Scorable(items[k].row)
    {
      var c := items[k].chrom;
      assert c in reader.tables;
      var m :| 0 <= m < |reader.tables[c]| && reader.tables[c][m] == items[k].row;
    }
  }

  /* ---------------- the largest-gap cutoff ---------------- */

  /** `scores[i + 1] - scores[i]`. */
  function Gap(s: seq<real>, k: nat): real
    requires k + 1 < |s|
  {
    s[k + 1] - s[k]
  }

  predicate NoPositiveGap(s: seq<real>)
  {
    forall k :: 0 <= k < |s| - 1 ==> Gap(s, k) <= 0.0
  }

  /**
   `i` is the index the cutoff loop ends with: the first index of a strictly
   largest positive gap, or 0 when no gap is positive.
   */
  ghost predicate IsLargestGap(s: seq<real>, i: nat)
  {
    if NoPositiveGap(s) then i == 0
    else
      && i < |s| - 1
      && 0.0 < Gap(s, i)
      && (forall k :: 0 <= k < |s| - 1 ==> Gap(s, k) <= Gap(s, i))
      && (forall k :: 0 <= k < i ==> Gap(s, k) < Gap(s, i))
  }

  /** `max_diff` for index `i`: the gap at i if it is positive, else the initial 0. */
  function BestGap(s: seq<real>, i: nat): real
  {
    if i + 1 < |s| && 0.0 < Gap(s, i) then Gap(s, i) else 0.0
  }

  /** The cutoff index, one loop iteration per extra score. */
  function GapIndex(s: seq<real>): (i: nat)
    ensures IsLargestGap(s, i)
    ensures |s| < 2 ==> i == 0
    decreases |s|
  {
    if |s| < 2 then 0
    else
      var pre := s[..|s| - 1];
      var j := GapIndex(pre);
      var n := |s| - 2;
      GapStep(s, j);
      if Gap(s, n) > BestGap(pre, j) then n else j
  }

  /** One more score: the loop's comparison keeps the index a first strictly largest positive gap. */
  lemma GapStep(s: seq<real>, j: nat)
    requires |s| >= 2
    requires IsLargestGap(s[..|s| - 1], j)
    ensures var n := |s| - 2;
      IsLargestGap(s, if Gap(s, n) > BestGap(s[..|s| - 1], j) then n else j)
  {
    var pre := s[..|s| - 1];
    var n := |s| - 2;
    assert forall k :: 0 <= k < |pre| - 1 ==> Gap(pre, k) == Gap(s, k);
    if NoPositiveGap(pre) {
      assert BestGap(pre, j) == 0.0;
    } else {
      assert BestGap(pre, j) == Gap(s, j);
    }
  }

  /** There is only one such index. */
  lemma LargestGapUnique(s: seq<real>, i: nat, j: nat)
    requires IsLargestGap(s, i) && IsLargestGap(s, j)
    ensures i == j
  {
  }

  /** Once cut at its largest gap, a list's largest gap is at 0, so cutting again keeps it whole. */
  lemma CutoffIdempotent(s: seq<real>)
    ensures GapIndex(s[GapIndex(s)..]) == 0
  {
    var i := GapIndex(s);
    var t := s[i..];
    if NoPositiveGap(s) {
      assert t == s;
    } else {
      forall k | 0 <= k < |t| - 1
        ensures Gap(t, k) <= Gap(t, 0)
      {
        assert Gap(t, k) == Gap(s, i + k);
      }
      assert Gap(t, 0) == Gap(s, i);
    }
    assert IsLargestGap(t, 0);
    LargestGapUnique(t, GapIndex(t), 0);
  }

  /** The cutoff loop of `load_somatics` as written. */
  method LargestGap(scores: seq<real>) returns (index: nat)
    ensures index == GapIndex(scores)
    ensures IsLargestGap(scores, index)
  {
    var maxDiff := 0.0;
    index := 0;
    if |scores| == 0 {
      return;
    }
    for i := 0 to |scores| - 1
      invariant index == GapIndex(scores[..i + 1])
      invariant maxDiff == BestGap(scores[..i + 1], index)
    {
      var diff := scores[i + 1] - scores[i];
      assert scores[..i + 2][..i + 1] == scores[..i + 1];
      if diff > maxDiff {
        maxDiff := diff;
        index := i;
      }
    }
    assert scores[..|scores|] == scores;
  }

  /* ---------------- load_somatics and main ---------------- */

  /** The inner loop of `load_somatics` over one chromosome's rows. */
  method ScanChromosome(p: Params, res: Reservoir, ghost done: seq<Item>, c: string, chrRows: seq<Record>) returns (r: Reservoir)
    requires AllScorable(done) && forall k :: 0 <= k < |chrRows| ==> Scorable(chrRows[k])
    requires res == Run(p, done)
    ensures AllScorable(done + ChromItems(c, chrRows))
    ensures r == Run(p, done + ChromItems(c, chrRows))
  {
    r := res;
    assert Through(done, c, chrRows, 0) == done;
    for j := 0 to |chrRows|
      invariant r == Run(p, Through(done, c, chrRows, j))
    {
      ScanStep(p, done, c, chrRows, j);
      r := Offer(p, r, Item(c, chrRows[j]));
    }
    assert chrRows[..|chrRows|] == chrRows;
  }

  /** The items offered so far: those before the chromosome, then its first j rows. */
  function Through(done: seq<Item>, c: string, chrRows: seq<Record>, j: nat): (items: seq<Item>)
    requires AllScorable(done) && forall k :: 0 <= k < |chrRows| ==> Scorable(chrRows[k])
    requires j <= |chrRows|
    ensures AllScorable(items)
    ensures items == done + ChromItems(c, chrRows[..j])
  {
    done + ChromItems(c, chrRows[..j])
  }

  lemma ScanStep(p: Params, done: seq<Item>, c: string, chrRows: seq<Record>, j: nat)
    requires AllScorable(done) && forall k :: 0 <= k < |chrRows| ==> Scorable(chrRows[k])
    requires j < |chrRows|
    ensures Run(p, Through(done, c, chrRows, j + 1)) == Offer(p, Run(p, Through(done, c, chrRows, j)), Item(c, chrRows[j]))
  {
    var pre := Through(done, c, chrRows, j);
    assert ChromItems(c, chrRows[..j + 1]) == ChromItems(c, chrRows[..j]) + [Item(c, chrRows[j])];
    assert Through(done, c, chrRows, j + 1) == pre + [Item(c, chrRows[j])];
    RunSnoc(p, pre, Item(c, chrRows[j]));
  }

  /** The outer loop of `load_somatics`: sorted chromosomes, Y and MT skipped. */
  method Scan(p: Params, reader: Reader<Record>) returns (res: Reservoir)
    requires reader.Valid() && ScorableReader(reader)
    ensures AllScorable(Stream(reader))
    ensures res == Run(p, Stream(reader))
  {
    StreamScorable(reader);
    var names := SortNames(reader.chrList);
    SortedNamesListed(reader);
    res := Reservoir([], []);
    ghost var done: seq<Item> := [];
    for i := 0 to |names|
      invariant done == Items(reader.tables, names[..i])
      invariant AllScorable(done)
      invariant res == Run(p, done)
    {
      ItemsStep(reader, names, i);
      var c := names[i];
      if c in ExcludedChroms {
        continue;
      }
      var chrRows := reader.tables[c];
      res := ScanChromosome(p, res, done, c, chrRows);
      done := done + ChromItems(c, chrRows);
    }
    assert names[..|names|] == names;
  }

  lemma SortedNamesListed(reader: Reader<Record>)
    requires reader.Valid()
    ensures forall c :: c in SortNames(reader.chrList) ==> c in reader.tables
  {
    forall c | c in SortNames(reader.chrList)
      ensures c in reader.tables
    {
      assert c in multiset(SortNames(reader.chrList));
      assert c in multiset(reader.chrList);
    }
  }

  /** One more chromosome in the outer loop appends its items, or nothing for Y and MT. */
  lemma ItemsStep(reader: Reader<Record>, names: seq<string>, i: nat)
    requires reader.Valid() && ScorableReader(reader)
    requires names == SortNames(reader.chrList) && i < |names|
    requires forall c :: c in names ==> c in reader.tables
    ensures names[i] in reader.tables
    ensures names[i] !in ExcludedChroms ==>
      forall k :: 0 <= k < |reader.tables[names[i]]| ==> Scorable(reader.tables[names[i]][k])
    ensures Items(reader.tables, names[..i + 1]) ==
      Items(reader.tables, names[..i]) + if names[i] in ExcludedChroms then [] else ChromItems(names[i], reader.tables[names[i]])
  {
    var pre := names[..i + 1];
    assert pre[..i] == names[..i] && pre[i] == names[i];
    ItemsSnoc(reader.tables, pre);
  }

  /** One unfolding of `Items`: the last chromosome's items come last. */
  lemma ItemsSnoc(tables: map<string, seq<Record>>, names: seq<string>)
    requires |names| > 0 && forall c :: c in names ==> c in tables
    ensures var c := names[|names| - 1];
      Items(tables, names) ==
        Items(tables, names[..|names| - 1]) + if c in ExcludedChroms then [] else ChromItems(c, tables[c])
  {
  }

  /** `load_somatics`: the scan, then `rows[index:]` at the cutoff. */
  method LoadSomatics(p: Params, reader: Reader<Record>) returns (rows: seq<Record>)
    requires reader.Valid() && ScorableReader(reader)
    ensures AllScorable(Stream(reader))
    ensures var res := Run(p, Stream(reader)); rows == res.rows[GapIndex(res.scores)..]
  {
    var res := Scan(p, reader);
    var index := LargestGap(res.scores);
    rows := res.rows[index..];
  }

  /** Descending by `somatic_prob`. */
  predicate Descending(rows: seq<Record>)
  {
    && (forall k :: 0 <= k < |rows| ==> HasProb(rows[k]))
    && forall k, l :: 0 <= k < l < |rows| ==> Prob(rows[l]) <= Prob(rows[k])
  }

  function Reverse<T>(s: seq<T>): (r: seq<T>)
    ensures |r| == |s|
    ensures forall k :: 0 <= k < |s| ==> r[k] == s[|s| - 1 - k]
  {
    seq(|s|, k requires 0 <= k < |s| => s[|s| - 1 - k])
  }

  /**
   `main`: the rows written, `load_somatics` reversed. They are in
   descending score order, at most `n` of them, each above the threshold and
   each the formatted version of a row of a scanned chromosome.
   */
  method ExtractSomatics(p: Params, reader: Reader<Record>) returns (out: seq<Record>)
    requires reader.Valid() && ScorableReader(reader)
    ensures AllScorable(Stream(reader))
    ensures var res := Run(p, Stream(reader)); out == Reverse(res.rows[GapIndex(res.scores)..])
    ensures Descending(out)
    ensures |out| <= p.capacity
    ensures forall k :: 0 <= k < |out| ==> p.threshold < Prob(out[k])
    ensures forall k :: 0 <= k < |out| ==> out[k] in Formatted(Stream(reader))
  {
    var rows := LoadSomatics(p, reader);
    out := Reverse(rows);
    ghost var res := Run(p, Stream(reader));
    CutReversed(p, res, GapIndex(res.scores), Formatted(Stream(reader)));
  }

  /** Reversing a cut of a valid reservoir gives rows in descending order, each above the threshold. */
  lemma CutReversed(p: Params, res: Reservoir, i: nat, allowed: set<Record>)
    requires res.Valid(p) && i <= |res.rows|
    requires forall k :: 0 <= k < |res.rows| ==> res.rows[k] in allowed
    ensures var out := Reverse(res.rows[i..]);
      && Descending(out)
      && |out| <= p.capacity
      && (forall k :: 0 <= k < |out| ==> p.threshold < Prob(out[k]))
      && (forall k :: 0 <= k < |out| ==> out[k] in allowed)
  {
    var rows := res.rows[i..];
    var out := Reverse(rows);
    forall k | 0 <= k < |out|
      ensures HasProb(out[k]) && Prob(out[k]) == res.scores[i + |rows| - 1 - k]
      ensures out[k] in allowed
    {
      assert out[k] == res.rows[i + |rows| - 1 - k];
    }
  }
}
