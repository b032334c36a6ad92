/**
 The chunked classification driver of the model runners.

 `_classify` visits the reader's chromosomes in sorted name order and, for
 each, `_classify_chromosome` runs the window loop: the rows of a window are
 handed to the model (or, for the independent runner, to two models and the
 combiner) and the writer receives `write_data(chr_name, sub_rows, result)`.
 The model side is a parameter `process` here, so one definition covers the
 independent, joint, multinomial, per-chromosome and Fisher runners; the
 writer is modelled by the sequence of calls it receives.

 Also here: the `(model, density)` dispatch of `run_classifier` and the
 output-row layout of the Fisher runner's `_write_rows`.
 */
module Driver {
  import opened Seqs
  import opened Chromosomes
  import opened Chunking
  import opened Wrappers

  /** One `writer.write_data(chrom, rows, result)` call. */
  datatype WriteCall<R, O> = WriteCall(chrom: string, rows: seq<R>, result: O)

  /** The rows written for chromosome `c`, in call order. */
  function RowsFor<R, O>(calls: seq<WriteCall<R, O>>, c: string): seq<R>
  {
    if |calls| == 0 then []
    else (if calls[0].chrom == c then calls[0].rows else []) + RowsFor(calls[1..], c)
  }

  lemma {:induction false} RowsForAppend<R, O>(a: seq<WriteCall<R, O>>, b: seq<WriteCall<R, O>>, c: string)
    ensures RowsFor(a + b, c) == RowsFor(a, c) + RowsFor(b, c)
  {
    if |a| == 0 {
      assert a + b == b;
    } else {
      assert (a + b)[1..] == a[1..] + b;
      RowsForAppend(a[1..], b, c);
    }
  }

  /** The row slices written for chromosome `c`, one per call, in call order. */
  function CallsOf<R, O>(calls: seq<WriteCall<R, O>>, c: string): seq<seq<R>>
  {
    if |calls| == 0 then []
    else (if calls[0].chrom == c then [calls[0].rows] else []) + CallsOf(calls[1..], c)
  }

  lemma {:induction false} CallsOfAppend<R, O>(a: seq<WriteCall<R, O>>, b: seq<WriteCall<R, O>>, c: string)
    ensures CallsOf(a + b, c) == CallsOf(a, c) + CallsOf(b, c)
  {
    if |a| == 0 {
      assert a + b == b;
    } else {
      var head := if a[0].chrom == c then [a[0].rows] else [];
      assert (a + b)[0] == a[0] && (a + b)[1..] == a[1..] + b;
      CallsOfAppend(a[1..], b, c);
      assert CallsOf(a + b, c) == head + (CallsOf(a[1..], c) + CallsOf(b, c));
    }
  }

  /** The window slices of `rows`, in order. */
  function Slices<R>(rows: seq<R>, ws: seq<Window>): (s: seq<seq<R>>)
    requires forall k :: 0 <= k < |ws| ==> ws[k].start <= ws[k].stop <= |rows|
    ensures |s| == |ws|
  {
    seq(|ws|, k requires 0 <= k < |ws| => rows[ws[k].start..ws[k].stop])
  }

  /** Concatenating the slices of a partition of the rows gives the rows back. */
  lemma {:induction false} SlicesCover<R>(rows: seq<R>, ws: seq<Window>, m: nat)
    requires Partition(ws, |rows|)
    requires m <= |ws|
    ensures Flatten(Slices(rows, ws)[..m]) == rows[..if m == 0 then 0 else ws[m - 1].stop]
  {
    if m > 0 {
      SlicesCover(rows, ws, m - 1);
      var s := Slices(rows, ws);
      var lo := if m == 1 then 0 else ws[m - 2].stop;
      var hi := ws[m - 1].stop;
      assert ws[m - 1].start == lo;
      assert s[m - 1] == rows[lo..hi];
      assert s[..m] == s[..m - 1] + [s[m - 1]];
      FlattenSnoc(s[..m - 1], s[m - 1]);
      assert rows[..hi] == rows[..lo] + rows[lo..hi];
    }
  }

  /** The slices the window loop cuts from `rows`: slice k is the rows of window k. */
  function WindowSlices<R>(rows: seq<R>): seq<seq<R>>
  {
    Slices(rows, Windows(|rows|))
  }

  /** The calls of the window loop of `_classify_chromosome`, one per window. */
  function ClassifyChromosome<R, O>(name: string, rows: seq<R>, process: (string, seq<R>) -> O): (calls: seq<WriteCall<R, O>>)
    ensures |calls| == WindowCount(|rows|)
    ensures forall k :: 0 <= k < |calls| ==>
      && calls[k].chrom == name
      && 0 < |calls[k].rows| <= WindowSize
      && calls[k].result == process(name, calls[k].rows)
    ensures forall k :: 0 <= k < |calls| ==>
      calls[k].rows == rows[Windows(|rows|)[k].start..Windows(|rows|)[k].stop]
    ensures RowsFor(calls, name) == rows
    ensures forall c :: c != name ==> RowsFor(calls, c) == []
    ensures CallsOf(calls, name) == WindowSlices(rows)
    ensures forall c :: c != name ==> CallsOf(calls, c) == []
  {
    var ws := Windows(|rows|);
    var slices := Slices(rows, ws);
    var calls := seq(|ws|, k requires 0 <= k < |ws| => WriteCall(name, slices[k], process(name, slices[k])));
    SlicesCover(rows, ws, |ws|);
    assert slices[..|ws|] == slices;
    OneChromosome(calls, name, slices);
    calls
  }

  lemma {:induction false} OneChromosome<R, O>(calls: seq<WriteCall<R, O>>, name: string, slices: seq<seq<R>>)
    requires |calls| == |slices|
    requires forall k :: 0 <= k < |calls| ==> calls[k].chrom == name && calls[k].rows == slices[k]
    ensures RowsFor(calls, name) == Flatten(slices)
    ensures forall c :: c != name ==> RowsFor(calls, c) == []
    ensures CallsOf(calls, name) == slices
    ensures forall c :: c != name ==> CallsOf(calls, c) == []
  {
    if |calls| > 0 {
      OneChromosome(calls[1..], name, slices[1..]);
    }
  }

  /** The calls for the listed chromosomes, taken in list order. */
  function ClassifyNames<R, O>(tables: map<string, seq<R>>, names: seq<string>, process: (string, seq<R>) -> O): (calls: seq<WriteCall<R, O>>)
    requires forall c :: c in names ==> c in tables
    ensures forall k :: 0 <= k < |calls| ==>
      && calls[k].chrom in names
      && 0 < |calls[k].rows| <= WindowSize
      && calls[k].result == process(calls[k].chrom, calls[k].rows)
    ensures forall c :: c !in names ==> RowsFor(calls, c) == []
    ensures Distinct(names) ==> forall c :: c in names ==> RowsFor(calls, c) == tables[c]
    ensures Sorted(names) ==> forall k, l :: 0 <= k < l < |calls| ==> LessEq(calls[k].chrom, calls[l].chrom)
    ensures forall c :: c !in names ==> CallsOf(calls, c) == []
    ensures Distinct(names) ==> forall c :: c in names ==> CallsOf(calls, c) == WindowSlices(tables[c])
  {
    if |names| == 0 then []
    else
      var head := ClassifyChromosome(names[0], tables[names[0]], process);
      var rest := ClassifyNames(tables, names[1..], process);
      JoinMembers(names, head, rest, process);
      JoinRows(tables, names, head, rest);
      JoinSlices(tables, names, head, rest);
      JoinOrder(names, head, rest);
      head + rest
  }

  lemma JoinMembers<R, O>(names: seq<string>, head: seq<WriteCall<R, O>>, rest: seq<WriteCall<R, O>>, process: (string, seq<R>) -> O)
    requires |names| > 0
    requires forall k :: 0 <= k < |head| ==>
      && head[k].chrom == names[0]
      && 0 < |head[k].rows| <= WindowSize
      && head[k].result == process(head[k].chrom, head[k].rows)
    requires forall k :: 0 <= k < |rest| ==>
      && rest[k].chrom in names[1..]
      && 0 < |rest[k].rows| <= WindowSize
      && rest[k].result == process(rest[k].chrom, rest[k].rows)
    ensures forall k :: 0 <= k < |head + rest| ==>
      && (head + rest)[k].chrom in names
      && 0 < |(head + rest)[k].rows| <= WindowSize
      && (head + rest)[k].result == process((head + rest)[k].chrom, (head + rest)[k].rows)
  {
    forall k | 0 <= k < |head + rest|
      ensures (head + rest)[k].chrom in names
    {
      if k >= |head| {
        assert (head + rest)[k] == rest[k - |head|];
        assert rest[k - |head|].chrom in names[1..];
      }
    }
  }

  /** Rows per chromosome after the first chromosome's calls are put in front of the rest. */
  lemma JoinRows<R, O>(tables: map<string, seq<R>>, names: seq<string>, head: seq<WriteCall<R, O>>, rest: seq<WriteCall<R, O>>)
    requires |names| > 0 && forall c :: c in names ==> c in tables
    requires RowsFor(head, names[0]) == tables[names[0]]
    requires forall c :: c != names[0] ==> RowsFor(head, c) == []
    requires forall c :: c !in names[1..] ==> RowsFor(rest, c) == []
    requires Distinct(names[1..]) ==> forall c :: c in names[1..] ==> RowsFor(rest, c) == tables[c]
    ensures forall c :: c !in names ==> RowsFor(head + rest, c) == []
    ensures Distinct(names) ==> forall c :: c in names ==> RowsFor(head + rest, c) == tables[c]
  {
    forall c
      ensures RowsFor(head + rest, c) == RowsFor(head, c) + RowsFor(rest, c)
    {
      RowsForAppend(head, rest, c);
    }
    if Distinct(names) {
      assert Distinct(names[1..]);
      assert names[0] !in names[1..];
      forall c | c in names
        ensures RowsFor(head + rest, c) == tables[c]
      {
        if c != names[0] {
          assert c in names[1..];
        }
      }
    }
    forall c | c !in names
      ensures RowsFor(head + rest, c) == []
    {
      assert c != names[0];
      assert c !in names[1..];
    }
  }

  /** Slices per chromosome after the first chromosome's calls are put in front of the rest. */
  lemma JoinSlices<R, O>(tables: map<string, seq<R>>, names: seq<string>, head: seq<WriteCall<R, O>>, rest: seq<WriteCall<R, O>>)
    requires |names| > 0 && forall c :: c in names ==> c in tables
    requires CallsOf(head, names[0]) == WindowSlices(tables[names[0]])
    requires forall c :: c != names[0] ==> CallsOf(head, c) == []
    requires forall c :: c !in names[1..] ==> CallsOf(rest, c) == []
    requires Distinct(names[1..]) ==> forall c :: c in names[1..] ==> CallsOf(rest, c) == WindowSlices(tables[c])
    ensures forall c :: c !in names ==> CallsOf(head + rest, c) == []
    ensures Distinct(names) ==> forall c :: c in names ==> CallsOf(head + rest, c) == WindowSlices(tables[c])
  {
    forall c
      ensures CallsOf(head + rest, c) == CallsOf(head, c) + CallsOf(rest, c)
    {
      CallsOfAppend(head, rest, c);
    }
    if Distinct(names) {
      assert Distinct(names[1..]);
      assert names[0] !in names[1..];
      forall c | c in names
        ensures CallsOf(head + rest, c) == WindowSlices(tables[c])
      {
        if c != names[0] {
          assert c in names[1..];
        }
      }
    }
    forall c | c !in names
      ensures CallsOf(head + rest, c) == []
    {
      assert c != names[0];
      assert c !in names[1..];
    }
  }

  /** Call order after the first chromosome's calls are put in front of the rest. */
  lemma JoinOrder<R, O>(names: seq<string>, head: seq<WriteCall<R, O>>, rest: seq<WriteCall<R, O>>)
    requires |names| > 0
    requires forall k :: 0 <= k < |head| ==> head[k].chrom == names[0]
    requires forall k :: 0 <= k < |rest| ==> rest[k].chrom in names[1..]
    requires Sorted(names[1..]) ==> forall k, l :: 0 <= k < l < |rest| ==> LessEq(rest[k].chrom, rest[l].chrom)
    ensures Sorted(names) ==> forall k, l :: 0 <= k < l < |head + rest| ==> LessEq((head + rest)[k].chrom, (head + rest)[l].chrom)
  {
    if Sorted(names) {
      assert Sorted(names[1..]);
      var all := head + rest;
      forall k, l | 0 <= k < l < |all|
        ensures LessEq(all[k].chrom, all[l].chrom)
      {
        if l < |head| {
          assert all[k].chrom == names[0] == all[l].chrom;
        } else if k < |head| {
          var c := rest[l - |head|].chrom;
          assert c in names[1..];
          var i :| 0 <= i < |names[1..]| && names[1..][i] == c;
          assert names[i + 1] == c;
        } else {
          assert all[k] == rest[k - |head|] && all[l] == rest[l - |head|];
        }
      }
    }
  }

  /**
   `_classify`: every chromosome of the reader is classified once, in sorted
   name order, so the writer receives each chromosome's rows whole and in
   order, and the calls arrive in chromosome-then-position order.
   */
  function Classify<R, O>(reader: Reader<R>, process: (string, seq<R>) -> O): (calls: seq<WriteCall<R, O>>)
    requires reader.Valid()
    ensures forall c :: c in reader.chrList ==> RowsFor(calls, c) == reader.tables[c]
    ensures forall c :: c !in reader.chrList ==> RowsFor(calls, c) == []
    ensures forall k :: 0 <= k < |calls| ==>
      && calls[k].chrom in reader.chrList
      && 0 < |calls[k].rows| <= WindowSize
      && calls[k].result == process(calls[k].chrom, calls[k].rows)
    ensures forall k, l :: 0 <= k < l < |calls| ==> LessEq(calls[k].chrom, calls[l].chrom)
    ensures forall c :: c in reader.chrList ==> CallsOf(calls, c) == WindowSlices(reader.tables[c])
  {
    var names := SortNames(reader.chrList);
    assert forall c :: c in names <==> c in reader.chrList by {
      forall c
        ensures c in names <==> c in reader.chrList
      {
        assert c in names <==> c in multiset(names);
        assert c in reader.chrList <==> c in multiset(reader.chrList);
      }
    }
    SortNamesDistinct(reader.chrList);
    ClassifyNames(reader.tables, names, process)
  }

  /** Chromosomes of 250 000 and 50 000 rows take 3 + 1 = 4 model calls. */
  lemma FourWindows<R, O>(a: seq<R>, b: seq<R>, process: (string, seq<R>) -> O)
    requires |a| == 250000 && |b| == 50000
    ensures |ClassifyNames(map["1" := a, "2" := b], ["1", "2"], process)| == 4
  {
    var tables := map["1" := a, "2" := b];
    assert ["1", "2"][1..] == ["2"];
    assert |ClassifyChromosome("1", a, process)| == 3;
    assert |ClassifyChromosome("2", b, process)| == 1;
  }

  /* ---------------- run_classifier dispatch ---------------- */

  /** The runner classes `run_classifier` can construct. */
  datatype Runner =
    | IndependentBinomialRunner
    | IndependentBetaBinomialRunner
    | JointBinomialRunner
    | JointBetaBinomialRunner
    | JointMultinomialRunner
    | ChromosomeBinomialRunner
    | ChromosomeBetaBinomialRunner
    | ChromosomeMultinomialRunner
    | FisherTestRunner

  /** The runner, and whether it trains (a priors file was given) or loads parameters. */
  datatype Plan = Plan(runner: Runner, train: bool)

  /**
   `run_classifier`: the runner for `(args.model, args.density)`. An
   unsupported pair leaves `runner` unbound and the call fails: None.
   */
  function Dispatch(model: string, density: string, priorsFile: Option<string>): (p: Option<Plan>)
    ensures p.Some? ==> (p.value.train <==> priorsFile.Some?)
    ensures p.Some? ==> ModelName(p.value.runner) == model
    ensures p.Some? && p.value.runner != FisherTestRunner ==> DensityName(p.value.runner) == density
  {
    var runner :=
      if model == "independent" then
        if density == "binomial" then Some(IndependentBinomialRunner)
        else if density == "beta_binomial" then Some(IndependentBetaBinomialRunner)
        else None
      else if model == "joint" then
        if density == "binomial" then Some(JointBinomialRunner)
        else if density == "beta_binomial" then Some(JointBetaBinomialRunner)
        else if density == "multinomial" then Some(JointMultinomialRunner)
        else None
      else if model == "chromosome" then
        if density == "binomial" then Some(ChromosomeBinomialRunner)
        else if density == "beta_binomial" then Some(ChromosomeBetaBinomialRunner)
        else if density == "multinomial" then Some(ChromosomeMultinomialRunner)
        else None
      else if model == "fisher" then Some(FisherTestRunner)
      else None;
    if runner.Some? then Some(Plan(runner.value, priorsFile.Some?)) else None
  }

  /** The `args.model` value that selects a runner. */
  function ModelName(r: Runner): string
  {
    match r
    case IndependentBinomialRunner | IndependentBetaBinomialRunner => "independent"
    case JointBinomialRunner | JointBetaBinomialRunner | JointMultinomialRunner => "joint"
    case ChromosomeBinomialRunner | ChromosomeBetaBinomialRunner | ChromosomeMultinomialRunner => "chromosome"
    case FisherTestRunner => "fisher"
  }

  /** The `args.density` value that selects a runner (the Fisher runner ignores it). */
  function DensityName(r: Runner): string
  {
    match r
    case IndependentBinomialRunner | JointBinomialRunner | ChromosomeBinomialRunner => "binomial"
    case IndependentBetaBinomialRunner | JointBetaBinomialRunner | ChromosomeBetaBinomialRunner => "beta_binomial"
    case JointMultinomialRunner | ChromosomeMultinomialRunner => "multinomial"
    case FisherTestRunner => "binomial"
  }

  /** Every runner is reachable, from its own names, and independent runners have no multinomial variant. */
  lemma DispatchComplete(r: Runner, density: string, priorsFile: Option<string>)
    ensures Dispatch(ModelName(r), DensityName(r), priorsFile) == Some(Plan(r, priorsFile.Some?))
    ensures Dispatch("fisher", density, priorsFile) == Some(Plan(FisherTestRunner, priorsFile.Some?))
    ensures Dispatch("independent", "multinomial", priorsFile).None?
  {
  }

  /* ---------------- Fisher runner output rows ---------------- */

  /** `FisherTestRunner.classes`, indexed by the model's integer code. */
  const FisherClasses: seq<string> := ["Reference", "Germline", "Somatic", "LOH", "Unknown"]

  /** `classes[code]` on a Python tuple: negative codes count from the end; out of range fails. */
  function ClassName(code: int): (name: Option<string>)
    ensures name.Some? <==> -|FisherClasses| <= code < |FisherClasses|
    ensures name.Some? ==> name.value in FisherClasses
    ensures 0 <= code < |FisherClasses| ==> name == Some(FisherClasses[code])
    ensures -|FisherClasses| <= code < 0 ==> name == Some(FisherClasses[code + |FisherClasses|])
    ensures name.Some? ==> name.value == FisherClasses[code % |FisherClasses|]
  {
    if 0 <= code < |FisherClasses| then Some(FisherClasses[code])
    else if -|FisherClasses| <= code < 0 then Some(FisherClasses[code + |FisherClasses|])
    else None
  }

  /** A cell of an output line: the chromosome or class name, or one of the row's own fields. */
  datatype Cell<F> = Text(text: string) | Field(field: F)

  function Fields<F>(row: seq<F>): (cells: seq<Cell<F>>)
    ensures |cells| == |row|
    ensures forall k :: 0 <= k < |row| ==> cells[k] == Field(row[k])
  {
    seq(|row|, k requires 0 <= k < |row| => Field(row[k]))
  }

  /**
   `_write_rows`: line i is `[chr_name] + row_i + [classes[codes[i]]]`.
   None when a code is missing or not a valid tuple index (the loop raises).
   */
  function FisherLines<F>(chrom: string, rows: seq<seq<F>>, codes: seq<int>): (lines: Option<seq<seq<Cell<F>>>>)
    ensures lines.Some? <==> |rows| <= |codes| && forall i :: 0 <= i < |rows| ==> ClassName(codes[i]).Some?
    ensures lines.Some? ==> |lines.value| == |rows|
    ensures lines.Some? ==> forall i :: 0 <= i < |rows| ==>
      UnpackLine(lines.value[i]) == Some((chrom, rows[i], ClassName(codes[i]).value))
  {
    if |rows| <= |codes| && forall i :: 0 <= i < |rows| ==> ClassName(codes[i]).Some? then
      var lines := seq(|rows|, i requires 0 <= i < |rows| => [Text(chrom)] + Fields(rows[i]) + [Text(ClassName(codes[i]).value)]);
      assert forall i :: 0 <= i < |rows| ==> UnpackLine(lines[i]) == Some((chrom, rows[i], ClassName(codes[i]).value)) by {
        forall i | 0 <= i < |rows|
          ensures UnpackLine(lines[i]) == Some((chrom, rows[i], ClassName(codes[i]).value))
        {
          UnpackPacked(chrom, rows[i], ClassName(codes[i]).value);
        }
      }
      Some(lines)
    else None
  }

  /** Reads a Fisher output line back into (chromosome, row fields, class name). */
  function UnpackLine<F>(cells: seq<Cell<F>>): Option<(string, seq<F>, string)>
  {
    if |cells| >= 2 && cells[0].Text? && cells[|cells| - 1].Text? && forall k :: 1 <= k < |cells| - 1 ==> cells[k].Field? then
      Some((cells[0].text, seq(|cells| - 2, k requires 0 <= k < |cells| - 2 => cells[k + 1].field), cells[|cells| - 1].text))
    else None
  }

  lemma UnpackPacked<F>(chrom: string, row: seq<F>, name: string)
    ensures UnpackLine([Text(chrom)] + Fields(row) + [Text(name)]) == Some((chrom, row, name))
  {
    var cells := [Text(chrom)] + Fields(row) + [Text(name)];
    assert forall k :: 1 <= k < |cells| - 1 ==> cells[k] == Field(row[k - 1]);
    assert seq(|cells| - 2, k requires 0 <= k < |cells| - 2 => cells[k + 1].field) == row;
  }
}
