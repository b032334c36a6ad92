/**
 The VarScan-to-jcnt converter. Every VarScan record becomes an eight-field
 joint-counts entry; entries are buffered per chromosome and the buffer is
 flushed to the counts file every 10 000 rows, with one last flush of whatever
 remains at the end. A flush writes one `add_rows` call per chromosome in the
 buffer.

 The record's numeric columns are taken as already parsed (`int(...)`); the
 order in which a flush visits its chromosomes (Python 2 dict order) is a
 parameter.
 */
module VarScan {
  import opened Seqs

  /** One VarScan record, with the columns the converter reads. */
  datatype VarScanRow = VarScanRow(
    chrom: string,
    position: int,
    refBase: string,
    varBase: string,
    normalReads1: int,
    normalReads2: int,
    tumorReads1: int,
    tumorReads2: int)

  /**
   A joint-counts entry: position, reference base, normal and tumour
   non-reference bases, then the normal (ref, non-ref) and the tumour
   (ref, non-ref) counts.
   */
  datatype Entry = Entry(
    position: int,
    refBase: string,
    normalNonRef: string,
    tumourNonRef: string,
    normalRef: int,
    normalNonRefCount: int,
    tumourRef: int,
    tumourNonRefCount: int)

  /** The buffer of one flush: the entries of each chromosome seen since the last flush. */
  type Batch = map<string, seq<Entry>>

  /** One `add_rows(chr_name, chr_rows)` call on the counts file. */
  datatype AddRows = AddRows(chrom: string, entries: seq<Entry>)

  const FlushSize: nat := 10000

  /** An empty `var` column stands for no observed variant and is written as 'N'. */
  function NonRefBase(v: string): (b: string)
    ensures b != ""
    ensures v == "" ==> b == "N"
    ensures v != "" ==> b == v
  {
    if v == "" then "N" else v
  }

  lemma NonRefBaseIdempotent(v: string)
    ensures NonRefBase(NonRefBase(v)) == NonRefBase(v)
    ensures NonRefBase(v) == v <==> v != ""
  {
  }

  /** The per-row conversion: both non-reference bases are the (completed) `var` column. */
  function ToEntry(row: VarScanRow): (e: Entry)
    ensures e.normalNonRef == e.tumourNonRef == NonRefBase(row.varBase) != ""
    ensures FromEntry(row.chrom, e) == row.(varBase := NonRefBase(row.varBase))
  {
    var v := NonRefBase(row.varBase);
    Entry(row.position, row.refBase, v, v, row.normalReads1, row.normalReads2, row.tumorReads1, row.tumorReads2)
  }

  /** Reads a record back from an entry and the chromosome it was filed under. */
  function FromEntry(chrom: string, e: Entry): VarScanRow
  {
    VarScanRow(chrom, e.position, e.refBase, e.normalNonRef, e.normalRef, e.normalNonRefCount, e.tumourRef, e.tumourNonRefCount)
  }

  /**
   The conversion loses nothing but the empty `var` column: a record with a
   variant base is recovered from its entry, and an entry with matching,
   non-empty bases is reproduced from the record read back from it.
   */
  lemma EntryRoundTrip(row: VarScanRow, chrom: string, e: Entry)
    ensures row.varBase != "" ==> FromEntry(row.chrom, ToEntry(row)) == row
    ensures row.varBase == "" ==> FromEntry(row.chrom, ToEntry(row)) == row.(varBase := "N")
    ensures e.normalNonRef == e.tumourNonRef != "" ==> ToEntry(FromEntry(chrom, e)) == e
  {
  }

  function Entries(rows: seq<VarScanRow>): (es: seq<Entry>)
    ensures |es| == |rows|
    ensures forall k :: 0 <= k < |rows| ==> es[k] == ToEntry(rows[k])
  {
    if |rows| == 0 then [] else [ToEntry(rows[0])] + Entries(rows[1..])
  }

  /** The entries of the records of chromosome `c`, in input order. */
  function Select(rows: seq<VarScanRow>, c: string): seq<Entry>
  {
    if |rows| == 0 then []
    else (if rows[0].chrom == c then [ToEntry(rows[0])] else []) + Select(rows[1..], c)
  }

  /** The entries of the records whose chromosome is in `cs`, in input order. */
  function SelectIn(rows: seq<VarScanRow>, cs: set<string>): seq<Entry>
  {
    if |rows| == 0 then []
    else (if rows[0].chrom in cs then [ToEntry(rows[0])] else []) + SelectIn(rows[1..], cs)
  }

  lemma {:induction false} SelectAppend(a: seq<VarScanRow>, b: seq<VarScanRow>, c: string)
    ensures Select(a + b, c) == Select(a, c) + Select(b, c)
  {
    if |a| == 0 {
      assert a + b == b;
    } else {
      var ab := a + b;
      assert ab[0] == a[0];
      assert ab[1..] == a[1..] + b;
      SelectAppend(a[1..], b, c);
      assert Select(ab, c) == (if a[0].chrom == c then [ToEntry(a[0])] else []) + Select(ab[1..], c);
    }
  }

  lemma {:induction false} SelectEmpty(rows: seq<VarScanRow>, c: string)
    ensures Select(rows, c) == [] <==> forall k :: 0 <= k < |rows| ==> rows[k].chrom != c
  {
    if |rows| > 0 {
      SelectEmpty(rows[1..], c);
      assert forall k :: 1 <= k < |rows| ==> rows[k] == rows[1..][k - 1];
    }
  }

  /** Splitting off one chromosome from a set of chromosomes splits the selected entries the same way. */
  lemma {:induction false} SelectInSplit(rows: seq<VarScanRow>, c: string, cs: set<string>)
    requires c !in cs
    ensures multiset(SelectIn(rows, {c} + cs)) == multiset(Select(rows, c)) + multiset(SelectIn(rows, cs))
  {
    if |rows| > 0 {
      var t, x, e := rows[1..], rows[0].chrom, ToEntry(rows[0]);
      SelectInSplit(t, c, cs);
      var m := multiset{e};
      assert multiset(SelectIn(rows, {c} + cs)) == (if x == c || x in cs then m else multiset{}) + multiset(SelectIn(t, {c} + cs));
      assert multiset(Select(rows, c)) == (if x == c then m else multiset{}) + multiset(Select(t, c));
      assert multiset(SelectIn(rows, cs)) == (if x in cs then m else multiset{}) + multiset(SelectIn(t, cs));
    }
  }

  lemma {:induction false} SelectInAll(rows: seq<VarScanRow>, cs: set<string>)
    requires forall k :: 0 <= k < |rows| ==> rows[k].chrom in cs
    ensures SelectIn(rows, cs) == Entries(rows)
  {
    if |rows| > 0 {
      assert forall k :: 0 <= k < |rows| - 1 ==> rows[1..][k] == rows[k + 1];
      SelectInAll(rows[1..], cs);
    }
  }

  function Get(b: Batch, c: string): seq<Entry>
  {
    if c in b then b[c] else []
  }

  /**
   The buffer after a run of records: `rows.setdefault(chr_name, [])` followed
   by an append, record by record.
   */
  function Group(rows: seq<VarScanRow>): Batch
    decreases |rows|
  {
    if |rows| == 0 then map[]
    else
      var g := Group(rows[..|rows| - 1]);
      var r := rows[|rows| - 1];
      g[r.chrom := Get(g, r.chrom) + [ToEntry(r)]]
  }

  lemma GroupSnoc(rows: seq<VarScanRow>, r: VarScanRow)
    ensures Group(rows + [r]) == Group(rows)[r.chrom := Get(Group(rows), r.chrom) + [ToEntry(r)]]
  {
    assert (rows + [r])[..|rows|] == rows;
  }

  /**
   The buffer files each chromosome's entries under its name, in input order,
   and holds a key exactly for the chromosomes that occur.
   */
  lemma GroupSelect(rows: seq<VarScanRow>, c: string)
    ensures Get(Group(rows), c) == Select(rows, c)
    ensures c in Group(rows) <==> exists k :: 0 <= k < |rows| && rows[k].chrom == c
  {
    GroupGet(rows, c);
    GroupNonEmpty(rows, c);
    SelectEmpty(rows, c);
  }

  lemma {:induction false} GroupGet(rows: seq<VarScanRow>, c: string)
    ensures Get(Group(rows), c) == Select(rows, c)
  {
    if |rows| > 0 {
      var pre, r := rows[..|rows| - 1], rows[|rows| - 1];
      assert rows == pre + [r];
      GroupGet(pre, c);
      GroupSnoc(pre, r);
      SelectAppend(pre, [r], c);
      assert Select([r], c) == (if r.chrom == c then [ToEntry(r)] else []) + Select([], c);
    }
  }

  lemma {:induction false} GroupNonEmpty(rows: seq<VarScanRow>, c: string)
    ensures c in Group(rows) ==> Group(rows)[c] != []
  {
    if |rows| > 0 {
      var pre, r := rows[..|rows| - 1], rows[|rows| - 1];
      GroupNonEmpty(pre, c);
    }
  }

  /**
   Splits the record stream the way the counter does: a batch of exactly
   FlushSize records each time the counter reaches FlushSize, then the
   remainder (possibly empty) for the final flush.
   */
  function Chunks<T>(rows: seq<T>): (cs: seq<seq<T>>)
    ensures |cs| >= 1
    decreases |rows|
  {
    if |rows| < FlushSize then [rows] else [rows[..FlushSize]] + Chunks(rows[FlushSize..])
  }

  /**
   floor(R / 10000) full batches and one final batch of fewer than 10000
   records, which together are the input in order.
   */
  lemma {:induction false} ChunksShape<T>(rows: seq<T>)
    ensures |Chunks(rows)| == |rows| / FlushSize + 1
    ensures forall k :: 0 <= k < |Chunks(rows)| - 1 ==> |Chunks(rows)[k]| == FlushSize
    ensures |Chunks(rows)[|Chunks(rows)| - 1]| < FlushSize
    ensures Flatten(Chunks(rows)) == rows
    decreases |rows|
  {
    if |rows| >= FlushSize {
      var rest := Chunks(rows[FlushSize..]);
      ChunksShape(rows[FlushSize..]);
      assert Chunks(rows) == [rows[..FlushSize]] + rest;
      assert forall k :: 1 <= k < |Chunks(rows)| ==> Chunks(rows)[k] == rest[k - 1];
      assert Flatten(Chunks(rows)) == rows[..FlushSize] + Flatten(rest);
      assert rows == rows[..FlushSize] + rows[FlushSize..];
    } else {
      assert Flatten([rows]) == rows + Flatten([rows][1..]);
    }
  }

  function Last<T>(s: seq<T>): T
    requires |s| > 0
  {
    s[|s| - 1]
  }

  /**
   One more record joins the open (last) batch, and closes it when it
   reaches FlushSize, opening an empty one.
   */
  lemma {:induction false} ChunksSnoc<T>(rows: seq<T>, r: T)
    ensures var cs := Chunks(rows);
      Chunks(rows + [r]) ==
        cs[..|cs| - 1] + if |Last(cs)| + 1 == FlushSize then [Last(cs) + [r], []] else [Last(cs) + [r]]
    decreases |rows|
  {
    var cs := Chunks(rows);
    if |rows| < FlushSize {
      if |rows| + 1 == FlushSize {
        assert (rows + [r])[..FlushSize] == rows + [r];
        assert (rows + [r])[FlushSize..] == [];
      }
    } else {
      var tail := rows[FlushSize..];
      assert (rows + [r])[..FlushSize] == rows[..FlushSize];
      assert (rows + [r])[FlushSize..] == tail + [r];
      ChunksSnoc(tail, r);
      var ts := Chunks(tail);
      assert cs == [rows[..FlushSize]] + ts;
      assert Last(cs) == Last(ts);
      assert cs[..|cs| - 1] == [rows[..FlushSize]] + ts[..|ts| - 1];
    }
  }

  /** The buffers the converter flushes, one per batch. */
  function Batches(rows: seq<VarScanRow>): (bs: seq<Batch>)
    ensures |bs| == |Chunks(rows)|
  {
    var cs := Chunks(rows);
    seq(|cs|, k requires 0 <= k < |cs| => Group(cs[k]))
  }

  /** The buffer after appending one record's entry under its chromosome. */
  function Append(buffer: Batch, r: VarScanRow): Batch
  {
    buffer[r.chrom := Get(buffer, r.chrom) + [ToEntry(r)]]
  }

  /**
   The converter's state after the records `done`: one flushed buffer per
   closed batch, the open batch in the buffer and its size in the counter.
   */
  ghost predicate Progress(done: seq<VarScanRow>, flushes: seq<Batch>, buffer: Batch, i: int)
  {
    var cs := Chunks(done);
    && |flushes| == |cs| - 1
    && (forall k :: 0 <= k < |flushes| ==> flushes[k] == Group(cs[k]))
    && buffer == Group(Last(cs))
    && i == |Last(cs)|
  }

  /**
   `main`'s loop: convert each record, append it to its chromosome's buffer,
   count it, and flush when the count reaches FlushSize; then flush the rest.
   */
  method Convert(rows: seq<VarScanRow>) returns (flushes: seq<Batch>)
    ensures flushes == Batches(rows)
    ensures |flushes| == |rows| / FlushSize + 1
  {
    flushes := [];
    var buffer: Batch := map[];
    var i := 0;
    for j := 0 to |rows|
      invariant Progress(rows[..j], flushes, buffer, i)
    {
      var row := rows[j];
      Advance(rows, j, flushes, buffer, i);
      ghost var before := buffer;
      var entry := ToEntry(row);
      var c := row.chrom;
      if c !in buffer {
        buffer := buffer[c := []];
      }
      buffer := buffer[c := buffer[c] + [entry]];
      assert buffer == Append(before, row);
      i := i + 1;
      if i >= FlushSize {
        flushes := flushes + [buffer];
        buffer := map[];
        i := 0;
      }
    }
    assert rows[..|rows|] == rows;
    Finish(rows, flushes, buffer, i);
    flushes := flushes + [buffer];
  }

  /** The loop step: one more record either stays in the buffer or closes it and is flushed with it. */
  lemma Advance(rows: seq<VarScanRow>, j: nat, flushes: seq<Batch>, buffer: Batch, i: int)
    requires j < |rows| && Progress(rows[..j], flushes, buffer, i)
    ensures var b := Append(buffer, rows[j]);
      && (i + 1 >= FlushSize ==> Progress(rows[..j + 1], flushes + [b], map[], 0))
      && (i + 1 < FlushSize ==> Progress(rows[..j + 1], flushes, b, i + 1))
  {
    assert rows[..j + 1] == rows[..j] + [rows[j]];
    ProgressSnoc(rows[..j], rows[j], flushes, buffer, i);
  }

  lemma ProgressSnoc(done: seq<VarScanRow>, r: VarScanRow, flushes: seq<Batch>, buffer: Batch, i: int)
    requires Progress(done, flushes, buffer, i)
    ensures var b := Append(buffer, r);
      && (i + 1 >= FlushSize ==> Progress(done + [r], flushes + [b], map[], 0))
      && (i + 1 < FlushSize ==> Progress(done + [r], flushes, b, i + 1))
  {
    var last := Last(Chunks(done));
    ChunksShape(done);
    GroupSnoc(last, r);
    if i + 1 == FlushSize {
      ProgressClose(done, r, flushes, buffer, i);
    } else {
      ProgressGrow(done, r, flushes, buffer, i);
    }
  }

  /** The record that fills the open batch closes it: the batch is flushed and the buffer emptied. */
  lemma ProgressClose(done: seq<VarScanRow>, r: VarScanRow, flushes: seq<Batch>, buffer: Batch, i: int)
    requires Progress(done, flushes, buffer, i) && i + 1 == FlushSize
    requires Append(buffer, r) == Group(Last(Chunks(done)) + [r])
    ensures Progress(done + [r], flushes + [Append(buffer, r)], map[], 0)
  {
    var cs := Chunks(done);
    var last := Last(cs);
    ChunksSnoc(done, r);
    var ncs := cs[..|cs| - 1] + [last + [r], []];
    assert Chunks(done + [r]) == ncs;
    assert forall k :: 0 <= k < |flushes| ==> ncs[k] == cs[k];
    assert ncs[|flushes|] == last + [r];
  }

  /** A record that does not fill the open batch joins the buffer. */
  lemma ProgressGrow(done: seq<VarScanRow>, r: VarScanRow, flushes: seq<Batch>, buffer: Batch, i: int)
    requires Progress(done, flushes, buffer, i) && i + 1 < FlushSize
    requires Append(buffer, r) == Group(Last(Chunks(done)) + [r])
    ensures Progress(done + [r], flushes, Append(buffer, r), i + 1)
  {
    var cs := Chunks(done);
    var last := Last(cs);
    ChunksSnoc(done, r);
    var ncs := cs[..|cs| - 1] + [last + [r]];
    assert Chunks(done + [r]) == ncs;
    assert forall k :: 0 <= k < |flushes| ==> ncs[k] == cs[k];
  }

  lemma Finish(rows: seq<VarScanRow>, flushes: seq<Batch>, buffer: Batch, i: int)
    requires Progress(rows, flushes, buffer, i)
    ensures flushes + [buffer] == Batches(rows)
    ensures |Batches(rows)| == |rows| / FlushSize + 1
  {
    ChunksShape(rows);
  }

  /** `write_rows`: one `add_rows` call per chromosome of the buffer, in the given key order. */
  function WriteRows(batch: Batch, order: seq<string>): (calls: seq<AddRows>)
    requires forall k :: 0 <= k < |order| ==> order[k] in batch
    ensures |calls| == |order|
    ensures forall k :: 0 <= k < |calls| ==> calls[k] == AddRows(order[k], batch[order[k]])
  {
    if |order| == 0 then []
    else [AddRows(order[0], batch[order[0]])] + WriteRows(batch, order[1..])
  }

  /** An iteration order of a buffer: every key once. */
  ghost predicate IsKeyOrder(order: seq<string>, batch: Batch)
  {
    && Distinct(order)
    && (forall k :: 0 <= k < |order| ==> order[k] in batch)
    && (forall c :: c in batch ==> c in order)
  }

  /** Everything passed to `add_rows` for chromosome `c`, in call order. */
  function CallsFor(calls: seq<AddRows>, c: string): seq<Entry>
  {
    if |calls| == 0 then []
    else (if calls[0].chrom == c then calls[0].entries else []) + CallsFor(calls[1..], c)
  }

  /** Everything passed to `add_rows`, in call order. */
  function Written(calls: seq<AddRows>): seq<Entry>
  {
    if |calls| == 0 then [] else calls[0].entries + Written(calls[1..])
  }

  lemma {:induction false} CallsForAppend(a: seq<AddRows>, b: seq<AddRows>, c: string)
    ensures CallsFor(a + b, c) == CallsFor(a, c) + CallsFor(b, c)
    ensures Written(a + b) == Written(a) + Written(b)
  {
    if |a| == 0 {
      assert a + b == b;
    } else {
      assert (a + b)[1..] == a[1..] + b;
      CallsForAppend(a[1..], b, c);
    }
  }

  /** A flush hands chromosome `c` exactly its buffered entries, in one call or none. */
  lemma {:induction false} WriteRowsFor(batch: Batch, order: seq<string>, c: string)
    requires Distinct(order) && forall k :: 0 <= k < |order| ==> order[k] in batch
    ensures CallsFor(WriteRows(batch, order), c) == if c in order then batch[c] else []
  {
    if |order| > 0 {
      assert Distinct(order[1..]);
      WriteRowsFor(batch, order[1..], c);
      assert c in order <==> c == order[0] || c in order[1..];
      if c == order[0] {
        assert c !in order[1..];
      }
    }
  }

  /** A flush writes the entries of its chromosomes, each exactly once. */
  lemma {:induction false} WriteRowsWritten(rows: seq<VarScanRow>, order: seq<string>)
    requires Distinct(order) && forall k :: 0 <= k < |order| ==> order[k] in Group(rows)
    ensures multiset(Written(WriteRows(Group(rows), order))) == multiset(SelectIn(rows, set c | c in order))
  {
    if |order| == 0 {
      assert (set c | c in order) == {};
      SelectInNone(rows);
    } else {
      var c := order[0];
      assert Distinct(order[1..]);
      WriteRowsWritten(rows, order[1..]);
      assert (set x | x in order) == {c} + (set x | x in order[1..]);
      assert c !in order[1..];
      SelectInSplit(rows, c, set x | x in order[1..]);
      GroupSelect(rows, c);
    }
  }

  lemma {:induction false} SelectInNone(rows: seq<VarScanRow>)
    ensures SelectIn(rows, {}) == []
  {
    if |rows| > 0 {
      SelectInNone(rows[1..]);
    }
  }

  /** A flush of a buffer writes every buffered record's entry exactly once. */
  lemma WriteRowsExactlyOnce(rows: seq<VarScanRow>, order: seq<string>)
    requires IsKeyOrder(order, Group(rows))
    ensures multiset(Written(WriteRows(Group(rows), order))) == multiset(Entries(rows))
  {
    WriteRowsWritten(rows, order);
    forall k | 0 <= k < |rows|
      ensures rows[k].chrom in (set c | c in order)
    {
      GroupSelect(rows, rows[k].chrom);
    }
    SelectInAll(rows, set c | c in order);
  }

  /** The calls of a sequence of flushes, each visiting its buffer in its own key order. */
  function Output(batches: seq<Batch>, orders: seq<seq<string>>): seq<AddRows>
    requires |orders| == |batches|
    requires forall k :: 0 <= k < |batches| ==> IsKeyOrder(orders[k], batches[k])
  {
    if |batches| == 0 then []
    else
      assert IsKeyOrder(orders[0], batches[0]);
      WriteRows(batches[0], orders[0]) + Output(batches[1..], orders[1..])
  }

  /** Output over a list of batches of records, chromosome by chromosome and in total. */
  lemma {:induction false} OutputChunks(cs: seq<seq<VarScanRow>>, orders: seq<seq<string>>, c: string)
    requires |orders| == |cs|
    requires forall k :: 0 <= k < |cs| ==> IsKeyOrder(orders[k], Group(cs[k]))
    ensures var bs := seq(|cs|, k requires 0 <= k < |cs| => Group(cs[k]));
      && CallsFor(Output(bs, orders), c) == Select(Flatten(cs), c)
      && multiset(Written(Output(bs, orders))) == multiset(Entries(Flatten(cs)))
  {
    var bs := seq(|cs|, k requires 0 <= k < |cs| => Group(cs[k]));
    if |cs| > 0 {
      var rs := seq(|cs| - 1, k requires 0 <= k < |cs| - 1 => Group(cs[1..][k]));
      assert bs[1..] == rs;
      OutputChunks(cs[1..], orders[1..], c);
      var head := WriteRows(bs[0], orders[0]);
      assert Output(bs, orders) == head + Output(rs, orders[1..]);
      CallsForAppend(head, Output(rs, orders[1..]), c);
      WriteRowsFor(bs[0], orders[0], c);
      GroupSelect(cs[0], c);
      SelectAppend(cs[0], Flatten(cs[1..]), c);
      WriteRowsExactlyOnce(cs[0], orders[0]);
      EntriesAppend(cs[0], Flatten(cs[1..]));
    }
  }

  lemma EntriesAppend(a: seq<VarScanRow>, b: seq<VarScanRow>)
    ensures Entries(a + b) == Entries(a) + Entries(b)
  {
  }

  /**
   The whole conversion: for each chromosome, the batches handed to `add_rows`
   concatenate to that chromosome's records in input order, and every record
   is written exactly once.
   */
  lemma ConvertWritesAll(rows: seq<VarScanRow>, orders: seq<seq<string>>, c: string)
    requires |orders| == |Batches(rows)|
    requires forall k :: 0 <= k < |orders| ==> IsKeyOrder(orders[k], Batches(rows)[k])
    ensures CallsFor(Output(Batches(rows), orders), c) == Select(rows, c)
    ensures multiset(Written(Output(Batches(rows), orders))) == multiset(Entries(rows))
  {
    ChunksShape(rows);
    OutputChunks(Chunks(rows), orders, c);
  }

  /** 25 000 records give two full flushes and a final flush of 5 000. */
  lemma ThreeFlushes(rows: seq<VarScanRow>)
    requires |rows| == 25000
    ensures |Batches(rows)| == 3
    ensures |Chunks(rows)[0]| == |Chunks(rows)[1]| == 10000 && |Chunks(rows)[2]| == 5000
  {
    var r1 := rows[FlushSize..];
    var r2 := r1[FlushSize..];
    assert Chunks(r1) == [r1[..FlushSize]] + Chunks(r2);
    assert Chunks(rows) == [rows[..FlushSize], r1[..FlushSize], r2];
  }

  /** Exactly 10 000 records: one full flush and an empty final flush. */
  lemma EmptyFinalFlush(rows: seq<VarScanRow>)
    requires |rows| == 10000
    ensures Batches(rows) == [Group(rows), map[]]
  {
    assert rows[..FlushSize] == rows;
    assert Chunks(rows) == [rows, []];
  }
}
