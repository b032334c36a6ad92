/**
 The window loop every `_classify_chromosome` variant runs: a chromosome of
 `end` rows is cut into consecutive half-open windows `[start, stop)` of at
 most 100 000 rows, starting at 0, so that only one window of counts is ever
 handed to a model at a time.
 */
module Chunking {
  import opened Seqs

  /** `n = int( 1e5 )` in the loop. */
  const WindowSize: nat := 100000

  datatype Window = Window(start: nat, stop: nat)
  {
    function Length(): int { stop - start }
  }

  /** Number of windows a chromosome of `end` rows needs: ceil(end / WindowSize). */
  function WindowCount(end: nat): nat
  {
    (end + WindowSize - 1) / WindowSize
  }

  /**
   `ws` tiles `[0, end)`: it starts at 0, each window begins where the previous
   one stopped, the last stops at `end` and none reaches past it, no window is
   empty, none is longer than WindowSize, and only the last may be shorter.
   */
  ghost predicate Partition(ws: seq<Window>, end: nat)
  {
    && (|ws| == 0 <==> end == 0)
    && (|ws| > 0 ==> ws[0].start == 0 && ws[|ws| - 1].stop == end)
    && (forall k :: 0 <= k < |ws| - 1 ==> ws[k].stop == ws[k + 1].start)
    && (forall k :: 0 <= k < |ws| ==> 0 < ws[k].Length() <= WindowSize && ws[k].stop <= end)
    && (forall k :: 0 <= k < |ws| - 1 ==> ws[k].Length() == WindowSize)
  }

  /** The windows the loop visits, in order: window k is [k*W, min((k+1)*W, end)). */
  function Windows(end: nat): (ws: seq<Window>)
    ensures Partition(ws, end)
    ensures |ws| == WindowCount(end)
  {
    seq(WindowCount(end), k requires 0 <= k => Window(k * WindowSize, Min((k + 1) * WindowSize, end)))
  }

  /**
   The loop exactly as written: `start = 0; stop = min(n, end)`, then while
   `start < end` visit `[start, stop)` and move on with `start = stop;
   stop = min(stop + n, end)`.
   */
  method WindowLoop(end: nat) returns (ws: seq<Window>)
    ensures ws == Windows(end)
  {
    var n := WindowSize;
    var start: nat := 0;
    var stop: nat := Min(n, end);
    ws := [];
    while start < end
      invariant start == Min(|ws| * n, end)
      invariant stop == Min(start + n, end)
      invariant |ws| == 0 || (|ws| - 1) * n < end
      invariant |ws| <= WindowCount(end)
      invariant ws == Windows(end)[..|ws|]
      decreases end - start
    {
      ws := ws + [Window(start, stop)];
      start := stop;
      stop := Min(stop + n, end);
    }
  }

  /** Any tiling of [0, end) with the shape above is the loop's: the conditions fix every window. */
  lemma {:induction false} PartitionUnique(ws: seq<Window>, end: nat)
    requires Partition(ws, end)
    ensures ws == Windows(end)
  {
    PartitionStarts(ws, end, |ws|);
    var expected := Windows(end);
    if |ws| > 0 {
      var last := |ws| - 1;
      assert ws[last].start == last * WindowSize;
      assert |ws| == WindowCount(end);
      forall k | 0 <= k < |ws|
        ensures ws[k] == expected[k]
      {
        if k < last {
          assert ws[k].stop == ws[k + 1].start;
        }
      }
    }
  }

  lemma {:induction false} PartitionStarts(ws: seq<Window>, end: nat, m: nat)
    requires Partition(ws, end)
    requires m <= |ws|
    ensures forall k :: 0 <= k < m ==> ws[k].start == k * WindowSize
  {
    if m > 0 {
      PartitionStarts(ws, end, m - 1);
      var k := m - 1;
      if k > 0 {
        assert ws[k - 1].stop == ws[k].start;
        assert ws[k - 1].Length() == WindowSize;
      }
    }
  }

  /** Every row position falls in exactly one window: window p / WindowSize. */
  lemma WindowOf(end: nat, p: nat)
    requires p < end
    ensures var ws := Windows(end);
      && p / WindowSize < |ws|
      && ws[p / WindowSize].start <= p < ws[p / WindowSize].stop
      && forall k :: 0 <= k < |ws| && k != p / WindowSize ==> !(ws[k].start <= p < ws[k].stop)
  {
    var ws := Windows(end);
    var q := p / WindowSize;
    forall k | 0 <= k < |ws| && k != q
      ensures !(ws[k].start <= p < ws[k].stop)
    {
      if k < q {
        assert ws[k].stop <= (k + 1) * WindowSize <= q * WindowSize;
      } else {
        assert ws[k].start == k * WindowSize >= (q + 1) * WindowSize;
      }
    }
  }

  /** A chromosome of 250 000 rows is read as [0,100000), [100000,200000), [200000,250000). */
  lemma ThreeWindows()
    ensures Windows(250000) == [Window(0, 100000), Window(100000, 200000), Window(200000, 250000)]
  {
  }
}
