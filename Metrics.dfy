/**
 * `metrics.Collector`: folds the stream of per-pack outcomes into two counters and logs a line
 * whenever the success counter is a multiple of the batch size. The failure branch tests the
 * success counter too, so while that counter sits on a multiple every failure is logged.
 * The log lines become an appended sequence of events.
 */
module Metrics {
  import opened GoTypes

  /** The default batch size of the configuration. */
  const MetricsBatchSize: int := 10

  datatype ProcessingResult = ProcessingResult(successfullyCount: nat, failedCount: nat)

  const Zero: ProcessingResult := ProcessingResult(0, 0)

  /** "Successfully processed n items" and "Failed processing n items". */
  datatype LogEvent = SuccessLog(count: int) | FailureLog(count: int)

  /** One outcome: the counters afterwards and the log line, if any. */
  function Step(r: ProcessingResult, ok: bool, batchSize: int): (out: (ProcessingResult, Option<LogEvent>))
    requires batchSize > 0
    ensures ok ==> out.0 == ProcessingResult(r.successfullyCount + 1, r.failedCount)
    ensures !ok ==> out.0 == ProcessingResult(r.successfullyCount, r.failedCount + 1)
    ensures ok ==> (out.1.Some? <==> out.0.successfullyCount % batchSize == 0)
    ensures !ok ==> (out.1.Some? <==> r.successfullyCount % batchSize == 0)
    ensures out.1.Some? ==> out.1.value == if ok then SuccessLog(out.0.successfullyCount) else FailureLog(out.0.failedCount)
  {
    if ok then
      var next := r.(successfullyCount := r.successfullyCount + 1);
      (next, if next.successfullyCount % batchSize == 0 then Some(SuccessLog(next.successfullyCount)) else None)
    else
      var next := r.(failedCount := r.failedCount + 1);
      (next, if next.successfullyCount % batchSize == 0 then Some(FailureLog(next.failedCount)) else None)
  }

  /** The counters and the log after consuming a stream, in order. */
  function Fold(r: ProcessingResult, input: seq<bool>, batchSize: int): (out: (ProcessingResult, seq<LogEvent>))
    requires batchSize > 0
    ensures |out.1| <= |input|
  {
    if |input| == 0 then (r, [])
    else
      var (mid, events) := Fold(r, input[..|input| - 1], batchSize);
      var (next, event) := Step(mid, input[|input| - 1], batchSize);
      (next, events + if event.Some? then [event.value] else [])
  }

  function CountOf(input: seq<bool>, b: bool): (n: nat)
    ensures n <= |input|
  {
    if |input| == 0 then 0 else CountOf(input[..|input| - 1], b) + if input[|input| - 1] == b then 1 else 0
  }

  class Collector {
    var result: ProcessingResult
    var events: seq<LogEvent>

    constructor ()
      ensures result == Zero && events == []
    {
      result := Zero;
      events := [];
    }

    /** Consumes the whole input stream; the batch size must be positive for the modulus. */
    method Start(input: seq<bool>, batchSize: int)
      requires batchSize > 0
      modifies this
      ensures result == Fold(old(result), input, batchSize).0
      ensures events == old(events) + Fold(old(result), input, batchSize).1
    {
      for i := 0 to |input|
        invariant result == Fold(old(result), input[..i], batchSize).0
        invariant events == old(events) + Fold(old(result), input[..i], batchSize).1
      {
        assert input[..i + 1][..i] == input[..i];
        var ok := input[i];
        if ok {
          result := result.(successfullyCount := result.successfullyCount + 1);
          if result.successfullyCount % batchSize == 0 {
            events := events + [SuccessLog(result.successfullyCount)];
          }
        } else {
          result := result.(failedCount := result.failedCount + 1);
          if result.successfullyCount % batchSize == 0 {
            events := events + [FailureLog(result.failedCount)];
          }
        }
      }
      assert input[..|input|] == input;
    }
  }

  /** The counters add the number of true and of false outcomes; together they grow by the stream length. */
  lemma {:induction false} FoldCounts(r: ProcessingResult, input: seq<bool>, batchSize: int)
    requires batchSize > 0
    ensures Fold(r, input, batchSize).0.successfullyCount == r.successfullyCount + CountOf(input, true)
    ensures Fold(r, input, batchSize).0.failedCount == r.failedCount + CountOf(input, false)
    ensures CountOf(input, true) + CountOf(input, false) == |input|
  {
    if |input| > 0 {
      FoldCounts(r, input[..|input| - 1], batchSize);
    }
  }

  /** From zero counters, the totals are the numbers of successes and failures and sum to the stream length. */
  lemma FoldFromZero(input: seq<bool>, batchSize: int)
    requires batchSize > 0
    ensures Fold(Zero, input, batchSize).0 == ProcessingResult(CountOf(input, true), CountOf(input, false))
    ensures Fold(Zero, input, batchSize).0.successfullyCount + Fold(Zero, input, batchSize).0.failedCount == |input|
  {
    FoldCounts(Zero, input, batchSize);
  }

  /** Consuming more of the stream never decreases either counter. */
  lemma {:induction false} FoldMonotone(r: ProcessingResult, input: seq<bool>, k: nat, batchSize: int)
    requires batchSize > 0 && k <= |input|
    ensures Fold(r, input[..k], batchSize).0.successfullyCount <= Fold(r, input, batchSize).0.successfullyCount
    ensures Fold(r, input[..k], batchSize).0.failedCount <= Fold(r, input, batchSize).0.failedCount
    decreases |input|
  {
    if k < |input| {
      var init := input[..|input| - 1];
      assert init[..k] == input[..k];
      FoldMonotone(r, init, k, batchSize);
    } else {
      assert input[..k] == input;
    }
  }

  /** A success line reports every multiple of the batch size that the success counter reaches, and nothing else. */
  lemma {:induction false} SuccessLogs(r: ProcessingResult, input: seq<bool>, batchSize: int)
    requires batchSize > 0
    ensures forall k :: SuccessLog(k) in Fold(r, input, batchSize).1 <==>
              r.successfullyCount < k <= Fold(r, input, batchSize).0.successfullyCount && k % batchSize == 0
  {
    if |input| > 0 {
      var init := input[..|input| - 1];
      SuccessLogs(r, init, batchSize);
      FoldCounts(r, init, batchSize);
      FoldCounts(r, input, batchSize);
    }
  }

  /** While the success counter sits on a multiple of the batch size, every failure is logged with the new failure count. */
  lemma {:induction false} FailuresLoggedWhileStalled(r: ProcessingResult, n: nat, batchSize: int)
    requires batchSize > 0 && r.successfullyCount % batchSize == 0
    ensures Fold(r, seq(n, _ => false), batchSize).0 == r.(failedCount := r.failedCount + n)
    ensures Fold(r, seq(n, _ => false), batchSize).1 == seq(n, i => FailureLog(r.failedCount + i + 1))
  {
    if n > 0 {
      var input := seq(n, _ => false);
      assert input[..n - 1] == seq(n - 1, _ => false);
      FailuresLoggedWhileStalled(r, n - 1, batchSize);
      assert seq(n - 1, i => FailureLog(r.failedCount + i + 1)) + [FailureLog(r.failedCount + n)]
          == seq(n, i => FailureLog(r.failedCount + i + 1));
    }
  }

  /** Once the success counter is off a multiple of the batch size, failures are not logged. */
  lemma {:induction false} FailuresSilentOffBatch(r: ProcessingResult, n: nat, batchSize: int)
    requires batchSize > 0 && r.successfullyCount % batchSize != 0
    ensures Fold(r, seq(n, _ => false), batchSize).0 == r.(failedCount := r.failedCount + n)
    ensures Fold(r, seq(n, _ => false), batchSize).1 == []
  {
    if n > 0 {
      var input := seq(n, _ => false);
      assert input[..n - 1] == seq(n - 1, _ => false);
      FailuresSilentOffBatch(r, n - 1, batchSize);
    }
  }

  /** With the default batch size: a first failure is logged, a failure after one success is not. */
  lemma QuirkExamples()
    ensures Fold(Zero, [false], MetricsBatchSize).1 == [FailureLog(1)]
    ensures Fold(Zero, [true, false], MetricsBatchSize).1 == []
  {
    FailuresLoggedWhileStalled(Zero, 1, MetricsBatchSize);
    assert seq(1, _ => false) == [false];
    var r1 := Fold(Zero, [true], MetricsBatchSize).0;
    assert [true] == [true, false][..1];
    assert [true][..0] == [];
  }
}
