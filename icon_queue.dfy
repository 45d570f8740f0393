/**
 * The icon fetcher's retrying queue: items are processed in batches of `batchSize`, a
 * failure without an error code is re-queued with one more attempt while attempts stay
 * below `maxRetries`, and each processed batch leaves the front of the queue.
 * The asynchronous function's results are a parameter: `results(i, j)` is how the j-th
 * call of the i-th batch settled.
 */
module IconQueue {
  import opened Wrappers
  import Sequences

  const DefaultBatchSize: nat := 5
  const DefaultIntervalSeconds: nat := 10
  const DefaultMaxRetries: int := 3

  function Min(a: nat, b: nat): nat
  {
    if a <= b then a else b
  }

  /** What is queued: the caller's item, here named by a string. */
  type Payload = string

  /** An item as passed to `add`: it may already carry the two bookkeeping properties. */
  datatype Incoming = Incoming(payload: Payload, attempts: Option<int>, toRetry: Option<bool>)

  datatype Queued = Queued(payload: Payload, attempts: int, toRetry: bool)

  /** How one call settled; a rejection carries the reason's `code`, if any. */
  datatype Settled = Fulfilled(value: string) | Rejected(code: Option<string>)

  /** One call of `onFulfilled`. */
  datatype Delivery = Delivery(payload: Payload, value: string)

  /** `add`'s queueable item: missing bookkeeping defaults to 0 attempts and not a retry. */
  function Queueable(item: Incoming): (q: Queued)
    ensures q.payload == item.payload
    ensures q.attempts == (if item.attempts.Some? then item.attempts.value else 0)
    ensures q.toRetry <==> item.toRetry == Some(true)
  {
    Queued(item.payload, item.attempts.GetOr(0), item.toRetry.GetOr(false))
  }

  /** A retry is queued as a copy of the item with `toRetry` set. */
  function RetryOf(q: Queued): Incoming
  {
    Incoming(q.payload, Some(q.attempts), Some(true))
  }

  /** Queueing a retry keeps the item and its attempts and marks it as a retry. */
  lemma QueueableRetry(q: Queued)
    ensures Queueable(RetryOf(q)) == q.(toRetry := true)
  {
  }

  // ---------------------------------------------------------------- batches

  /** The batches of `s`: consecutive slices of `size` items, the last one possibly shorter. */
  function Batches<T>(s: seq<T>, size: nat): seq<seq<T>>
    requires size > 0
    decreases |s|
  {
    if s == [] then [] else var k := Min(size, |s|); [s[..k]] + Batches(s[k..], size)
  }

  function Concat<T>(bs: seq<seq<T>>): seq<T>
  {
    if bs == [] then [] else bs[0] + Concat(bs[1..])
  }

  /** The batches put back together are the input. */
  lemma {:induction false} BatchesConcat<T>(s: seq<T>, size: nat)
    requires size > 0
    ensures Concat(Batches(s, size)) == s
    decreases |s|
  {
    if s != [] {
      var k := Min(size, |s|);
      BatchesConcat(s[k..], size);
      assert ([s[..k]] + Batches(s[k..], size))[1..] == Batches(s[k..], size);
      assert s[..k] + s[k..] == s;
    }
  }

  /**
   * Every batch but the last holds exactly `size` items, the last holds between one and
   * `size`, and there are ceil(n / size) of them: the fewest batches of `size` that hold
   * all n items.
   */
  lemma {:induction false} BatchesShape<T>(s: seq<T>, size: nat)
    requires size > 0
    ensures var bs := Batches(s, size);
      && (bs == [] <==> s == [])
      && (|bs| - 1) * size < |s| <= |bs| * size
      && (forall i :: 0 <= i < |bs| - 1 ==> |bs[i]| == size)
      && (bs != [] ==> 1 <= |bs[|bs| - 1]| <= size)
    decreases |s|
  {
    var bs := Batches(s, size);
    if s != [] {
      var k := Min(size, |s|);
      var rest := Batches(s[k..], size);
      BatchesShape(s[k..], size);
      assert bs[1..] == rest;
      if |s| > size {
        var m := |rest|;
        assert (m + 1) * size == m * size + size;
        assert (m + 1 - 1) * size == (m - 1) * size + size;
      }
    }
  }

  /** The batches from position `i` on: the slice at `i`, then those after it. */
  lemma BatchesFrom<T>(items: seq<T>, i: nat, size: nat)
    requires size > 0 && i < |items|
    ensures Batches(items[i..], size)
      == [items[i..Min(i + size, |items|)]] + Batches(items[Min(i + size, |items|)..], size)
  {
    var rest := items[i..];
    assert rest[..Min(size, |rest|)] == items[i..Min(i + size, |items|)];
    assert rest[Min(size, |rest|)..] == items[Min(i + size, |items|)..];
  }

  /** `createBatches`: slices of `size` items taken from the front, the last one clamped. */
  method CreateBatches<T>(items: seq<T>, size: nat) returns (batches: seq<seq<T>>)
    requires size > 0
    ensures batches == Batches(items, size)
  {
    batches := [];
    var i := 0;
    while i < |items|
      invariant 0 <= i
      invariant batches + Batches(items[Min(i, |items|)..], size) == Batches(items, size)
      decreases |items| - i
    {
      BatchesFrom(items, i, size);
      var batch := items[i..Min(i + size, |items|)];
      batches := batches + [batch];
      i := i + size;
    }
    assert items[Min(i, |items|)..] == [];
  }

  // ---------------------------------------------------------------- settling a batch

  /** A rejection whose reason has no (or an empty) code may be retried. */
  predicate Retryable(o: Settled)
  {
    o.Rejected? && (o.code.None? || o.code.value == "")
  }

  /** `batch[j]` after its call settled: one more attempt when the failure may be retried. */
  function SettledItem(q: Queued, o: Settled): (r: Queued)
    ensures r.payload == q.payload && r.toRetry == q.toRetry
    ensures r.attempts == if Retryable(o) then q.attempts + 1 else q.attempts
  {
    if Retryable(o) then q.(attempts := q.attempts + 1) else q
  }

  /**
   * What one settled call puts back on the queue: a failure without a code comes back,
   * with one more attempt and marked as a retry, only while its attempts stay below
   * `maxRetries`; successes and failures with a code never come back.
   */
  function Requeue(q: Queued, o: Settled, maxRetries: int): (r: seq<Queued>)
    ensures |r| <= 1
    ensures r != [] <==> Retryable(o) && q.attempts + 1 < maxRetries
    ensures r != [] ==> r[0] == Queued(q.payload, q.attempts + 1, true)
  {
    if Retryable(o) && SettledItem(q, o).attempts < maxRetries then
      [Queueable(RetryOf(SettledItem(q, o)))]
    else []
  }

  function Delivered1(q: Queued, o: Settled): seq<Delivery>
  {
    if o.Fulfilled? then [Delivery(q.payload, o.value)] else []
  }

  /** The items of a batch after it settled. */
  function SettledItems(batch: seq<Queued>, outs: seq<Settled>): (r: seq<Queued>)
    requires |outs| == |batch|
    ensures |r| == |batch| && forall j :: 0 <= j < |batch| ==> r[j] == SettledItem(batch[j], outs[j])
  {
    seq(|batch|, j requires 0 <= j < |batch| => SettledItem(batch[j], outs[j]))
  }

  /** Everything a batch puts back on the queue, in the order of its items. */
  function Requeued(batch: seq<Queued>, outs: seq<Settled>, maxRetries: int): seq<Queued>
    requires |outs| == |batch|
  {
    if batch == [] then []
    else
      var n := |batch| - 1;
      Requeued(batch[..n], outs[..n], maxRetries) + Requeue(batch[n], outs[n], maxRetries)
  }

  /** Every `onFulfilled` call of a batch, in the order of its items. */
  function Delivered(batch: seq<Queued>, outs: seq<Settled>): seq<Delivery>
    requires |outs| == |batch|
  {
    if batch == [] then []
    else
      var n := |batch| - 1;
      Delivered(batch[..n], outs[..n]) + Delivered1(batch[n], outs[n])
  }

  /** Every re-queued item is a retry whose attempts are below `maxRetries`; none is added twice. */
  lemma {:induction false} RequeuedBounds(batch: seq<Queued>, outs: seq<Settled>, maxRetries: int)
    requires |outs| == |batch|
    ensures var r := Requeued(batch, outs, maxRetries);
      |r| <= |batch| && forall k :: 0 <= k < |r| ==> r[k].toRetry && r[k].attempts < maxRetries
  {
    if batch != [] {
      var n := |batch| - 1;
      RequeuedBounds(batch[..n], outs[..n], maxRetries);
    }
  }

  /** A batch in which every failure carries an error code puts nothing back. */
  lemma {:induction false} CodedFailuresNotRequeued(batch: seq<Queued>, outs: seq<Settled>, maxRetries: int)
    requires |outs| == |batch|
    requires forall j :: 0 <= j < |outs| ==> !Retryable(outs[j])
    ensures Requeued(batch, outs, maxRetries) == []
  {
    if batch != [] {
      var n := |batch| - 1;
      CodedFailuresNotRequeued(batch[..n], outs[..n], maxRetries);
    }
  }

  /** The batch functions taken one item further. */
  lemma SettleSnoc(batch: seq<Queued>, outs: seq<Settled>, j: nat, maxRetries: int)
    requires |outs| == |batch| && j < |batch|
    ensures Requeued(batch[..j + 1], outs[..j + 1], maxRetries)
      == Requeued(batch[..j], outs[..j], maxRetries) + Requeue(batch[j], outs[j], maxRetries)
    ensures Delivered(batch[..j + 1], outs[..j + 1]) == Delivered(batch[..j], outs[..j]) + Delivered1(batch[j], outs[j])
  {
    assert batch[..j + 1][..j] == batch[..j] && outs[..j + 1][..j] == outs[..j];
  }

  /**
   * One step of the `forEach` over a settled batch: a success is delivered; a failure
   * without a code rewrites `b[j]` with one more attempt and is re-queued while its
   * attempts stay below `maxRetries`.
   */
  method SettleOne(b: array<Queued>, j: nat, o: Settled, maxRetries: int)
    returns (requeued: seq<Queued>, delivered: seq<Delivery>)
    requires j < b.Length
    modifies b
    ensures b[j] == SettledItem(old(b[j]), o)
    ensures forall k :: 0 <= k < b.Length && k != j ==> b[k] == old(b[k])
    ensures requeued == Requeue(old(b[j]), o, maxRetries)
    ensures delivered == Delivered1(old(b[j]), o)
  {
    requeued, delivered := [], [];
    match o {
      case Fulfilled(v) =>
        delivered := [Delivery(b[j].payload, v)];
      case Rejected(code) =>
        if code.None? || code.value == "" {
          b[j] := b[j].(attempts := b[j].attempts + 1);
          if b[j].attempts < maxRetries {
            requeued := [Queueable(RetryOf(b[j]))];
          }
        }
    }
  }

  /** The `forEach` over a settled batch, its elements rewritten in place. */
  method SettleBatch(b: array<Queued>, outs: seq<Settled>, maxRetries: int)
    returns (requeued: seq<Queued>, delivered: seq<Delivery>)
    requires |outs| == b.Length
    modifies b
    ensures b[..] == SettledItems(old(b[..]), outs)
    ensures requeued == Requeued(old(b[..]), outs, maxRetries)
    ensures delivered == Delivered(old(b[..]), outs)
  {
    ghost var batch := b[..];
    requeued, delivered := [], [];
    for j := 0 to b.Length
      invariant forall k :: j <= k < b.Length ==> b[k] == batch[k]
      invariant forall k :: 0 <= k < j ==> b[k] == SettledItem(batch[k], outs[k])
      invariant requeued == Requeued(batch[..j], outs[..j], maxRetries)
      invariant delivered == Delivered(batch[..j], outs[..j])
    {
      SettleSnoc(batch, outs, j, maxRetries);
      var more, newly := SettleOne(b, j, outs[j], maxRetries);
      requeued := requeued + more;
      delivered := delivered + newly;
    }
    assert batch[..b.Length] == batch && outs[..b.Length] == outs;
  }

  // ---------------------------------------------------------------- removing a processed batch

  /** `queue.splice(0, n)`: the first `n` items leave, fewer if the queue is shorter. */
  function Spliced(queue: seq<Queued>, n: nat): seq<Queued>
  {
    queue[Min(n, |queue|)..]
  }

  /**
   * As written, the queue drops `batchSize` items after every batch, whatever the batch's
   * length; the re-queued items of the batch have been appended first.
   */
  function StepAsWritten(queue: seq<Queued>, batch: seq<Queued>, outs: seq<Settled>, batchSize: nat, maxRetries: int): seq<Queued>
    requires |outs| == |batch|
  {
    Spliced(queue + Requeued(batch, outs, maxRetries), batchSize)
  }

  /** As intended, the queue drops exactly the items of the batch just processed. */
  function Step(queue: seq<Queued>, batch: seq<Queued>, outs: seq<Settled>, maxRetries: int): seq<Queued>
    requires |outs| == |batch|
  {
    Spliced(queue + Requeued(batch, outs, maxRetries), |batch|)
  }

  /** The intended step removes the batch from the front and keeps the rest and every retry. */
  lemma StepRemovesBatch(queue: seq<Queued>, batch: seq<Queued>, rest: seq<Queued>, outs: seq<Settled>, maxRetries: int)
    requires |outs| == |batch| && queue == batch + rest
    ensures Step(queue, batch, outs, maxRetries) == rest + Requeued(batch, outs, maxRetries)
  {
    var q := queue + Requeued(batch, outs, maxRetries);
    assert q[|batch|..] == rest + Requeued(batch, outs, maxRetries);
  }

  /**
   * As written, a lone item that fails without a code is never retried: its retry is
   * queued behind it and the splice of five items removes both.
   */
  lemma StepAsWrittenDropsRetry()
    ensures var a := Queued("a", 0, false);
      && StepAsWritten([a], [a], [Rejected(None)], DefaultBatchSize, DefaultMaxRetries) == []
      && Step([a], [a], [Rejected(None)], DefaultMaxRetries) == [Queued("a", 1, true)]
  {
    var a := Queued("a", 0, false);
    assert Requeued([a], [Rejected(None)], DefaultMaxRetries) == [Queued("a", 1, true)] by {
      assert [a][..0] == [];
    }
  }

  // ---------------------------------------------------------------- the queue

  /** How the calls of batch `i` settled. */
  function Outcomes(results: (nat, nat) -> Settled, i: nat, n: nat): (r: seq<Settled>)
    ensures |r| == n
  {
    seq(n, j requires 0 <= j < n => results(i, j))
  }

  /** The retries queued by the first `n` batches, in order. */
  function RequeuedUpTo(bs: seq<seq<Queued>>, results: (nat, nat) -> Settled, n: nat, maxRetries: int): seq<Queued>
    requires n <= |bs|
  {
    if n == 0 then []
    else
      RequeuedUpTo(bs, results, n - 1, maxRetries)
      + Requeued(bs[n - 1], Outcomes(results, n - 1, |bs[n - 1]|), maxRetries)
  }

  /** The `onFulfilled` calls of the first `n` batches, in order. */
  function DeliveredUpTo(bs: seq<seq<Queued>>, results: (nat, nat) -> Settled, n: nat): seq<Delivery>
    requires n <= |bs|
  {
    if n == 0 then []
    else DeliveredUpTo(bs, results, n - 1) + Delivered(bs[n - 1], Outcomes(results, n - 1, |bs[n - 1]|))
  }

  lemma ConcatFrom<T>(bs: seq<seq<T>>, i: nat)
    requires i < |bs|
    ensures Concat(bs[i..]) == bs[i] + Concat(bs[i + 1..])
  {
    assert bs[i..][1..] == bs[i + 1..];
  }

  /** Processing batch `i` takes it off the front and appends its retries to the earlier ones. */
  lemma PassStep(bs: seq<seq<Queued>>, results: (nat, nat) -> Settled, i: nat, maxRetries: int)
    requires i < |bs|
    ensures Step(Concat(bs[i..]) + RequeuedUpTo(bs, results, i, maxRetries), bs[i],
                 Outcomes(results, i, |bs[i]|), maxRetries)
      == Concat(bs[i + 1..]) + RequeuedUpTo(bs, results, i + 1, maxRetries)
  {
    var outs := Outcomes(results, i, |bs[i]|);
    var earlier := RequeuedUpTo(bs, results, i, maxRetries);
    var later := Concat(bs[i + 1..]);
    var added := Requeued(bs[i], outs, maxRetries);
    ConcatFrom(bs, i);
    StepRemovesBatch(Concat(bs[i..]) + earlier, bs[i], later + earlier, outs, maxRetries);
    assert RequeuedUpTo(bs, results, i + 1, maxRetries) == earlier + added;
    assert later + earlier + added == later + (earlier + added);
  }

  /** Batches as `createBatches` makes them: all full but the last, which is not over full. */
  predicate Filled(bs: seq<seq<Queued>>, size: nat)
  {
    && (forall j :: 0 <= j < |bs| - 1 ==> |bs[j]| == size)
    && (bs != [] ==> |bs[|bs| - 1]| <= size)
  }

  /** How many places the last batch is short of `size`: what `splice(0, batchSize)` takes beyond it. */
  function Shortfall(bs: seq<seq<Queued>>, size: nat): nat
    requires Filled(bs, size)
  {
    if bs == [] then 0 else size - |bs[|bs| - 1]|
  }

  /** A full batch is spliced away by its own length, so the step as written is the corrected one. */
  lemma PassStepAsWritten(bs: seq<seq<Queued>>, results: (nat, nat) -> Settled, i: nat, size: nat, maxRetries: int)
    requires i < |bs| && |bs[i]| == size
    ensures StepAsWritten(Concat(bs[i..]) + RequeuedUpTo(bs, results, i, maxRetries), bs[i],
                          Outcomes(results, i, |bs[i]|), size, maxRetries)
      == Concat(bs[i + 1..]) + RequeuedUpTo(bs, results, i + 1, maxRetries)
  {
    PassStep(bs, results, i, maxRetries);
  }

  /**
   * The last batch, `Shortfall` places short of `size`: as written, splicing `size`
   * items takes the batch and then that many of the oldest retries.
   */
  lemma LastStepAsWritten(bs: seq<seq<Queued>>, results: (nat, nat) -> Settled, size: nat, maxRetries: int)
    requires bs != [] && Filled(bs, size)
    ensures var i := |bs| - 1;
      StepAsWritten(Concat(bs[i..]) + RequeuedUpTo(bs, results, i, maxRetries), bs[i],
                    Outcomes(results, i, |bs[i]|), size, maxRetries)
      == Spliced(RequeuedUpTo(bs, results, |bs|, maxRetries), Shortfall(bs, size))
  {
    var i := |bs| - 1;
    var last := bs[i];
    var all := RequeuedUpTo(bs, results, |bs|, maxRetries);
    ConcatFrom(bs, i);
    assert bs[i + 1..] == [];
    assert Concat(bs[i..]) == last;
    assert all == RequeuedUpTo(bs, results, i, maxRetries) + Requeued(last, Outcomes(results, i, |last|), maxRetries);
    var q := last + all;
    assert Concat(bs[i..]) + RequeuedUpTo(bs, results, i, maxRetries) + Requeued(last, Outcomes(results, i, |last|), maxRetries) == q;
    assert q[Min(size, |q|)..] == all[Min(size - |last|, |all|)..];
  }

  /**
   * The queue after `i` of the batches `bs` have been processed as written: the
   * batches still to come, then the retries so far; after the last batch, the retries
   * less the `Shortfall` oldest.
   */
  function QueueAfter(bs: seq<seq<Queued>>, results: (nat, nat) -> Settled, i: nat, size: nat, maxRetries: int): seq<Queued>
    requires i <= |bs| && Filled(bs, size)
  {
    if i < |bs| then Concat(bs[i..]) + RequeuedUpTo(bs, results, i, maxRetries)
    else Spliced(RequeuedUpTo(bs, results, i, maxRetries), Shortfall(bs, size))
  }

  /** Before any batch is processed the queue holds the batches in order. */
  lemma QueueAfterStart(bs: seq<seq<Queued>>, results: (nat, nat) -> Settled, size: nat, maxRetries: int)
    requires Filled(bs, size)
    ensures QueueAfter(bs, results, 0, size, maxRetries) == Concat(bs)
  {
    assert bs[0..] == bs;
  }

  /** Processing batch `i` as written moves the queue from `QueueAfter` `i` to `i + 1` and delivers its successes. */
  lemma StepAfter(bs: seq<seq<Queued>>, results: (nat, nat) -> Settled, i: nat, size: nat, maxRetries: int)
    requires i < |bs| && Filled(bs, size)
    ensures StepAsWritten(QueueAfter(bs, results, i, size, maxRetries), bs[i], Outcomes(results, i, |bs[i]|), size, maxRetries)
      == QueueAfter(bs, results, i + 1, size, maxRetries)
    ensures DeliveredUpTo(bs, results, i + 1) == DeliveredUpTo(bs, results, i) + Delivered(bs[i], Outcomes(results, i, |bs[i]|))
  {
    if i + 1 < |bs| {
      PassStepAsWritten(bs, results, i, size, maxRetries);
    } else {
      LastStepAsWritten(bs, results, size, maxRetries);
    }
  }

  class AsyncQueue {
    var queue: seq<Queued>
    /** Every `onFulfilled` call, oldest first. */
    var delivered: seq<Delivery>
    const batchSize: nat
    const intervalSeconds: nat
    const maxRetries: int

    /** The constructor's defaults: batches of 5, a 10-second wait, 3 attempts. */
    constructor(batchSize: nat := DefaultBatchSize, intervalSeconds: nat := DefaultIntervalSeconds,
                maxRetries: int := DefaultMaxRetries)
      ensures this.batchSize == batchSize && this.intervalSeconds == intervalSeconds
      ensures this.maxRetries == maxRetries
      ensures queue == [] && delivered == []
    {
      this.batchSize := batchSize;
      this.intervalSeconds := intervalSeconds;
      this.maxRetries := maxRetries;
      queue := [];
      delivered := [];
    }

    /** `add`: one item is appended, with its bookkeeping defaulted. */
    method Add(item: Incoming)
      modifies this
      ensures queue == old(queue) + [Queueable(item)]
      ensures delivered == old(delivered)
    {
      queue := queue + [Queueable(item)];
    }

    /**
     * The body of `process`'s loop for batch `i`: its calls settle, the successes are
     * delivered, the retries are added, and `batchSize` items leave the front of the
     * queue, as written, whatever the length of the batch.
     */
    method ProcessBatch(batch: seq<Queued>, i: nat, results: (nat, nat) -> Settled)
      modifies this
      ensures var outs := Outcomes(results, i, |batch|);
        && queue == StepAsWritten(old(queue), batch, outs, batchSize, maxRetries)
        && delivered == old(delivered) + Delivered(batch, outs)
    {
      var b := new Queued[|batch|](j requires 0 <= j < |batch| => batch[j]);
      assert b[..] == batch;
      var outs := Outcomes(results, i, |batch|);
      var requeued, newly := SettleBatch(b, outs, maxRetries);
      delivered := delivered + newly;
      queue := queue + requeued;
      queue := Spliced(queue, batchSize);
    }

    /**
     * `process`'s loop over batches made by `createBatches`, the queue holding them in
     * order: each full batch leaves and its retries are appended; the last one leaves
     * together with `Shortfall` of the oldest retries.
     */
    method RunBatches(batchArray: seq<seq<Queued>>, results: (nat, nat) -> Settled)
      requires queue == Concat(batchArray) && Filled(batchArray, batchSize)
      modifies this
      ensures queue == Spliced(RequeuedUpTo(batchArray, results, |batchArray|, maxRetries), Shortfall(batchArray, batchSize))
      ensures delivered == old(delivered) + DeliveredUpTo(batchArray, results, |batchArray|)
    {
      QueueAfterStart(batchArray, results, batchSize, maxRetries);
      for i := 0 to |batchArray|
        invariant queue == QueueAfter(batchArray, results, i, batchSize, maxRetries)
        invariant delivered == old(delivered) + DeliveredUpTo(batchArray, results, i)
      {
        StepAfter(batchArray, results, i, batchSize, maxRetries);
        Sequences.ConcatAssoc(old(delivered), DeliveredUpTo(batchArray, results, i),
                    Delivered(batchArray[i], Outcomes(results, i, |batchArray[i]|)));
        ProcessBatch(batchArray[i], i, results);
      }
    }

    /**
     * One pass of `process` over the batches of the queue as it stood: every item of the
     * pass leaves the queue and the successes are delivered in order. Of the retries the
     * pass produced, in order, all remain but the first `Shortfall` ones, which the
     * fixed `splice(0, batchSize)` after a short last batch removes (see
     * `StepAsWrittenDropsRetry`); when the last batch is full, every retry remains.
     */
    method Process(results: (nat, nat) -> Settled)
      requires batchSize > 0
      modifies this
      ensures var bs := Batches(old(queue), batchSize);
        && Filled(bs, batchSize)
        && queue == Spliced(RequeuedUpTo(bs, results, |bs|, maxRetries), Shortfall(bs, batchSize))
        && delivered == old(delivered) + DeliveredUpTo(bs, results, |bs|)
    {
      BatchesShape(queue, batchSize);
      if |queue| == 0 {
        return;
      }
      var batchArray := CreateBatches(queue, batchSize);
      BatchesConcat(queue, batchSize);
      RunBatches(batchArray, results);
    }
  }
}
