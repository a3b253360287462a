/**
 * The reconciliation step of `push_data`: every fetched candle is compared
 * with one reference time (the last stored record, or a sentinel when the
 * store is empty) and turned into a write entry when it closes at least a
 * full minute after it; otherwise it is counted as skipped.
 *
 * The specification functions recurse on the prefix of the candle list, the
 * same order in which the method's loop appends to `entries`.
 */
module Reconciler {
  import opened Timestamps
  import MeasurementId

  /** A price or volume as fetched; its conversion to a float is left abstract. */
  datatype Decimal = Decimal(text: string)

  /** One 1-minute kline; the columns the importer never reads are omitted. */
  datatype Candle = Candle(
    openTime: Millis,
    open: Decimal,
    high: Decimal,
    low: Decimal,
    close: Decimal,
    volume: Decimal,
    closeTime: Millis)

  /** The two members of the exchange metadata that the entries carry. */
  datatype ExchangeInfo = ExchangeInfo(serverTime: Millis, timezone: string)

  /** Tags of a write entry; instants are whole epoch seconds, rendering left abstract. */
  datatype Tags = Tags(
    hostname: string,
    measurementId: string,
    environment: string,
    exchange: string,
    exchangeTime: int,
    exchangeTimeZone: string)

  /** Fields of a write entry, under the source's own keys. */
  datatype Fields = Fields(ot: int, o: Decimal, h: Decimal, l: Decimal, v: Decimal, c: Decimal, ct: int)

  /** One point handed to the time-series store. */
  datatype WriteEntry = WriteEntry(measurement: string, tags: Tags, time: int, fields: Fields)

  /**
   * What one call of `push_data` holds fixed for all its candles: the
   * configured series name, the host, the arguments, and the SHA-1 digest
   * function (a foreign call, so a parameter here).
   */
  datatype Batch = Batch(
    defaultSymbol: string,
    hostname: string,
    symbol: string,
    exchangeInfo: ExchangeInfo,
    environment: string,
    exchangeDomain: string,
    sha1: string -> string)

  /** The reference when the store query yields no row, and otherwise the last row iterated. */
  function ReferenceTime(storedTimes: seq<Millis>): Millis {
    if storedTimes == [] then SentinelMs else storedTimes[|storedTimes| - 1]
  }

  /** The write test: more than 59 whole seconds from the reference to the close. */
  predicate Accepts(lastMs: Millis, c: Candle) {
    ElapsedSeconds(lastMs, c.closeTime) > 59
  }

  /** The identity key of a candle within a batch. */
  function KeyOf(b: Batch, c: Candle): MeasurementId.Key {
    MeasurementId.Key(b.symbol, b.exchangeDomain, c.openTime, c.closeTime)
  }

  /** The entry built for an accepted candle. */
  function MakeEntry(b: Batch, c: Candle): WriteEntry {
    WriteEntry(
      b.defaultSymbol,
      Tags(
        b.hostname,
        MeasurementId.MeasurementIdOf(b.sha1, KeyOf(b, c)),
        b.environment,
        b.exchangeDomain,
        TruncSeconds(b.exchangeInfo.serverTime),
        b.exchangeInfo.timezone),
      TruncSeconds(c.closeTime),
      Fields(TruncSeconds(c.openTime), c.open, c.high, c.low, c.close, c.volume, TruncSeconds(c.closeTime)))
  }

  /** The entries written for `candles` against the reference `lastMs`. */
  function Reconcile(b: Batch, lastMs: Millis, candles: seq<Candle>): seq<WriteEntry>
    decreases |candles|
  {
    if candles == [] then []
    else
      var n := |candles| - 1;
      Reconcile(b, lastMs, candles[..n]) + (if Accepts(lastMs, candles[n]) then [MakeEntry(b, candles[n])] else [])
  }

  /** The number of candles the reconciliation skips. */
  function Skipped(lastMs: Millis, candles: seq<Candle>): nat
    decreases |candles|
  {
    if candles == [] then 0
    else
      var n := |candles| - 1;
      Skipped(lastMs, candles[..n]) + (if Accepts(lastMs, candles[n]) then 0 else 1)
  }

  /** Positions, in input order, of the candles that are written. */
  function AcceptedIndices(lastMs: Millis, candles: seq<Candle>): seq<nat>
    decreases |candles|
  {
    if candles == [] then []
    else
      var n := |candles| - 1;
      AcceptedIndices(lastMs, candles[..n]) + (if Accepts(lastMs, candles[n]) then [n] else [])
  }

  /** The loop before the scan: the last row the store query yields sets the reference. */
  method FindLastEntryTime(storedTimes: seq<Millis>) returns (lastEntryTime: Millis)
    ensures storedTimes == [] ==> lastEntryTime == SentinelMs
    ensures storedTimes != [] ==> lastEntryTime == storedTimes[|storedTimes| - 1]
  {
    lastEntryTime := SentinelMs;
    var i := 0;
    while i < |storedTimes|
      invariant 0 <= i <= |storedTimes|
      invariant lastEntryTime == ReferenceTime(storedTimes[..i])
    {
      lastEntryTime := storedTimes[i];
      i := i + 1;
    }
    assert storedTimes[..i] == storedTimes;
  }

  /**
   * The reconciliation of `push_data`: the entries to write and the count
   * of skipped candles, for the candles fetched and the times the store
   * query yields.
   */
  method PushData(b: Batch, candles: seq<Candle>, storedTimes: seq<Millis>)
    returns (entries: seq<WriteEntry>, skipped: nat)
    ensures entries == Reconcile(b, ReferenceTime(storedTimes), candles)
    ensures skipped == Skipped(ReferenceTime(storedTimes), candles)
    ensures |entries| + skipped == |candles|
  {
    var lastEntryTime := FindLastEntryTime(storedTimes);
    entries, skipped := [], 0;
    for i := 0 to |candles|
      invariant entries == Reconcile(b, lastEntryTime, candles[..i])
      invariant skipped == Skipped(lastEntryTime, candles[..i])
    {
      assert candles[..i + 1][..i] == candles[..i];
      var measurement := candles[i];
      var diff := ElapsedSeconds(lastEntryTime, measurement.closeTime);
      if diff > 59 {
        entries := entries + [MakeEntry(b, measurement)];
      } else {
        skipped := skipped + 1;
      }
    }
    assert candles[..|candles|] == candles;
    ReconcileCount(b, lastEntryTime, candles);
  }

  // ---------------------------------------------------------------------
  // Properties of the reconciliation
  // ---------------------------------------------------------------------

  /**
   * A candle is written exactly when it closes at least 60 s after the
   * reference: a diff of 59 s is skipped, 60 s is written, and a close at
   * or before the reference is skipped.
   */
  lemma AcceptsExactly(lastMs: Millis, c: Candle)
    ensures Accepts(lastMs, c) <==> c.closeTime - lastMs >= 60000
    ensures ElapsedSeconds(lastMs, c.closeTime) == 59 ==> !Accepts(lastMs, c)
    ensures ElapsedSeconds(lastMs, c.closeTime) == 60 ==> Accepts(lastMs, c)
    ensures c.closeTime <= lastMs ==> !Accepts(lastMs, c)
  {
  }

  /** Every candle is either written or skipped, never both. */
  lemma {:induction false} ReconcileCount(b: Batch, lastMs: Millis, candles: seq<Candle>)
    ensures |Reconcile(b, lastMs, candles)| + Skipped(lastMs, candles) == |candles|
    ensures |AcceptedIndices(lastMs, candles)| == |Reconcile(b, lastMs, candles)|
    decreases |candles|
  {
    if candles != [] {
      ReconcileCount(b, lastMs, candles[..|candles| - 1]);
    }
  }

  /**
   * The accepted positions are increasing, in range, and are exactly the
   * positions whose candle passes the test.
   */
  lemma {:induction false} AcceptedIndicesExact(lastMs: Millis, candles: seq<Candle>)
    ensures forall k :: 0 <= k < |AcceptedIndices(lastMs, candles)| ==>
      AcceptedIndices(lastMs, candles)[k] < |candles| && Accepts(lastMs, candles[AcceptedIndices(lastMs, candles)[k]])
    ensures forall i :: 0 <= i < |candles| && Accepts(lastMs, candles[i]) ==> i in AcceptedIndices(lastMs, candles)
    ensures forall j, k :: 0 <= j < k < |AcceptedIndices(lastMs, candles)| ==>
      AcceptedIndices(lastMs, candles)[j] < AcceptedIndices(lastMs, candles)[k]
    decreases |candles|
  {
    if candles != [] {
      var n := |candles| - 1;
      var prefix := candles[..n];
      AcceptedIndicesExact(lastMs, prefix);
      assert forall i :: 0 <= i < n ==> prefix[i] == candles[i];
    }
  }

  /** The k-th entry is built from the k-th accepted candle, so input order is kept. */
  lemma {:induction false} ReconcileByIndex(b: Batch, lastMs: Millis, candles: seq<Candle>)
    ensures |Reconcile(b, lastMs, candles)| == |AcceptedIndices(lastMs, candles)|
    ensures forall k :: 0 <= k < |Reconcile(b, lastMs, candles)| ==>
      AcceptedIndices(lastMs, candles)[k] < |candles| &&
      Reconcile(b, lastMs, candles)[k] == MakeEntry(b, candles[AcceptedIndices(lastMs, candles)[k]])
    decreases |candles|
  {
    if candles != [] {
      var n := |candles| - 1;
      var prefix := candles[..n];
      ReconcileByIndex(b, lastMs, prefix);
      assert forall i :: 0 <= i < n ==> prefix[i] == candles[i];
    }
  }

  /**
   * The reference is fixed for the whole scan, so a batch reconciles as the
   * concatenation of its parts: whether a candle is written does not depend
   * on the candles around it.
   */
  lemma {:induction false} ReconcileAppend(b: Batch, lastMs: Millis, xs: seq<Candle>, ys: seq<Candle>)
    ensures Reconcile(b, lastMs, xs + ys) == Reconcile(b, lastMs, xs) + Reconcile(b, lastMs, ys)
    ensures Skipped(lastMs, xs + ys) == Skipped(lastMs, xs) + Skipped(lastMs, ys)
    decreases |ys|
  {
    if ys == [] {
      assert xs + ys == xs;
    } else {
      var n := |ys| - 1;
      assert (xs + ys)[..|xs + ys| - 1] == xs + ys[..n];
      ReconcileAppend(b, lastMs, xs, ys[..n]);
    }
  }

  /** A batch of one candle: written when it passes the test, skipped otherwise. */
  lemma ReconcileSingle(b: Batch, lastMs: Millis, c: Candle)
    ensures Reconcile(b, lastMs, [c]) == if Accepts(lastMs, c) then [MakeEntry(b, c)] else []
    ensures Skipped(lastMs, [c]) == if Accepts(lastMs, c) then 0 else 1
  {
  }

  /**
   * What each written entry holds: the configured series name whatever the
   * symbol argument, the environment and exchange arguments as tags, the
   * server time truncated to seconds as `exchangeTime`, the
   * close time as both `time` and `ct`, the open time as `ot`, the close
   * price under `v` and the volume under `c`, and the digest of the
   * candle's identity string.
   */
  lemma EntryFields(b: Batch, lastMs: Millis, candles: seq<Candle>, k: nat)
    requires k < |AcceptedIndices(lastMs, candles)|
    ensures k < |Reconcile(b, lastMs, candles)|
    ensures AcceptedIndices(lastMs, candles)[k] < |candles|
    ensures var e, c := Reconcile(b, lastMs, candles)[k], candles[AcceptedIndices(lastMs, candles)[k]];
      && Accepts(lastMs, c)
      && e.measurement == b.defaultSymbol
      && e.tags.environment == b.environment
      && e.tags.exchange == b.exchangeDomain
      && e.tags.hostname == b.hostname
      && e.tags.exchangeTimeZone == b.exchangeInfo.timezone
      && e.tags.exchangeTime == TruncSeconds(b.exchangeInfo.serverTime)
      && e.time == e.fields.ct == TruncSeconds(c.closeTime)
      && e.fields.ot == TruncSeconds(c.openTime)
      && e.fields.o == c.open && e.fields.h == c.high && e.fields.l == c.low
      && e.fields.v == c.close && e.fields.c == c.volume
      && e.tags.measurementId == b.sha1(MeasurementId.PreImage(MeasurementId.Key(b.symbol, b.exchangeDomain, c.openTime, c.closeTime)))
  {
    ReconcileByIndex(b, lastMs, candles);
    AcceptedIndicesExact(lastMs, candles);
  }

  /**
   * With no stored row the sentinel is the reference, so every candle that
   * closes at least a minute after it is written and none is skipped.
   */
  lemma {:induction false} EmptyStoreAcceptsAll(b: Batch, candles: seq<Candle>)
    requires forall i :: 0 <= i < |candles| ==> candles[i].closeTime >= SentinelMs + 60000
    ensures Skipped(ReferenceTime([]), candles) == 0
    ensures Reconcile(b, ReferenceTime([]), candles) == seq(|candles|, i requires 0 <= i < |candles| => MakeEntry(b, candles[i]))
    decreases |candles|
  {
    if candles != [] {
      var n := |candles| - 1;
      EmptyStoreAcceptsAll(b, candles[..n]);
      AcceptsExactly(ReferenceTime([]), candles[n]);
    }
  }

  /**
   * A later reference never writes more: every candle accepted against it
   * is accepted against an earlier one, and at least as many are skipped.
   */
  lemma {:induction false} LaterReferenceWritesFewer(b: Batch, earlier: Millis, later: Millis, candles: seq<Candle>)
    requires earlier <= later
    ensures Skipped(earlier, candles) <= Skipped(later, candles)
    ensures |Reconcile(b, later, candles)| <= |Reconcile(b, earlier, candles)|
    decreases |candles|
  {
    if candles != [] {
      var n := |candles| - 1;
      LaterReferenceWritesFewer(b, earlier, later, candles[..n]);
      AcceptsExactly(earlier, candles[n]);
      AcceptsExactly(later, candles[n]);
    }
    ReconcileCount(b, earlier, candles);
    ReconcileCount(b, later, candles);
  }

  /**
   * Candles are not compared with one another: two candles closing one
   * second apart are both written when both are a minute past the reference.
   */
  lemma CandlesUnderAMinuteApartBothWritten(b: Batch, lastMs: Millis, c1: Candle, c2: Candle)
    requires c1.closeTime == lastMs + 60000 && c2.closeTime == lastMs + 61000
    ensures Reconcile(b, lastMs, [c1, c2]) == [MakeEntry(b, c1), MakeEntry(b, c2)]
  {
    ReconcileAppend(b, lastMs, [c1], [c2]);
    ReconcileSingle(b, lastMs, c1);
    ReconcileSingle(b, lastMs, c2);
    assert [c1] + [c2] == [c1, c2];
  }

  /**
   * Reference 2023-01-01T00:00:00Z and candles closing 30 s, 65 s and 130 s
   * later: the second and third are written, one is skipped.
   */
  lemma NewYearScenario(b: Batch, c1: Candle, c2: Candle, c3: Candle)
    requires c1.closeTime == 1672531230000
    requires c2.closeTime == 1672531265000
    requires c3.closeTime == 1672531330000
    ensures Reconcile(b, 1672531200000, [c1, c2, c3]) == [MakeEntry(b, c2), MakeEntry(b, c3)]
    ensures Skipped(1672531200000, [c1, c2, c3]) == 1
  {
    var last := 1672531200000;
    AcceptsExactly(last, c1);
    AcceptsExactly(last, c2);
    AcceptsExactly(last, c3);
    ReconcileAppend(b, last, [c1], [c2, c3]);
    ReconcileAppend(b, last, [c2], [c3]);
    ReconcileSingle(b, last, c1);
    ReconcileSingle(b, last, c2);
    ReconcileSingle(b, last, c3);
    assert [c1] + [c2, c3] == [c1, c2, c3];
    assert [c2] + [c3] == [c2, c3];
  }
}
