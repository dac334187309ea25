/** From the samples of a link session to the history the scope draws: nothing that came in is missing there. */
module Journey {
  import opened Common
  import opened Frame
  import opened History
  import opened SampleStore
  import opened Delivery
  import Link

  ghost predicate Whole(ticks: seq<Link.Tick>) {
    forall k :: 0 <= k < |ticks| ==> |ticks[k].row| == |ticks[k].ids|
  }

  /** The log a session's ticks stand for: each reading under the id of its watch. */
  ghost function LogOfTicks(ticks: seq<Link.Tick>): (log: seq<Row>)
    requires Whole(ticks)
    ensures |log| == |ticks|
  {
    seq(|ticks|, k requires 0 <= k < |ticks| && |ticks[k].row| == |ticks[k].ids| => RowOf(ticks[k]))
  }

  ghost function RowOf(tick: Link.Tick): Row
    requires |tick.row| == |tick.ids|
  {
    Row(tick.time, map id | id in tick.ids :: tick.row[LastIndex(tick.ids, id)])
  }

  /** Batches an encoder can put into a frame. */
  ghost predicate Sendable(batches: seq<SampleBatch>) {
    forall k :: 0 <= k < |batches| ==> |batches[k].times| < 0x1_0000_0000 && |batches[k].ids| < 0x1_0000_0000
  }

  /** The rows of a batch's ticks are the rows it brings to the log. */
  lemma LastTicks(ticks: seq<Link.Tick>, m: nat, b: SampleBatch, rows: seq<seq<Bits>>)
    requires Whole(ticks) && m <= |ticks| && Holds(b, rows)
    requires ticks[m..] == Link.TicksOf(b.ids, b.times, rows)
    ensures Whole(ticks[..m]) && LogOfTicks(ticks) == LogOfTicks(ticks[..m]) + TickRows(b.ids, b.times, rows)
  {
    var log := TickRows(b.ids, b.times, rows);
    forall k | 0 <= k < |log| ensures LogOfTicks(ticks)[m + k] == log[k] {
      assert ticks[m + k] == ticks[m..][k];
    }
  }

  /** Encode and ingest the batches handed on, in order: the store then holds the newest of the ticks that came in. */
  method Deliver(
      batches: seq<SampleBatch>, ghost contents: seq<seq<seq<Bits>>>, ghost ticks: seq<Link.Tick>, store: Samples,
      ghost log: seq<Row>)
    requires Link.Carries(batches, contents, ticks) && Whole(ticks) && Sendable(batches)
    requires store.Valid() && Represents(store.Contents(), log)
    modifies store, store.times, store.columns.Values
    ensures store.Valid() && fresh(store.columns.Values - old(store.columns.Values))
    ensures Represents(store.Contents(), log + LogOfTicks(ticks))
    decreases |batches|
  {
    if batches == [] {
      assert log + LogOfTicks(ticks) == log;
    } else {
      var n := |batches| - 1;
      ghost var m := |ticks| - |contents[n]|;
      LastTicks(ticks, m, batches[n], contents[n]);
      Deliver(batches[..n], contents[..n], ticks[..m], store, log);
      Send(batches[n], store, contents[n], log + LogOfTicks(ticks[..m]));
      assert log + LogOfTicks(ticks[..m]) + TickRows(batches[n].ids, batches[n].times, contents[n]) ==
             log + LogOfTicks(ticks);
    }
  }

  /** A session that ended, and its batches delivered: the history is that of all its ticks, its newest part shown. */
  method DeliverSession(w: Link.Worker, batches: seq<SampleBatch>, store: Samples)
    requires w.Valid() && w.handedOn == w.ticks && batches == w.batches && Sendable(batches)
    requires store.Valid() && Represents(store.Contents(), [])
    modifies store, store.times, store.columns.Values
    ensures store.Valid() && Whole(w.ticks) && Represents(store.Contents(), LogOfTicks(w.ticks))
  {
    assert [] + LogOfTicks(w.ticks) == LogOfTicks(w.ticks);
    Deliver(batches, w.contents, w.ticks, store, []);
  }
}
