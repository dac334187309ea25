/** A sample's whole way from the tick that read it to the history the scope draws. */
module Delivery {
  import opened Bytes
  import opened Common
  import opened Frame
  import opened History
  import opened SampleStore

  // ----- from pushed ticks to log rows -----

  /** Which of a tick's readings an id shows: its last, should the id be watched twice. */
  function LastIndex(ids: seq<Id>, id: Id): (k: nat)
    requires id in ids
    ensures k < |ids| && ids[k] == id
    ensures forall j :: k < j < |ids| ==> ids[j] != id
  {
    if ids[|ids| - 1] == id then |ids| - 1 else LastIndex(ids[..|ids| - 1], id)
  }

  /** Pushed ticks as rows of the log. */
  function TickRows(ids: seq<Id>, times: seq<Bits>, rows: seq<seq<Bits>>): (log: seq<Row>)
    requires |times| == |rows| && forall k :: 0 <= k < |rows| ==> |rows[k]| == |ids|
  {
    seq(|rows|, k requires 0 <= k < |rows| => Row(times[k], map id | id in ids :: rows[k][LastIndex(ids, id)]))
  }

  lemma IdsOfColumns(b: SampleBatch)
    ensures IdsOf(Columns(b)) == set id | id in b.ids
  {
    forall id | id in b.ids ensures id in IdsOf(Columns(b)) {
      var k :| 0 <= k < |b.ids| && b.ids[k] == id;
      assert Columns(b)[k].id == id;
    }
  }

  lemma {:induction false} LastColumnWins(b: SampleBatch, id: Id, c: nat)
    requires c <= |b.ids| && id in b.ids[..c]
    ensures Rectangular(Columns(b)[..c], |b.times|)
    ensures ValuesFor(Columns(b)[..c], id, |b.times|) == ColumnOf(b, LastIndex(b.ids[..c], id))
  {
    var cols, ids := Columns(b)[..c], b.ids[..c];
    assert cols[..c - 1] == Columns(b)[..c - 1] && ids[..c - 1] == b.ids[..c - 1];
    if ids[c - 1] != id {
      LastColumnWins(b, id, c - 1);
    }
  }

  lemma ReadingOfTick(b: SampleBatch, rows: seq<seq<Bits>>, id: Id, k: nat)
    requires Holds(b, rows) && id in b.ids && k < |rows|
    ensures Rectangular(Columns(b), |b.times|)
    ensures ValuesFor(Columns(b), id, |b.times|)[k] == rows[k][LastIndex(b.ids, id)]
  {
    LastColumnWins(b, id, |b.ids|);
    assert Columns(b)[..|b.ids|] == Columns(b) && b.ids[..|b.ids|] == b.ids;
    ColumnsAreTransposed(b, rows, LastIndex(b.ids, id), k);
  }

  lemma RowOfTick(b: SampleBatch, rows: seq<seq<Bits>>, k: nat)
    requires Holds(b, rows) && k < |rows| && Rectangular(Columns(b), |b.times|)
    ensures RowsOf(Decoded(b.times, Columns(b)))[k] == TickRows(b.ids, b.times, rows)[k]
  {
    IdsOfColumns(b);
    var left, right := RowsOf(Decoded(b.times, Columns(b)))[k].cells, TickRows(b.ids, b.times, rows)[k].cells;
    forall id | id in b.ids ensures left[id] == right[id] {
      ReadingOfTick(b, rows, id, k);
    }
    assert left == right;
  }

  /** What a flushed frame brings to the log is the ticks pushed, each reading under its own id. */
  lemma FlushedRows(b: SampleBatch, rows: seq<seq<Bits>>)
    requires Holds(b, rows)
    ensures Rectangular(Columns(b), |b.times|)
    ensures RowsOf(Decoded(b.times, Columns(b))) == TickRows(b.ids, b.times, rows)
  {
    forall k | 0 <= k < |rows|
      ensures RowsOf(Decoded(b.times, Columns(b)))[k] == TickRows(b.ids, b.times, rows)[k]
    {
      RowOfTick(b, rows, k);
    }
  }

  // ----- whole runs -----

  lemma SentRows(s: Store, b: SampleBatch, rows: seq<seq<Bits>>, log: seq<Row>)
    requires Holds(b, rows) && |b.times| < 0x1_0000_0000 && |b.ids| < 0x1_0000_0000 && Represents(s, log)
    ensures Represents(Ingested(s, EncodeColumns(b.times, Columns(b))), log + TickRows(b.ids, b.times, rows))
  {
    FlushedRows(b, rows);
    BatchRoundTrip(b, rows);
    IngestedIs(s, EncodeColumns(b.times, Columns(b)));
    IngestAppends(s, log, Decoded(b.times, Columns(b)));
  }

  /** Encode a batch holding `rows` and ingest it: the store's history grows by exactly those rows. */
  method Send(b: SampleBatch, store: Samples, ghost rows: seq<seq<Bits>>, ghost log: seq<Row>)
    requires Holds(b, rows) && |b.times| < 0x1_0000_0000 && |b.ids| < 0x1_0000_0000
    requires store.Valid() && Represents(store.Contents(), log)
    modifies store, store.times, store.columns.Values
    ensures store.Valid() && fresh(store.columns.Values - old(store.columns.Values))
    ensures Represents(store.Contents(), log + TickRows(b.ids, b.times, rows))
  {
    SentRows(store.Contents(), b, rows, log);
    var buf := Encode(b);
    var thrown := store.Ingest(buf);
  }

  /**
   Flush pending ticks into the store: the newest rows of its history are then the ticks pushed since the last flush.
   */
  method Flush(builder: FrameBuilder, store: Samples, ghost log: seq<Row>)
    requires builder.Valid() && |builder.times| < 0x1_0000_0000 && |builder.ids| < 0x1_0000_0000
    requires store.Valid() && Represents(store.Contents(), log)
    modifies builder, store, store.times, store.columns.Values
    ensures store.Valid()
    ensures Represents(store.Contents(), log + TickRows(old(builder.ids), old(builder.times), old(builder.rows)))
  {
    ghost var rows := builder.rows;
    var taken := builder.Take();
    if taken.None? {
      assert log + [] == log;
    } else {
      Send(taken.value, store, rows, log);
    }
  }

  datatype Event = Ingest(buf: seq<byte>) | Forget(id: Id) | Clear

  /** Anything may reach a store of `len` rows but a frame cut short whose rows it has no room for. */
  predicate Deliverable(e: Event, len: nat) {
    e.Ingest? && Throws(e.buf) ==> len == 0 || len + RowsBegun(e.buf) <= CAPACITY
  }

  /** The plain log a run of events stands for. */
  function LogAfter(log: seq<Row>, e: Event): seq<Row> {
    match e
    case Ingest(buf) => if Decode(buf).Some? then log + RowsOf(Decode(buf).value) else log
    case Forget(id) => Forgotten(log, id)
    case Clear => []
  }

  function LogOf(events: seq<Event>): seq<Row> {
    if events == [] then [] else LogAfter(LogOf(events[..|events| - 1]), events[|events| - 1])
  }

  lemma IngestEffect(s: Store, buf: seq<byte>, log: seq<Row>)
    requires Represents(s, log) && Deliverable(Ingest(buf), s.len)
    ensures Represents(Ingested(s, buf), LogAfter(log, Ingest(buf)))
  {
    IngestedIs(s, buf);
    if Decode(buf).Some? {
      IngestAppends(s, log, Decode(buf).value);
    } else if Throws(buf) {
      ThrownKeepsRows(s, buf, log);
    }
  }

  /** One event, against the log. */
  method Handle(store: Samples, e: Event, ghost log: seq<Row>)
    requires store.Valid() && Represents(store.Contents(), log) && Deliverable(e, store.len)
    modifies store, store.times, store.columns.Values
    ensures store.Valid() && fresh(store.columns.Values - old(store.columns.Values))
    ensures Represents(store.Contents(), LogAfter(log, e))
  {
    ghost var before := store.Contents();
    match e {
      case Ingest(buf) =>
        IngestEffect(before, buf, log);
        var thrown := store.Ingest(buf);
      case Forget(id) =>
        ForgetErases(before, log, id);
        store.Forget(id);
      case Clear =>
        store.Clear();
    }
  }

  /** Over any run the store holds exactly the newest rows of the log. */
  method Replay(events: seq<Event>) returns (store: Samples)
    requires forall k :: 0 <= k < |events| ==> Deliverable(events[k], Min(CAPACITY, |LogOf(events[..k])|))
    ensures fresh(store) && store.Valid() && Represents(store.Contents(), LogOf(events))
  {
    store := new Samples();
    for i := 0 to |events|
      invariant fresh(store) && fresh(store.times) && fresh(store.columns.Values)
      invariant store.Valid() && Represents(store.Contents(), LogOf(events[..i]))
    {
      assert events[..i + 1][..i] == events[..i];
      Handle(store, events[i], LogOf(events[..i]));
    }
    assert events[..|events|] == events;
  }
}
