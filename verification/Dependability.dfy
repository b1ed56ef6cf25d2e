/** The other half of the guarantee: outside the dependable settings there is a run whose client stops
    on a FIN while the receiver's file still misses bytes. The run: the client sends every chunk; the
    chunks `ks` are saved, acknowledged and recorded one by one; then the save of chunk `m` fails. The
    client reads every control packet sent so far, in order, one in a tick, and then the FIN. */
module Dependability {
  import opened Basics
  import opened Ranges
  import opened SequencerRuns
  import opened Packets
  import opened FileIO
  import opened ClientSpec
  import opened Transfer
  import opened Safety
  import opened Connection
  import Srv = ServerSpec

  // ---------------------------------------------------------------- the client sends everything

  ghost predicate AllSent(cfg: Config, data: set<seq<byte>>, n: nat)
    requires cfg.Valid()
  {
    forall k: nat :: k < n && k < Chunks(cfg) ==> Image(Chunk(cfg.src, k)) in data
  }

  lemma {:induction false} SendChunks(cfg: Config, n: nat) returns (c: Conn)
    requires cfg.Valid() && n <= Chunks(cfg)
    ensures ReachableInOrder(cfg, c) && AllSent(cfg, c.sys.data, n) && Image(cfg.metadata) in c.sys.data
    ensures c.sys.server == Init(cfg).server && c.sys.ctrl == [] && c.cursor == 0
    ensures c.sys.client.phase.Fetching? && !c.sys.client.done && c.sys.client.pending == []
    ensures c.sys.client.read == n == |c.sys.client.inFlight| && c.sys.client.acked == []
  {
    if n == 0 {
      c := Connection.Opened(cfg);
      assert Run(cfg, []) == Some(c);
    } else {
      var before := SendChunks(cfg, n - 1);
      c := SendNextChunk(cfg, before);
      OneMoreSent(cfg, before.sys.data, n - 1);
    }
  }

  lemma OneMoreSent(cfg: Config, data: set<seq<byte>>, k: nat)
    requires cfg.Valid() && k < Chunks(cfg) && AllSent(cfg, data, k)
    ensures AllSent(cfg, data + {Image(Chunk(cfg.src, k))}, k + 1)
  {
  }

  lemma SendNextChunk(cfg: Config, c: Conn) returns (d: Conn)
    requires cfg.Valid() && ReachableInOrder(cfg, c) && c.sys.client.phase.Fetching? && !c.sys.client.done
    requires c.sys.client.pending == [] && c.sys.client.read < Chunks(cfg)
    ensures ReachableInOrder(cfg, d) && d.sys.server == c.sys.server && d.sys.ctrl == c.sys.ctrl && d.cursor == c.cursor
    ensures d.sys.data == c.sys.data + {Image(Chunk(cfg.src, c.sys.client.read))}
    ensures d.sys.client.phase.Fetching? && !d.sys.client.done && d.sys.client.pending == []
    ensures d.sys.client.read == c.sys.client.read + 1 && |d.sys.client.inFlight| == |c.sys.client.inFlight| + 1
    ensures d.sys.client.acked == c.sys.client.acked
  {
    d := ReachNext(cfg, c, ClientFetch);
    d := ReachNext(cfg, d, ClientSend);
    d := ReachNext(cfg, d, ClientEndTick);
  }

  /** The client is at a tick, with every chunk read and on the wire. */
  ghost predicate Waiting(cfg: Config, c: Conn)
    requires cfg.Valid()
  {
    ReachableInOrder(cfg, c) && AtTick(c) && AllSent(cfg, c.sys.data, Chunks(cfg)) && c.sys.client.read == Chunks(cfg)
  }

  lemma SendAll(cfg: Config) returns (c: Conn)
    requires cfg.Valid() && cfg.src != []
    ensures Waiting(cfg, c) && c.sys.server == Init(cfg).server && c.sys.ctrl == [] && c.cursor == 0
    ensures c.sys.client.pending == []
  {
    c := SendChunks(cfg, Chunks(cfg));
    c := ReachNext(cfg, c, ClientFetch);
    c := ReachNext(cfg, c, ClientSend);
  }

  /** Everything sent so far is read while chunk `m` is not saved. */
  lemma CatchUp(cfg: Config, c: Conn, m: nat) returns (d: Conn)
    requires cfg.Valid() && Waiting(cfg, c) && m < Chunks(cfg)
    requires m !in c.sys.server.saved && !c.sys.server.phase.Finished?
    ensures Waiting(cfg, d) && d.sys.server == c.sys.server && d.cursor == |d.sys.ctrl|
    ensures HeldByClient(d.sys.client, m)
  {
    d := ReadAll(cfg, c, m);
    InOrderIsReachable(cfg, d);
    if !HeldByClient(d.sys.client, m) {
      NotHeldMeansSaved(cfg, d.sys, m);
    }
  }

  // ---------------------------------------------------------------- the server serves one chunk

  /** Both threads are at the head of their loops and the queue is empty. */
  predicate Idle(v: Srv.Server) {
    v.toPush == None && v.queue == [] && v.phase.Polling?
  }

  function ItemFor(cfg: Config, k: nat, ok: bool): Srv.Item
    requires cfg.Valid() && k < Chunks(cfg)
  {
    if ok then Srv.Item(k, FLAG_ACK, Chunk(cfg.src, k).flag == DATA_END) else Srv.Item(k, FLAG_NACK, false)
  }

  /** Only the server has moved. */
  predicate ServerOnly(c: Conn, d: Conn) {
    d.sys.client == c.sys.client && d.sys.data == c.sys.data && d.cursor == c.cursor && d.hasRead == c.hasRead
  }

  function NackImages(q: Seqr): seq<seq<byte>> {
    Images(Srv.Nacks(SeqMissing(q)))
  }

  /** Chunk `k` is received, its save succeeds or fails, and its number goes all the way through. */
  lemma ServeChunk(cfg: Config, c: Conn, k: nat, ok: bool) returns (d: Conn)
    requires cfg.Valid() && Waiting(cfg, c) && k < Chunks(cfg)
    requires Idle(c.sys.server) && c.sys.server.receiving && !SeqComplete(c.sys.server.seqr).1
    requires ok || cfg.faults
    ensures Waiting(cfg, d) && ServerOnly(c, d) && Idle(d.sys.server) && d.sys.server.receiving == ok
    ensures d.sys.server.file
            == if ok then Saved(c.sys.server.file, Chunk(cfg.src, k), NoFault).0 else c.sys.server.file
    ensures d.sys.server.saved == if ok then c.sys.server.saved + {k} else c.sys.server.saved
    ensures var item := ItemFor(cfg, k, ok);
            && d.sys.server.seqr == SeqAdd(SeqComplete(c.sys.server.seqr).0, k, Srv.IsLastArgument(cfg.reading, item)).0
            && d.sys.ctrl == c.sys.ctrl + [Image(Ctrl(k, item.flag))] + NackImages(d.sys.server.seqr)
  {
    var e := ReceiveChunk(cfg, c, k, ok);
    d := SequenceItem(cfg, e, ItemFor(cfg, k, ok));
  }

  /** The receiving thread's part. */
  lemma ReceiveChunk(cfg: Config, c: Conn, k: nat, ok: bool) returns (d: Conn)
    requires cfg.Valid() && Waiting(cfg, c) && k < Chunks(cfg)
    requires Idle(c.sys.server) && c.sys.server.receiving && (ok || cfg.faults)
    ensures Waiting(cfg, d) && ServerOnly(c, d) && d.sys.ctrl == c.sys.ctrl
    ensures d.sys.server.toPush == None && d.sys.server.queue == [ItemFor(cfg, k, ok)]
    ensures d.sys.server.phase.Polling? && d.sys.server.seqr == c.sys.server.seqr && d.sys.server.receiving == ok
    ensures d.sys.server.file
            == if ok then Saved(c.sys.server.file, Chunk(cfg.src, k), NoFault).0 else c.sys.server.file
    ensures d.sys.server.saved == if ok then c.sys.server.saved + {k} else c.sys.server.saved
  {
    var p := Chunk(cfg.src, k);
    var stale: seq<byte> := Zeros(UDP_PACKET_SIZE - |Image(p)|);
    RoundTrip(p, stale, c.sys.server.rcvPkt);
    d := ReachNext(cfg, c, ServerReceive(Image(p), stale, if ok then NoFault else SeekFails));
    assert d.sys.server.toPush == Some(ItemFor(cfg, k, ok));
    d := ReachNext(cfg, d, ServerPush);
  }

  /** The sequencing thread's part. */
  lemma SequenceItem(cfg: Config, c: Conn, item: Srv.Item) returns (d: Conn)
    requires cfg.Valid() && Waiting(cfg, c) && c.sys.server.queue == [item]
    requires c.sys.server.phase.Polling? && !SeqComplete(c.sys.server.seqr).1
    ensures Waiting(cfg, d) && ServerOnly(c, d) && SequencingOnly(c, d)
    ensures d.sys.server.queue == [] && d.sys.server.phase.Polling?
    ensures d.sys.server.seqr
            == SeqAdd(SeqComplete(c.sys.server.seqr).0, item.seqNo, Srv.IsLastArgument(cfg.reading, item)).0
    ensures d.sys.ctrl == c.sys.ctrl + [Image(Ctrl(item.seqNo, item.flag))] + NackImages(d.sys.server.seqr)
  {
    d := TakeItem(cfg, c, item);
    d := RecordItem(cfg, d, item);
  }

  /** The receiving thread has not moved. */
  predicate SequencingOnly(c: Conn, d: Conn) {
    && d.sys.server.toPush == c.sys.server.toPush && d.sys.server.receiving == c.sys.server.receiving
    && d.sys.server.file == c.sys.server.file && d.sys.server.saved == c.sys.server.saved
  }

  lemma TakeItem(cfg: Config, c: Conn, item: Srv.Item) returns (d: Conn)
    requires cfg.Valid() && Waiting(cfg, c) && c.sys.server.queue == [item]
    requires c.sys.server.phase.Polling? && !SeqComplete(c.sys.server.seqr).1
    ensures Waiting(cfg, d) && ServerOnly(c, d) && SequencingOnly(c, d)
    ensures d.sys.server.queue == [] && d.sys.server.phase == Srv.Adding(item)
    ensures d.sys.server.seqr == SeqComplete(c.sys.server.seqr).0
    ensures d.sys.ctrl == c.sys.ctrl + [Image(Ctrl(item.seqNo, item.flag))]
  {
    d := ReachNext(cfg, c, ServerPoll);
    d := ReachNext(cfg, d, ServerPop);
    d := ReachNext(cfg, d, ServerAck);
  }

  lemma RecordItem(cfg: Config, c: Conn, item: Srv.Item) returns (d: Conn)
    requires cfg.Valid() && Waiting(cfg, c) && c.sys.server.phase == Srv.Adding(item)
    ensures Waiting(cfg, d) && ServerOnly(c, d) && SequencingOnly(c, d)
    ensures d.sys.server.queue == c.sys.server.queue && d.sys.server.phase.Polling?
    ensures d.sys.server.seqr == SeqAdd(c.sys.server.seqr, item.seqNo, Srv.IsLastArgument(cfg.reading, item)).0
    ensures d.sys.ctrl == c.sys.ctrl + NackImages(d.sys.server.seqr)
  {
    d := ReachNext(cfg, c, ServerRecord);
    d := ReachNext(cfg, d, ServerNack);
  }

  // ---------------------------------------------------------------- the server serves many

  function AddFor(cfg: Config, k: nat, ok: bool): (u32, bool)
    requires cfg.Valid() && k < Chunks(cfg)
  {
    (k, Srv.IsLastArgument(cfg.reading, ItemFor(cfg, k, ok)))
  }

  predicate ChunkNumbers(cfg: Config, ks: seq<nat>)
    requires cfg.Valid()
  {
    forall i :: 0 <= i < |ks| ==> ks[i] < Chunks(cfg)
  }

  function Adds(cfg: Config, ks: seq<nat>): (adds: seq<(u32, bool)>)
    requires cfg.Valid() && ChunkNumbers(cfg, ks)
    ensures |adds| == |ks| && forall i :: 0 <= i < |ks| ==> adds[i] == AddFor(cfg, ks[i], true)
  {
    seq(|ks|, i requires 0 <= i < |ks| => AddFor(cfg, ks[i], true))
  }

  /** While `m` has not been served the loop cannot end. */
  lemma NotYetComplete(cfg: Config, ks: seq<nat>, m: nat)
    requires cfg.Valid() && ChunkNumbers(cfg, ks) && m !in ks && m < Chunks(cfg)
    ensures !SeqComplete(RunOps(Alternate(Adds(cfg, ks)))).1
  {
    var adds := Adds(cfg, ks);
    var ops := Alternate(adds);
    ServerLoopCanonical(adds);
    IndexRefinesSet(ops);
    if m in Recorded(ops) {
      RecordedWasServed(cfg, ks, m);
    }
    if SeqComplete(RunOps(ops)).1 {
      CompletionSound(ops);
      var i := AlternateHas(adds, RunOps(ops).expected, true);
      ChunkFields(cfg.src, ks[i]);
    }
  }

  lemma RecordedWasServed(cfg: Config, ks: seq<nat>, x: u32)
    requires cfg.Valid() && ChunkNumbers(cfg, ks) && x in Recorded(Alternate(Adds(cfg, ks)))
    ensures x in ks
  {
    var ops := Alternate(Adds(cfg, ks));
    RecordedWasAdded(ops, x);
    var i :| 0 <= i < |ops| && ops[i].AddOp? && ops[i].s == x;
    assert ops[i] in ops;
    var j := AlternateHas(Adds(cfg, ks), x, ops[i].isLast);
    assert ks[j] in ks;
  }

  lemma {:induction false} AlternateHas(adds: seq<(u32, bool)>, s: u32, last: bool) returns (i: nat)
    requires AddOp(s, last) in Alternate(adds)
    ensures i < |adds| && adds[i] == (s, last)
  {
    var before, add := adds[..|adds| - 1], adds[|adds| - 1];
    if add == (s, last) {
      i := |adds| - 1;
    } else {
      i := AlternateHas(before, s, last);
    }
  }

  lemma {:induction false} ServeChunks(cfg: Config, ks: seq<nat>, m: nat) returns (c: Conn)
    requires cfg.Valid() && cfg.src != [] && ChunkNumbers(cfg, ks) && m !in ks && m < Chunks(cfg)
    ensures Waiting(cfg, c) && Idle(c.sys.server) && c.sys.server.receiving
    ensures c.sys.server.file == Reassembled(cfg.src, ks) && forall x :: x in c.sys.server.saved ==> x in ks
    ensures c.sys.server.seqr == RunOps(Alternate(Adds(cfg, ks)))
  {
    if ks == [] {
      c := SendAll(cfg);
    } else {
      var before, k := ks[..|ks| - 1], ks[|ks| - 1];
      c := ServeChunks(cfg, before, m);
      NotYetComplete(cfg, before, m);
      c := ServeChunk(cfg, c, k, true);
      OneMoreServed(cfg, ks);
    }
  }

  lemma OneMoreServed(cfg: Config, ks: seq<nat>)
    requires cfg.Valid() && ChunkNumbers(cfg, ks) && ks != []
    ensures var before, add := ks[..|ks| - 1], AddFor(cfg, ks[|ks| - 1], true);
            RunOps(Alternate(Adds(cfg, ks)))
            == SeqAdd(SeqComplete(RunOps(Alternate(Adds(cfg, before)))).0, add.0, add.1).0
  {
    var before, add := ks[..|ks| - 1], AddFor(cfg, ks[|ks| - 1], true);
    assert Adds(cfg, ks)[..|ks| - 1] == Adds(cfg, before);
    RunOfTwoMore(Alternate(Adds(cfg, before)), Poll, AddOp(add.0, add.1));
  }

  // ---------------------------------------------------------------- the misleading FIN

  /** After chunk `m` failed: if the numbers served fill {0..expected}, a FIN is sent, the client
      stops, and the file does not have chunk `m`. */
  lemma MisleadingFin(cfg: Config, ks: seq<nat>, m: nat) returns (c: Conn)
    requires cfg.Valid() && cfg.src != [] && cfg.faults && ChunkNumbers(cfg, ks) && m !in ks && m < Chunks(cfg)
    requires var q := RunOps(Alternate(Adds(cfg, ks) + [AddFor(cfg, m, false)]));
             CoversExactlyUpTo(q.ranges, q.expected)
    ensures StoppedByFin(cfg, c) && c.sys.server.file == Reassembled(cfg.src, ks)
  {
    c := ServeChunks(cfg, ks, m);
    NotYetComplete(cfg, ks, m);
    c := ServeChunk(cfg, c, m, false);
    c := CatchUp(cfg, c, m);
    var adds := Adds(cfg, ks) + [AddFor(cfg, m, false)];
    assert adds[..|adds| - 1] == Adds(cfg, ks);
    RunOfTwoMore(Alternate(Adds(cfg, ks)), Poll, AddOp(m, adds[|ks|].1));
    assert c.sys.server.seqr == RunOps(Alternate(adds));
    ServerLoopCanonical(adds);
    c := FinStopsClient(cfg, c);
  }

  /** The end of a run in order whose client has been told to stop. */
  ghost predicate StoppedByFin(cfg: Config, c: Conn)
    requires cfg.Valid()
  {
    ReachableInOrder(cfg, c) && c.sys.client.phase.Stopped? && c.sys.client.done
  }

  /** A server whose set is complete sends its FIN, and the client, having read all there was before,
      stops on it. */
  lemma FinStopsClient(cfg: Config, c: Conn) returns (d: Conn)
    requires cfg.Valid() && Waiting(cfg, c) && c.cursor == |c.sys.ctrl|
    requires c.sys.server.phase.Polling? && SeqComplete(c.sys.server.seqr).1
    ensures StoppedByFin(cfg, d) && d.sys.server.file == c.sys.server.file
  {
    d := ReachNext(cfg, c, ServerPoll);
    d := ReachNext(cfg, d, ServerFinish);
    var fin := Ctrl(d.sys.server.seqr.expected, FLAG_FIN);
    RoundTrip(fin, [], Blank);
    assert Concat(d.sys.ctrl[d.cursor + 1..d.cursor + 1]) == [];
    d := ReachNext(cfg, d, ClientRead(Image(fin), [], Blank));
    d := ReachNext(cfg, d, ClientEndTick);
  }

  predicate AddsAscend(adds: seq<(u32, bool)>) {
    forall i, j :: 0 <= i < j < |adds| ==> adds[i].0 < adds[j].0
  }

  ghost predicate Added(adds: seq<(u32, bool)>, x: int) {
    exists i :: 0 <= i < |adds| && adds[i].0 == x
  }

  lemma AddedStep(adds: seq<(u32, bool)>, add: (u32, bool), x: int)
    ensures Added(adds + [add], x) <==> Added(adds, x) || x == add.0
  {
    if i :| 0 <= i < |adds| && adds[i].0 == x {
      assert (adds + [add])[i].0 == x;
    }
    assert (adds + [add])[|adds|] == add;
  }

  /** Numbers that come in ascending order are all recorded. */
  lemma {:induction false} AscendingAllRecorded(adds: seq<(u32, bool)>)
    requires AddsAscend(adds)
    ensures forall x :: x in Recorded(Alternate(adds)) <==> Added(adds, x)
  {
    if adds == [] {
      assert Recorded(Alternate(adds)) == {};
    } else {
      var before, add := adds[..|adds| - 1], adds[|adds| - 1];
      AscendingAllRecorded(before);
      RecordedAfter(Alternate(before), add.0, add.1);
      assert adds == before + [add];
      forall x
        ensures Added(adds, x) <==> Added(before, x) || x == add.0
      {
        AddedStep(before, add, x);
      }
      if before == [] {
        assert Recorded(Alternate(before)) == {};
      } else {
        assert adds[0].0 < adds[|adds| - 1].0;
        assert Added(before, before[0].0) && before[0].0 <= (add.0 as int) + 1;
      }
    }
  }

  lemma RecordedAfter(ops: seq<Op>, s: u32, last: bool)
    ensures Recorded(ops + [Poll, AddOp(s, last)]) ==
            if Recorded(ops) == {} || exists y :: y in Recorded(ops) && y <= s + 1 then Recorded(ops) + {s}
            else Recorded(ops)
  {
    var polled := ops + [Poll];
    assert polled[..|ops|] == ops;
    assert (ops + [Poll, AddOp(s, last)])[..|ops| + 1] == polled;
  }

  /** lo, lo + 1, ..., hi - 1 */
  function Numbers(lo: nat, hi: nat): (ks: seq<nat>)
    requires lo <= hi
    ensures |ks| == hi - lo && forall i :: 0 <= i < |ks| ==> ks[i] == lo + i
  {
    seq(hi - lo, i requires 0 <= i < hi - lo => lo + i)
  }

  /** As written: chunks 0 to m - 1 are served, the save of chunk m fails, and its NACK is taken for
      the last packet. */
  lemma AsWrittenMisleads(cfg: Config, m: nat) returns (c: Conn)
    requires cfg.Valid() && cfg.src != [] && cfg.faults && cfg.reading.AsWritten? && m < Chunks(cfg)
    ensures StoppedByFin(cfg, c) && c.sys.server.file == Reassembled(cfg.src, Numbers(0, m))
  {
    FailureCompletes(cfg, Numbers(0, m), m);
    c := MisleadingFin(cfg, Numbers(0, m), m);
  }

  lemma FailureCompletes(cfg: Config, ks: seq<nat>, m: nat)
    requires cfg.Valid() && ChunkNumbers(cfg, ks) && cfg.reading.AsWritten? && m == |ks| < Chunks(cfg)
    requires forall i :: 0 <= i < |ks| ==> ks[i] == i
    ensures var q := RunOps(Alternate(Adds(cfg, ks) + [AddFor(cfg, m, false)]));
            CoversExactlyUpTo(q.ranges, q.expected)
  {
    var before, add := Adds(cfg, ks), AddFor(cfg, m, false);
    var adds := before + [add];
    assert add == (m, true);
    AscendingAllRecorded(adds);
    assert adds[..|adds| - 1] == before;
    RunOfTwoMore(Alternate(before), Poll, AddOp(add.0, add.1));
    ServerLoopCanonical(adds);
    IndexRefinesSet(Alternate(adds));
    var q := RunOps(Alternate(adds));
    forall x
      ensures Covers(q.ranges, x) <==> 0 <= x <= m
    {
      assert Covers(q.ranges, x) <==> Added(adds, x);
      assert 0 <= x <= m ==> adds[x].0 == x;
    }
  }

  /** As written: chunks 0 and h are served and the save of chunk m between them fails. The gaps between m
      and h are not asked for. */
  lemma AsWrittenHidesGaps(cfg: Config, m: nat, h: nat) returns (c: Conn)
    requires cfg.Valid() && cfg.faults && cfg.reading.AsWritten? && 0 < m < h < Chunks(cfg)
    ensures ReachableInOrder(cfg, c) && c.sys.server.phase.Nacking?
    ensures forall x: u32 :: m < x < h ==> IsGap(PoppedOps(cfg, c.sys.server), x) && !Asked(c.sys.server, x)
  {
    var served := ServeChunks(cfg, [0, h], m);
    NotYetComplete(cfg, [0, h], m);
    var received := ReceiveChunk(cfg, served, m, false);
    var taken := TakeItem(cfg, received, ItemFor(cfg, m, false));
    c := ReachNext(cfg, taken, ServerRecord);
    LateFailureHides(Adds(cfg, [0, h]), m, h);
    InOrderIsReachable(cfg, c);
    forall x: u32 | m < x < h
      ensures IsGap(PoppedOps(cfg, c.sys.server), x) && !Asked(c.sys.server, x)
    {
      HiddenGap(cfg, c.sys.server, m, h, x);
    }
  }

  lemma HiddenGap(cfg: Config, v: Srv.Server, m: u32, h: u32, x: u32)
    requires SequencerOk(cfg, v) && v.phase.Nacking? && v.seqr.maxSeqNo == m < x < h
    requires !Covers(v.seqr.ranges, x) && Covers(v.seqr.ranges, h)
    ensures IsGap(PoppedOps(cfg, v), x) && !Asked(v, x)
  {
    AskedIsMissing(v, x);
    AskedExact(v.seqr, PoppedOps(cfg, v), x);
    assert h in Recorded(PoppedOps(cfg, v));
  }

  lemma {:induction false} TwoAdded(adds: seq<(u32, bool)>, h: u32)
    requires |adds| == 2 && adds[0].0 == 0 && adds[1].0 == h
    ensures forall x :: Added(adds, x) <==> x == 0 || x == h
  {
    assert Added(adds, 0) && Added(adds, h);
  }

  lemma {:induction false} TwoServed(adds: seq<(u32, bool)>, h: u32)
    requires AddsBelowSentinel(adds) && |adds| == 2 && adds[0].0 == 0 && adds[1].0 == h && h > 0
    ensures var rs := SeqComplete(RunOps(Alternate(adds))).0.ranges;
            Sorted(rs) && forall x :: Covers(rs, x) <==> x == 0 || x == h
  {
    var before := RunOps(Alternate(adds));
    ServerLoopCanonical(adds);
    IndexRefinesSet(Alternate(adds));
    AscendingAllRecorded(adds);
    PassKeepsSet(before.ranges);
    TwoAdded(adds, h);
  }

  /** The failed number, taken for the last one, sets `maxSeqNo` back below `h`. */
  lemma {:induction false} LateFailureHides(adds: seq<(u32, bool)>, m: u32, h: u32)
    requires AddsBelowSentinel(adds) && |adds| == 2 && adds[0].0 == 0 && adds[1].0 == h && m < h
    ensures var q := SeqAdd(SeqComplete(RunOps(Alternate(adds))).0, m, true).0;
            && q.maxSeqNo == m && Covers(q.ranges, h)
            && forall x :: m < x < h ==> !Covers(q.ranges, x)
  {
    TwoServed(adds, h);
    var rs := SeqComplete(RunOps(Alternate(adds))).0.ranges;
    NothingWraps(rs, m);
    AddExact(rs, m);
  }

  /** As intended: every chunk but m is served, END included, and then the save of chunk m fails. */
  lemma IntendedMisleads(cfg: Config, m: nat) returns (c: Conn)
    requires cfg.Valid() && cfg.src != [] && cfg.faults && cfg.reading.Intended?
    requires EndIsMarked(|cfg.src|) && m < Chunks(cfg) - 1
    ensures StoppedByFin(cfg, c)
    ensures c.sys.server.file == Reassembled(cfg.src, Numbers(0, m) + Numbers(m + 1, Chunks(cfg)))
  {
    var ks := Numbers(0, m) + Numbers(m + 1, Chunks(cfg));
    assert forall i :: 0 <= i < |ks| ==> ks[i] == if i < m then i else i + 1;
    LateChunkFillsGap(cfg, ks, m);
    c := MisleadingFin(cfg, ks, m);
  }

  /** The failed chunk's number closes the only gap. */
  lemma LateChunkFillsGap(cfg: Config, ks: seq<nat>, m: nat)
    requires cfg.Valid() && ChunkNumbers(cfg, ks) && cfg.reading.Intended?
    requires EndIsMarked(|cfg.src|) && m < Chunks(cfg) - 1 == |ks|
    requires forall i :: 0 <= i < |ks| ==> ks[i] == if i < m then i else i + 1
    ensures var q := RunOps(Alternate(Adds(cfg, ks) + [AddFor(cfg, m, false)]));
            CoversExactlyUpTo(q.ranges, q.expected)
  {
    var before := Adds(cfg, ks);
    var adds := before + [(m, false)];
    assert adds[..|adds| - 1] == before;
    RunOfTwoMore(Alternate(before), Poll, AddOp(m, false));
    LastServedIsExpected(cfg, ks);
    ServerLoopCanonical(adds);
    IndexRefinesSet(Alternate(adds));
    var q := RunOps(Alternate(adds));
    assert q.expected == Chunks(cfg) - 1;
    forall x
      ensures Covers(q.ranges, x) <==> 0 <= x <= Chunks(cfg) - 1
    {
      AllRecordedButGap(before, m, Chunks(cfg) - 1, x);
    }
  }

  lemma AllRecordedButGap(before: seq<(u32, bool)>, m: u32, last: nat, x: int)
    requires m < last == |before| && forall i :: 0 <= i < |before| ==> before[i].0 == if i < m then i else i + 1
    ensures x in Recorded(Alternate(before + [(m, false)])) <==> 0 <= x <= last
  {
    AscendingAllRecorded(before);
    assert (before + [(m, false)])[..|before|] == before;
    RecordedAfter(Alternate(before), m, false);
    assert before[0].0 <= m + 1 && Added(before, before[0].0);
    if 0 <= x <= last && x != m {
      assert before[if x < m then x else x - 1].0 == x;
    }
  }

  lemma LastServedIsExpected(cfg: Config, ks: seq<nat>)
    requires cfg.Valid() && ChunkNumbers(cfg, ks) && cfg.reading.Intended? && EndIsMarked(|cfg.src|)
    requires ks != [] && ks[|ks| - 1] == Chunks(cfg) - 1
    ensures RunOps(Alternate(Adds(cfg, ks))).expected == Chunks(cfg) - 1
  {
    var adds, k := Adds(cfg, ks), ks[|ks| - 1];
    ChunkFields(cfg.src, k);
    RunOfTwoMore(Alternate(adds[..|adds| - 1]), Poll, AddOp(k, true));
  }

  /** The necessary half: in an undependable setting some run in order stops its client with the file
      wrong. */
  lemma UndependableFails(cfg: Config) returns (c: Conn)
    requires cfg.Valid() && !Dependable(cfg)
    ensures StoppedByFin(cfg, c) && c.sys.server.file != cfg.src
  {
    var hi := if cfg.reading.AsWritten? then |cfg.src| else BeforeLast(cfg.src);
    var i :| 0 <= i < hi && i < |cfg.src| && cfg.src[i] != 0;
    var m := i / CHUNK;
    InChunk(i, m);
    var ks := Numbers(0, m);
    if cfg.reading.AsWritten? {
      c := AsWrittenMisleads(cfg, m);
    } else {
      c := IntendedMisleads(cfg, m);
      ks := ks + Numbers(m + 1, Chunks(cfg));
    }
    ReassemblyExact(cfg.src, ks);
    assert m !in ks;
  }

  /** As AlwaysDelivered, for the runs whose control packets arrive in order. */
  ghost predicate AlwaysDeliveredInOrder(cfg: Config)
    requires cfg.Valid()
  {
    forall c: Conn :: ReachableInOrder(cfg, c) && c.sys.client.phase.Stopped? ==> c.sys.server.file == cfg.src
  }

  /** A stopped client can be trusted on every run if and only if the setting is dependable, whether
      the control packets arrive in order or not. */
  lemma AlwaysDeliveredIff(cfg: Config)
    requires cfg.Valid()
    ensures AlwaysDelivered(cfg) <==> Dependable(cfg)
    ensures AlwaysDeliveredInOrder(cfg) <==> Dependable(cfg)
  {
    if Dependable(cfg) {
      forall s: System | Reachable(cfg, s) && s.client.phase.Stopped?
        ensures s.server.file == cfg.src
      {
        DependableDelivers(cfg, s);
      }
      forall c: Conn | ReachableInOrder(cfg, c)
        ensures Reachable(cfg, c.sys)
      {
        InOrderIsReachable(cfg, c);
      }
    } else {
      var c := UndependableFails(cfg);
      InOrderIsReachable(cfg, c);
    }
  }

  // ---------------------------------------------------------------- when a FIN can be sent at all

  /** As written only a failed save can lead to a FIN; as intended only a marked END packet can. */
  predicate FinPossible(cfg: Config) {
    match cfg.reading
    case AsWritten => cfg.faults && cfg.src != []
    case Intended => EndIsMarked(|cfg.src|)
  }

  /** Some run ends with the client told to stop by a FIN, if and only if a FIN is possible, and then
      some run in order does. */
  lemma FinPossibleIff(cfg: Config)
    requires cfg.Valid()
    ensures (exists s: System :: Reachable(cfg, s) && s.client.done) <==> FinPossible(cfg)
    ensures (exists c: Conn :: StoppedByFin(cfg, c)) <==> FinPossible(cfg)
  {
    forall s: System | Reachable(cfg, s) && s.client.done
      ensures FinPossible(cfg)
    {
      FinMeansPossible(cfg, s);
    }
    forall c: Conn | StoppedByFin(cfg, c)
      ensures Reachable(cfg, c.sys)
    {
      InOrderIsReachable(cfg, c);
    }
    if FinPossible(cfg) {
      var c;
      if cfg.reading.AsWritten? {
        c := AsWrittenMisleads(cfg, 0);
      } else {
        c := OrderlyTransferFinishes(cfg);
      }
      assert StoppedByFin(cfg, c) && Reachable(cfg, c.sys);
    }
  }

  lemma FinMeansPossible(cfg: Config, s: System)
    requires cfg.Valid() && Reachable(cfg, s) && s.client.done
    ensures FinPossible(cfg)
  {
    ReachableInv(cfg, s);
    PoppedItemsOk(cfg, s.server);
    EndedMeansPoppedLast(cfg, s.server);
    if cfg.reading.Intended? {
      IntendedFinMeansAllPopped(cfg, s);
    }
  }

  /** The server has served chunks 0 to k - 1, in that order. */
  ghost predicate ServedUpTo(cfg: Config, c: Conn, k: nat)
    requires cfg.Valid() && k <= Chunks(cfg)
  {
    && Waiting(cfg, c) && Idle(c.sys.server) && c.sys.server.receiving
    && c.sys.server.file == Reassembled(cfg.src, Numbers(0, k))
    && c.sys.server.seqr == RunOps(Alternate(Adds(cfg, Numbers(0, k))))
    && forall x :: x in c.sys.server.saved ==> x < k
  }

  /** The next chunk in order: its ACK is sent, and nothing is asked for. */
  lemma ServeNext(cfg: Config, c: Conn, k: nat) returns (d: Conn)
    requires cfg.Valid() && k < Chunks(cfg) && ServedUpTo(cfg, c, k)
    ensures ServedUpTo(cfg, d, k + 1) && ServerOnly(c, d)
    ensures d.sys.ctrl == c.sys.ctrl + [Image(Ctrl(k, FLAG_ACK))]
  {
    var before, ks := Numbers(0, k), Numbers(0, k + 1);
    assert ks[..|ks| - 1] == before;
    NotYetComplete(cfg, before, k);
    d := ServeChunk(cfg, c, k, true);
    OneMoreServed(cfg, ks);
    NothingMissing(cfg, ks);
  }

  lemma NothingMissing(cfg: Config, ks: seq<nat>)
    requires cfg.Valid() && ChunkNumbers(cfg, ks) && forall i :: 0 <= i < |ks| ==> ks[i] == i
    ensures NackImages(RunOps(Alternate(Adds(cfg, ks)))) == []
  {
    var adds := Adds(cfg, ks);
    var ops := Alternate(adds);
    var q := RunOps(ops);
    ServerLoopCanonical(adds);
    IndexRefinesSet(ops);
    AscendingAllRecorded(adds);
    if q.maxSeqNo > 0 {
      var i := MaxWasAdded(ops);
      assert ops[i] in ops;
      var j := AlternateHas(adds, ops[i].s, ops[i].isLast);
    }
    forall x | 0 <= x < q.maxSeqNo
      ensures Covers(q.ranges, x)
    {
      assert adds[x].0 == x;
      assert Added(adds, x);
    }
    NoneMissing(q.ranges, q.maxSeqNo);
  }

  /** Two control packets are unread: the ACKs of `k` and `m`. */
  predicate TwoAcksUnread(c: Conn, k: u32, m: u32) {
    && c.cursor + 2 == |c.sys.ctrl|
    && c.sys.ctrl[c.cursor] == Image(Ctrl(k, FLAG_ACK)) && c.sys.ctrl[c.cursor + 1] == Image(Ctrl(m, FLAG_ACK))
  }

  lemma PairIsOldest(ctrl: seq<seq<byte>>, cursor: nat)
    requires cursor + 2 == |ctrl| && |ctrl[cursor + 1]| == CTRL_SIZE
    ensures DeliversOldest(ctrl, cursor, ctrl[cursor], ctrl[cursor + 1])
  {
    var stale := ctrl[cursor + 1];
    assert ctrl[cursor + 1..cursor + 2] == [stale] && Concat([stale]) == stale + Concat([]);
  }

  lemma ReadPair(cfg: Config, c: Conn, k: u32, m: u32) returns (d: Conn)
    requires cfg.Valid() && ReachableInOrder(cfg, c) && AtTick(c) && TwoAcksUnread(c, k, m)
    ensures ReachableInOrder(cfg, d)
    ensures d == Conn(c.sys.(client := Respond(c.sys.client, Ctrl(k, FLAG_ACK))), |c.sys.ctrl|, true)
  {
    var segment, stale := c.sys.ctrl[c.cursor], c.sys.ctrl[c.cursor + 1];
    RoundTrip(Ctrl(k, FLAG_ACK), stale, Blank);
    PairIsOldest(c.sys.ctrl, c.cursor);
    d := ReachNext(cfg, c, ClientRead(segment, stale, Blank));
  }

  /** One read of two ACKs: the second one is lost, so its chunk stays with the client. */
  lemma ReadTwoAcks(cfg: Config, c: Conn, k: u32, m: u32) returns (d: Conn)
    requires cfg.Valid() && Waiting(cfg, c) && k < m < Chunks(cfg) && HeldByClient(c.sys.client, m)
    requires TwoAcksUnread(c, k, m)
    ensures Waiting(cfg, d) && d.sys.server == c.sys.server && d.cursor == |d.sys.ctrl|
  {
    var e := ReadPair(cfg, c, k, m);
    OtherAckKeeps(c.sys.client, k, m);
    d := SendOneMore(cfg, e, m);
    InOrderIsReachable(cfg, d);
  }

  lemma OtherAckKeeps(c: Client, k: u32, m: nat)
    requires HeldByClient(c, m) && k != m
    ensures HeldByClient(Respond(c, Ctrl(k, FLAG_ACK)), m)
  {
    var p: DataPacket :| p.seqNo == m && (p in c.inFlight || p in c.pending || p in InHand(c));
    var i := FindPacket(c.inFlight, k);
    if p in c.inFlight && i < |c.inFlight| {
      var j :| 0 <= j < |c.inFlight| && c.inFlight[j] == p;
      assert Without(c.inFlight, i)[if j < i then j else j - 1] == p;
    }
    assert p in Respond(c, Ctrl(k, FLAG_ACK)).inFlight || p in c.pending || p in InHand(c);
  }

  lemma AllReassembled(cfg: Config)
    requires cfg.Valid()
    ensures Reassembled(cfg.src, Numbers(0, Chunks(cfg))) == cfg.src
  {
    var ks := Numbers(0, Chunks(cfg));
    ReassemblyExact(cfg.src, ks);
    forall i | 0 <= i < |cfg.src|
      ensures i / CHUNK in ks
    {
      assert ks[i / CHUNK] == i / CHUNK;
    }
  }

  /** All chunks but the last two are served and everything is read; then the last two are served. */
  lemma ServeAllInOrder(cfg: Config) returns (c: Conn, k: u32, m: u32)
    requires cfg.Valid() && Chunks(cfg) >= 2
    ensures ServedUpTo(cfg, c, Chunks(cfg)) && k + 1 == m == Chunks(cfg) - 1
    ensures HeldByClient(c.sys.client, m) && TwoAcksUnread(c, k, m)
  {
    var n := Chunks(cfg);
    k, m := n - 2, n - 1;
    var some := ServeChunks(cfg, Numbers(0, n - 2), m);
    var read := CatchUp(cfg, some, m);
    var most := ServeNext(cfg, read, k);
    c := ServeNext(cfg, most, m);
  }

  lemma ServedStays(cfg: Config, c: Conn, d: Conn, k: nat)
    requires cfg.Valid() && k <= Chunks(cfg) && ServedUpTo(cfg, c, k)
    requires Waiting(cfg, d) && d.sys.server == c.sys.server
    ensures ServedUpTo(cfg, d, k)
  {
  }

  /** As intended, with the END packet marked: chunks that arrive in order end in a FIN. The client is
      still sending when it comes, because the ACK of the last chunk was read behind another one and so
      was lost. */
  lemma OrderlyTransferFinishes(cfg: Config) returns (c: Conn)
    requires cfg.Valid() && cfg.reading.Intended? && EndIsMarked(|cfg.src|)
    ensures StoppedByFin(cfg, c) && c.sys.server.file == cfg.src
  {
    var served, k, m := ServeAllInOrder(cfg);
    var read := ReadTwoAcks(cfg, served, k, m);
    ServedStays(cfg, served, read, Chunks(cfg));
    c := FinishInOrder(cfg, read);
  }

  lemma FinishInOrder(cfg: Config, c: Conn) returns (d: Conn)
    requires cfg.Valid() && cfg.reading.Intended? && EndIsMarked(|cfg.src|)
    requires ServedUpTo(cfg, c, Chunks(cfg)) && c.cursor == |c.sys.ctrl|
    ensures StoppedByFin(cfg, d) && d.sys.server.file == cfg.src
  {
    OrderlyIsComplete(cfg, Numbers(0, Chunks(cfg)));
    d := FinStopsClient(cfg, c);
    AllReassembled(cfg);
  }

  lemma OrderlyIsComplete(cfg: Config, ks: seq<nat>)
    requires cfg.Valid() && cfg.reading.Intended? && EndIsMarked(|cfg.src|)
    requires |ks| == Chunks(cfg) && forall i :: 0 <= i < |ks| ==> ks[i] == i
    ensures SeqComplete(RunOps(Alternate(Adds(cfg, ks)))).1
  {
    var adds, m := Adds(cfg, ks), |ks| - 1;
    AscendingAllRecorded(adds);
    LastServedIsExpected(cfg, ks);
    ServerLoopCanonical(adds);
    IndexRefinesSet(Alternate(adds));
    var q := RunOps(Alternate(adds));
    forall x
      ensures Covers(q.ranges, x) <==> 0 <= x <= m
    {
      assert Covers(q.ranges, x) <==> Added(adds, x);
      assert 0 <= x <= m ==> adds[x].0 == x;
    }
  }

  // ---------------------------------------------------------------- a client that runs out of packets

  /** Chunks 0 to k - 1 are served, and their ACKs have been read, one in a tick. */
  ghost predicate AckedUpTo(cfg: Config, c: Conn, k: nat)
    requires cfg.Valid() && k <= Chunks(cfg)
  {
    && ServedUpTo(cfg, c, k) && c.cursor == |c.sys.ctrl| && c.sys.client.pending == []
    && AllAcked(c.sys.client, k)
  }

  predicate AllAcked(c: Client, k: nat) {
    forall j :: 0 <= j < k ==> Count(c.acked, j) == 1
  }

  lemma ReadAck(cfg: Config, c: Conn, k: u32) returns (d: Conn)
    requires cfg.Valid() && ReachableInOrder(cfg, c) && AtTick(c)
    requires c.cursor + 1 == |c.sys.ctrl| && c.sys.ctrl[c.cursor] == Image(Ctrl(k, FLAG_ACK))
    ensures ReachableInOrder(cfg, d)
    ensures d == Conn(c.sys.(client := Respond(c.sys.client, Ctrl(k, FLAG_ACK))), |c.sys.ctrl|, true)
  {
    var segment := c.sys.ctrl[c.cursor];
    RoundTrip(Ctrl(k, FLAG_ACK), [], Blank);
    assert Concat(c.sys.ctrl[c.cursor + 1..c.cursor + 1]) == [];
    d := ReachNext(cfg, c, ClientRead(segment, [], Blank));
  }

  /** A number read and neither acknowledged nor pending is in the window, and its ACK moves it. */
  lemma AckOfNext(src: seq<byte>, c: Client, k: u32)
    requires IsPartition(src) && Conserved(src, c) && c.phase.Ticking? && c.pending == []
    requires k < c.read && AllAcked(c, k) && Count(c.acked, k) == 0
    ensures AllAcked(Respond(c, Ctrl(k, FLAG_ACK)), k + 1) && Respond(c, Ctrl(k, FLAG_ACK)).pending == []
    ensures OnlyWindows(c, Respond(c, Ctrl(k, FLAG_ACK))) && Respond(c, Ctrl(k, FLAG_ACK)).done == c.done
  {
    AckDrops(src, c, k);
    assert Places(c, k) == 1;
  }

  lemma NotSavedNotAcked(cfg: Config, s: System, k: nat)
    requires cfg.Valid() && Inv(cfg, s) && k !in s.server.saved
    ensures Count(s.client.acked, k) == 0
  {
    Counted(s.client.acked, k);
  }

  /** The next chunk is served, and its ACK is read. */
  lemma AckNext(cfg: Config, c: Conn, k: nat) returns (d: Conn)
    requires cfg.Valid() && k < Chunks(cfg) && AckedUpTo(cfg, c, k)
    ensures ReachableInOrder(cfg, d) && d.sys.client.phase.Ticking? && !d.sys.client.done
    ensures d.sys.client.read == Chunks(cfg) && d.cursor == |d.sys.ctrl| && d.sys.data == c.sys.data
    ensures d.sys.client.pending == [] && AllAcked(d.sys.client, k + 1)
    ensures ServedUpTo(cfg, d.(sys := d.sys.(client := c.sys.client), hasRead := false, cursor := c.cursor), k + 1)
  {
    InOrderIsReachable(cfg, c);
    NotSavedNotAcked(cfg, c.sys, k);
    var e := ServeNext(cfg, c, k);
    d := ReadAck(cfg, e, k);
    AckOfNext(cfg.src, c.sys.client, k);
  }

  lemma NoneServed(cfg: Config, c: Conn)
    requires cfg.Valid() && Waiting(cfg, c) && c.sys.server == Init(cfg).server
    ensures ServedUpTo(cfg, c, 0)
  {
    assert Numbers(0, 0) == [] && Adds(cfg, []) == [];
  }

  /** The client goes on while a chunk is not saved. */
  lemma GoOn(cfg: Config, c: Conn, k: nat) returns (d: Conn)
    requires cfg.Valid() && ReachableInOrder(cfg, c) && c.sys.client.phase.Ticking? && !c.sys.client.done
    requires c.sys.client.pending == [] && c.cursor <= |c.sys.ctrl|
    requires k < Chunks(cfg) == c.sys.client.read && k !in c.sys.server.saved
    ensures ReachableInOrder(cfg, d) && AtTick(d) && ClientOnly(c, d) && d.cursor == c.cursor
    ensures d.sys.client.acked == c.sys.client.acked && d.sys.client.pending == [] && d.sys.client.read == Chunks(cfg)
  {
    InOrderIsReachable(cfg, c);
    if !HeldByClient(c.sys.client, k) {
      NotHeldMeansSaved(cfg, c.sys, k);
    }
    d := SendOneMore(cfg, c, k);
    InOrderIsReachable(cfg, d);
  }

  lemma {:induction false} AckAll(cfg: Config, k: nat) returns (c: Conn)
    requires cfg.Valid() && k < Chunks(cfg)
    ensures AckedUpTo(cfg, c, k)
  {
    if k == 0 {
      c := SendAll(cfg);
      NoneServed(cfg, c);
    } else {
      var before := AckAll(cfg, k - 1);
      var read := AckNext(cfg, before, k - 1);
      c := GoOn(cfg, read, k);
    }
  }

  /** A packet in flight is one that has not been acknowledged. */
  lemma InFlightNotAcked(src: seq<byte>, c: Client)
    requires IsPartition(src) && Conserved(src, c) && c.inFlight != []
    ensures !AllAcked(c, c.read)
  {
    var k := c.inFlight[0].seqNo;
    assert Places(c, k) == 1;
    assert Count(c.acked, k) == 0;
  }

  /** For every partition, in either reading, failing saves or not, some run in order ends with a client
      that has stopped because every packet was acknowledged. */
  lemma RunningOutHappens(cfg: Config) returns (c: Conn)
    requires cfg.Valid()
    ensures ReachableInOrder(cfg, c) && c.sys.client.phase.Stopped? && !c.sys.client.done
    ensures c.sys.server.file == cfg.src
  {
    if cfg.src == [] {
      c := Connection.Opened(cfg);
      assert Run(cfg, []) == Some(c);
    } else {
      var n := Chunks(cfg) - 1;
      var last := AckAll(cfg, n);
      c := AckNext(cfg, last, n);
      InOrderIsReachable(cfg, c);
      if c.sys.client.inFlight != [] {
        InFlightNotAcked(cfg.src, c.sys.client);
      }
      c := ReachNext(cfg, c, ClientEndTick);
    }
    c := ReachNext(cfg, c, ClientFetch);
    InOrderIsReachable(cfg, c);
    RanOutMeansDelivered(cfg, c.sys);
  }
}
