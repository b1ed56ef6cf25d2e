/** What holds on every run of a transfer, and exactly when a stopped client can be trusted. */
module Safety {
  import opened Basics
  import opened Ranges
  import opened Polling
  import opened SequencerRuns
  import opened Packets
  import opened FileIO
  import opened ClientSpec
  import opened Transfer
  import Srv = ServerSpec

  ghost predicate Reachable(cfg: Config, s: System)
    requires cfg.Valid()
  {
    exists actions :: Exec(cfg, actions) == Some(s)
  }

  lemma ReachableInv(cfg: Config, s: System)
    requires cfg.Valid() && Reachable(cfg, s)
    ensures Inv(cfg, s)
  {
    var actions :| Exec(cfg, actions) == Some(s);
    ExecInv(cfg, actions);
  }

  // ---------------------------------------------------------------- on every run

  /** A read never runs over the end of a packet or a buffer, whatever stale bytes follow. */
  lemma EveryReadStaysInside(cfg: Config, s: System, m: seq<byte>, stale: seq<byte>)
    requires cfg.Valid() && Reachable(cfg, s)
    ensures m in s.ctrl ==> Readable(m + stale)
    ensures m in s.data && |m| + |stale| == UDP_PACKET_SIZE ==> Readable(m + stale)
  {
    ReachableInv(cfg, s);
    if m in s.ctrl {
      var p := SegmentDecodes(cfg, s, m, stale, Blank);
    }
    if m in s.data && |m| + |stale| == UDP_PACKET_SIZE {
      var p := DatagramDecodes(cfg, s, m, stale, Blank);
    }
  }

  /** Number `k` is in one of the client's windows or in hand. */
  ghost predicate HeldByClient(c: Client, k: nat) {
    exists p: DataPacket :: p.seqNo == k && (p in c.inFlight || p in c.pending || p in InHand(c))
  }

  /** The receiver's file has the bytes of chunk `k`. */
  ghost predicate HasChunk(cfg: Config, file: seq<byte>, k: nat)
    requires cfg.Valid() && k < Chunks(cfg)
  {
    |file| == |cfg.src| && file[k * CHUNK..ChunkEnd(cfg.src, k)] == Chunk(cfg.src, k).payload
  }

  /** No chunk is lost by both ends: a chunk that was read is still held by the client, or the
      receiver's file has its bytes. */
  lemma NoChunkLost(cfg: Config, s: System, k: nat)
    requires cfg.Valid() && Reachable(cfg, s) && k < s.client.read
    ensures k < Chunks(cfg)
    ensures HeldByClient(s.client, k) || HasChunk(cfg, s.server.file, k)
  {
    ReachableInv(cfg, s);
    if !HeldByClient(s.client, k) {
      NotHeldMeansSaved(cfg, s, k);
      SavedMeansShown(cfg, s.server.file, s.server.saved, k);
    }
  }

  lemma NotHeldMeansSaved(cfg: Config, s: System, k: nat)
    requires cfg.Valid() && Inv(cfg, s) && k < s.client.read && !HeldByClient(s.client, k)
    ensures k in s.server.saved
  {
    var c := s.client;
    CountedMeansHeld(c, c.inFlight, k);
    CountedMeansHeld(c, c.pending, k);
    CountedMeansHeld(c, InHand(c), k);
    assert Places(c, k) == 1;
    Counted(c.acked, k);
    var i :| 0 <= i < |c.acked| && c.acked[i].seqNo == k;
  }

  lemma CountedMeansHeld(c: Client, ps: seq<DataPacket>, k: nat)
    requires ps == c.inFlight || ps == c.pending || ps == InHand(c)
    ensures Count(ps, k) > 0 ==> HeldByClient(c, k)
  {
    Counted(ps, k);
    if Count(ps, k) > 0 {
      var i :| 0 <= i < |ps| && ps[i].seqNo == k;
      assert ps[i] in ps;
    }
  }

  lemma SavedMeansShown(cfg: Config, file: seq<byte>, saved: set<nat>, k: nat)
    requires cfg.Valid() && Shows(file, cfg.src, saved) && k in saved && k < Chunks(cfg)
    ensures HasChunk(cfg, file, k)
  {
    forall i | k * CHUNK <= i < ChunkEnd(cfg.src, k)
      ensures file[i] == cfg.src[i]
    {
      InChunk(i, k);
    }
  }

  /** The queue between the receiver's threads is first in, first out, and every number popped or
      queued with flag ACK has its bytes in the file already; so, when no save fails, has every number
      the sequencer has recorded. */
  lemma ThreadsAgree(cfg: Config, s: System)
    requires cfg.Valid() && Reachable(cfg, s)
    ensures var v := s.server;
            && v.popped <= v.pushed && v.pushed == v.popped + v.queue
            && (forall i :: 0 <= i < |v.pushed| && v.pushed[i].flag == FLAG_ACK ==>
                  v.pushed[i].seqNo < Chunks(cfg) && HasChunk(cfg, v.file, v.pushed[i].seqNo))
            && (!cfg.faults ==> forall x: nat :: Covers(v.seqr.ranges, x) ==>
                  x < Chunks(cfg) && HasChunk(cfg, v.file, x))
  {
    ReachableInv(cfg, s);
    var v := s.server;
    forall i | 0 <= i < |v.pushed| && v.pushed[i].flag == FLAG_ACK
      ensures v.pushed[i].seqNo < Chunks(cfg) && HasChunk(cfg, v.file, v.pushed[i].seqNo)
    {
      SavedMeansShown(cfg, v.file, v.saved, v.pushed[i].seqNo);
    }
    forall x: nat | !cfg.faults && Covers(v.seqr.ranges, x)
      ensures x < Chunks(cfg) && HasChunk(cfg, v.file, x)
    {
      RecordedWasPopped(cfg, v, x);
      var i :| 0 <= i < |v.popped| && v.popped[i].seqNo == x;
      assert v.pushed[i] == v.popped[i];
      SavedMeansShown(cfg, v.file, v.saved, x);
    }
  }

  ghost predicate Popped(items: seq<Srv.Item>, seqNo: int) {
    exists i :: 0 <= i < |items| && items[i].seqNo == seqNo
  }

  lemma RecordedWasPopped(cfg: Config, v: Srv.Server, x: nat)
    requires SequencerOk(cfg, v) && Covers(v.seqr.ranges, x)
    ensures Popped(v.popped, x)
  {
    var ops := AddOps(cfg.reading, Given(v));
    RecordedWasAdded(ops, x);
    var i :| 0 <= i < |ops| && ops[i].AddOp? && ops[i].s == x;
    assert v.popped[i].seqNo == x;
  }

  /** On every run the sequencer's set is the plain set of the items it has been given, and a poll ends
      the loop exactly when that set is {0..expected}: no poll comes too early, and none is missed
      because ranges were left unmerged. */
  lemma PollIsExact(cfg: Config, s: System)
    requires cfg.Valid() && Reachable(cfg, s) && s.server.phase.Polling?
    ensures forall x :: Covers(s.server.seqr.ranges, x) <==> x in Recorded(AddOps(cfg.reading, s.server.popped))
    ensures Srv.Poll(s.server).phase.Finishing? <==> CoversExactlyUpTo(s.server.seqr.ranges, s.server.seqr.expected)
  {
    ReachableInv(cfg, s);
    var q := s.server.seqr;
    CompleteIff(q);
    if CoversExactlyUpTo(q.ranges, q.expected) && |q.ranges| > 2 {
      UpToMeansOneRun(q.ranges, q.expected);
      assert Joint(q.ranges, 0) && Joint(q.ranges, 1);
    }
  }

  lemma PoppedItemsOk(cfg: Config, v: Srv.Server)
    requires cfg.Valid() && ReceiverOk(cfg, v)
    ensures ItemsOk(cfg, v.saved, v.popped)
  {
    forall i | 0 <= i < |v.popped|
      ensures ItemOk(cfg, v.saved, v.popped[i])
    {
      assert v.pushed[i] == v.popped[i];
    }
  }

  // ---------------------------------------------------------------- what is asked for

  /** The items popped, as calls of sequencer_add. */
  function PoppedOps(cfg: Config, v: Srv.Server): (ops: seq<Op>)
    ensures AddsOnly(ops) && |ops| == |v.popped|
  {
    AddOps(cfg.reading, v.popped)
  }

  /** The server is about to ask for `x`. */
  predicate Asked(v: Srv.Server, x: u32) {
    Ctrl(x, FLAG_NACK) in Srv.Nack(v).1
  }

  lemma AskedIsMissing(v: Srv.Server, x: u32)
    ensures Asked(v, x) <==> x in SeqMissing(v.seqr)
  {
    var missing, nacks := SeqMissing(v.seqr), Srv.Nack(v).1;
    if i :| 0 <= i < |missing| && missing[i] == x {
      assert nacks[i] == Ctrl(x, FLAG_NACK);
    }
  }

  /** The NACKs the server is about to send are in ascending order, each number once, and for exactly the
      numbers below `maxSeqNo` that are not in its set. */
  lemma NacksAscend(v: Srv.Server)
    ensures var nacks := Srv.Nack(v).1;
            && (forall i :: 0 <= i < |nacks| ==> nacks[i].Ctrl? && nacks[i].flag == FLAG_NACK)
            && (forall i, j :: 0 <= i < j < |nacks| ==> nacks[i].seqNo < nacks[j].seqNo)
    ensures forall x: u32 :: Asked(v, x) <==> v.seqr.ranges != [] && x < v.seqr.maxSeqNo && !Covers(v.seqr.ranges, x)
  {
    SeqMissingExact(v.seqr);
    forall x: u32
      ensures Asked(v, x) <==> x in SeqMissing(v.seqr)
    {
      AskedIsMissing(v, x);
    }
  }

  ghost predicate AsksForGaps(cfg: Config, v: Srv.Server) {
    forall x: u32 :: Asked(v, x) <==> IsGap(PoppedOps(cfg, v), x)
  }

  lemma PoppedBelowSentinel(cfg: Config, v: Srv.Server)
    requires cfg.Valid() && ReceiverOk(cfg, v)
    ensures BelowSentinel(PoppedOps(cfg, v))
  {
    PoppedItemsOk(cfg, v);
    forall i | 0 <= i < |v.popped|
      ensures v.popped[i].seqNo < UINT32_MAX
    {
      ChunkFields(cfg.src, v.popped[i].seqNo);
    }
  }

  lemma GapsAskedFor(cfg: Config, v: Srv.Server)
    requires cfg.Valid() && ReceiverOk(cfg, v) && SequencerOk(cfg, v) && v.phase.Nacking?
    requires LastIsGreatest(PoppedOps(cfg, v))
    ensures AsksForGaps(cfg, v)
  {
    PoppedBelowSentinel(cfg, v);
    MissingAreTheGaps(v.seqr, PoppedOps(cfg, v));
    forall x: u32
      ensures Asked(v, x) <==> IsGap(PoppedOps(cfg, v), x)
    {
      AskedIsMissing(v, x);
    }
  }

  /** As intended, the NACKs sent are, on every run, for exactly the numbers not recorded below the
      greatest recorded one. */
  lemma IntendedAsksForGaps(cfg: Config, s: System)
    requires cfg.Valid() && Reachable(cfg, s) && cfg.reading.Intended? && s.server.phase.Nacking?
    ensures AsksForGaps(cfg, s.server)
  {
    ReachableInv(cfg, s);
    PoppedItemsOk(cfg, s.server);
    GapsAskedFor(cfg, s.server);
  }

  ghost predicate NoGapAbove(ops: seq<Op>, m: u32) {
    forall x: u32 :: IsGap(ops, x) ==> x < m
  }

  ghost predicate AsksBelow(cfg: Config, v: Srv.Server, m: u32) {
    forall x: u32 :: Asked(v, x) <==> x !in Recorded(PoppedOps(cfg, v)) && x < m
  }

  predicate FailedAt(v: Srv.Server, i: nat) {
    i < |v.popped| && v.popped[i].flag == FLAG_NACK
  }

  /** As written, that is so if and only if there is no gap above a number whose save failed: once such
      a number has been popped, the unrecorded numbers below it are asked for, and no others. */
  lemma AsWrittenAsksIff(cfg: Config, s: System)
    requires cfg.Valid() && Reachable(cfg, s) && cfg.reading.AsWritten? && s.server.phase.Nacking?
    ensures AsksForGaps(cfg, s.server) <==>
            forall i: nat :: FailedAt(s.server, i) ==>
              NoGapAbove(PoppedOps(cfg, s.server), s.server.popped[i].seqNo)
    ensures forall i: nat :: FailedAt(s.server, i) ==> AsksBelow(cfg, s.server, s.server.popped[i].seqNo)
  {
    ReachableInv(cfg, s);
    var v := s.server;
    forall i: nat | FailedAt(v, i)
      ensures i == |v.popped| - 1
      ensures AsksForGaps(cfg, v) <==> NoGapAbove(PoppedOps(cfg, v), v.popped[i].seqNo)
      ensures AsksBelow(cfg, v, v.popped[i].seqNo)
    {
      assert v.pushed[i] == v.popped[i];
      AsksBelowFailure(cfg, v, i);
    }
    if forall i: nat :: !FailedAt(v, i) {
      NothingFailedAsksForGaps(cfg, v);
    }
  }

  lemma NothingFailedAsksForGaps(cfg: Config, v: Srv.Server)
    requires cfg.Valid() && ReceiverOk(cfg, v) && SequencerOk(cfg, v) && cfg.reading.AsWritten? && v.phase.Nacking?
    requires forall i: nat :: !FailedAt(v, i)
    ensures AsksForGaps(cfg, v)
  {
    PoppedItemsOk(cfg, v);
    forall i | 0 <= i < |v.popped|
      ensures !PoppedOps(cfg, v)[i].isLast
    {
      assert !FailedAt(v, i);
    }
    GapsAskedFor(cfg, v);
  }

  lemma AsksBelowFailure(cfg: Config, v: Srv.Server, i: nat)
    requires SequencerOk(cfg, v) && cfg.reading.AsWritten? && v.phase.Nacking?
    requires i == |v.popped| - 1 && FailedAt(v, i)
    ensures AsksForGaps(cfg, v) <==> NoGapAbove(PoppedOps(cfg, v), v.popped[i].seqNo)
    ensures AsksBelow(cfg, v, v.popped[i].seqNo)
  {
    var before, m := AddOps(cfg.reading, v.popped[..i]), v.popped[i].seqNo;
    assert PoppedOps(cfg, v) == before + [AddOp(m, true)];
    MissingBelowLast(v.seqr, before, m);
    forall x: u32
      ensures Asked(v, x) <==> x in SeqMissing(v.seqr)
    {
      AskedIsMissing(v, x);
    }
  }

  // ---------------------------------------------------------------- the order of arrival

  /** The item popped at position `i` was passed on as last, the floor has come down to 0, and what was
      popped is 0 to that item's number, whatever order it came in and however often. */
  ghost predicate CompletesAt(cfg: Config, v: Srv.Server, i: nat) {
    && i < |v.popped| && Srv.IsLastArgument(cfg.reading, v.popped[i])
    && Floor(PoppedOps(cfg, v)) == Some(0)
    && forall x :: Came(PoppedOps(cfg, v), x) <==> 0 <= x <= v.popped[i].seqNo
  }

  /** On every run, in either reading, failing saves or not, the loop ends if and only if some item
      popped completes the set. */
  lemma LoopEndsIff(cfg: Config, s: System)
    requires cfg.Valid() && Reachable(cfg, s) && s.server.phase.Polling?
    ensures Srv.Poll(s.server).phase.Finishing? <==> exists i: nat :: CompletesAt(cfg, s.server, i)
  {
    ReachableInv(cfg, s);
    var v := s.server;
    var q, ops := v.seqr, PoppedOps(cfg, v);
    PollIsExact(cfg, s);
    CompleteUpToIff(q, ops, q.expected);
    if CoversExactlyUpTo(q.ranges, q.expected) {
      assert Covers(q.ranges, q.expected);
      var i :| 0 <= i < |v.popped| && v.popped[i].seqNo == q.expected && Srv.IsLastArgument(cfg.reading, v.popped[i]);
      assert CompletesAt(cfg, v, i);
    }
    if i: nat :| CompletesAt(cfg, v, i) {
      LastAgree(cfg, v, i);
      MarkedIsExpected(ops, i);
    }
  }

  /** All items passed on as last have the same number. */
  lemma LastAgree(cfg: Config, v: Srv.Server, i: nat)
    requires cfg.Valid() && ReceiverOk(cfg, v) && i < |v.popped| && Srv.IsLastArgument(cfg.reading, v.popped[i])
    ensures forall j :: 0 <= j < |v.popped| && Srv.IsLastArgument(cfg.reading, v.popped[j]) ==>
              v.popped[j].seqNo == v.popped[i].seqNo
  {
    PoppedItemsOk(cfg, v);
    assert v.pushed[i] == v.popped[i];
    forall j | 0 <= j < |v.popped| && Srv.IsLastArgument(cfg.reading, v.popped[j])
      ensures v.popped[j].seqNo == v.popped[i].seqNo
    {
      assert v.pushed[j] == v.popped[j];
    }
  }

  lemma {:induction false} MarkedIsExpected(ops: seq<Op>, i: nat)
    requires i < |ops| && ops[i].AddOp? && ops[i].isLast
    requires forall j :: 0 <= j < |ops| && ops[j].AddOp? && ops[j].isLast ==> ops[j].s == ops[i].s
    ensures RunOps(ops).expected == ops[i].s
  {
    var n := |ops| - 1;
    if !ops[n].AddOp? || !ops[n].isLast {
      MarkedIsExpected(ops[..n], i);
    }
  }

  lemma CameIffPopped(cfg: Config, v: Srv.Server, x: int)
    ensures Came(PoppedOps(cfg, v), x) <==> Popped(v.popped, x)
  {
    var ops := PoppedOps(cfg, v);
    if i :| 0 <= i < |ops| && ops[i].AddOp? && ops[i].s == x {
      assert v.popped[i].seqNo == x;
    }
    if i :| 0 <= i < |v.popped| && v.popped[i].seqNo == x {
      assert ops[i].s == x;
    }
  }

  ghost predicate AllPopped(cfg: Config, v: Srv.Server)
    requires cfg.Valid()
  {
    forall k: nat :: k < Chunks(cfg) ==> Popped(v.popped, k)
  }

  lemma AllPoppedAllSaved(cfg: Config, v: Srv.Server)
    requires cfg.Valid() && ReceiverOk(cfg, v) && !cfg.faults
    requires AllPopped(cfg, v)
    ensures v.file == cfg.src
  {
    PoppedItemsOk(cfg, v);
    forall k: nat | k < Chunks(cfg)
      ensures k in v.saved
    {
      assert Popped(v.popped, k);
      var i :| 0 <= i < |v.popped| && v.popped[i].seqNo == k;
      assert ItemOk(cfg, v.saved, v.popped[i]);
    }
    AllShownIsPartition(v.file, cfg.src, v.saved);
  }

  /** As intended, with successful saves and END marked: when every number has been popped, once or more
      often, the file is complete, and the loop ends if and only if the floor has come down to 0. */
  lemma AllPoppedFinishesIff(cfg: Config, s: System)
    requires cfg.Valid() && Reachable(cfg, s) && cfg.reading.Intended? && !cfg.faults && EndIsMarked(|cfg.src|)
    requires s.server.phase.Polling? && AllPopped(cfg, s.server)
    ensures s.server.file == cfg.src
    ensures Srv.Poll(s.server).phase.Finishing? <==> Floor(PoppedOps(cfg, s.server)) == Some(0)
  {
    ReachableInv(cfg, s);
    var v := s.server;
    var last := Chunks(cfg) - 1;
    AllPoppedAllSaved(cfg, v);
    LoopEndsIff(cfg, s);
    PoppedItemsOk(cfg, v);
    assert Popped(v.popped, last);
    var i: nat :| i < |v.popped| && v.popped[i].seqNo == last;
    forall x
      ensures Came(PoppedOps(cfg, v), x) <==> 0 <= x <= last
    {
      CameIffPopped(cfg, v, x);
    }
    assert CompletesAt(cfg, v, i) <==> Floor(PoppedOps(cfg, v)) == Some(0);
  }

  /** Without repeats that is so if and only if no number came that was below all earlier ones by more
      than one. */
  lemma OnceEachFinishesIff(cfg: Config, s: System)
    requires cfg.Valid() && Reachable(cfg, s) && cfg.reading.Intended? && !cfg.faults && EndIsMarked(|cfg.src|)
    requires s.server.phase.Polling? && AllPopped(cfg, s.server) && NoRepeats(PoppedOps(cfg, s.server))
    ensures s.server.file == cfg.src
    ensures Srv.Poll(s.server).phase.Finishing? <==> StepsDown(PoppedOps(cfg, s.server))
  {
    var ops := PoppedOps(cfg, s.server);
    AllPoppedFinishesIff(cfg, s);
    OnceEachRecordedIff(ops);
    RecordedIffAboveFloor(ops);
    assert Popped(s.server.popped, 0);
    CameIffPopped(cfg, s.server, 0);
    var i :| 0 <= i < |ops| && ops[i].AddOp? && ops[i].s == 0;
    assert forall j :: 0 <= j < |ops| ==> Came(ops, ops[j].s);
  }

  // ---------------------------------------------------------------- a client that ran out of packets

  /** If the client stopped because nothing was left to send, the receiver's file is the partition,
      on every run, failing saves or not. */
  lemma RanOutMeansDelivered(cfg: Config, s: System)
    requires cfg.Valid() && Reachable(cfg, s) && s.client.phase.Stopped? && !s.client.done
    ensures s.server.file == cfg.src
  {
    ReachableInv(cfg, s);
    forall k: nat | k < Chunks(cfg)
      ensures k in s.server.saved
    {
      assert InHand(s.client) == [];
      NotHeldMeansSaved(cfg, s, k);
    }
    AllShownIsPartition(s.server.file, cfg.src, s.server.saved);
  }

  // ---------------------------------------------------------------- a client that got a FIN

  /** The bytes from `lo` to `hi` are zero. */
  predicate AllZero(src: seq<byte>, lo: nat, hi: int) {
    forall i :: lo <= i < hi && i < |src| ==> src[i] == 0
  }

  /** The bytes before the last chunk. */
  function BeforeLast(src: seq<byte>): int {
    (NumChunks(|src|) - 1) * CHUNK
  }

  /** When a stopped client can be trusted. Without failing saves always. With failing saves, as the
      code is written, only for a partition of zeros; in the intended reading, for a partition whose
      last packet is not marked END, or one that is all zeros before its last chunk. */
  predicate Dependable(cfg: Config) {
    || !cfg.faults
    || (match cfg.reading
        case AsWritten => AllZero(cfg.src, 0, |cfg.src|)
        case Intended => !EndIsMarked(|cfg.src|) || AllZero(cfg.src, 0, BeforeLast(cfg.src)))
  }

  /** A client that has stopped, for either reason, leaves the receiver with the partition. */
  ghost predicate AlwaysDelivered(cfg: Config)
    requires cfg.Valid()
  {
    forall s: System :: Reachable(cfg, s) && s.client.phase.Stopped? ==> s.server.file == cfg.src
  }

  /** As written, and with every save successful, the server's loop never ends: no item is ever
      passed to the sequencer as last, and no FIN is ever sent. */
  lemma AsWrittenNeverFinishes(cfg: Config, s: System)
    requires cfg.Valid() && Reachable(cfg, s) && cfg.reading.AsWritten? && !cfg.faults
    ensures !s.server.phase.Finishing? && !s.server.phase.Finished? && !s.client.done
    ensures forall seqNo: u32 :: Image(Ctrl(seqNo, FLAG_FIN)) !in s.ctrl
  {
    ReachableInv(cfg, s);
    var v := s.server;
    PoppedItemsOk(cfg, v);
    if v.phase.Finishing? || v.phase.Finished? {
      EndedMeansPoppedLast(cfg, v);
    }
    forall seqNo: u32 | Image(Ctrl(seqNo, FLAG_FIN)) in s.ctrl
      ensures false
    {
      var m := Image(Ctrl(seqNo, FLAG_FIN));
      var p := SegmentDecodes(cfg, s, m, [], Blank);
      RoundTrip(Ctrl(seqNo, FLAG_FIN), [], Blank);
    }
  }

  /** The number the FIN carries: the server has popped it as last, and has popped exactly the numbers up
      to it. As intended it is the last chunk's, as written the one whose save failed. A FIN is on the wire
      if and only if the loop has ended. */
  lemma FinNumber(cfg: Config, s: System, x: u32)
    requires cfg.Valid() && Reachable(cfg, s) && Image(Ctrl(x, FLAG_FIN)) in s.ctrl
    ensures s.server.phase.Finished? && !s.server.receiving
    ensures PoppedLast(s.server.popped, x, cfg.reading) && forall y :: Popped(s.server.popped, y) <==> 0 <= y <= x
    ensures cfg.reading.Intended? ==> x == Chunks(cfg) - 1
    ensures cfg.reading.AsWritten? ==> Srv.Item(x, FLAG_NACK, false) in s.server.popped
  {
    ReachableInv(cfg, s);
    var v := s.server;
    var p := SegmentDecodes(cfg, s, Image(Ctrl(x, FLAG_FIN)), [], Blank);
    RoundTrip(Ctrl(x, FLAG_FIN), [], Blank);
    FinishedMeansExactly(cfg, v);
    PoppedItemsOk(cfg, v);
    var i :| 0 <= i < |v.popped| && v.popped[i].seqNo == x && Srv.IsLastArgument(cfg.reading, v.popped[i]);
    assert v.popped[i] in v.popped;
  }

  lemma FinishedMeansExactly(cfg: Config, v: Srv.Server)
    requires cfg.Valid() && SequencerOk(cfg, v) && v.phase.Finished?
    ensures PoppedLast(v.popped, v.seqr.expected, cfg.reading)
    ensures forall y :: Popped(v.popped, y) <==> 0 <= y <= v.seqr.expected
  {
    EndedMeansPoppedLast(cfg, v);
    CompleteUpToIff(v.seqr, PoppedOps(cfg, v), v.seqr.expected);
    forall y
      ensures Popped(v.popped, y) <==> 0 <= y <= v.seqr.expected
    {
      CameIffPopped(cfg, v, y);
    }
  }

  /** Once the loop has ended, a FIN is on the wire. */
  lemma EndedMeansFin(cfg: Config, s: System) returns (x: u32)
    requires cfg.Valid() && Reachable(cfg, s) && s.server.phase.Finished?
    ensures Image(Ctrl(x, FLAG_FIN)) in s.ctrl
  {
    ReachableInv(cfg, s);
    x := s.server.seqr.expected;
  }

  /** In the intended reading a FIN means that the END packet and every number below it were popped. */
  lemma IntendedFinMeansAllPopped(cfg: Config, s: System)
    requires cfg.Valid() && Inv(cfg, s) && cfg.reading.Intended? && s.server.phase.Finished?
    ensures EndIsMarked(|cfg.src|) && Chunks(cfg) - 1 in s.server.saved
    ensures forall k: nat :: k < Chunks(cfg) ==> Popped(s.server.popped, k)
  {
    var v := s.server;
    FinishedMeansExactly(cfg, v);
    PoppedItemsOk(cfg, v);
    var i :| 0 <= i < |v.popped| && v.popped[i].seqNo == v.seqr.expected
             && Srv.IsLastArgument(cfg.reading, v.popped[i]);
    assert v.seqr.expected == Chunks(cfg) - 1;
  }

  lemma FinishedAsWritten(cfg: Config, s: System)
    requires cfg.Valid() && Dependable(cfg) && Reachable(cfg, s) && s.server.phase.Finished? && cfg.reading.AsWritten?
    ensures s.server.file == cfg.src
  {
    ReachableInv(cfg, s);
    if !cfg.faults {
      AsWrittenNeverFinishes(cfg, s);
      assert false;
    } else {
      ZerosDelivered(cfg, s.server);
    }
  }

  lemma ZerosDelivered(cfg: Config, v: Srv.Server)
    requires cfg.Valid() && ReceiverOk(cfg, v) && AllZero(cfg.src, 0, |cfg.src|)
    ensures v.file == cfg.src
  {
    assert forall i :: 0 <= i < |v.file| ==> v.file[i] == cfg.src[i];
  }

  lemma LastSavedDelivers(cfg: Config, v: Srv.Server)
    requires cfg.Valid() && ReceiverOk(cfg, v) && AllZero(cfg.src, 0, BeforeLast(cfg.src))
    requires cfg.src != [] && Chunks(cfg) - 1 in v.saved
    ensures v.file == cfg.src
  {
    forall i | 0 <= i < |cfg.src|
      ensures v.file[i] == cfg.src[i]
    {
      if i >= BeforeLast(cfg.src) {
        InChunk(i, Chunks(cfg) - 1);
      }
    }
  }

  /** In a dependable setting a server that has ended its loop has the whole partition. */
  lemma FinishedDelivers(cfg: Config, s: System)
    requires cfg.Valid() && Dependable(cfg) && Reachable(cfg, s) && s.server.phase.Finished?
    ensures s.server.file == cfg.src
  {
    if cfg.reading.AsWritten? {
      FinishedAsWritten(cfg, s);
    } else {
      ReachableInv(cfg, s);
      IntendedFinMeansAllPopped(cfg, s);
      if !cfg.faults {
        AllPoppedAllSaved(cfg, s.server);
      } else {
        LastSavedDelivers(cfg, s.server);
      }
    }
  }

  /** The sufficient half: in a dependable setting the file of a stopped client's peer is the
      partition. */
  lemma DependableDelivers(cfg: Config, s: System)
    requires cfg.Valid() && Dependable(cfg) && Reachable(cfg, s) && s.client.phase.Stopped?
    ensures s.server.file == cfg.src
  {
    ReachableInv(cfg, s);
    if s.client.done {
      FinishedDelivers(cfg, s);
    } else {
      RanOutMeansDelivered(cfg, s);
    }
  }
}
