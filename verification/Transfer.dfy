/** One client worker, one server, and the channels between them, as interleaved steps. A datagram or
    control packet that was ever sent may be delivered at any later time, any number of times, or
    never; what a receive buffer holds behind it is arbitrary. Connection.dfy has the runs whose control
    packets arrive as a connection delivers them. */
module Transfer {
  import opened Basics
  import opened Ranges
  import opened Polling
  import opened SequencerRuns
  import opened Packets
  import opened FileIO
  import opened ClientSpec
  import Srv = ServerSpec

  /** The partition, its metadata packet, the reading of line 180, and whether saves may fail. */
  datatype Config = Config(src: seq<byte>, metadata: Packet, reading: Srv.Reading, faults: bool)
  {
    predicate Valid() {
      IsPartition(src) && metadata.Metadata? && metadata.WellFormed() && metadata.partSize == |src|
    }
  }

  /** `data` are the datagrams ever sent, `ctrl` the control packets ever sent, in that order. */
  datatype System = System(client: Client, server: Srv.Server, data: set<seq<byte>>, ctrl: seq<seq<byte>>)

  function Init(cfg: Config): System
    requires cfg.Valid()
  {
    System(START, Srv.Opened(cfg.metadata.partSize), {Image(cfg.metadata)}, [])
  }

  datatype Action =
    | ClientFetch | ClientSend | ClientRead(segment: seq<byte>, stale: seq<byte>, rspPkt: Packet) | ClientEndTick
    | ServerReceive(datagram: seq<byte>, stale: seq<byte>, fault: Fault) | ServerPush
    | ServerPoll | ServerPop | ServerAck | ServerRecord | ServerNack | ServerFinish

  predicate Enabled(cfg: Config, s: System, a: Action) {
    match a
    case ClientFetch => s.client.phase.Fetching?
    case ClientSend => s.client.phase.Sending?
    case ClientRead(segment, stale, _) =>
      s.client.phase.Ticking? && segment in s.ctrl && |segment| + |stale| <= SEGMENT_SIZE
    case ClientEndTick => s.client.phase.Ticking?
    case ServerReceive(datagram, stale, fault) =>
      && s.server.receiving && s.server.toPush == None && datagram in s.data
      && |datagram| + |stale| == UDP_PACKET_SIZE && Readable(datagram + stale)
      && (fault.NoFault? || cfg.faults)
    case ServerPush => s.server.receiving && s.server.toPush.Some?
    case ServerPoll => s.server.phase.Polling?
    case ServerPop => s.server.phase.Popping?
    case ServerAck => s.server.phase.Acking?
    case ServerRecord => s.server.phase.Adding?
    case ServerNack => s.server.phase.Nacking?
    case ServerFinish => s.server.phase.Finishing?
  }

  function Step(cfg: Config, s: System, a: Action): System
    requires cfg.Valid() && Enabled(cfg, s, a)
  {
    match a
    case ClientFetch => s.(client := Fetch(cfg.src, s.client))
    case ClientSend => s.(client := Send(s.client), data := s.data + {Image(s.client.phase.packet)})
    case ClientRead(segment, stale, rspPkt) => s.(client := Respond(s.client, Decoded(segment + stale, rspPkt)))
    case ClientEndTick => s.(client := EndTick(s.client))
    case ServerReceive(datagram, stale, fault) => s.(server := Srv.Receive(s.server, datagram + stale, fault))
    case ServerPush => s.(server := Srv.Push(s.server))
    case ServerPoll => s.(server := Srv.Poll(s.server))
    case ServerPop => s.(server := Srv.Pop(s.server))
    case ServerAck => s.(server := Srv.Ack(s.server).0, ctrl := s.ctrl + [Image(Srv.Ack(s.server).1)])
    case ServerRecord => s.(server := Srv.Record(s.server, cfg.reading))
    case ServerNack => s.(server := Srv.Nack(s.server).0, ctrl := s.ctrl + Images(Srv.Nack(s.server).1))
    case ServerFinish => s.(server := Srv.Finish(s.server).0, ctrl := s.ctrl + [Image(Srv.Finish(s.server).1)])
  }

  /** The state after these actions; None if one of them was not enabled. */
  function Exec(cfg: Config, actions: seq<Action>): Option<System>
    requires cfg.Valid()
  {
    if actions == [] then Some(Init(cfg))
    else
      match Exec(cfg, actions[..|actions| - 1])
      case None => None
      case Some(s) =>
        var a := actions[|actions| - 1];
        if Enabled(cfg, s, a) then Some(Step(cfg, s, a)) else None
  }

  // ---------------------------------------------------------------- the invariant

  function Chunks(cfg: Config): nat { NumChunks(|cfg.src|) }

  predicate IsChunk(cfg: Config, p: Packet)
    requires cfg.Valid()
  {
    p.Data? && p.seqNo < Chunks(cfg) && p == Chunk(cfg.src, p.seqNo)
  }

  /** What the client has put on the wire. */
  ghost predicate DataOk(cfg: Config, data: set<seq<byte>>)
    requires cfg.Valid()
  {
    forall m :: m in data ==>
      exists p: Packet :: p.WellFormed() && m == Image(p) && (p == cfg.metadata || IsChunk(cfg, p))
  }

  /** An item on its way to the sequencer: ACK only for a number that is saved, last only for the
      END packet, NACK only when saves may fail. */
  predicate ItemOk(cfg: Config, saved: set<nat>, item: Srv.Item)
    requires cfg.Valid()
  {
    && item.seqNo < Chunks(cfg)
    && ( || (item.flag == FLAG_ACK && item.seqNo in saved
             && (item.isLast <==> item.seqNo == Chunks(cfg) - 1 && EndIsMarked(|cfg.src|)))
         || (item.flag == FLAG_NACK && !item.isLast && cfg.faults))
  }

  predicate ItemsOk(cfg: Config, saved: set<nat>, items: seq<Srv.Item>)
    requires cfg.Valid()
  {
    forall i :: 0 <= i < |items| ==> ItemOk(cfg, saved, items[i])
  }

  /** The receiving thread ends with the item of a failed save. */
  predicate EndsWithNack(v: Srv.Server) {
    forall i :: 0 <= i < |v.pushed| && v.pushed[i].flag == FLAG_NACK ==> i == |v.pushed| - 1 && !v.receiving
  }

  /** The receiving thread: the file shows what was saved, and the queue is what was pushed less what
      was popped. */
  ghost predicate ReceiverOk(cfg: Config, v: Srv.Server)
    requires cfg.Valid()
  {
    && Shows(v.file, cfg.src, v.saved)
    && (v.rcvPkt.Data? ==> IsChunk(cfg, v.rcvPkt))
    && (v.toPush.Some? ==> ItemOk(cfg, v.saved, v.toPush.value))
    && ItemsOk(cfg, v.saved, v.pushed)
    && v.pushed == v.popped + v.queue
    && EndsWithNack(v)
  }

  ghost predicate PoppedLast(items: seq<Srv.Item>, seqNo: int, reading: Srv.Reading) {
    exists i :: 0 <= i < |items| && items[i].seqNo == seqNo && Srv.IsLastArgument(reading, items[i])
  }

  /** The items the sequencer has been given: all popped ones but the one being worked on. */
  function Given(v: Srv.Server): seq<Srv.Item> {
    if (v.phase.Acking? || v.phase.Adding?) && v.popped != [] then v.popped[..|v.popped| - 1] else v.popped
  }

  /** The calls of sequencer_add these items lead to. */
  function AddOps(reading: Srv.Reading, items: seq<Srv.Item>): (ops: seq<Op>)
    ensures |ops| == |items|
    ensures forall i :: 0 <= i < |ops| ==> ops[i] == AddOp(items[i].seqNo, Srv.IsLastArgument(reading, items[i]))
  {
    seq(|items|, i requires 0 <= i < |items| => AddOp(items[i].seqNo, Srv.IsLastArgument(reading, items[i])))
  }

  /** The sequencing thread: set and counters are those of the items given, the expected last number
      was popped as last, an add starts from merged ranges and leaves at most one adjacent pair, and the
      loop ends only on a set that is exactly {0..expected}. */
  ghost predicate SequencerOk(cfg: Config, v: Srv.Server) {
    && StandsFor(v.seqr, AddOps(cfg.reading, Given(v))) && !Covers(v.seqr.ranges, UINT32_MAX)
    && (v.seqr.expected != UINT32_MAX ==> PoppedLast(v.popped, v.seqr.expected, cfg.reading))
    && AtMostOneJoint(v.seqr.ranges)
    && (v.phase.Popping? || v.phase.Acking? || v.phase.Adding? ==> Canonical(v.seqr.ranges))
    && (v.phase.Acking? || v.phase.Adding? ==> v.popped != [] && v.phase.item == v.popped[|v.popped| - 1])
    && (v.phase.Nacking? ==> v.popped != [])
    && (v.phase.Finishing? || v.phase.Finished? ==> CoversExactlyUpTo(v.seqr.ranges, v.seqr.expected))
  }

  /** What the server has put on the wire: each packet names a chunk, an ACK means saved, a FIN means
      the loop has ended and names the expected number. */
  ghost predicate CtrlOk(cfg: Config, ctrl: seq<seq<byte>>, v: Srv.Server) {
    forall m :: m in ctrl ==> exists p: Packet :: RespOk(cfg, p, v) && m == Image(p)
  }

  predicate RespOk(cfg: Config, p: Packet, v: Srv.Server) {
    && p.Ctrl? && p.seqNo < Chunks(cfg)
    && (p.flag == FLAG_ACK ==> p.seqNo in v.saved)
    && (p.flag == FLAG_FIN ==> v.phase.Finished? && p.seqNo == v.seqr.expected)
  }

  ghost predicate Inv(cfg: Config, s: System)
    requires cfg.Valid()
  {
    && Conserved(cfg.src, s.client)
    && DataOk(cfg, s.data)
    && ReceiverOk(cfg, s.server)
    && SequencerOk(cfg, s.server)
    && CtrlOk(cfg, s.ctrl, s.server)
    && (s.server.popped == [] ==> s.ctrl == [])
    && (forall i :: 0 <= i < |s.client.acked| ==> s.client.acked[i].seqNo in s.server.saved)
    && (s.client.done ==> s.server.phase.Finished?)
    && (s.server.phase.Finished? ==> Ended(s))
  }

  /** The loop has ended: the FIN is out, and the receiving thread is cancelled. */
  predicate Ended(s: System) {
    !s.server.receiving && Image(Ctrl(s.server.seqr.expected, FLAG_FIN)) in s.ctrl
  }

  // ---------------------------------------------------------------- every step keeps it

  lemma InitInv(cfg: Config)
    requires cfg.Valid()
    ensures Inv(cfg, Init(cfg))
  {
    var s := Init(cfg);
    ZerosShownAlready(cfg.src);
    NothingGiven(cfg, s.server);
    assert forall k: nat :: Places(START, k) == 0;
    assert Zeros(|cfg.src|) == s.server.file;
  }

  lemma NothingGiven(cfg: Config, v: Srv.Server)
    requires v.seqr == EMPTY && v.popped == [] && v.phase.Polling?
    ensures SequencerOk(cfg, v)
  {
    assert AddOps(cfg.reading, Given(v)) == [];
    assert Recorded([]) == {};
  }

  lemma StepKeepsInv(cfg: Config, s: System, a: Action)
    requires cfg.Valid() && Inv(cfg, s) && Enabled(cfg, s, a)
    ensures Inv(cfg, Step(cfg, s, a))
  {
    match a
    case ClientFetch => StepConserves(cfg.src, s.client, DoFetch);
    case ClientSend => ClientSendKeepsInv(cfg, s);
    case ClientRead(segment, stale, rspPkt) => ClientReadKeepsInv(cfg, s, segment, stale, rspPkt);
    case ClientEndTick => StepConserves(cfg.src, s.client, DoEndTick);
    case ServerReceive(datagram, stale, fault) => ServerReceiveKeepsInv(cfg, s, datagram, stale, fault);
    case ServerPush => ServerPushKeepsInv(cfg, s);
    case ServerPoll => ServerPollKeepsInv(cfg, s);
    case ServerPop => ServerPopKeepsInv(cfg, s);
    case ServerAck => ServerAckKeepsInv(cfg, s);
    case ServerRecord => ServerRecordKeepsInv(cfg, s);
    case ServerNack => ServerNackKeepsInv(cfg, s);
    case ServerFinish => ServerFinishKeepsInv(cfg, s);
  }

  lemma ClientSendKeepsInv(cfg: Config, s: System)
    requires cfg.Valid() && Inv(cfg, s) && Enabled(cfg, s, ClientSend)
    ensures Inv(cfg, Step(cfg, s, ClientSend))
  {
    StepConserves(cfg.src, s.client, DoSend);
    assert IsChunk(cfg, s.client.phase.packet);
  }

  /** Every segment the client reads decodes as a packet the server sent. */
  lemma SegmentDecodes(cfg: Config, s: System, segment: seq<byte>, stale: seq<byte>, rspPkt: Packet)
    returns (p: Packet)
    requires CtrlOk(cfg, s.ctrl, s.server) && segment in s.ctrl
    ensures RespOk(cfg, p, s.server) && Readable(segment + stale) && Decoded(segment + stale, rspPkt) == p
  {
    p :| RespOk(cfg, p, s.server) && segment == Image(p);
    RoundTrip(p, stale, rspPkt);
  }

  lemma ClientReadKeepsInv(cfg: Config, s: System, segment: seq<byte>, stale: seq<byte>, rspPkt: Packet)
    requires cfg.Valid() && Inv(cfg, s) && Enabled(cfg, s, ClientRead(segment, stale, rspPkt))
    ensures Inv(cfg, Step(cfg, s, ClientRead(segment, stale, rspPkt)))
  {
    var p := SegmentDecodes(cfg, s, segment, stale, rspPkt);
    StepConserves(cfg.src, s.client, DoRespond(p));
  }

  /** Every datagram the server reads decodes as the metadata packet or as a chunk. */
  lemma DatagramDecodes(cfg: Config, s: System, datagram: seq<byte>, stale: seq<byte>, before: Packet)
    returns (p: Packet)
    requires cfg.Valid() && DataOk(cfg, s.data) && datagram in s.data && |datagram| + |stale| == UDP_PACKET_SIZE
    ensures p == cfg.metadata || IsChunk(cfg, p)
    ensures Readable(datagram + stale) && Decoded(datagram + stale, before) == p
  {
    p :| p.WellFormed() && datagram == Image(p) && (p == cfg.metadata || IsChunk(cfg, p));
    RoundTrip(p, stale, before);
  }

  lemma ServerReceiveKeepsInv(cfg: Config, s: System, datagram: seq<byte>, stale: seq<byte>, fault: Fault)
    requires cfg.Valid() && Inv(cfg, s) && Enabled(cfg, s, ServerReceive(datagram, stale, fault))
    ensures Inv(cfg, Step(cfg, s, ServerReceive(datagram, stale, fault)))
  {
    var p := DatagramDecodes(cfg, s, datagram, stale, s.server.rcvPkt);
    ReceiveKeepsServer(cfg, s.server, datagram + stale, p, fault);
    SavedGrows(cfg, s, Srv.Receive(s.server, datagram + stale, fault));
  }

  lemma ReceiveKeepsServer(cfg: Config, v: Srv.Server, buf: seq<byte>, p: Packet, fault: Fault)
    requires cfg.Valid() && ReceiverOk(cfg, v) && SequencerOk(cfg, v) && (fault.NoFault? || cfg.faults)
    requires Readable(buf) && Decoded(buf, v.rcvPkt) == p && (p == cfg.metadata || IsChunk(cfg, p))
    ensures var after := Srv.Receive(v, buf, fault);
            && ReceiverOk(cfg, after) && SequencerOk(cfg, after)
            && v.saved <= after.saved && after.phase == v.phase && after.seqr == v.seqr
  {
    var decoded := v.(rcvPkt := p);
    if p.Data? {
      ChunkSaved(cfg, decoded, fault);
    }
    SequencerNotConcerned(cfg, v, Srv.Receive(v, buf, fault));
  }

  lemma SequencerNotConcerned(cfg: Config, v: Srv.Server, after: Srv.Server)
    requires SequencerOk(cfg, v)
    requires after.seqr == v.seqr && after.phase == v.phase && after.popped == v.popped
    ensures SequencerOk(cfg, after)
  {
    assert Given(after) == Given(v);
  }

  lemma ChunkSaved(cfg: Config, v: Srv.Server, fault: Fault)
    requires cfg.Valid() && ReceiverOk(cfg, v) && v.rcvPkt.Data? && (fault.NoFault? || cfg.faults)
    ensures ReceiverOk(cfg, Srv.Save(v, fault))
  {
    SaveKeepsPicture(v.file, cfg.src, v.saved, v.rcvPkt.seqNo, fault);
    ChunkFields(cfg.src, v.rcvPkt.seqNo);
  }

  /** Items and responses stay in order when more is saved. */
  lemma SavedGrows(cfg: Config, s: System, after: Srv.Server)
    requires cfg.Valid() && Inv(cfg, s)
    requires s.server.saved <= after.saved && after.phase == s.server.phase && after.seqr == s.server.seqr
    ensures ItemsOk(cfg, after.saved, s.server.pushed)
    ensures CtrlOk(cfg, s.ctrl, after)
  {
    forall m | m in s.ctrl
      ensures exists p: Packet :: RespOk(cfg, p, after) && m == Image(p)
    {
      var p: Packet :| RespOk(cfg, p, s.server) && m == Image(p);
      assert RespOk(cfg, p, after);
    }
  }

  lemma ServerPushKeepsInv(cfg: Config, s: System)
    requires cfg.Valid() && Inv(cfg, s) && Enabled(cfg, s, ServerPush)
    ensures Inv(cfg, Step(cfg, s, ServerPush))
  {
    var after := Srv.Push(s.server);
    var item := s.server.toPush.value;
    assert after.pushed == s.server.popped + (s.server.queue + [item]);
    SavedGrows(cfg, s, after);
  }

  lemma ServerPollKeepsInv(cfg: Config, s: System)
    requires cfg.Valid() && Inv(cfg, s) && Enabled(cfg, s, ServerPoll)
    ensures Inv(cfg, Step(cfg, s, ServerPoll))
  {
    PassKeepsSet(s.server.seqr.ranges);
    CompleteIff(s.server.seqr);
    OnePassMendsOneJoint(s.server.seqr.ranges);
    CanonicalHasNoJoint(Srv.Poll(s.server).seqr.ranges);
    PhaseMoves(cfg, s, Srv.Poll(s.server));
  }

  /** Before the end of the loop no FIN is on the wire, so the phase may move freely. */
  lemma PhaseMoves(cfg: Config, s: System, after: Srv.Server)
    requires CtrlOk(cfg, s.ctrl, s.server) && !s.server.phase.Finished? && after.saved == s.server.saved
    ensures CtrlOk(cfg, s.ctrl, after)
  {
    forall m | m in s.ctrl
      ensures exists p: Packet :: RespOk(cfg, p, after) && m == Image(p)
    {
      var p: Packet :| RespOk(cfg, p, s.server) && m == Image(p);
      assert RespOk(cfg, p, after);
    }
  }

  /** The item popped is being worked on, so the sequencer has not been given it. */
  lemma PopGivesNothing(v: Srv.Server)
    requires v.phase.Popping?
    ensures Given(Srv.Pop(v)) == Given(v)
  {
    if v.queue != [] {
      assert (v.popped + [v.queue[0]])[..|v.popped|] == v.popped;
    }
  }

  lemma MorePoppedLast(items: seq<Srv.Item>, item: Srv.Item, seqNo: int, reading: Srv.Reading)
    requires PoppedLast(items, seqNo, reading)
    ensures PoppedLast(items + [item], seqNo, reading)
  {
    var i :| 0 <= i < |items| && items[i].seqNo == seqNo && Srv.IsLastArgument(reading, items[i]);
    assert (items + [item])[i] == items[i];
  }

  lemma ServerPopKeepsInv(cfg: Config, s: System)
    requires cfg.Valid() && Inv(cfg, s) && Enabled(cfg, s, ServerPop)
    ensures Inv(cfg, Step(cfg, s, ServerPop))
  {
    var v, after := s.server, Srv.Pop(s.server);
    PhaseMoves(cfg, s, after);
    PopGivesNothing(v);
    if v.queue != [] {
      assert v.popped + v.queue == (v.popped + [v.queue[0]]) + v.queue[1..];
      if v.seqr.expected != UINT32_MAX {
        MorePoppedLast(v.popped, v.queue[0], v.seqr.expected, cfg.reading);
      }
    }
  }

  lemma ServerAckKeepsInv(cfg: Config, s: System)
    requires cfg.Valid() && Inv(cfg, s) && Enabled(cfg, s, ServerAck)
    ensures Inv(cfg, Step(cfg, s, ServerAck))
  {
    var v, after := s.server, Srv.Ack(s.server).0;
    PhaseMoves(cfg, s, after);
    assert v.pushed[|v.popped| - 1] == v.phase.item;
    assert RespOk(cfg, Srv.Ack(v).1, after);
  }

  lemma ServerRecordKeepsInv(cfg: Config, s: System)
    requires cfg.Valid() && Inv(cfg, s) && Enabled(cfg, s, ServerRecord)
    ensures Inv(cfg, Step(cfg, s, ServerRecord))
  {
    var v, after := s.server, Srv.Record(s.server, cfg.reading);
    PhaseMoves(cfg, s, after);
    assert v.pushed[|v.popped| - 1] == v.phase.item;
    ItemRecorded(cfg, v);
  }

  lemma ItemRecorded(cfg: Config, v: Srv.Server)
    requires cfg.Valid() && SequencerOk(cfg, v) && v.phase.Adding? && v.phase.item.seqNo < Chunks(cfg)
    ensures SequencerOk(cfg, Srv.Record(v, cfg.reading))
  {
    var item, rs := v.phase.item, v.seqr.ranges;
    ChunkFields(cfg.src, item.seqNo);
    NothingWraps(rs, item.seqNo);
    StandsForOneMore(v.seqr, AddOps(cfg.reading, Given(v)), item.seqNo, Srv.IsLastArgument(cfg.reading, item));
    GivenOneMore(cfg.reading, v);
    AddLeavesOneJoint(rs, item.seqNo);
    assert v.popped[|v.popped| - 1].seqNo == item.seqNo;
  }

  lemma GivenOneMore(reading: Srv.Reading, v: Srv.Server)
    requires v.phase.Adding? && v.popped != [] && v.phase.item == v.popped[|v.popped| - 1]
    ensures var item := v.phase.item;
            AddOps(reading, v.popped)
            == AddOps(reading, Given(v)) + [AddOp(item.seqNo, Srv.IsLastArgument(reading, item))]
  {
  }

  lemma {:induction false} StandsForOneMore(q: Seqr, before: seq<Op>, s: u32, last: bool)
    requires StandsFor(q, before) && !Wraps(q.ranges, s) && s < UINT32_MAX && !Covers(q.ranges, UINT32_MAX)
    ensures StandsFor(SeqAdd(q, s, last).0, before + [AddOp(s, last)])
    ensures !Covers(SeqAdd(q, s, last).0.ranges, UINT32_MAX)
  {
    RunOfOneMore(before, AddOp(s, last));
    AddExact(q.ranges, s);
    PlaceableIsSomeBelow(q.ranges, Recorded(before), s);
    RecordedOneMore(before, s, last);
  }

  lemma {:induction false} RecordedOneMore(before: seq<Op>, s: u32, last: bool)
    ensures Recorded(before + [AddOp(s, last)])
            == if Recorded(before) == {} || exists y :: y in Recorded(before) && y <= s + 1 then Recorded(before) + {s}
               else Recorded(before)
  {
    assert (before + [AddOp(s, last)])[..|before|] == before;
  }

  lemma ServerNackKeepsInv(cfg: Config, s: System)
    requires cfg.Valid() && Inv(cfg, s) && Enabled(cfg, s, ServerNack)
    ensures Inv(cfg, Step(cfg, s, ServerNack))
  {
    var after, nacks := Srv.Nack(s.server).0, Srv.Nack(s.server).1;
    PhaseMoves(cfg, s, after);
    forall m | m in Images(nacks)
      ensures exists p: Packet :: RespOk(cfg, p, after) && m == Image(p)
    {
      var i :| 0 <= i < |nacks| && m == Image(nacks[i]);
      AskedIsChunk(cfg, s.server, SeqMissing(s.server.seqr)[i]);
      assert RespOk(cfg, nacks[i], after);
    }
  }

  /** Whatever is asked for is the number of a chunk. */
  lemma AskedIsChunk(cfg: Config, v: Srv.Server, x: u32)
    requires cfg.Valid() && ReceiverOk(cfg, v) && SequencerOk(cfg, v) && x in SeqMissing(v.seqr)
    ensures x < Chunks(cfg)
  {
    MissingExact(v.seqr.ranges, v.seqr.maxSeqNo);
    var i := MaxWasAdded(AddOps(cfg.reading, Given(v)));
    assert v.pushed[i] == Given(v)[i];
  }

  lemma {:induction false} MaxWasAdded(ops: seq<Op>) returns (i: nat)
    requires RunOps(ops).maxSeqNo > 0
    ensures i < |ops| && ops[i].AddOp? && ops[i].s == RunOps(ops).maxSeqNo
  {
    var before, op := ops[..|ops| - 1], ops[|ops| - 1];
    if op.AddOp? && RunOps(ops).maxSeqNo == op.s {
      i := |ops| - 1;
    } else {
      i := MaxWasAdded(before);
    }
  }

  lemma ServerFinishKeepsInv(cfg: Config, s: System)
    requires cfg.Valid() && Inv(cfg, s) && Enabled(cfg, s, ServerFinish)
    ensures Inv(cfg, Step(cfg, s, ServerFinish))
  {
    var v := s.server;
    PhaseMoves(cfg, s, Srv.Finish(v).0);
    EndedMeansPoppedLast(cfg, v);
    var i :| 0 <= i < |v.popped| && v.popped[i].seqNo == v.seqr.expected
             && Srv.IsLastArgument(cfg.reading, v.popped[i]);
    assert v.pushed[i] == v.popped[i];
    assert RespOk(cfg, Srv.Finish(v).1, Srv.Finish(v).0);
  }

  lemma EndedMeansPoppedLast(cfg: Config, v: Srv.Server)
    requires SequencerOk(cfg, v) && (v.phase.Finishing? || v.phase.Finished?)
    ensures PoppedLast(v.popped, v.seqr.expected, cfg.reading)
  {
    assert Covers(v.seqr.ranges, v.seqr.expected);
  }

  lemma {:induction false} ExecInv(cfg: Config, actions: seq<Action>)
    requires cfg.Valid() && Exec(cfg, actions).Some?
    ensures Inv(cfg, Exec(cfg, actions).value)
  {
    if actions == [] {
      InitInv(cfg);
    } else {
      var before := actions[..|actions| - 1];
      ExecInv(cfg, before);
      StepKeepsInv(cfg, Exec(cfg, before).value, actions[|actions| - 1]);
    }
  }
}
