/** What the cutting of the control stream into reads does to the guarantee. */
module SplitReads {
  import opened Basics
  import opened Packets
  import opened FileIO
  import opened ClientSpec
  import opened Retransmission
  import opened SequencerRuns
  import opened Transfer
  import opened Safety
  import opened Connection
  import opened Dependability
  import opened ByteStream
  import Srv = ServerSpec

  /** As AlwaysDelivered, for reads of any bytes. */
  ghost predicate AlwaysDeliveredByBytes(cfg: Config, zeroed: bool)
    requires cfg.Valid()
  {
    forall w: Wire :: ReachableByBytes(cfg, w, zeroed) && w.sys.client.phase.Stopped? ==> w.sys.server.file == cfg.src
  }

  // ---------------------------------------------------------------- reads too short to decode

  /** A partition of zeros; or, when no save fails, one that fits a packet: the first byte of the
      stream then already says that it was saved. */
  predicate DependableByBytes(cfg: Config) {
    AllZero(cfg.src, 0, |cfg.src|) || (!cfg.faults && Chunks(cfg) <= 1)
  }

  /** A client that has stopped has had an answer, unless there was nothing to send. */
  lemma StoppedWasAnswered(cfg: Config, w: Wire)
    requires cfg.Valid() && ClientSound(cfg, w) && w.sys.client.phase.Stopped? && cfg.src != []
    ensures w.sys.ctrl != []
  {
    assert InHand(w.sys.client) == [];
  }

  lemma OneChunkAnswered(cfg: Config, s: System)
    requires cfg.Valid() && Inv(cfg, s) && s.ctrl != [] && !cfg.faults && Chunks(cfg) == 1
    ensures s.server.file == cfg.src
  {
    PoppedItemsOk(cfg, s.server);
    assert ItemOk(cfg, s.server.saved, s.server.popped[0]);
    AllShownIsPartition(s.server.file, cfg.src, s.server.saved);
  }

  lemma ByBytesDelivers(cfg: Config, w: Wire)
    requires cfg.Valid() && DependableByBytes(cfg) && ReachableByBytes(cfg, w, false) && w.sys.client.phase.Stopped?
    ensures w.sys.server.file == cfg.src
  {
    var moves :| Trace(cfg, moves) == Some(w);
    var s := ServerRunsAlone(cfg, moves);
    ReachableInv(cfg, s);
    if AllZero(cfg.src, 0, |cfg.src|) {
      ZerosDelivered(cfg, s.server);
    } else {
      StoppedWasAnswered(cfg, w);
      OneChunkAnswered(cfg, s);
    }
  }

  /** One byte of the stream, and a local packet that happens to hold a FIN, stop the client. */
  lemma ShortReadStops(cfg: Config, c: Conn) returns (w: Wire)
    requires cfg.Valid() && Waiting(cfg, c) && c.cursor < |c.sys.ctrl|
    ensures ReachableByBytes(cfg, w, false) && w.sys.client.phase.Stopped? && w.sys.server == c.sys.server
  {
    var actions :| Run(cfg, actions) == Some(c);
    InOrderIsByBytes(cfg, actions);
    InOrderIsReachable(cfg, c);
    CtrlIsWhole(cfg, c.sys);
    ConcatLength(c.sys.ctrl);
    w := ReachMoved(cfg, AsBytes(c), ReadBytes(1, Ctrl(0, FLAG_FIN)), false);
    w := ReachMoved(cfg, w, Act(ClientEndTick), false);
  }

  lemma UndependableByBytesFails(cfg: Config) returns (w: Wire)
    requires cfg.Valid() && !DependableByBytes(cfg)
    ensures ReachableByBytes(cfg, w, false) && w.sys.client.phase.Stopped? && w.sys.server.file != cfg.src
  {
    var i :| 0 <= i < |cfg.src| && cfg.src[i] != 0;
    var k := if i / CHUNK == 0 && Chunks(cfg) > 1 then 1 else 0;
    var c := SendAll(cfg);
    c := ServeChunk(cfg, c, k, !cfg.faults);
    w := ShortReadStops(cfg, c);
    OthersStayZero(cfg, k, i);
  }

  /** After the first save the rest of the file is as it was made. */
  lemma OthersStayZero(cfg: Config, k: nat, i: nat)
    requires cfg.Valid() && k < Chunks(cfg) && i < |cfg.src|
    ensures var file := Saved(Zeros(|cfg.src|), Chunk(cfg.src, k), NoFault).0;
            |file| == |cfg.src| && (i / CHUNK != k ==> file[i] == 0)
  {
    assert [k][..0] == [];
    assert Reassembled(cfg.src, [k]) == Saved(Zeros(|cfg.src|), Chunk(cfg.src, k), NoFault).0;
    ReassemblyExact(cfg.src, [k]);
  }

  /** Over all ways to cut the stream into reads, and whatever the memory of the local packet held, a
      stopped client can be trusted if and only if there is next to nothing to trust it with. */
  lemma AlwaysDeliveredByBytesIff(cfg: Config)
    requires cfg.Valid()
    ensures AlwaysDeliveredByBytes(cfg, false) <==> DependableByBytes(cfg)
  {
    if DependableByBytes(cfg) {
      forall w: Wire | ReachableByBytes(cfg, w, false) && w.sys.client.phase.Stopped?
        ensures w.sys.server.file == cfg.src
      {
        ByBytesDelivers(cfg, w);
      }
    } else {
      var w := UndependableByBytesFails(cfg);
    }
  }

  // ---------------------------------------------------------------- reads that begin inside a packet

  /** A read that begins one byte into the ACK of number k is taken for a FIN exactly when the low byte of
      k is 3, whatever the local packet held and whatever control packet comes next. */
  lemma SplitAckIsFinIff(k: u32, next: Packet, rest: seq<byte>, garbage: Packet)
    requires next.Ctrl? && 11 + |rest| <= SEGMENT_SIZE
    ensures var bytes := (Image(Ctrl(k, FLAG_ACK)) + Image(next) + rest)[1..];
            IsFin(Decoded(bytes, garbage)) <==> k % 0x100 == 3
  {
    var bytes := (Image(Ctrl(k, FLAG_ACK)) + Image(next) + rest)[1..];
    assert bytes[0] == FLAG_ACK && bytes[1] == ByteAt(k, 0);
  }

  // ---------------------------------------------------------------- what such a read does

  lemma PacketAt(ctrl: seq<seq<byte>>, i: nat)
    requires WholePackets(ctrl) && i < |ctrl|
    ensures var at := CTRL_SIZE * i;
            at + CTRL_SIZE <= |Concat(ctrl)| && Concat(ctrl)[at..at + CTRL_SIZE] == ctrl[i]
  {
    ConcatSlice(ctrl, i, i + 1);
    var one := ctrl[i..i + 1];
    assert one[0] == ctrl[i] && one[1..] == [];
    assert Concat(one) == ctrl[i] + [] == ctrl[i];
  }

  lemma SliceAcross(s: seq<byte>, at: nat, r: nat)
    requires r < CTRL_SIZE && at + 2 * CTRL_SIZE <= |s|
    ensures s[at + r..at + r + CTRL_SIZE]
            == s[at..at + CTRL_SIZE][r..] + s[at + CTRL_SIZE..at + 2 * CTRL_SIZE][..r]
  {
  }

  /** Six bytes of the stream from byte `r` of packet `i` on. */
  lemma SixBytesAt(ctrl: seq<seq<byte>>, i: nat, r: nat)
    requires WholePackets(ctrl) && 0 < r < CTRL_SIZE && i + 1 < |ctrl|
    ensures var at := CTRL_SIZE * i + r;
            at + CTRL_SIZE <= |Concat(ctrl)| && Concat(ctrl)[at..at + CTRL_SIZE] == ctrl[i][r..] + ctrl[i + 1][..r]
  {
    PacketAt(ctrl, i);
    PacketAt(ctrl, i + 1);
    SliceAcross(Concat(ctrl), CTRL_SIZE * i, r);
  }

  /** A segment too short for the other types decodes as a control packet or not at all. */
  lemma SegmentDecoded(bytes: seq<byte>)
    requires |bytes| <= SEGMENT_SIZE
    ensures Decoded(bytes, Blank)
            == if |bytes| >= CTRL_SIZE && bytes[0] == TYPE_CTRL
               then Ctrl(Word(bytes[5], bytes[4], bytes[3], bytes[2]), bytes[1]) else Blank
  {
  }

  /** Numbers below 259 have at most two bytes on the wire that are not zero. */
  lemma SmallBytes(k: u32)
    requires k < 259
    ensures ByteAt(k, 0) == k % 0x100 && ByteAt(k, 1) <= 1 && ByteAt(k, 2) == 0 && ByteAt(k, 3) == 0
    ensures ByteAt(k, 0) == 3 ==> k == 3
  {
    assert ByteAt(k, 1) == ByteAt(k / 0x100, 0) && ByteAt(k, 2) == ByteAt(k / 0x100, 1);
    assert ByteAt(k, 3) == ByteAt(k / 0x100, 2) == ByteAt(k / 0x100 / 0x100, 1);
  }

  /** Nothing the client does depends on a packet that names no chunk, unless it is a FIN. */
  lemma StrayIsIgnored(cfg: Config, c: Client, rsp: Packet)
    requires cfg.Valid() && Conserved(cfg.src, c) && rsp.Ctrl? && !IsFin(rsp)
    requires rsp.seqNo >= Chunks(cfg) || rsp.flag == 0
    ensures Respond(c, rsp) == c
  {
    var i := FindPacket(c.inFlight, rsp.seqNo);
    assert i < |c.inFlight| ==> FromSource(cfg.src, c.inFlight[i]);
  }

  predicate ThreeSaved(cfg: Config, v: Srv.Server) {
    3 < Chunks(cfg) && 3 in v.saved
  }

  /** What a read that begins `r` bytes into packet `p` can do, `q` being the next one: stop the client,
      if `p` is the ACK of number 3, and nothing otherwise. */
  lemma MisreadOutcome(cfg: Config, v: Srv.Server, c: Client, p: Packet, q: Packet, r: nat, bytes: seq<byte>)
    requires cfg.Valid() && Conserved(cfg.src, c) && Chunks(cfg) <= 259 && 0 < r < CTRL_SIZE
    requires RespOk(cfg, p, v) && RespOk(cfg, q, v) && CTRL_SIZE <= |bytes| <= SEGMENT_SIZE
    requires bytes[..CTRL_SIZE] == Image(p)[r..] + Image(q)[..r]
    ensures var rsp := Decoded(bytes, Blank); Respond(c, rsp) == c || (IsFin(rsp) && ThreeSaved(cfg, v))
  {
    var six := bytes[..CTRL_SIZE];
    assert forall i :: 0 <= i < CTRL_SIZE ==> six[i] == bytes[i];
    SegmentDecoded(bytes);
    SmallBytes(p.seqNo);
    SmallBytes(q.seqNo);
    var rsp := Decoded(bytes, Blank);
    if rsp.Ctrl? && !IsFin(rsp) {
      StrayIsIgnored(cfg, c, rsp);
    }
  }

  lemma SentAt(cfg: Config, s: System, i: nat) returns (p: Packet)
    requires cfg.Valid() && Inv(cfg, s) && i < |s.ctrl|
    ensures RespOk(cfg, p, s.server) && s.ctrl[i] == Image(p)
  {
    assert s.ctrl[i] in s.ctrl;
    p :| RespOk(cfg, p, s.server) && s.ctrl[i] == Image(p);
  }

  lemma WholePacketOutcome(cfg: Config, s: System, i: nat, bytes: seq<byte>)
    requires cfg.Valid() && Inv(cfg, s) && i < |s.ctrl|
    requires CTRL_SIZE <= |bytes| <= SEGMENT_SIZE && bytes[..CTRL_SIZE] == s.ctrl[i]
    ensures RespOk(cfg, Decoded(bytes, Blank), s.server)
  {
    var p := SentAt(cfg, s, i);
    assert bytes == Image(p) + bytes[CTRL_SIZE..];
    RoundTrip(p, bytes[CTRL_SIZE..], Blank);
  }

  /** What any read can do: hand the client a packet that was sent, stop it when number 3 is saved, or
      nothing. */
  lemma ReadOutcome(cfg: Config, s: System, c: Client, cursor: nat, n: nat)
    requires cfg.Valid() && Reachable(cfg, s) && Conserved(cfg.src, c) && Chunks(cfg) <= 259
    requires 0 < n <= SEGMENT_SIZE && cursor + n <= |Stream(s)|
    ensures var rsp := Decoded(Stream(s)[cursor..cursor + n], Blank);
            RespOk(cfg, rsp, s.server) || Respond(c, rsp) == c || (IsFin(rsp) && ThreeSaved(cfg, s.server))
  {
    ReachableInv(cfg, s);
    CtrlIsWhole(cfg, s);
    ConcatLength(s.ctrl);
    var bytes := Stream(s)[cursor..cursor + n];
    if n < CTRL_SIZE {
      SegmentDecoded(bytes);
    } else {
      assert bytes[..CTRL_SIZE] == Stream(s)[cursor..cursor + CTRL_SIZE];
      SixOrMoreOutcome(cfg, s, c, cursor / CTRL_SIZE, cursor % CTRL_SIZE, bytes);
    }
  }

  lemma SixOrMoreOutcome(cfg: Config, s: System, c: Client, i: nat, r: nat, bytes: seq<byte>)
    requires cfg.Valid() && Inv(cfg, s) && WholePackets(s.ctrl) && Conserved(cfg.src, c) && Chunks(cfg) <= 259
    requires r < CTRL_SIZE <= |bytes| <= SEGMENT_SIZE
    requires if r == 0 then i < |s.ctrl| else i + 1 < |s.ctrl|
    requires CTRL_SIZE * i + r + CTRL_SIZE <= |Stream(s)|
    requires bytes[..CTRL_SIZE] == Stream(s)[CTRL_SIZE * i + r..CTRL_SIZE * i + r + CTRL_SIZE]
    ensures var rsp := Decoded(bytes, Blank);
            RespOk(cfg, rsp, s.server) || Respond(c, rsp) == c || (IsFin(rsp) && ThreeSaved(cfg, s.server))
  {
    if r == 0 {
      PacketAt(s.ctrl, i);
      WholePacketOutcome(cfg, s, i, bytes);
    } else {
      SixBytesAt(s.ctrl, i, r);
      var p := SentAt(cfg, s, i);
      var q := SentAt(cfg, s, i + 1);
      MisreadOutcome(cfg, s.server, c, p, q, r, bytes);
    }
  }

  // ---------------------------------------------------------------- with the local packet zeroed

  /** What was dropped was saved, and what stopped the client was a FIN or the ACK of number 3. */
  ghost predicate Trusted(cfg: Config, w: Wire) {
    && (forall i :: 0 <= i < |w.sys.client.acked| ==> w.sys.client.acked[i].seqNo in w.sys.server.saved)
    && (w.sys.client.done ==> w.sys.server.phase.Finished? || ThreeSaved(cfg, w.sys.server))
  }

  lemma {:induction false} ZeroedRunIsTrusted(cfg: Config, moves: seq<Move>)
    requires cfg.Valid() && Chunks(cfg) <= 259 && Trace(cfg, moves).Some? && AllZeroed(moves)
    ensures Trusted(cfg, Trace(cfg, moves).value)
  {
    if moves != [] {
      var before, m := moves[..|moves| - 1], moves[|moves| - 1];
      ZeroedRunIsTrusted(cfg, before);
      var s := ServerRunsAlone(cfg, before);
      var w := Trace(cfg, before).value;
      if m.ReadBytes? {
        assert Zeroed(m);
        ReadKeepsTrust(cfg, w, s, m.n);
      } else {
        ActKeepsTrust(cfg, w, m.a);
      }
    }
  }

  lemma ReadKeepsTrust(cfg: Config, w: Wire, s: System, n: nat)
    requires cfg.Valid() && Chunks(cfg) <= 259 && Trusted(cfg, w) && SameServer(cfg, w, s) && ClientSound(cfg, w)
    requires CanMove(cfg, w, ReadBytes(n, Blank))
    ensures Trusted(cfg, Moved(cfg, w, ReadBytes(n, Blank)))
  {
    ReadOutcome(cfg, s, w.sys.client, w.cursor, n);
  }

  lemma ActKeepsTrust(cfg: Config, w: Wire, a: Action)
    requires cfg.Valid() && Trusted(cfg, w) && CanMove(cfg, w, Act(a))
    ensures Trusted(cfg, Moved(cfg, w, Act(a)))
  {
    match a
    case ServerReceive(datagram, stale, fault) =>
      assert w.sys.server.saved <= Srv.Receive(w.sys.server, datagram + stale, fault).saved;
    case _ =>
  }

  /** Where a split read does no harm: no chunk has number 3; or the partition is zeros; or number 3 is the
      only number whose ACK can be taken for a FIN, and its chunk is the only one that is not zeros. */
  predicate SplitSafe(cfg: Config) {
    || Chunks(cfg) <= 3
    || AllZero(cfg.src, 0, |cfg.src|)
    || (Chunks(cfg) <= 259 && AllZero(cfg.src, 0, 3 * CHUNK) && AllZero(cfg.src, 4 * CHUNK, |cfg.src|))
  }

  lemma ZeroedDelivers(cfg: Config, w: Wire)
    requires cfg.Valid() && Dependable(cfg) && SplitSafe(cfg)
    requires ReachableByBytes(cfg, w, true) && w.sys.client.phase.Stopped?
    ensures w.sys.server.file == cfg.src
  {
    var moves :| Trace(cfg, moves) == Some(w) && AllZeroed(moves);
    var s := ServerRunsAlone(cfg, moves);
    if AllZero(cfg.src, 0, |cfg.src|) {
      ReachableInv(cfg, s);
      ZerosDelivered(cfg, s.server);
    } else {
      ZeroedRunIsTrusted(cfg, moves);
      TrustedDelivers(cfg, w, s);
    }
  }

  lemma TrustedDelivers(cfg: Config, w: Wire, s: System)
    requires cfg.Valid() && Dependable(cfg) && SplitSafe(cfg)
    requires SameServer(cfg, w, s) && ClientSound(cfg, w) && Trusted(cfg, w) && w.sys.client.phase.Stopped?
    ensures w.sys.server.file == cfg.src
  {
    if !w.sys.client.done {
      RanOutByBytes(cfg, w, s);
    } else if s.server.phase.Finished? {
      FinishedDelivers(cfg, s);
    } else {
      ReachableInv(cfg, s);
      OnlyThreeMatters(cfg, s.server);
    }
  }

  lemma RanOutByBytes(cfg: Config, w: Wire, s: System)
    requires cfg.Valid() && SameServer(cfg, w, s) && ClientSound(cfg, w) && Trusted(cfg, w)
    requires w.sys.client.phase.Stopped? && !w.sys.client.done
    ensures w.sys.server.file == cfg.src
  {
    ReachableInv(cfg, s);
    var c := w.sys.client;
    assert InHand(c) == [];
    forall k: nat | k < Chunks(cfg)
      ensures k in s.server.saved
    {
      assert Places(c, k) == 1;
      Counted(c.acked, k);
      var i :| 0 <= i < |c.acked| && c.acked[i].seqNo == k;
    }
    AllShownIsPartition(s.server.file, cfg.src, s.server.saved);
  }

  lemma OnlyThreeMatters(cfg: Config, v: Srv.Server)
    requires cfg.Valid() && ReceiverOk(cfg, v) && ThreeSaved(cfg, v) && SplitSafe(cfg)
    ensures v.file == cfg.src
  {
    forall i | 0 <= i < |cfg.src|
      ensures v.file[i] == cfg.src[i]
    {
      InChunk(i, 3);
    }
  }

  /** The number whose ACK is misread when a byte outside its chunk is not zero. */
  function CulpritFor(i: nat): nat {
    if i / CHUNK == 3 then 259 else 3
  }

  /** The chunk `k` arrives twice and is acknowledged twice; the first byte of the first ACK is read on its
      own, and the next read is taken for a FIN. */
  lemma SplitReadStops(cfg: Config, k: nat, m: nat) returns (w: Wire)
    requires cfg.Valid() && k < Chunks(cfg) && m < Chunks(cfg) && m != k && k % 0x100 == 3
    ensures ReachableByBytes(cfg, w, true) && w.sys.client.phase.Stopped?
    ensures w.sys.server.file == Reassembled(cfg.src, [k, k])
  {
    var c := ServeTwice(cfg, k, m);
    InOrderIsReachable(cfg, c);
    SecondReadIsFin(cfg, c.sys, k);
    w := ReadOneByte(cfg, c, m);
    w := ReachMoved(cfg, w, ReadBytes(CTRL_SIZE, Blank), true);
    w := ReachMoved(cfg, w, Act(ClientEndTick), true);
  }

  /** A read of one byte does nothing to the client, which sends again. */
  lemma ReadOneByte(cfg: Config, c: Conn, m: nat) returns (w: Wire)
    requires cfg.Valid() && Waiting(cfg, c) && c.cursor == 0 && Stream(c.sys) != []
    requires m < Chunks(cfg) && m !in c.sys.server.saved
    ensures ReachableByBytes(cfg, w, true) && w.cursor == 1 && !w.hasRead
    ensures w.sys.server == c.sys.server && w.sys.ctrl == c.sys.ctrl
    ensures w.sys.client.phase.Ticking? && !w.sys.client.done
  {
    var actions :| Run(cfg, actions) == Some(c);
    InOrderIsByBytes(cfg, actions);
    InOrderIsReachable(cfg, c);
    if !HeldByClient(c.sys.client, m) {
      NotHeldMeansSaved(cfg, c.sys, m);
    }
    SegmentDecoded(Stream(c.sys)[0..1]);
    w := ReachMoved(cfg, AsBytes(c), ReadBytes(1, Blank), true);
    w := SendByBytes(cfg, w, m);
  }

  lemma SendByBytes(cfg: Config, w: Wire, m: nat) returns (x: Wire)
    requires cfg.Valid() && ReachableByBytes(cfg, w, true) && w.sys.client.phase.Ticking? && !w.sys.client.done
    requires HeldByClient(w.sys.client, m)
    ensures ReachableByBytes(cfg, x, true) && x.cursor == w.cursor && !x.hasRead
    ensures x.sys.server == w.sys.server && x.sys.ctrl == w.sys.ctrl
    ensures x.sys.client.phase.Ticking? && !x.sys.client.done
  {
    var p: DataPacket :| p.seqNo == m
      && (p in w.sys.client.inFlight || p in w.sys.client.pending || p in InHand(w.sys.client));
    x := ReachMoved(cfg, w, Act(ClientEndTick), true);
    x := ReachMoved(cfg, x, Act(ClientFetch), true);
    x := ReachMoved(cfg, x, Act(ClientSend), true);
  }

  lemma SecondReadIsFin(cfg: Config, s: System, k: nat)
    requires cfg.Valid() && Reachable(cfg, s) && |s.ctrl| > 1 && k < Chunks(cfg) && k % 0x100 == 3
    requires s.ctrl[0] == Image(Ctrl(k, FLAG_ACK))
    ensures |Stream(s)| >= 7 && IsFin(Decoded(Stream(s)[1..7], Blank))
  {
    CtrlIsWhole(cfg, s);
    ConcatLength(s.ctrl);
    SixBytesAt(s.ctrl, 0, 1);
    ReachableInv(cfg, s);
    var q := SentAt(cfg, s, 1);
    SplitAckIsFinIff(k, q, [], Blank);
    var bytes := (Image(Ctrl(k, FLAG_ACK)) + Image(q) + [])[1..];
    assert Stream(s)[1..7] == bytes[..6];
    SegmentDecoded(bytes);
    SegmentDecoded(Stream(s)[1..7]);
  }

  lemma ServeTwice(cfg: Config, k: nat, m: nat) returns (c: Conn)
    requires cfg.Valid() && k < Chunks(cfg) && m < Chunks(cfg) && m != k
    ensures Waiting(cfg, c) && c.cursor == 0 && |c.sys.ctrl| > 1 && c.sys.ctrl[0] == Image(Ctrl(k, FLAG_ACK))
    ensures m !in c.sys.server.saved && c.sys.server.file == Reassembled(cfg.src, [k, k])
  {
    var once := ServeOnce(cfg, k, m);
    NotYetComplete(cfg, [k], m);
    c := ServeChunk(cfg, once, k, true);
    assert [k, k][..1] == [k];
  }

  lemma ServeOnce(cfg: Config, k: nat, m: nat) returns (c: Conn)
    requires cfg.Valid() && k < Chunks(cfg) && m < Chunks(cfg) && m != k
    ensures Waiting(cfg, c) && Idle(c.sys.server) && c.sys.server.receiving
    ensures c.cursor == 0 && c.sys.ctrl != [] && c.sys.ctrl[0] == Image(Ctrl(k, FLAG_ACK))
    ensures c.sys.server.saved == {k} && c.sys.server.file == Reassembled(cfg.src, [k])
    ensures c.sys.server.seqr == RunOps(Alternate(Adds(cfg, [k])))
  {
    assert [k][..0] == [];
    assert Alternate(Adds(cfg, [])) == [];
    var start := SendAll(cfg);
    NotYetComplete(cfg, [], m);
    c := ServeChunk(cfg, start, k, true);
    OneMoreServed(cfg, [k]);
  }

  lemma HarmedByte(cfg: Config) returns (i: nat)
    requires cfg.Valid() && !SplitSafe(cfg)
    ensures i < |cfg.src| && cfg.src[i] != 0 && (Chunks(cfg) <= 259 ==> i / CHUNK != 3)
  {
    if Chunks(cfg) > 259 {
      i :| i < |cfg.src| && cfg.src[i] != 0;
    } else if !AllZero(cfg.src, 0, 3 * CHUNK) {
      i :| i < 3 * CHUNK && i < |cfg.src| && cfg.src[i] != 0;
    } else {
      i :| 4 * CHUNK <= i < |cfg.src| && cfg.src[i] != 0;
    }
    InChunk(i, 3);
  }

  lemma SplitUnsafeFails(cfg: Config) returns (w: Wire)
    requires cfg.Valid() && !SplitSafe(cfg)
    ensures ReachableByBytes(cfg, w, true) && w.sys.client.phase.Stopped? && w.sys.server.file != cfg.src
  {
    var i := HarmedByte(cfg);
    var k, m := CulpritFor(i), i / CHUNK;
    InChunk(i, m);
    w := SplitReadStops(cfg, k, m);
    ReassemblyExact(cfg.src, [k, k]);
  }

  /** Even with the local packet zeroed before each read, a stopped client can be trusted over all ways to
      cut the stream if and only if it can over whole packets and no harm comes from split ones. */
  lemma AlwaysDeliveredZeroedIff(cfg: Config)
    requires cfg.Valid()
    ensures AlwaysDeliveredByBytes(cfg, true) <==> Dependable(cfg) && SplitSafe(cfg)
  {
    if Dependable(cfg) && SplitSafe(cfg) {
      forall w: Wire | ReachableByBytes(cfg, w, true) && w.sys.client.phase.Stopped?
        ensures w.sys.server.file == cfg.src
      {
        ZeroedDelivers(cfg, w);
      }
    } else if !Dependable(cfg) {
      var c := UndependableFails(cfg);
      var actions :| Run(cfg, actions) == Some(c);
      InOrderIsByBytes(cfg, actions);
      assert AsBytes(c).sys.client.phase.Stopped?;
    } else {
      var w := SplitUnsafeFails(cfg);
    }
  }
}
