/** The control connection as the stream of bytes it is: a read may begin and end inside a packet, and a
    read that does not decode leaves on_ack_received with what its local packet held before. The runs of
    Connection.dfy are those whose reads begin and end between packets. */
module ByteStream {
  import opened Basics
  import opened Packets
  import opened FileIO
  import opened ClientSpec
  import opened Transfer
  import opened Safety
  import opened Connection
  import opened Dependability

  /** `cursor` bytes have been read, and whether this tick has made its read. */
  datatype Wire = Wire(sys: System, cursor: nat, hasRead: bool)

  datatype Move = Act(a: Action) | ReadBytes(n: nat, garbage: Packet)

  function Stream(s: System): seq<byte> { Concat(s.ctrl) }

  predicate CanMove(cfg: Config, w: Wire, m: Move) {
    match m
    case Act(a) => !a.ClientRead? && Enabled(cfg, w.sys, a)
    case ReadBytes(n, _) =>
      && w.sys.client.phase.Ticking? && !w.hasRead
      && 0 < n <= SEGMENT_SIZE && w.cursor + n <= |Stream(w.sys)|
  }

  function Moved(cfg: Config, w: Wire, m: Move): Wire
    requires cfg.Valid() && CanMove(cfg, w, m)
  {
    match m
    case Act(a) => Wire(Step(cfg, w.sys, a), w.cursor, w.hasRead && !a.ClientSend?)
    case ReadBytes(n, garbage) =>
      var rsp := Decoded(Stream(w.sys)[w.cursor..w.cursor + n], garbage);
      Wire(w.sys.(client := Respond(w.sys.client, rsp)), w.cursor + n, true)
  }

  /** The state after these moves; None if one of them was not possible. */
  function Trace(cfg: Config, moves: seq<Move>): Option<Wire>
    requires cfg.Valid()
  {
    if moves == [] then Some(Wire(Init(cfg), 0, false))
    else
      match Trace(cfg, moves[..|moves| - 1])
      case None => None
      case Some(w) =>
        var m := moves[|moves| - 1];
        if CanMove(cfg, w, m) then Some(Moved(cfg, w, m)) else None
  }

  /** The local packet was zeroed before it was decoded into. */
  predicate Zeroed(m: Move) {
    m.ReadBytes? ==> m.garbage == Blank
  }

  predicate AllZeroed(moves: seq<Move>) {
    forall i :: 0 <= i < |moves| ==> Zeroed(moves[i])
  }

  /** With `zeroed`, only the runs whose local packets were zeroed count. */
  ghost predicate ReachableByBytes(cfg: Config, w: Wire, zeroed: bool)
    requires cfg.Valid()
  {
    exists moves :: Trace(cfg, moves) == Some(w) && (zeroed ==> AllZeroed(moves))
  }

  lemma ReachMoved(cfg: Config, w: Wire, m: Move, zeroed: bool) returns (x: Wire)
    requires cfg.Valid() && ReachableByBytes(cfg, w, zeroed) && CanMove(cfg, w, m) && (zeroed ==> Zeroed(m))
    ensures x == Moved(cfg, w, m) && ReachableByBytes(cfg, x, zeroed)
  {
    x := Moved(cfg, w, m);
    var moves :| Trace(cfg, moves) == Some(w) && (zeroed ==> AllZeroed(moves));
    assert (moves + [m])[..|moves|] == moves;
    assert Trace(cfg, moves + [m]) == Some(x);
  }

  // ---------------------------------------------------------------- whole packets

  predicate WholePackets(ms: seq<seq<byte>>) {
    forall i :: 0 <= i < |ms| ==> |ms[i]| == CTRL_SIZE
  }

  lemma {:induction false} ConcatLength(ms: seq<seq<byte>>)
    requires WholePackets(ms)
    ensures |Concat(ms)| == CTRL_SIZE * |ms|
  {
    if ms != [] {
      ConcatLength(ms[1..]);
    }
  }

  /** Packets i to j - 1 are the bytes from 6i to 6j. */
  lemma {:induction false} ConcatSlice(ms: seq<seq<byte>>, i: nat, j: nat)
    requires WholePackets(ms) && i <= j <= |ms|
    ensures |Concat(ms)| == CTRL_SIZE * |ms|
    ensures Concat(ms[i..j]) == Concat(ms)[CTRL_SIZE * i..CTRL_SIZE * j]
    decreases |ms|, j
  {
    ConcatLength(ms);
    if i > 0 {
      ConcatSlice(ms[1..], i - 1, j - 1);
      assert ms[1..][i - 1..j - 1] == ms[i..j];
    } else if j > 0 {
      ConcatSlice(ms[1..], 0, j - 1);
      assert ms[0..j][1..] == ms[1..][0..j - 1];
    }
  }

  lemma CtrlIsWhole(cfg: Config, s: System)
    requires cfg.Valid() && Reachable(cfg, s)
    ensures WholePackets(s.ctrl)
  {
    ReachableInv(cfg, s);
    forall i | 0 <= i < |s.ctrl|
      ensures |s.ctrl[i]| == CTRL_SIZE
    {
      assert s.ctrl[i] in s.ctrl;
      var p: Packet :| RespOk(cfg, p, s.server) && s.ctrl[i] == Image(p);
    }
  }

  function AsBytes(c: Conn): Wire {
    Wire(c.sys, CTRL_SIZE * c.cursor, c.hasRead)
  }

  /** A run in order is a run by bytes; whatever its local packets held, they might have been zeroed. */
  lemma {:induction false} InOrderIsByBytes(cfg: Config, actions: seq<Action>)
    requires cfg.Valid() && Run(cfg, actions).Some?
    ensures ReachableByBytes(cfg, AsBytes(Run(cfg, actions).value), true)
  {
    if actions == [] {
      assert Trace(cfg, []) == Some(Wire(Init(cfg), 0, false)) && AllZeroed([]);
    } else {
      var before, a := actions[..|actions| - 1], actions[|actions| - 1];
      InOrderIsByBytes(cfg, before);
      var c := Run(cfg, before).value;
      assert ReachableInOrder(cfg, c);
      var m := MoveFor(cfg, c, a);
      var w := ReachMoved(cfg, AsBytes(c), m, true);
    }
  }

  lemma ReadIsSlice(ctrl: seq<seq<byte>>, cursor: nat, segment: seq<byte>, stale: seq<byte>)
    requires WholePackets(ctrl) && DeliversOldest(ctrl, cursor, segment, stale)
    ensures var lo, n := CTRL_SIZE * cursor, |segment| + |stale|;
            && n == CTRL_SIZE * PacketsRead(stale) && lo + n <= |Concat(ctrl)|
            && segment + stale == Concat(ctrl)[lo..lo + n]
  {
    var n := PacketsRead(stale);
    var packets := ctrl[cursor..cursor + n];
    assert packets[1..] == ctrl[cursor + 1..cursor + n];
    assert segment + stale == Concat(packets);
    ConcatSlice(ctrl, cursor, cursor + n);
    ConcatLength(packets);
  }

  lemma ReadFor(cfg: Config, c: Conn, a: Action) returns (m: Move)
    requires cfg.Valid() && ReachableInOrder(cfg, c) && InOrder(cfg, c, a) && a.ClientRead?
    ensures Zeroed(m) && CanMove(cfg, AsBytes(c), m) && Moved(cfg, AsBytes(c), m) == AsBytes(Next(cfg, c, a))
  {
    InOrderIsReachable(cfg, c);
    CtrlIsWhole(cfg, c.sys);
    ReadIsSlice(c.sys.ctrl, c.cursor, a.segment, a.stale);
    m := ReadBytes(|a.segment| + |a.stale|, Blank);
    GarbageDoesNotMatter(cfg, c.sys, a.segment, a.stale, a.rspPkt);
  }

  lemma GarbageDoesNotMatter(cfg: Config, s: System, segment: seq<byte>, stale: seq<byte>, garbage: Packet)
    requires cfg.Valid() && Inv(cfg, s) && segment in s.ctrl && |segment| + |stale| <= SEGMENT_SIZE
    ensures Decoded(segment + stale, garbage) == Decoded(segment + stale, Blank)
  {
    var p: Packet :| RespOk(cfg, p, s.server) && segment == Image(p);
    RoundTrip(p, stale, garbage);
    RoundTrip(p, stale, Blank);
  }

  lemma MoveFor(cfg: Config, c: Conn, a: Action) returns (m: Move)
    requires cfg.Valid() && ReachableInOrder(cfg, c) && InOrder(cfg, c, a)
    ensures Zeroed(m) && CanMove(cfg, AsBytes(c), m) && Moved(cfg, AsBytes(c), m) == AsBytes(Next(cfg, c, a))
  {
    if a.ClientRead? {
      m := ReadFor(cfg, c, a);
    } else {
      m := Act(a);
    }
  }

  // ---------------------------------------------------------------- the server does not notice

  /** Every datagram the client could ever send is on the wire. */
  ghost predicate AllOut(cfg: Config, data: set<seq<byte>>)
    requires cfg.Valid()
  {
    AllSent(cfg, data, Chunks(cfg)) && Image(cfg.metadata) in data
  }

  /** `s` is a state of the system whose server and control packets are those of `w`. */
  ghost predicate SameServer(cfg: Config, w: Wire, s: System)
    requires cfg.Valid()
  {
    Reachable(cfg, s) && AllOut(cfg, s.data) && s.server == w.sys.server && s.ctrl == w.sys.ctrl
  }

  /** What byte reads cannot break on the client's side: it loses no packet, sends only what it should,
      and drops or stops nothing before the first byte. */
  ghost predicate ClientSound(cfg: Config, w: Wire)
    requires cfg.Valid()
  {
    && Conserved(cfg.src, w.sys.client) && DataOk(cfg, w.sys.data)
    && (w.sys.ctrl == [] ==> w.sys.client.acked == [] && !w.sys.client.done)
  }

  /** Whatever the client makes of the bytes, the server's part of the run is also the server's part of
      some run of the system: one whose client has sent everything beforehand. */
  lemma {:induction false} ServerRunsAlone(cfg: Config, moves: seq<Move>) returns (s: System)
    requires cfg.Valid() && Trace(cfg, moves).Some?
    ensures SameServer(cfg, Trace(cfg, moves).value, s) && ClientSound(cfg, Trace(cfg, moves).value)
  {
    if moves == [] {
      var c := SendChunks(cfg, Chunks(cfg));
      InOrderIsReachable(cfg, c);
      s := c.sys;
      InitInv(cfg);
    } else {
      var before, m := moves[..|moves| - 1], moves[|moves| - 1];
      s := ServerRunsAlone(cfg, before);
      var w := Trace(cfg, before).value;
      if m.ReadBytes? {
        BytesRead(cfg, w, m);
      } else if m.a.ClientFetch? || m.a.ClientSend? || m.a.ClientEndTick? {
        ClientMoves(cfg, w, m.a);
      } else {
        s := ServerMoves(cfg, w, s, m.a);
      }
    }
  }

  lemma BytesRead(cfg: Config, w: Wire, m: Move)
    requires cfg.Valid() && ClientSound(cfg, w) && CanMove(cfg, w, m) && m.ReadBytes?
    ensures ClientSound(cfg, Moved(cfg, w, m))
  {
    var rsp := Decoded(Stream(w.sys)[w.cursor..w.cursor + m.n], m.garbage);
    BytesMeanSent(w.sys.ctrl);
    AnyResponse(cfg, w, rsp, w.cursor + m.n);
    assert Moved(cfg, w, m) == Wire(w.sys.(client := Respond(w.sys.client, rsp)), w.cursor + m.n, true);
  }

  lemma BytesMeanSent(ctrl: seq<seq<byte>>)
    ensures Concat(ctrl) != [] ==> ctrl != []
  {
  }

  lemma AnyResponse(cfg: Config, w: Wire, rsp: Packet, cursor: nat)
    requires cfg.Valid() && ClientSound(cfg, w) && w.sys.client.phase.Ticking? && w.sys.ctrl != []
    ensures ClientSound(cfg, Wire(w.sys.(client := Respond(w.sys.client, rsp)), cursor, true))
  {
    StepConserves(cfg.src, w.sys.client, DoRespond(rsp));
  }

  lemma ClientMoves(cfg: Config, w: Wire, a: Action)
    requires cfg.Valid() && ClientSound(cfg, w) && CanMove(cfg, w, Act(a))
    requires a.ClientFetch? || a.ClientSend? || a.ClientEndTick?
    ensures ClientSound(cfg, Moved(cfg, w, Act(a)))
  {
    var event := if a.ClientFetch? then DoFetch else if a.ClientSend? then DoSend else DoEndTick;
    StepConserves(cfg.src, w.sys.client, event);
    if a.ClientSend? {
      assert IsChunk(cfg, w.sys.client.phase.packet);
    }
  }

  lemma ServerMoves(cfg: Config, w: Wire, s: System, a: Action) returns (t: System)
    requires cfg.Valid() && SameServer(cfg, w, s) && ClientSound(cfg, w) && CanMove(cfg, w, Act(a))
    requires !a.ClientFetch? && !a.ClientSend? && !a.ClientEndTick?
    ensures SameServer(cfg, Moved(cfg, w, Act(a)), t) && ClientSound(cfg, Moved(cfg, w, Act(a)))
  {
    if a.ServerReceive? {
      SentAnyway(cfg, w.sys.data, s.data, a.datagram);
    }
    t := Step(cfg, s, a);
    var actions :| Exec(cfg, actions) == Some(s);
    assert (actions + [a])[..|actions|] == actions;
    assert Exec(cfg, actions + [a]) == Some(t);
  }

  lemma SentAnyway(cfg: Config, sent: set<seq<byte>>, all: set<seq<byte>>, m: seq<byte>)
    requires cfg.Valid() && DataOk(cfg, sent) && AllOut(cfg, all) && m in sent
    ensures m in all
  {
    var p: Packet :| p.WellFormed() && m == Image(p) && (p == cfg.metadata || IsChunk(cfg, p));
    if p != cfg.metadata {
      assert p == Chunk(cfg.src, p.seqNo);
    }
  }
}
