/** Runs in which the control packets arrive as a connection delivers them (src/tcp_socket.c:123-165):
    in the order they were sent, each byte once, by reads of at most a segment of which there is at
    most one in a tick. Every such run is a run of Transfer.dfy. */
module Connection {
  import opened Basics
  import opened Packets
  import opened ClientSpec
  import opened Transfer
  import opened Safety

  /** `cursor` control packets have been read, and whether this tick has made its read. */
  datatype Conn = Conn(sys: System, cursor: nat, hasRead: bool)

  const CTRL_SIZE: int := 6

  function Opened(cfg: Config): Conn
    requires cfg.Valid()
  {
    Conn(Init(cfg), 0, false)
  }

  function Concat(ms: seq<seq<byte>>): seq<byte> {
    if ms == [] then [] else ms[0] + Concat(ms[1..])
  }

  /** The control packets in a read whose first one has `stale` behind it. */
  function PacketsRead(stale: seq<byte>): nat {
    1 + |stale| / CTRL_SIZE
  }

  /** The read delivers the oldest unread packets, as many as it says. */
  predicate DeliversOldest(ctrl: seq<seq<byte>>, cursor: nat, segment: seq<byte>, stale: seq<byte>) {
    var n := PacketsRead(stale);
    cursor + n <= |ctrl| && segment == ctrl[cursor] && stale == Concat(ctrl[cursor + 1..cursor + n])
  }

  predicate InOrder(cfg: Config, c: Conn, a: Action) {
    && Enabled(cfg, c.sys, a)
    && match a
       case ClientRead(segment, stale, _) => !c.hasRead && DeliversOldest(c.sys.ctrl, c.cursor, segment, stale)
       case _ => true
  }

  function Next(cfg: Config, c: Conn, a: Action): Conn
    requires cfg.Valid() && InOrder(cfg, c, a)
  {
    var sys := Step(cfg, c.sys, a);
    match a
    case ClientSend => Conn(sys, c.cursor, false)
    case ClientRead(_, stale, _) => Conn(sys, c.cursor + PacketsRead(stale), true)
    case _ => Conn(sys, c.cursor, c.hasRead)
  }

  /** The state after these actions; None if one of them was not possible in order. */
  function Run(cfg: Config, actions: seq<Action>): Option<Conn>
    requires cfg.Valid()
  {
    if actions == [] then Some(Opened(cfg))
    else
      match Run(cfg, actions[..|actions| - 1])
      case None => None
      case Some(c) =>
        var a := actions[|actions| - 1];
        if InOrder(cfg, c, a) then Some(Next(cfg, c, a)) else None
  }

  ghost predicate ReachableInOrder(cfg: Config, c: Conn)
    requires cfg.Valid()
  {
    exists actions :: Run(cfg, actions) == Some(c)
  }

  /** A run in order is a run: what holds on every run holds on it. */
  lemma {:induction false} RunIsExec(cfg: Config, actions: seq<Action>)
    requires cfg.Valid() && Run(cfg, actions).Some?
    ensures Exec(cfg, actions) == Some(Run(cfg, actions).value.sys)
  {
    if actions != [] {
      RunIsExec(cfg, actions[..|actions| - 1]);
    }
  }

  lemma InOrderIsReachable(cfg: Config, c: Conn)
    requires cfg.Valid() && ReachableInOrder(cfg, c)
    ensures Reachable(cfg, c.sys) && Inv(cfg, c.sys)
  {
    var actions :| Run(cfg, actions) == Some(c);
    RunIsExec(cfg, actions);
    ReachableInv(cfg, c.sys);
  }

  lemma ReachNext(cfg: Config, c: Conn, a: Action) returns (d: Conn)
    requires cfg.Valid() && ReachableInOrder(cfg, c) && InOrder(cfg, c, a)
    ensures d == Next(cfg, c, a) && ReachableInOrder(cfg, d)
  {
    d := Next(cfg, c, a);
    var actions :| Run(cfg, actions) == Some(c);
    assert (actions + [a])[..|actions|] == actions;
    assert Run(cfg, actions + [a]) == Some(d);
  }

  // ---------------------------------------------------------------- reading what is unread

  /** A tick is under way that has not read yet, and no FIN has come. */
  predicate AtTick(c: Conn) {
    c.sys.client.phase.Ticking? && !c.hasRead && !c.sys.client.done && c.cursor <= |c.sys.ctrl|
  }

  /** Only the client has moved: it may have read and sent more. */
  predicate ClientOnly(c: Conn, d: Conn) {
    && d.sys.server == c.sys.server && d.sys.ctrl == c.sys.ctrl
    && c.sys.data <= d.sys.data && c.sys.client.read <= d.sys.client.read
  }

  /** The rest of a tick and the next send, by a client that still holds chunk `k`. */
  lemma SendOneMore(cfg: Config, c: Conn, k: nat) returns (d: Conn)
    requires cfg.Valid() && ReachableInOrder(cfg, c) && c.sys.client.phase.Ticking? && !c.sys.client.done
    requires c.cursor <= |c.sys.ctrl| && HeldByClient(c.sys.client, k)
    ensures ReachableInOrder(cfg, d) && AtTick(d) && ClientOnly(c, d) && d.cursor == c.cursor
    ensures d.sys.client.acked == c.sys.client.acked
    ensures c.sys.client.pending == [] ==> d.sys.client.pending == []
  {
    InOrderIsReachable(cfg, c);
    var p: DataPacket :| p.seqNo == k
      && (p in c.sys.client.inFlight || p in c.sys.client.pending || p in InHand(c.sys.client));
    d := ReachNext(cfg, c, ClientEndTick);
    d := ReachNext(cfg, d, ClientFetch);
    d := ReachNext(cfg, d, ClientSend);
  }

  /** One tick: the oldest unread packet is read, and a packet is sent after it. */
  lemma ReadOne(cfg: Config, c: Conn, k: nat) returns (d: Conn)
    requires cfg.Valid() && ReachableInOrder(cfg, c) && AtTick(c) && c.cursor < |c.sys.ctrl|
    requires k < c.sys.client.read && k !in c.sys.server.saved && !c.sys.server.phase.Finished?
    ensures ReachableInOrder(cfg, d) && AtTick(d) && ClientOnly(c, d) && d.cursor == c.cursor + 1
  {
    InOrderIsReachable(cfg, c);
    var segment := c.sys.ctrl[c.cursor];
    var p := SegmentDecodes(cfg, c.sys, segment, [], Blank);
    assert segment in c.sys.ctrl && |segment| == CTRL_SIZE by {
      var q: Packet :| RespOk(cfg, q, c.sys.server) && segment == Image(q);
    }
    assert segment + [] == segment && Concat(c.sys.ctrl[c.cursor + 1..c.cursor + 1]) == [];
    d := ReachNext(cfg, c, ClientRead(segment, [], Blank));
    InOrderIsReachable(cfg, d);
    if !HeldByClient(d.sys.client, k) {
      NotHeldMeansSaved(cfg, d.sys, k);
    }
    d := SendOneMore(cfg, d, k);
  }

  /** Tick by tick everything sent so far is read, while chunk `k` is not saved. */
  lemma {:induction false} ReadAll(cfg: Config, c: Conn, k: nat) returns (d: Conn)
    requires cfg.Valid() && ReachableInOrder(cfg, c) && AtTick(c)
    requires k < c.sys.client.read && k !in c.sys.server.saved && !c.sys.server.phase.Finished?
    ensures ReachableInOrder(cfg, d) && AtTick(d) && ClientOnly(c, d) && d.cursor == |d.sys.ctrl|
    decreases |c.sys.ctrl| - c.cursor
  {
    if c.cursor == |c.sys.ctrl| {
      d := c;
    } else {
      d := ReadOne(cfg, c, k);
      d := ReadAll(cfg, d, k);
    }
  }
}
