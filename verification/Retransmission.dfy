/** When the client's send loop (src/ucp_client.c:260-275) sends a packet again. A script gives, for
    each round, the control packets that the tick of that round hands to on_ack_received. */
module Retransmission {
  import opened Basics
  import opened Packets
  import opened FileIO
  import opened ClientSpec

  function RespondAll(c: Client, rsps: seq<Packet>): Client
    decreases |rsps|
  {
    if rsps == [] then c else RespondAll(Respond(c, rsps[0]), rsps[1..])
  }

  /** One round of the loop from its head: the state after it. */
  function Round(src: seq<byte>, c: Client, rsps: seq<Packet>): Client
    requires IsPartition(src)
  {
    var f := Fetch(src, c);
    if f.phase.Sending? then EndTick(RespondAll(Send(f), rsps)) else f
  }

  /** The packets sent in the rounds of the script, until the loop is left. */
  function Sends(src: seq<byte>, c: Client, script: seq<seq<Packet>>): seq<DataPacket>
    requires IsPartition(src)
    decreases |script|
  {
    if script == [] || !c.phase.Fetching? then []
    else
      var f := Fetch(src, c);
      if f.phase.Sending? then [f.phase.packet] + Sends(src, Round(src, c, script[0]), script[1..]) else []
  }

  /** The state after those rounds. */
  function After(src: seq<byte>, c: Client, script: seq<seq<Packet>>): Client
    requires IsPartition(src)
    decreases |script|
  {
    if script == [] || !c.phase.Fetching? then c else After(src, Round(src, c, script[0]), script[1..])
  }

  predicate IsFin(rsp: Packet) { rsp.Ctrl? && rsp.flag == FLAG_FIN }
  predicate IsAck(rsp: Packet) { rsp.Ctrl? && rsp.flag == FLAG_ACK }
  predicate IsNack(rsp: Packet) { rsp.Ctrl? && rsp.flag == FLAG_NACK }

  predicate NoFin(rsps: seq<Packet>) {
    forall i :: 0 <= i < |rsps| ==> !IsFin(rsps[i])
  }

  // ---------------------------------------------------------------- pending packets

  /** A packet at position q of the pending window is sent on the (q + 1)-th following send, whatever
      ACKs and NACKs arrive in between. */
  lemma {:induction false} PendingSentInTurn(src: seq<byte>, c: Client, script: seq<seq<Packet>>, q: nat)
    requires IsPartition(src) && c.phase.Fetching? && !c.done
    requires q < |c.pending| && q < |script|
    requires forall i :: 0 <= i < q ==> NoFin(script[i])
    ensures |Sends(src, c, script)| > q && Sends(src, c, script)[q] == c.pending[q]
    decreases q
  {
    if q > 0 {
      var f := Fetch(src, c);
      assert NoFin(script[0]);
      ResponsesOnlyExtendPending(Send(f), script[0]);
      var next := Round(src, c, script[0]);
      assert next.pending[q - 1] == c.pending[q];
      PendingSentInTurn(src, next, script[1..], q - 1);
    }
  }

  /** ACKs and NACKs never take a packet out of the pending window, and end nothing. */
  lemma {:induction false} ResponsesOnlyExtendPending(c: Client, rsps: seq<Packet>)
    requires NoFin(rsps) && !c.done
    ensures c.pending <= RespondAll(c, rsps).pending
    ensures !RespondAll(c, rsps).done && RespondAll(c, rsps).phase == c.phase
    ensures RespondAll(c, rsps).read == c.read
    decreases |rsps|
  {
    if rsps != [] {
      assert forall i :: 0 <= i < |rsps[1..]| ==> rsps[1..][i] == rsps[i + 1];
      ResponsesOnlyExtendPending(Respond(c, rsps[0]), rsps[1..]);
    }
  }

  // ---------------------------------------------------------------- the line of packets to be sent

  /** The packets not read yet. */
  function Unread(src: seq<byte>, read: nat): seq<DataPacket>
    requires IsPartition(src)
  {
    if read >= NumChunks(|src|) then []
    else seq<DataPacket>(NumChunks(|src|) - read, i requires 0 <= i < NumChunks(|src|) - read => Chunk(src, read + i))
  }

  /** All packets the client has yet to send or may have to repeat, in the order get_next_packet takes
      them: the pending ones, the rest of the file, those in flight. */
  function Line(src: seq<byte>, c: Client): seq<DataPacket>
    requires IsPartition(src)
  {
    c.pending + Unread(src, c.read) + c.inFlight
  }

  lemma UnreadHead(src: seq<byte>, read: nat)
    requires IsPartition(src) && read < NumChunks(|src|)
    ensures Unread(src, read) != [] && Unread(src, read)[0] == Chunk(src, read)
    ensures Unread(src, read)[1..] == Unread(src, read + 1)
  {
  }

  /** Where the head of three pieces put together comes from. */
  lemma HeadOfThree<T>(a: seq<T>, b: seq<T>, c: seq<T>)
    ensures a != [] ==> a + b + c == [a[0]] + (a[1..] + b + c)
    ensures a == [] && b != [] ==> a + b + c == [b[0]] + (a + b[1..] + c)
    ensures a == [] && b == [] && c != [] ==> a + b + c == [c[0]] + (a + b + c[1..])
  {
  }

  lemma EndOfThree<T>(a: seq<T>, b: seq<T>, c: seq<T>, x: T)
    ensures a + b + (c + [x]) == (a + b + c) + [x]
  {
  }

  /** get_next_packet takes the head of the line. */
  lemma FetchTakesHead(src: seq<byte>, c: Client)
    requires IsPartition(src)
    ensures var f := Fetch(src, c);
            if f.phase.Sending? then Line(src, c) == [f.phase.packet] + Line(src, f) else Line(src, c) == []
  {
    HeadOfThree(c.pending, Unread(src, c.read), c.inFlight);
    if c.read < NumChunks(|src|) {
      UnreadHead(src, c.read);
    }
  }

  /** A send takes the packet at the head of the line and puts it at the end. */
  lemma SendRotatesLine(src: seq<byte>, c: Client)
    requires IsPartition(src)
    ensures var line, f := Line(src, c), Fetch(src, c);
            if line == [] then f.phase.Stopped?
            else f.phase == Sending(line[0]) && Line(src, Send(f)) == line[1..] + [line[0]]
  {
    var f := Fetch(src, c);
    FetchTakesHead(src, c);
    if f.phase.Sending? {
      EndOfThree(f.pending, Unread(src, f.read), f.inFlight, f.phase.packet);
    }
  }

  /** `p` is among the first `n` of the packets. */
  predicate Among(ps: seq<DataPacket>, p: DataPacket, n: nat) {
    exists i :: 0 <= i < n && i < |ps| && ps[i] == p
  }

  /** A response that stops the client, takes `p` out of the window for good, or lets a packet behind `p`
      overtake it: a NACK puts its packet behind the pending ones and ahead of all others. */
  predicate Disturbs(src: seq<byte>, c: Client, rsp: Packet, p: DataPacket)
    requires IsPartition(src)
  {
    || IsFin(rsp)
    || (rsp.Ctrl? &&
        var k := FindPacket(c.inFlight, rsp.seqNo);
        k < |c.inFlight|
        && ( || (IsAck(rsp) && c.inFlight[k] == p)
             || (IsNack(rsp) && p !in c.pending && p in Unread(src, c.read) + c.inFlight[..k])))
  }

  /** Response by response, nothing in this tick disturbs `p`. */
  predicate Calm(src: seq<byte>, c: Client, rsps: seq<Packet>, p: DataPacket)
    requires IsPartition(src)
    decreases |rsps|
  {
    rsps != [] ==> !Disturbs(src, c, rsps[0], p) && Calm(src, Respond(c, rsps[0]), rsps[1..], p)
  }

  /** Nothing disturbs `p` in the first `n` rounds, or in those of them that end before it is sent. */
  predicate CalmUntilSent(src: seq<byte>, c: Client, script: seq<seq<Packet>>, p: DataPacket, n: nat)
    requires IsPartition(src) && n <= |script|
    decreases n
  {
    var f := Fetch(src, c);
    n > 0 && f.phase.Sending? && f.phase.packet != p ==>
      && Calm(src, Send(f), script[0], p)
      && CalmUntilSent(src, Round(src, c, script[0]), script[1..], p, n - 1)
  }

  /** A response that does not disturb `p` leaves as many or fewer packets before it. */
  lemma OneResponse(src: seq<byte>, c: Client, rsp: Packet, p: DataPacket, n: nat)
    requires IsPartition(src) && !c.done && Among(Line(src, c), p, n) && !Disturbs(src, c, rsp, p)
    ensures var d := Respond(c, rsp); Among(Line(src, d), p, n) && !d.done && d.phase == c.phase
  {
    var d := Respond(c, rsp);
    var i :| 0 <= i < n && i < |Line(src, c)| && Line(src, c)[i] == p;
    var ahead := |c.pending| + |Unread(src, c.read)|;
    if rsp.Ctrl? && d != c {
      var k := FindPacket(c.inFlight, rsp.seqNo);
      if IsAck(rsp) {
        assert Line(src, d)[if i < ahead + k then i else i - 1] == p;
      } else {
        NackMovesUp(src, c, k, p, i);
      }
    }
  }

  lemma NackMovesUp(src: seq<byte>, c: Client, k: nat, p: DataPacket, i: nat)
    requires IsPartition(src) && k < |c.inFlight| && i < |Line(src, c)| && Line(src, c)[i] == p
    requires p in c.pending || p !in Unread(src, c.read) + c.inFlight[..k]
    ensures var d := c.(inFlight := Without(c.inFlight, k), pending := c.pending + [c.inFlight[k]]);
            Among(Line(src, d), p, i + 1)
  {
    var d := c.(inFlight := Without(c.inFlight, k), pending := c.pending + [c.inFlight[k]]);
    var before := Unread(src, c.read) + c.inFlight[..k];
    var line := Line(src, d);
    if p in c.pending {
      var j :| 0 <= j < |c.pending| && c.pending[j] == p;
      var m := if j <= i then j else i;
      assert line[m] == p;
    } else {
      var front := c.pending + before;
      assert Line(src, c) == front + c.inFlight[k..] && p !in front;
      assert i >= |front|;
      assert line[if i == |front| then |c.pending| else i] == p;
    }
  }

  lemma {:induction false} CalmTick(src: seq<byte>, c: Client, rsps: seq<Packet>, p: DataPacket, n: nat)
    requires IsPartition(src) && !c.done && Among(Line(src, c), p, n) && Calm(src, c, rsps, p)
    ensures var d := RespondAll(c, rsps); Among(Line(src, d), p, n) && !d.done && d.phase == c.phase
    decreases |rsps|
  {
    if rsps != [] {
      OneResponse(src, c, rsps[0], p, n);
      CalmTick(src, Respond(c, rsps[0]), rsps[1..], p, n);
    }
  }

  lemma MovesUp(line: seq<DataPacket>, p: DataPacket, n: nat)
    requires Among(line, p, n) && line[0] != p
    ensures n > 1 && Among(line[1..] + [line[0]], p, n - 1)
  {
    var i :| 0 <= i < n && i < |line| && line[i] == p;
    assert (line[1..] + [line[0]])[i - 1] == p;
  }

  lemma AmongTheRest(first: DataPacket, rest: seq<DataPacket>, p: DataPacket, n: nat)
    requires Among(rest, p, n)
    ensures Among([first] + rest, p, n + 1)
  {
    var j :| 0 <= j < n && j < |rest| && rest[j] == p;
    assert ([first] + rest)[j + 1] == p;
  }

  /** A packet at position q of the line is sent within q + 1 sends, unless before that it is
      acknowledged, a NACK takes a packet from behind it to the pending ones, or a FIN arrives. */
  lemma {:induction false} SentInTurn(src: seq<byte>, c: Client, script: seq<seq<Packet>>, p: DataPacket, n: nat)
    requires IsPartition(src) && c.phase.Fetching? && !c.done
    requires Among(Line(src, c), p, n) && n <= |script| && CalmUntilSent(src, c, script, p, n)
    ensures Among(Sends(src, c, script), p, n)
    decreases n
  {
    var line, f := Line(src, c), Fetch(src, c);
    SendRotatesLine(src, c);
    assert Sends(src, c, script) == [line[0]] + Sends(src, Round(src, c, script[0]), script[1..]);
    if line[0] == p {
      assert Sends(src, c, script)[0] == p;
    } else {
      MovesUp(line, p, n);
      CalmTick(src, Send(f), script[0], p, n - 1);
      var next := Round(src, c, script[0]);
      SentInTurn(src, next, script[1..], p, n - 1);
      AmongTheRest(line[0], Sends(src, next, script[1..]), p, n - 1);
    }
  }

  /** The file is used up and nothing is pending: the client only repeats what is in flight. */
  predicate Repeating(src: seq<byte>, c: Client) {
    c.phase.Fetching? && !c.done && c.pending == [] && c.read >= NumChunks(|src|)
  }

  /** Once the client only repeats, a packet at in-flight position q is sent again within q + 1 sends,
      unless before that it is acknowledged, a NACK takes effect on one behind it, or a FIN arrives. */
  lemma InFlightResentInTurn(src: seq<byte>, c: Client, script: seq<seq<Packet>>, p: DataPacket, n: nat)
    requires IsPartition(src) && Repeating(src, c) && Among(c.inFlight, p, n) && n <= |script|
    requires CalmUntilSent(src, c, script, p, n)
    ensures Among(Sends(src, c, script), p, n)
  {
    assert Line(src, c) == c.inFlight;
    SentInTurn(src, c, script, p, n);
  }

  // ---------------------------------------------------------------- rotation

  /** `n` rounds in which nothing is received */
  function Quiet(n: nat): seq<seq<Packet>> {
    seq(n, _ => [])
  }

  /** `n` sends without any response rotate the in-flight window by `n`. */
  lemma {:induction false} QuietSendsRotate(src: seq<byte>, c: Client, n: nat)
    requires IsPartition(src) && Repeating(src, c) && n <= |c.inFlight|
    ensures Sends(src, c, Quiet(n)) == c.inFlight[..n]
    ensures After(src, c, Quiet(n)) == c.(inFlight := c.inFlight[n..] + c.inFlight[..n])
    decreases n
  {
    if n == 0 {
      assert c.inFlight[0..] + c.inFlight[..0] == c.inFlight;
    } else {
      var next := Round(src, c, []);
      assert next == c.(inFlight := c.inFlight[1..] + [c.inFlight[0]]);
      assert Quiet(n)[1..] == Quiet(n - 1) && Quiet(n)[0] == [];
      QuietSendsRotate(src, next, n - 1);
      RotateOnce(c.inFlight, n);
    }
  }

  lemma RotateOnce<T>(s: seq<T>, n: nat)
    requires 0 < n <= |s|
    ensures var r := s[1..] + [s[0]];
            && [s[0]] + r[..n - 1] == s[..n]
            && r[n - 1..] + r[..n - 1] == s[n..] + s[..n]
  {
  }

  /** As many quiet sends as there are packets in flight send each of them once, in order, and bring
      the window back to where it was. */
  lemma QuietSendsReturn(src: seq<byte>, c: Client)
    requires IsPartition(src) && Repeating(src, c)
    ensures Sends(src, c, Quiet(|c.inFlight|)) == c.inFlight
    ensures After(src, c, Quiet(|c.inFlight|)) == c
  {
    var n := |c.inFlight|;
    QuietSendsRotate(src, c, n);
    assert c.inFlight[..n] == c.inFlight && c.inFlight[n..] + c.inFlight[..n] == c.inFlight;
  }
}
