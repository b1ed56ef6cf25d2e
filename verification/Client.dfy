/** One client worker of src/ucp_client.c on the heap: two linked lists, a file cursor, a counter and
    the `done` flag, changed in place. Every method is tied to the value-level client. */
module ClientHeap {
  import opened Basics
  import opened LinkedLists
  import opened Packets
  import opened FileIO
  import opened ClientSpec
  import opened Retransmission

  /** What one read of the connection delivers: at least one byte and at most a segment. `garbage` is
      what the memory of on_ack_received's local packet held before. */
  type Segment = bytes: seq<byte> | 0 < |bytes| <= SEGMENT_SIZE witness [0]
  datatype Read = Read(bytes: Segment, garbage: Packet)

  /** The control packets of a tick, which makes at most one read. */
  function Delivered(tick: Option<Read>): seq<Packet> {
    if tick.None? then [] else [Decoded(tick.value.bytes, tick.value.garbage)]
  }

  function AllDelivered(script: seq<Option<Read>>): (rsps: seq<seq<Packet>>)
    ensures |rsps| == |script| && forall i :: 0 <= i < |rsps| ==> rsps[i] == Delivered(script[i])
  {
    seq(|script|, i requires 0 <= i < |script| => Delivered(script[i]))
  }

  /** The events of the rounds that make these ticks: fetch, send, respond to the packet decoded from what
      the tick read, if it read anything, and end the tick. */
  function TickEvents(tick: Option<Read>): seq<Event> {
    [DoFetch, DoSend]
    + (if tick.None? then [] else [DoRespond(Decoded(tick.value.bytes, tick.value.garbage))])
    + [DoEndTick]
  }

  function LoopEvents(script: seq<Option<Read>>): seq<Event> {
    if script == [] then [] else TickEvents(script[0]) + LoopEvents(script[1..])
  }

  /** The packet fetched after the rounds of this script. */
  predicate FetchedAfter(src: seq<byte>, c: Client, script: seq<Option<Read>>, p: DataPacket)
    requires IsPartition(src)
  {
    var f := RunFrom(src, c, LoopEvents(script) + [DoFetch]);
    f.Some? && f.value.phase == Sending(p)
  }

  /** The tick reads a FIN first. */
  ghost predicate ReadsFin(tick: Option<Read>) {
    tick.Some? && exists x: u32, rest: seq<byte> :: tick.value.bytes == Image(Ctrl(x, FLAG_FIN)) + rest
  }

  class Worker {
    const handle: PartitionReader
    const inFlight: LinkedList<DataPacket>
    const pending: LinkedList<DataPacket>
    var packetCount: nat
    var done: bool

    /** History: the packets dropped because of an ACK. */
    ghost var acked: seq<DataPacket>
    /** What each window owns. */
    ghost var inFlightRepr: set<object>
    ghost var pendingRepr: set<object>

    ghost predicate Valid()
      reads this, handle, inFlight, pending, inFlightRepr, pendingRepr
    {
      && handle.Valid()
      && Owns(inFlight, inFlightRepr) && Owns(pending, pendingRepr)
      && inFlightRepr !! pendingRepr
      && this !in inFlightRepr && this !in pendingRepr
      && handle !in inFlightRepr && handle !in pendingRepr
    }

    static ghost predicate Owns(list: LinkedList<DataPacket>, repr: set<object>)
      reads repr, list
    {
      && list in repr && list.anchor in repr
      && (forall i :: 0 <= i < |list.ring| ==> list.ring[i] in repr)
      && list.Valid()
    }

    ghost function State(phase: Phase): Client
      reads this, handle, inFlight, pending
    {
      Client(handle.lastSeqNo, inFlight.model, pending.model, packetCount, done, phase, acked)
    }

    constructor (src: seq<byte>)
      requires IsPartition(src)
      ensures Valid() && handle.contents == src && State(Fetching) == START
      ensures fresh(handle) && fresh(inFlightRepr) && fresh(pendingRepr)
    {
      handle := new PartitionReader(src);
      inFlight := new LinkedList<DataPacket>.Init(0);
      pending := new LinkedList<DataPacket>.Init(0);
      packetCount, done, acked := 0, false, [];
      new;
      inFlightRepr := {inFlight, inFlight.anchor};
      pendingRepr := {pending, pending.anchor};
    }

    /** find_packet, which walks the ring from the sentinel and stops at it */
    method FindElem(list: LinkedList<DataPacket>, seqNo: u32) returns (e: Elem?<DataPacket>, ghost k: nat)
      requires list.Valid()
      ensures e == null <==> FindPacket(list.model, seqNo) == |list.model|
      ensures e != null ==> list.Holds(e, FindPacket(list.model, seqNo))
      ensures k == FindPacket(list.model, seqNo)
    {
      var elem := list.anchor.next;
      k := 0;
      while elem != list.anchor
        invariant 0 <= k <= |list.model| && elem == list.ring[k + 1]
        invariant FindPacket(list.model, seqNo) == k + FindPacket(list.model[k..], seqNo)
        decreases |list.model| - k
      {
        assert list.ring[k + 1] != list.ring[|list.ring| - 1];
        var packet := list.ObjOf(elem).value;
        if packet.seqNo == seqNo {
          return elem, k;
        }
        assert list.model[k..][1..] == list.model[k + 1..];
        elem := list.NextOf(elem);
        k := k + 1;
      }
      assert k == |list.model|;
      e := null;
    }

    /** The oldest packet of a window, unlinked */
    static method TakeFirst(list: LinkedList<DataPacket>) returns (p: DataPacket)
      requires list.Valid() && list.model != []
      modifies list, list.anchor, list.ring
      ensures list.Valid() && list.ring == Without(old(list.ring), 1)
      ensures list.model == old(list.model)[1..] && p == old(list.model)[0]
    {
      var elem := list.First();
      p := list.ObjOf(elem).value;
      list.Unlink(elem, 0);
    }

    /** get_next_packet */
    method GetNextPacket() returns (p: Option<DataPacket>)
      requires Valid()
      modifies this, handle, inFlightRepr, pendingRepr
      ensures Valid() && inFlightRepr == old(inFlightRepr) && pendingRepr == old(pendingRepr)
      ensures State(if p.Some? then Sending(p.value) else Stopped) == Fetch(handle.contents, old(State(Fetching)))
    {
      if !pending.Empty() {
        var packet := TakeFirst(pending);
        return Some(packet);
      }
      p := handle.GetNextPacket();
      if p.Some? {
        packetCount := packetCount + 1;
        return;
      }
      if !inFlight.Empty() {
        var packet := TakeFirst(inFlight);
        return Some(packet);
      }
    }

    /** Lines 263-268: the packet in hand is encoded, sent, and put in flight. */
    method Transmit(p: DataPacket, buf: array<byte>) returns (datagram: seq<byte>)
      requires Valid() && buf.Length == UDP_PACKET_SIZE && buf !in inFlightRepr && buf !in pendingRepr
      modifies this`inFlightRepr, inFlightRepr, buf
      ensures Valid() && pendingRepr == old(pendingRepr)
      ensures old(inFlightRepr) <= inFlightRepr && fresh(inFlightRepr - old(inFlightRepr))
      ensures State(Ticking) == Send(old(State(Sending(p))))
      ensures datagram == Image(p)
    {
      var len := Encode(p, buf, buf.Length);
      datagram := buf[..len];
      Launch(p);
    }

    /** Line 268 */
    method Launch(p: DataPacket)
      requires Valid()
      modifies this`inFlightRepr, inFlightRepr
      ensures Valid() && inFlight.model == old(inFlight.model) + [p]
      ensures old(inFlightRepr) <= inFlightRepr && fresh(inFlightRepr - old(inFlightRepr))
    {
      inFlight.Append(p);
      inFlightRepr := inFlightRepr + {inFlight.ring[|inFlight.model|]};
    }

    /** Lines 200-201: the same packet is appended to the one list and unlinked from the other. */
    method MoveToPending(elem: Elem<DataPacket>, ghost k: nat)
      requires Valid() && inFlight.Holds(elem, k)
      modifies this`pendingRepr, inFlightRepr, pendingRepr
      ensures Valid() && inFlightRepr == old(inFlightRepr)
      ensures old(pendingRepr) <= pendingRepr && fresh(pendingRepr - old(pendingRepr))
      ensures inFlight.model == Without(old(inFlight.model), k)
      ensures pending.model == old(pending.model) + [old(inFlight.model)[k]]
    {
      Hold(inFlight.ObjOf(elem).value);
      inFlight.Unlink(elem, k);
    }

    method Hold(packet: DataPacket)
      requires Valid()
      modifies this`pendingRepr, pendingRepr
      ensures Valid() && pending.model == old(pending.model) + [packet]
      ensures old(pendingRepr) <= pendingRepr && fresh(pendingRepr - old(pendingRepr))
    {
      pending.Append(packet);
      pendingRepr := pendingRepr + {pending.ring[|pending.model|]};
    }

    /** Lines 190-194 */
    method Acknowledge(seqNo: u32)
      requires Valid()
      modifies this`acked, inFlightRepr
      ensures Valid() && State(Ticking) == Respond(old(State(Ticking)), Ctrl(seqNo, FLAG_ACK))
    {
      var elem, k := FindElem(inFlight, seqNo);
      if elem != null {
        acked := acked + [inFlight.model[k]];
        inFlight.Unlink(elem, k);
      }
    }

    /** Lines 198-202 */
    method Requeue(seqNo: u32)
      requires Valid()
      modifies this`pendingRepr, inFlightRepr, pendingRepr
      ensures Valid() && inFlightRepr == old(inFlightRepr)
      ensures old(pendingRepr) <= pendingRepr && fresh(pendingRepr - old(pendingRepr))
      ensures State(Ticking) == Respond(old(State(Ticking)), Ctrl(seqNo, FLAG_NACK))
    {
      var elem, k := FindElem(inFlight, seqNo);
      if elem != null {
        MoveToPending(elem, k);
      }
    }

    /** on_ack_received after decoding, lines 186-210 */
    method Handle(rsp: Packet)
      requires Valid()
      modifies this, inFlightRepr, pendingRepr
      ensures Valid() && inFlightRepr == old(inFlightRepr)
      ensures old(pendingRepr) <= pendingRepr && fresh(pendingRepr - old(pendingRepr))
      ensures State(Ticking) == Respond(old(State(Ticking)), rsp)
    {
      if rsp.Ctrl? {
        if rsp.flag == FLAG_ACK {
          Acknowledge(rsp.seqNo);
        } else if rsp.flag == FLAG_NACK {
          Requeue(rsp.seqNo);
        } else if rsp.flag == FLAG_FIN {
          done := true;
        }
      }
    }

    /** on_ack_received: one control packet is taken from the front of what a read delivered. */
    method OnAckReceived(data: array<byte>, dataLen: nat, garbage: Packet)
      requires Valid() && dataLen <= data.Length == SEGMENT_SIZE
      modifies this, inFlightRepr, pendingRepr
      ensures Valid() && inFlightRepr == old(inFlightRepr)
      ensures old(pendingRepr) <= pendingRepr && fresh(pendingRepr - old(pendingRepr))
      ensures State(Ticking) == Respond(old(State(Ticking)), Decoded(old(data[..dataLen]), garbage))
    {
      var rspPkt := new PacketCell();
      rspPkt.packet := garbage;
      ghost var overrun := rspPkt.Decode(data, dataLen);
      Handle(rspPkt.packet);
    }

    /** tcp_server_tick: if something has arrived, one read is made and handed on in a segment. */
    method Tick(tick: Option<Read>)
      requires Valid()
      modifies this, inFlightRepr, pendingRepr
      ensures Valid() && inFlightRepr == old(inFlightRepr)
      ensures old(pendingRepr) <= pendingRepr && fresh(pendingRepr - old(pendingRepr))
      ensures State(Ticking) == RespondAll(old(State(Ticking)), Delivered(tick))
    {
      if tick.Some? {
        var data := SegmentOf(tick.value.bytes);
        OnAckReceived(data, |tick.value.bytes|, tick.value.garbage);
      }
    }

    static method SegmentOf(bytes: Segment) returns (data: array<byte>)
      ensures fresh(data) && data.Length == SEGMENT_SIZE && data[..|bytes|] == bytes
    {
      data := new byte[SEGMENT_SIZE](_ => 0);
      CopyInto(bytes, data, 0);
    }

    /** One round of the send loop, lines 260-274: the datagram sent, if any, and where the loop then
        stands. */
    method OneRound(buf: array<byte>, tick: Option<Read>) returns (datagram: Option<seq<byte>>, ghost phase: Phase)
      requires Valid() && buf.Length == UDP_PACKET_SIZE && buf !in inFlightRepr && buf !in pendingRepr
      modifies this, handle, inFlightRepr, pendingRepr, buf
      ensures Valid() && buf !in inFlightRepr && buf !in pendingRepr
      ensures fresh(inFlightRepr - old(inFlightRepr)) && fresh(pendingRepr - old(pendingRepr))
      ensures State(phase) == Round(handle.contents, old(State(Fetching)), Delivered(tick))
      ensures var f := Fetch(handle.contents, old(State(Fetching)));
              datagram == if f.phase.Sending? then Some(Image(f.phase.packet)) else None
      ensures phase == if datagram.Some? && !done then Fetching else Stopped
    {
      var packet := GetNextPacket();
      if packet == None {
        return None, Stopped;
      }
      var bytes := Transmit(packet.value, buf);
      Tick(tick);
      phase := if done then Stopped else Fetching;
      datagram := Some(bytes);
    }

    /** A round whose datagram is added to those sent before. */
    method LoggedRound(buf: array<byte>, tick: Option<Read>, sent: seq<seq<byte>>, ghost out: seq<DataPacket>)
      returns (sentNow: seq<seq<byte>>, running: bool, ghost phase: Phase)
      requires Valid() && buf.Length == UDP_PACKET_SIZE && buf !in inFlightRepr && buf !in pendingRepr
      requires sent == Images(out)
      modifies this, handle, inFlightRepr, pendingRepr, buf
      ensures Valid() && buf !in inFlightRepr && buf !in pendingRepr
      ensures fresh(inFlightRepr - old(inFlightRepr)) && fresh(pendingRepr - old(pendingRepr))
      ensures State(phase) == Round(handle.contents, old(State(Fetching)), Delivered(tick))
      ensures phase == if running then Fetching else Stopped
      ensures sentNow == Images(SentNow(handle.contents, old(State(Fetching)), out))
    {
      sentNow := sent;
      var datagram;
      datagram, phase := OneRound(buf, tick);
      if datagram.Some? {
        sentNow := sentNow + [datagram.value];
      }
      running := datagram.Some? && !done;
    }

    /** The send loop of block_thread, lines 260-275, for as many rounds as the script has ticks: the
        datagrams are the images of the packets sent, and `phase` says where the loop then stands. */
    method SendLoop(script: seq<Option<Read>>)
      returns (sent: seq<seq<byte>>, ghost phase: Phase, ghost packets: seq<DataPacket>, ghost last: seq<Event>)
      requires Valid()
      modifies this, handle, inFlightRepr, pendingRepr
      ensures Valid()
      ensures State(phase) == After(handle.contents, old(State(Fetching)), AllDelivered(script))
      ensures packets == Sends(handle.contents, old(State(Fetching)), AllDelivered(script))
      ensures sent == Images(packets) && |sent| <= |script|
      ensures RunFrom(handle.contents, old(State(Fetching)), LoopEvents(script[..|sent|]) + last) == Some(State(phase))
      ensures last == [] || last == [DoFetch]
      ensures (|sent| == |script| && last == []) || phase == Stopped
      ensures forall i :: 0 <= i < |sent| ==>
                FetchedAfter(handle.contents, old(State(Fetching)), script[..i], packets[i])
      ensures forall i :: 0 <= i < |script| && ReadsFin(script[i]) ==>
                |sent| <= i + 1 && phase == Stopped && (|sent| == i + 1 ==> done)
    {
      var buf := new byte[UDP_PACKET_SIZE];
      ghost var start, rsps := State(Fetching), AllDelivered(script);
      ghost var out: seq<DataPacket> := [];
      sent, phase := [], Fetching;
      var i, running := 0, true;
      while i < |script| && running
        invariant 0 <= i <= |script| && Valid() && phase == if running then Fetching else Stopped
        invariant fresh(buf) && buf !in inFlightRepr && buf !in pendingRepr
        invariant fresh(inFlightRepr - old(inFlightRepr)) && fresh(pendingRepr - old(pendingRepr))
        invariant SentSoFar(handle.contents, start, rsps, i, State(phase), out)
        invariant sent == Images(out)
      {
        ghost var now := State(Fetching);
        OneMoreRound(handle.contents, start, rsps, i, now, out);
        sent, running, phase := LoggedRound(buf, script[i], sent, out);
        out := SentNow(handle.contents, now, out);
        i := i + 1;
      }
      NothingMoreSent(handle.contents, start, rsps, i, State(phase), out);
      packets := out;
      last := LoopIsEvents(handle.contents, start, script);
      forall j | 0 <= j < |sent|
        ensures FetchedAfter(handle.contents, start, script[..j], packets[j])
      {
        SendsAreFetched(handle.contents, start, script, j);
      }
      forall j | 0 <= j < |script| && ReadsFin(script[j])
        ensures |sent| <= j + 1 && phase == Stopped && (|sent| == j + 1 ==> done)
      {
        FinEndsLoop(handle.contents, start, script, |packets|, last, j);
      }
    }
  }

  /** What has been sent once the client has made its next round, and `out` before. */
  function SentNow(src: seq<byte>, c: Client, out: seq<DataPacket>): seq<DataPacket>
    requires IsPartition(src)
  {
    var f := Fetch(src, c);
    if f.phase.Sending? then out + [f.phase.packet] else out
  }

  /** After `i` rounds the client is `now` and `out` has been sent. */
  predicate SentSoFar(src: seq<byte>, start: Client, rsps: seq<seq<Packet>>, i: nat, now: Client, out: seq<DataPacket>)
    requires IsPartition(src) && i <= |rsps|
  {
    && After(src, now, rsps[i..]) == After(src, start, rsps)
    && out + Sends(src, now, rsps[i..]) == Sends(src, start, rsps)
  }

  lemma OneMoreRound(src: seq<byte>, start: Client, rsps: seq<seq<Packet>>, i: nat, now: Client, out: seq<DataPacket>)
    requires IsPartition(src) && i < |rsps| && now.phase.Fetching?
    requires SentSoFar(src, start, rsps, i, now, out)
    ensures SentSoFar(src, start, rsps, i + 1, Round(src, now, rsps[i]), SentNow(src, now, out))
  {
    var f, next := Fetch(src, now), Round(src, now, rsps[i]);
    assert rsps[i..][0] == rsps[i] && rsps[i..][1..] == rsps[i + 1..];
    if f.phase.Sending? {
      var rest := Sends(src, next, rsps[i + 1..]);
      assert out + ([f.phase.packet] + rest) == (out + [f.phase.packet]) + rest;
    }
  }

  lemma NothingMoreSent(src: seq<byte>, start: Client, rsps: seq<seq<Packet>>, i: nat, now: Client,
                        out: seq<DataPacket>)
    requires IsPartition(src) && i <= |rsps| && (i == |rsps| || !now.phase.Fetching?)
    requires SentSoFar(src, start, rsps, i, now, out)
    ensures now == After(src, start, rsps) && out == Sends(src, start, rsps)
  {
    assert out + [] == out;
  }

  // ---------------------------------------------------------------- the loop as events

  /** Fetch, send, the responses of a tick, and its end. */
  lemma FourEvents(src: seq<byte>, c: Client, rsp: Packet)
    requires IsPartition(src) && c.phase.Fetching?
    ensures RunFrom(src, c, [DoFetch, DoSend, DoRespond(rsp), DoEndTick])
            == if Fetch(src, c).phase.Sending? then Some(EndTick(Respond(Send(Fetch(src, c)), rsp))) else None
  {
    var all, three := [DoFetch, DoSend, DoRespond(rsp), DoEndTick], [DoSend, DoRespond(rsp), DoEndTick];
    var two, one := [DoRespond(rsp), DoEndTick], [DoEndTick];
    assert all[1..] == three && three[1..] == two && two[1..] == one && one[1..] == [];
    if Fetch(src, c).phase.Sending? {
      var sent := Send(Fetch(src, c));
      assert RunFrom(src, Respond(sent, rsp), one) == Some(EndTick(Respond(sent, rsp)));
      assert RunFrom(src, sent, two) == RunFrom(src, Respond(sent, rsp), one);
    }
  }

  lemma ThreeEvents(src: seq<byte>, c: Client)
    requires IsPartition(src) && c.phase.Fetching?
    ensures RunFrom(src, c, [DoFetch, DoSend, DoEndTick])
            == if Fetch(src, c).phase.Sending? then Some(EndTick(Send(Fetch(src, c)))) else None
  {
    var all, two, one := [DoFetch, DoSend, DoEndTick], [DoSend, DoEndTick], [DoEndTick];
    assert all[1..] == two && two[1..] == one && one[1..] == [];
    if Fetch(src, c).phase.Sending? {
      assert RunFrom(src, Send(Fetch(src, c)), one) == Some(EndTick(Send(Fetch(src, c))));
    }
  }

  /** One round of the loop is the events of its tick. */
  lemma RoundIsEvents(src: seq<byte>, c: Client, tick: Option<Read>)
    requires IsPartition(src) && c.phase.Fetching? && Fetch(src, c).phase.Sending?
    ensures RunFrom(src, c, TickEvents(tick)) == Some(Round(src, c, Delivered(tick)))
  {
    if tick.Some? {
      var rsp := Decoded(tick.value.bytes, tick.value.garbage);
      FourEvents(src, c, rsp);
      assert TickEvents(tick) == [DoFetch, DoSend, DoRespond(rsp), DoEndTick];
      SingleResponse(Send(Fetch(src, c)), rsp);
    } else {
      ThreeEvents(src, c);
      assert TickEvents(tick) == [DoFetch, DoSend, DoEndTick];
    }
  }

  lemma SingleResponse(c: Client, rsp: Packet)
    ensures RespondAll(c, [rsp]) == Respond(c, rsp)
  {
    assert [rsp][1..] == [];
  }

  lemma EventsOfFirst(script: seq<Option<Read>>, n: nat)
    requires 0 < n <= |script|
    ensures LoopEvents(script[..n]) == TickEvents(script[0]) + LoopEvents(script[1..][..n - 1])
  {
    assert script[..n][1..] == script[1..][..n - 1];
  }

  lemma OneRoundFirst(src: seq<byte>, c: Client, script: seq<Option<Read>>, n: nat, tail: seq<Event>)
    requires IsPartition(src) && c.phase.Fetching? && Fetch(src, c).phase.Sending? && 0 < n <= |script|
    ensures RunFrom(src, c, LoopEvents(script[..n]) + tail)
            == RunFrom(src, Round(src, c, Delivered(script[0])), LoopEvents(script[1..][..n - 1]) + tail)
  {
    var first, rest := TickEvents(script[0]), LoopEvents(script[1..][..n - 1]);
    EventsOfFirst(script, n);
    assert (first + rest) + tail == first + (rest + tail);
    RunFromJoined(src, c, first, rest + tail);
    RoundIsEvents(src, c, script[0]);
  }

  /** The state and the number of ticks that a run of the loop comes to, told by events alone. */
  predicate EndsWith(src: seq<byte>, c: Client, script: seq<Option<Read>>, n: nat, last: seq<Event>, after: Client)
    requires IsPartition(src) && n <= |script|
  {
    && (last == [] || last == [DoFetch])
    && RunFrom(src, c, LoopEvents(script[..n]) + last) == Some(after)
    && ((n == |script| && last == []) || after.phase.Stopped?)
  }

  lemma NoRound(src: seq<byte>, c: Client, script: seq<Option<Read>>, last: seq<Event>)
    requires IsPartition(src) && (last == [] || last == [DoFetch])
    requires if last == [] then script == [] || c.phase.Stopped? else c.phase.Fetching? && Fetch(src, c).phase.Stopped?
    ensures EndsWith(src, c, script, 0, last, if last == [] then c else Fetch(src, c))
  {
    assert LoopEvents(script[..0]) + last == last;
    assert [DoFetch][1..] == [];
  }

  /** What the loop comes to: the events of as many ticks as there are packets sent, and one more fetch if
      that found nothing to send. */
  lemma {:induction false} LoopIsEvents(src: seq<byte>, c: Client, script: seq<Option<Read>>)
    returns (last: seq<Event>)
    requires IsPartition(src) && (c.phase.Fetching? || c.phase.Stopped?)
    ensures |Sends(src, c, AllDelivered(script))| <= |script|
    ensures EndsWith(src, c, script, |Sends(src, c, AllDelivered(script))|, last, After(src, c, AllDelivered(script)))
    decreases |script|
  {
    if script == [] || c.phase.Stopped? {
      last := [];
      NoRound(src, c, script, last);
    } else if Fetch(src, c).phase.Stopped? {
      last := [DoFetch];
      NoRound(src, c, script, last);
    } else {
      var next, rest := Round(src, c, Delivered(script[0])), script[1..];
      assert AllDelivered(script)[1..] == AllDelivered(rest);
      last := LoopIsEvents(src, next, rest);
      OneRoundFirst(src, c, script, 1 + |Sends(src, next, AllDelivered(rest))|, last);
    }
  }

  /** What the loop sends, told by events alone: packet i is the one fetched after i ticks. */
  lemma {:induction false} SendsAreFetched(src: seq<byte>, c: Client, script: seq<Option<Read>>, i: nat)
    requires IsPartition(src) && c.phase.Fetching? && i < |Sends(src, c, AllDelivered(script))|
    ensures i < |script| && FetchedAfter(src, c, script[..i], Sends(src, c, AllDelivered(script))[i])
    decreases i
  {
    var next, rest := Round(src, c, Delivered(script[0])), script[1..];
    assert AllDelivered(script)[1..] == AllDelivered(rest);
    if i == 0 {
      assert LoopEvents(script[..0]) + [DoFetch] == [DoFetch] && [DoFetch][1..] == [];
    } else {
      SendsAreFetched(src, next, rest, i - 1);
      OneRoundFirst(src, c, script, i, [DoFetch]);
    }
  }

  lemma FinTick(src: seq<byte>, c: Client, tick: Option<Read>)
    requires IsPartition(src) && ReadsFin(tick) && RunFrom(src, c, TickEvents(tick)).Some?
    ensures var d := RunFrom(src, c, TickEvents(tick)).value; d.done && d.phase.Stopped?
  {
    var x: u32, rest: seq<byte> :| tick.value.bytes == Image(Ctrl(x, FLAG_FIN)) + rest;
    RoundTrip(Ctrl(x, FLAG_FIN), rest, tick.value.garbage);
    var fin := Ctrl(x, FLAG_FIN);
    assert TickEvents(tick) == [DoFetch, DoSend, DoRespond(fin), DoEndTick];
    FourEvents(src, c, fin);
  }

  lemma Regroup<T>(first: seq<T>, a: seq<T>, b: seq<T>, c: seq<T>)
    ensures first + (a + b + c) == (first + a) + b + c
    ensures a + b + c + first == a + (b + (c + first))
  {
  }

  lemma {:induction false} EventsAround(script: seq<Option<Read>>, i: nat)
    requires i < |script|
    ensures LoopEvents(script) == LoopEvents(script[..i]) + TickEvents(script[i]) + LoopEvents(script[i + 1..])
    decreases i
  {
    if i > 0 {
      var rest := script[1..];
      EventsAround(rest, i - 1);
      EventsOfFirst(script, i);
      assert rest[i..] == script[i + 1..];
      Regroup(TickEvents(script[0]), LoopEvents(rest[..i - 1]), TickEvents(script[i]), LoopEvents(script[i + 1..]));
    }
  }

  lemma NothingAfterStop(src: seq<byte>, c: Client, script: seq<Option<Read>>, last: seq<Event>)
    requires IsPartition(src) && c.phase.Stopped? && (last == [] || last == [DoFetch])
    requires RunFrom(src, c, LoopEvents(script) + last).Some?
    ensures script == [] && last == []
  {
    if script != [] || last != [] {
      FetchIsFirst(script, last);
    }
  }

  lemma FetchIsFirst(script: seq<Option<Read>>, last: seq<Event>)
    requires last == [] || last == [DoFetch]
    ensures var events := LoopEvents(script) + last; script != [] || last != [] ==> events != [] && events[0] == DoFetch
  {
  }

  /** The tick that reads a FIN first is the last one. */
  lemma FinEndsLoop(src: seq<byte>, c: Client, script: seq<Option<Read>>, n: nat, last: seq<Event>, i: nat)
    requires IsPartition(src) && n <= |script| && (last == [] || last == [DoFetch]) && i < |script|
    requires RunFrom(src, c, LoopEvents(script[..n]) + last).Some? && ReadsFin(script[i])
    requires n == |script| || RunFrom(src, c, LoopEvents(script[..n]) + last).value.phase.Stopped?
    ensures var after := RunFrom(src, c, LoopEvents(script[..n]) + last).value;
            n <= i + 1 && after.phase.Stopped? && (n == i + 1 ==> after.done)
  {
    if i < n {
      var made := script[..n];
      var before, tick, rest := LoopEvents(made[..i]), TickEvents(made[i]), LoopEvents(made[i + 1..]);
      EventsAround(made, i);
      Regroup(last, before, tick, rest);
      RunFromJoined(src, c, before, tick + (rest + last));
      var d := RunFrom(src, c, before).value;
      RunFromJoined(src, d, tick, rest + last);
      FinTick(src, d, made[i]);
      NothingAfterStop(src, RunFrom(src, d, tick).value, made[i + 1..], last);
    }
  }
}
