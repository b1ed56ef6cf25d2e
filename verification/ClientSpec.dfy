/** The sending side of one client worker as a value (src/ucp_client.c): the read position, the
    in-flight and pending windows, and where the send loop stands. */
module ClientSpec {
  import opened Basics
  import opened Packets
  import opened FileIO

  /** Where block_thread's loop stands; `Sending` has a packet in hand. */
  datatype Phase = Fetching | Sending(packet: DataPacket) | Ticking | Stopped

  /** `acked` is history: the packets dropped from the in-flight window because of an ACK. */
  datatype Client = Client(
    read: nat,
    inFlight: seq<DataPacket>,
    pending: seq<DataPacket>,
    packetCount: nat,
    done: bool,
    phase: Phase,
    acked: seq<DataPacket>)

  const START := Client(0, [], [], 0, false, Fetching, [])

  /** find_packet: the position of the first packet with this number, or the length if none */
  function FindPacket(ps: seq<DataPacket>, seqNo: u32): (k: nat)
    ensures k <= |ps| && (k < |ps| ==> ps[k].seqNo == seqNo)
    ensures forall i :: 0 <= i < k ==> ps[i].seqNo != seqNo
  {
    if ps == [] || ps[0].seqNo == seqNo then 0 else 1 + FindPacket(ps[1..], seqNo)
  }

  /** get_next_packet: pending packets first, then the file, then the oldest packet in flight */
  function Fetch(src: seq<byte>, c: Client): Client
    requires IsPartition(src)
  {
    if c.pending != [] then c.(pending := c.pending[1..], phase := Sending(c.pending[0]))
    else if c.read < NumChunks(|src|) then
      c.(read := c.read + 1, packetCount := c.packetCount + 1, phase := Sending(Chunk(src, c.read)))
    else if c.inFlight != [] then c.(inFlight := c.inFlight[1..], phase := Sending(c.inFlight[0]))
    else c.(phase := Stopped)
  }

  /** The packet in hand goes out and into the in-flight window. */
  function Send(c: Client): Client
    requires c.phase.Sending?
  {
    c.(inFlight := c.inFlight + [c.phase.packet], phase := Ticking)
  }

  /** on_ack_received, once the segment is decoded */
  function Respond(c: Client, rsp: Packet): Client {
    if !rsp.Ctrl? then c
    else if rsp.flag == FLAG_ACK then
      var k := FindPacket(c.inFlight, rsp.seqNo);
      if k < |c.inFlight| then
        c.(inFlight := Without(c.inFlight, k), acked := c.acked + [c.inFlight[k]])
      else c
    else if rsp.flag == FLAG_NACK then
      var k := FindPacket(c.inFlight, rsp.seqNo);
      if k < |c.inFlight| then
        c.(inFlight := Without(c.inFlight, k), pending := c.pending + [c.inFlight[k]])
      else c
    else if rsp.flag == FLAG_FIN then c.(done := true)
    else c
  }

  /** The end of a round: the loop is left when a FIN has arrived. */
  function EndTick(c: Client): Client {
    c.(phase := if c.done then Stopped else Fetching)
  }

  // ---------------------------------------------------------------- conservation

  /** How many of the packets have this number. */
  function Count(ps: seq<DataPacket>, k: nat): nat {
    if ps == [] then 0 else (if ps[0].seqNo == k then 1 else 0) + Count(ps[1..], k)
  }

  function InHand(c: Client): seq<DataPacket> {
    if c.phase.Sending? then [c.phase.packet] else []
  }

  /** In how many places number `k` is: in flight, pending, in hand, acknowledged. */
  function Places(c: Client, k: nat): nat {
    Count(c.inFlight, k) + Count(c.pending, k) + Count(InHand(c), k) + Count(c.acked, k)
  }

  predicate FromSource(src: seq<byte>, p: DataPacket)
    requires IsPartition(src)
  {
    p.seqNo < NumChunks(|src|) && p == Chunk(src, p.seqNo)
  }

  predicate AllFromSource(src: seq<byte>, ps: seq<DataPacket>)
    requires IsPartition(src)
  {
    forall i :: 0 <= i < |ps| ==> FromSource(src, ps[i])
  }

  predicate Genuine(src: seq<byte>, c: Client)
    requires IsPartition(src)
  {
    && AllFromSource(src, c.inFlight) && AllFromSource(src, c.pending) && AllFromSource(src, c.acked)
    && (c.phase.Sending? ==> FromSource(src, c.phase.packet))
  }

  /** Every number read so far is in hand, in flight, pending or acknowledged, in one of them and
      once; and every packet kept is the chunk of its number. */
  ghost predicate Conserved(src: seq<byte>, c: Client)
    requires IsPartition(src)
  {
    && c.packetCount == c.read <= NumChunks(|src|)
    && |c.inFlight| + |c.pending| + |InHand(c)| + |c.acked| == c.packetCount
    && (forall k: nat :: Places(c, k) == if k < c.read then 1 else 0)
    && Genuine(src, c)
    && (c.phase.Stopped? ==> c.done || (c.inFlight == [] && c.pending == [] && c.read == NumChunks(|src|)))
  }

  datatype Event = DoFetch | DoSend | DoRespond(rsp: Packet) | DoEndTick

  /** Responses are only handled in the tick that follows a send. */
  predicate Possible(c: Client, e: Event) {
    match e
    case DoFetch => c.phase.Fetching?
    case DoSend => c.phase.Sending?
    case DoRespond(_) => c.phase.Ticking?
    case DoEndTick => c.phase.Ticking?
  }

  function Happen(src: seq<byte>, c: Client, e: Event): Client
    requires IsPartition(src) && Possible(c, e)
  {
    match e
    case DoFetch => Fetch(src, c)
    case DoSend => Send(c)
    case DoRespond(rsp) => Respond(c, rsp)
    case DoEndTick => EndTick(c)
  }

  /** Every step keeps the conservation law, whatever is received. */
  lemma StepConserves(src: seq<byte>, c: Client, e: Event)
    requires IsPartition(src) && Conserved(src, c) && Possible(c, e)
    ensures Conserved(src, Happen(src, c, e))
  {
    match e
    case DoFetch => FetchConserves(src, c);
    case DoSend => SendConserves(src, c);
    case DoRespond(rsp) => RespondConserves(src, c, rsp);
    case DoEndTick =>
      assert forall k: nat :: Places(EndTick(c), k) == Places(c, k);
  }

  lemma FetchConserves(src: seq<byte>, c: Client)
    requires IsPartition(src) && Conserved(src, c) && c.phase.Fetching?
    ensures Conserved(src, Fetch(src, c))
  {
    if c.read < NumChunks(|src|) {
      ChunkFields(src, c.read);
    }
    forall k: nat
      ensures Places(Fetch(src, c), k)
              == Places(c, k) + if Fetch(src, c).read == c.read + 1 && k == c.read then 1 else 0
    {
      var hand := InHand(Fetch(src, c));
      CountOne(hand, k);
    }
    assert forall k: nat :: Places(c, k) == if k < c.read then 1 else 0;
  }

  lemma CountOne(ps: seq<DataPacket>, k: nat)
    requires |ps| <= 1
    ensures Count(ps, k) == if |ps| == 1 && ps[0].seqNo == k then 1 else 0
  {
    assert |ps| == 1 ==> ps[1..] == [];
  }

  lemma SendConserves(src: seq<byte>, c: Client)
    requires IsPartition(src) && Conserved(src, c) && c.phase.Sending?
    ensures Conserved(src, Send(c))
  {
    forall k: nat
      ensures Places(Send(c), k) == Places(c, k)
    {
      CountAppend(c.inFlight, c.phase.packet, k);
      CountOne(InHand(c), k);
    }
  }

  lemma RespondConserves(src: seq<byte>, c: Client, rsp: Packet)
    requires IsPartition(src) && Conserved(src, c) && c.phase.Ticking?
    ensures Conserved(src, Respond(c, rsp))
  {
    forall k: nat
      ensures Places(Respond(c, rsp), k) == Places(c, k)
    {
      RespondKeepsPlaces(c, rsp, k);
    }
  }

  lemma RespondKeepsPlaces(c: Client, rsp: Packet, k: nat)
    ensures Places(Respond(c, rsp), k) == Places(c, k)
  {
    if rsp.Ctrl? {
      var i := FindPacket(c.inFlight, rsp.seqNo);
      if i < |c.inFlight| {
        CountWithout(c.inFlight, i, k);
        if rsp.flag == FLAG_ACK {
          CountAppend(c.acked, c.inFlight[i], k);
        } else {
          CountAppend(c.pending, c.inFlight[i], k);
        }
      }
    }
  }

  lemma {:induction false} CountAppend(ps: seq<DataPacket>, p: DataPacket, k: nat)
    ensures Count(ps + [p], k) == Count(ps, k) + if p.seqNo == k then 1 else 0
  {
    if ps == [] {
      assert ps + [p] == [p];
    } else {
      CountAppend(ps[1..], p, k);
      assert (ps + [p])[1..] == ps[1..] + [p];
    }
  }

  lemma {:induction false} CountWithout(ps: seq<DataPacket>, i: nat, k: nat)
    requires i < |ps|
    ensures Count(ps, k) == Count(Without(ps, i), k) + if ps[i].seqNo == k then 1 else 0
  {
    if i == 0 {
      assert Without(ps, i) == ps[1..];
    } else {
      CountWithout(ps[1..], i - 1, k);
      assert Without(ps, i)[1..] == Without(ps[1..], i - 1);
    }
  }

  // ---------------------------------------------------------------- what a response does

  /** All but the windows, what was acknowledged and `done` is as before. */
  predicate OnlyWindows(c: Client, d: Client) {
    d.read == c.read && d.packetCount == c.packetCount && d.phase == c.phase
  }

  /** In a window, and in the two together, a number is found at most once. */
  lemma AtMostOnce(src: seq<byte>, c: Client, k: nat)
    requires IsPartition(src) && Conserved(src, c)
    ensures Count(c.inFlight, k) + Count(c.pending, k) + Count(c.acked, k) <= 1
  {
    assert Places(c, k) <= 1;
  }

  /** An ACK of number k takes it out of the window for good, and does nothing else. */
  lemma AckDrops(src: seq<byte>, c: Client, k: u32)
    requires IsPartition(src) && Conserved(src, c) && c.phase.Ticking?
    ensures var d := Respond(c, Ctrl(k, FLAG_ACK));
            && Count(d.inFlight, k) == 0 && Count(d.acked, k) == Count(c.acked, k) + Count(c.inFlight, k)
            && (forall j: nat :: j != k ==>
                  Count(d.inFlight, j) == Count(c.inFlight, j) && Count(d.acked, j) == Count(c.acked, j))
            && d.pending == c.pending && d.done == c.done && OnlyWindows(c, d)
  {
    var i := FindPacket(c.inFlight, k);
    AtMostOnce(src, c, k);
    Counted(c.inFlight, k);
    if i < |c.inFlight| {
      forall j: nat
        ensures Count(c.inFlight, j) == Count(Without(c.inFlight, i), j) + if j == k then 1 else 0
        ensures Count(c.acked + [c.inFlight[i]], j) == Count(c.acked, j) + if j == k then 1 else 0
      {
        CountWithout(c.inFlight, i, j);
        CountAppend(c.acked, c.inFlight[i], j);
      }
    }
  }

  /** A NACK of number k moves it from the window to the pending packets, and does nothing else. */
  lemma NackRequeues(src: seq<byte>, c: Client, k: u32)
    requires IsPartition(src) && Conserved(src, c) && c.phase.Ticking?
    ensures var d := Respond(c, Ctrl(k, FLAG_NACK));
            && Count(d.inFlight, k) == 0 && Count(d.pending, k) == Count(c.pending, k) + Count(c.inFlight, k)
            && (forall j: nat :: j != k ==>
                  Count(d.inFlight, j) == Count(c.inFlight, j) && Count(d.pending, j) == Count(c.pending, j))
            && d.acked == c.acked && d.done == c.done && OnlyWindows(c, d)
  {
    var i := FindPacket(c.inFlight, k);
    AtMostOnce(src, c, k);
    Counted(c.inFlight, k);
    if i < |c.inFlight| {
      forall j: nat
        ensures Count(c.inFlight, j) == Count(Without(c.inFlight, i), j) + if j == k then 1 else 0
        ensures Count(c.pending + [c.inFlight[i]], j) == Count(c.pending, j) + if j == k then 1 else 0
      {
        CountWithout(c.inFlight, i, j);
        CountAppend(c.pending, c.inFlight[i], j);
      }
    }
  }

  /** Nothing else moves a packet, and only a FIN makes the client done. */
  lemma OthersMoveNothing(c: Client, rsp: Packet)
    requires rsp.Ctrl? ==> rsp.flag != FLAG_ACK && rsp.flag != FLAG_NACK
    ensures var d := Respond(c, rsp);
            && d.inFlight == c.inFlight && d.pending == c.pending && d.acked == c.acked && OnlyWindows(c, d)
            && (d.done <==> c.done || (rsp.Ctrl? && rsp.flag == FLAG_FIN))
  {
  }

  // ---------------------------------------------------------------- runs

  /** The client after these events from `c` on; None if some event could not happen. */
  function RunFrom(src: seq<byte>, c: Client, events: seq<Event>): Option<Client>
    requires IsPartition(src)
    decreases |events|
  {
    if events == [] then Some(c)
    else if Possible(c, events[0]) then RunFrom(src, Happen(src, c, events[0]), events[1..])
    else None
  }

  lemma {:induction false} RunFromJoined(src: seq<byte>, c: Client, first: seq<Event>, rest: seq<Event>)
    requires IsPartition(src)
    ensures RunFrom(src, c, first + rest)
            == match RunFrom(src, c, first)
               case None => None
               case Some(d) => RunFrom(src, d, rest)
    decreases |first|
  {
    if first == [] {
      assert first + rest == rest;
    } else {
      assert (first + rest)[0] == first[0] && (first + rest)[1..] == first[1..] + rest;
      if Possible(c, first[0]) {
        RunFromJoined(src, Happen(src, c, first[0]), first[1..], rest);
      }
    }
  }

  lemma {:induction false} RunFromStart(src: seq<byte>, events: seq<Event>)
    requires IsPartition(src)
    ensures RunFrom(src, START, events) == ClientRun(src, events)
  {
    if events != [] {
      var n := |events| - 1;
      RunFromStart(src, events[..n]);
      RunFromJoined(src, START, events[..n], [events[n]]);
      assert events == events[..n] + [events[n]];
    }
  }

  /** A run of the client from the start; None if some event could not happen. */
  function ClientRun(src: seq<byte>, events: seq<Event>): Option<Client>
    requires IsPartition(src)
  {
    if events == [] then Some(START)
    else
      match ClientRun(src, events[..|events| - 1])
      case None => None
      case Some(c) =>
        var e := events[|events| - 1];
        if Possible(c, e) then Some(Happen(src, c, e)) else None
  }

  lemma {:induction false} RunConserves(src: seq<byte>, events: seq<Event>)
    requires IsPartition(src) && ClientRun(src, events).Some?
    ensures Conserved(src, ClientRun(src, events).value)
  {
    if events != [] {
      var before := events[..|events| - 1];
      RunConserves(src, before);
      StepConserves(src, ClientRun(src, before).value, events[|events| - 1]);
    }
  }

  /** Over every run: each number below the read position is in exactly one place, once; numbers
      beyond it are nowhere; and the sizes add up to `packet_count`. */
  lemma EveryNumberInOnePlace(src: seq<byte>, events: seq<Event>)
    requires IsPartition(src) && ClientRun(src, events).Some?
    ensures var c := ClientRun(src, events).value;
            && (forall k: nat :: Count(c.inFlight, k) + Count(c.pending, k) + Count(InHand(c), k) + Count(c.acked, k)
                                 == if k < c.read then 1 else 0)
            && |c.inFlight| + |c.pending| + |InHand(c)| + |c.acked| == c.packetCount == c.read
  {
    RunConserves(src, events);
    var c := ClientRun(src, events).value;
    forall k: nat
      ensures Count(c.inFlight, k) + Count(c.pending, k) + Count(InHand(c), k) + Count(c.acked, k)
              == if k < c.read then 1 else 0
    {
      assert Places(c, k) == if k < c.read then 1 else 0;
    }
  }

  /** A number counted is the number of some packet there. */
  lemma {:induction false} Counted(ps: seq<DataPacket>, k: nat)
    ensures Count(ps, k) > 0 <==> exists i :: 0 <= i < |ps| && ps[i].seqNo == k
  {
    if ps != [] {
      Counted(ps[1..], k);
      if i :| 0 <= i < |ps| && ps[i].seqNo == k {
        assert i > 0 ==> ps[1..][i - 1].seqNo == k;
      }
    }
  }
}
