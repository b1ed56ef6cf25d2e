/** The receiving side as a value (src/ucp_server.c): a receiving thread that saves datagrams and
    queues their numbers, and a sequencing thread that acknowledges them and watches for completion.
    Each function is one step that the other thread cannot interrupt. */
module ServerSpec {
  import opened Basics
  import opened SequencerRuns
  import opened Packets
  import opened FileIO

  /** sequencing_queue_item_t */
  datatype Item = Item(seqNo: u32, flag: byte, isLast: bool)

  /** Where the sequencing thread's loop stands. */
  datatype SeqPhase = Polling | Popping | Acking(item: Item) | Adding(item: Item) | Nacking | Finishing | Finished

  /** `pushed`, `popped` and `saved` are history: what went through the queue, and the numbers whose
      save was successful. */
  datatype Server = Server(
    file: seq<byte>,
    rcvPkt: Packet,
    receiving: bool,
    toPush: Option<Item>,
    queue: seq<Item>,
    seqr: Seqr,
    phase: SeqPhase,
    pushed: seq<Item>,
    popped: seq<Item>,
    saved: set<nat>)

  /** The server once file_io_open_file_of_size has made the file. */
  function Opened(size: nat): Server {
    Server(Zeros(size), Blank, true, None, [], EMPTY, Polling, [], [], {})
  }

  /** What src/ucp_server.c:180 passes as `isLast`. As written it compares the control flag with a
      data flag; read as intended it is the `is_last` that was just popped. */
  datatype Reading = AsWritten | Intended

  function IsLastArgument(reading: Reading, item: Item): bool {
    match reading
    case AsWritten => item.flag == DATA_END
    case Intended => item.isLast
  }

  // ---------------------------------------------------------------- receiving_thread

  /** Lines 153-158: save the packet, and choose what to queue. */
  function Save(s: Server, fault: Fault): Server
    requires s.rcvPkt.Data?
  {
    var pkt := s.rcvPkt;
    var (file, ok) := Saved(s.file, pkt, fault);
    if ok then
      s.(file := file, saved := s.saved + {pkt.seqNo},
         toPush := Some(Item(pkt.seqNo, FLAG_ACK, pkt.flag == DATA_END)))
    else
      s.(file := file, toPush := Some(Item(pkt.seqNo, FLAG_NACK, false)))
  }

  /** Lines 149-158 up to the push: decode into the packet kept from before, and save. */
  function Receive(s: Server, buf: seq<byte>, fault: Fault): Server
    requires Readable(buf)
  {
    var decoded := s.(rcvPkt := Decoded(buf, s.rcvPkt));
    if decoded.rcvPkt.Data? then Save(decoded, fault) else decoded
  }

  /** A datagram of unknown type makes the thread save the last data packet, and queue its number, again;
      after a metadata or control packet nothing is saved. */
  lemma UnknownTypeRepeats(s: Server, buf: seq<byte>, fault: Fault)
    requires !Announces(buf)
    ensures var after := Receive(s, buf, fault);
            && after.rcvPkt == s.rcvPkt
            && (!s.rcvPkt.Data? ==> after == s)
            && (s.rcvPkt.Data? && fault.NoFault? ==>
                  && after.toPush == Some(Item(s.rcvPkt.seqNo, FLAG_ACK, s.rcvPkt.flag == DATA_END))
                  && after.file == Saved(s.file, s.rcvPkt, fault).0 && after.saved == s.saved + {s.rcvPkt.seqNo})
  {
    DecodedEncodes(buf, s.rcvPkt);
  }

  /** sequencing_queue_push, and the end of the thread after a failed save */
  function Push(s: Server): Server
    requires s.toPush.Some?
  {
    var item := s.toPush.value;
    s.(toPush := None, queue := s.queue + [item], pushed := s.pushed + [item],
       receiving := item.flag != FLAG_NACK)
  }

  // ---------------------------------------------------------------- sequencing_thread

  function Poll(s: Server): Server {
    var (seqr, done) := SeqComplete(s.seqr);
    s.(seqr := seqr, phase := if done then Finishing else Popping)
  }

  /** sequencing_queue_pop */
  function Pop(s: Server): Server {
    if s.queue == [] then s.(phase := Polling)
    else s.(queue := s.queue[1..], popped := s.popped + [s.queue[0]], phase := Acking(s.queue[0]))
  }

  /** Line 179: the control packet for the number popped */
  function Ack(s: Server): (Server, Packet)
    requires s.phase.Acking?
  {
    (s.(phase := Adding(s.phase.item)), Ctrl(s.phase.item.seqNo, s.phase.item.flag))
  }

  /** Line 180 */
  function Record(s: Server, reading: Reading): Server
    requires s.phase.Adding?
  {
    var item := s.phase.item;
    s.(seqr := SeqAdd(s.seqr, item.seqNo, IsLastArgument(reading, item)).0, phase := Nacking)
  }

  function Nacks(missing: seq<u32>): (ps: seq<Packet>)
    ensures |ps| == |missing| && forall i :: 0 <= i < |ps| ==> ps[i] == Ctrl(missing[i], FLAG_NACK)
  {
    seq(|missing|, i requires 0 <= i < |missing| => Ctrl(missing[i], FLAG_NACK))
  }

  /** Line 181: a NACK for every missing number, in the order of the callbacks */
  function Nack(s: Server): (Server, seq<Packet>) {
    (s.(phase := Polling), Nacks(SeqMissing(s.seqr)))
  }

  /** Lines 185-187: the FIN, and the end of the receiving thread */
  function Finish(s: Server): (Server, Packet) {
    (s.(phase := Finished, receiving := false), Ctrl(s.seqr.expected, FLAG_FIN))
  }
}
