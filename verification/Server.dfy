/** One server of src/ucp_server.c on the heap: the locked queue, the file, the packet the receiving
    thread decodes into, and the sequencer. Each method is a stretch of one thread's loop that the
    other thread cannot disturb, and is tied to the step of the same name in ServerSpec. */
module ServerHeap {
  import opened Basics
  import opened LinkedLists
  import opened Ranges
  import opened SequencerRuns
  import opened SequencerHeap
  import opened Packets
  import opened FileIO
  import Srv = ServerSpec

  /** file_io_open_file_of_size, on a disk with room */
  method OpenFile(size: nat) returns (file: OutFile)
    ensures fresh(file) && file.bytes == Zeros(size)
  {
    file := new OutFile();
    var ok := file.FillWithZeros(size, size);
  }

  class Worker {
    const queue: LinkedList<Srv.Item>
    const sequencer: Sequencer
    const file: OutFile
    const rcvPkt: PacketCell

    /** Where the two threads stand, and history. */
    ghost var receiving: bool
    ghost var toPush: Option<Srv.Item>
    ghost var phase: Srv.SeqPhase
    ghost var pushed: seq<Srv.Item>
    ghost var popped: seq<Srv.Item>
    ghost var saved: set<nat>
    ghost var queueRepr: set<object>

    ghost predicate Valid()
      reads this, queue, queueRepr, sequencer, sequencer.Repr
    {
      && queue in queueRepr && queue.anchor in queueRepr
      && (forall i :: 0 <= i < |queue.ring| ==> queue.ring[i] in queueRepr)
      && queue.Valid()
      && sequencer.Valid()
      && queueRepr !! sequencer.Repr
      && this !in queueRepr && file !in queueRepr && rcvPkt !in queueRepr
      && this !in sequencer.Repr && file !in sequencer.Repr && rcvPkt !in sequencer.Repr
    }

    ghost function State(): Srv.Server
      reads this, queue, sequencer, file, rcvPkt
    {
      Srv.Server(file.bytes, rcvPkt.packet, receiving, toPush, queue.model, sequencer.State(), phase,
                 pushed, popped, saved)
    }

    /** The server once it has made its file of `size` zeros; the queue's counter holds whatever the
        memory held, since nothing ever clears it. */
    constructor (out: OutFile, ghost size: nat, stale: int)
      requires out.bytes == Zeros(size)
      ensures Valid() && State() == Srv.Opened(size) && file == out
    {
      file := out;
      rcvPkt := new PacketCell();
      queue := new LinkedList<Srv.Item>.Init(stale);
      sequencer := new Sequencer.Init();
      receiving, toPush, phase := true, None, Srv.Polling;
      pushed, popped, saved := [], [], {};
      new;
      queueRepr := {queue, queue.anchor};
    }

    /** sequencing_queue_push, under the lock; after a failed save the receiving thread returns. */
    method Push(seqNo: u32, flag: byte, isLast: bool)
      requires Valid() && toPush == Some(Srv.Item(seqNo, flag, isLast))
      modifies this, queueRepr
      ensures Valid() && State() == Srv.Push(old(State()))
    {
      var item := Srv.Item(seqNo, flag, isLast);
      Enqueue(item);
      pushed, toPush, receiving := pushed + [item], None, flag != FLAG_NACK;
    }

    /** Line 122 */
    method Enqueue(item: Srv.Item)
      requires Valid()
      modifies this`queueRepr, queueRepr
      ensures Valid() && queue.model == old(queue.model) + [item]
    {
      queue.Append(item);
      queueRepr := queueRepr + {queue.ring[|queue.model|]};
    }

    /** sequencing_queue_pop, under the lock */
    method Pop() returns (item: Option<Srv.Item>)
      requires Valid()
      modifies this, queueRepr
      ensures Valid() && State() == Srv.Pop(old(State()))
      ensures item == if old(queue.model) == [] then None else Some(old(queue.model)[0])
    {
      var elem := queue.First();
      if elem == null {
        phase := Srv.Polling;
        return None;
      }
      item := queue.ObjOf(elem);
      queue.Unlink(elem, 0);
      assert queue.model == old(queue.model)[1..];
      popped, phase := popped + [item.value], Srv.Acking(item.value);
    }

    /** The body of receiving_thread's loop up to the push, lines 150-158: what is to be queued, if
        anything. A buffer of unknown type leaves the packet of the round before in place. `overrun` says
        that the decoder wrote past the packet; then nothing is known of what is saved and queued. */
    method Receive(buf: array<byte>, fault: Fault) returns (item: Option<Srv.Item>, ghost overrun: bool)
      requires Valid() && buf.Length == UDP_PACKET_SIZE && toPush == None
      modifies this`saved, this`toPush, file, rcvPkt
      ensures Valid() && item == toPush
      ensures overrun <==> !Readable(old(buf[..]))
      ensures !overrun ==> old(Readable(buf[..])) && State() == old(Srv.Receive(State(), buf[..], fault))
    {
      assert buf[..buf.Length] == buf[..];
      overrun := rcvPkt.Decode(buf, buf.Length);
      if !rcvPkt.packet.Data? {
        return None, overrun;
      }
      item := Save(fault);
    }

    /** Lines 153-158 */
    method Save(fault: Fault) returns (item: Option<Srv.Item>)
      requires Valid() && rcvPkt.packet.Data?
      modifies this`saved, this`toPush, file
      ensures Valid() && State() == Srv.Save(old(State()), fault)
      ensures item == toPush
    {
      var pkt := rcvPkt.packet;
      var ok := file.SavePacket(pkt, fault);
      if !ok {
        item := Some(Srv.Item(pkt.seqNo, FLAG_NACK, false));
      } else {
        item := Some(Srv.Item(pkt.seqNo, FLAG_ACK, pkt.flag == DATA_END));
        saved := saved + {pkt.seqNo};
      }
      toPush := item;
    }

    /** sequencer_complete as the loop condition of sequencing_thread, line 177 */
    method Poll() returns (done: bool)
      requires Valid()
      modifies this, sequencer.Repr
      ensures Valid() && State() == Srv.Poll(old(State()))
      ensures done <==> phase.Finishing?
    {
      done := sequencer.Complete();
      phase := if done then Srv.Finishing else Srv.Popping;
    }

    /** Line 179: the bytes of the control packet */
    method SendCtrl(item: Srv.Item) returns (segment: seq<byte>)
      requires Valid() && phase == Srv.Acking(item)
      modifies this
      ensures Valid() && State() == Srv.Ack(old(State())).0 && segment == Image(Srv.Ack(old(State())).1)
    {
      segment := CtrlSegment(item.seqNo, item.flag);
      phase := Srv.Adding(item);
    }

    /** Line 180 */
    method Record(item: Srv.Item, reading: Srv.Reading)
      requires Valid() && phase == Srv.Adding(item)
      modifies this, sequencer.Repr
      ensures Valid() && State() == Srv.Record(old(State()), reading)
    {
      var grew := sequencer.Add(item.seqNo, Srv.IsLastArgument(reading, item));
      phase := Srv.Nacking;
    }

    /** Line 181: one NACK for each missing number, ascending. `numbers` are the numbers asked for. */
    method SendNacks() returns (segments: seq<seq<byte>>, ghost numbers: seq<u32>)
      requires Valid()
      modifies this
      ensures Valid() && State() == Srv.Nack(old(State())).0
      ensures segments == Images(old(Srv.Nack(State()).1))
      ensures |segments| == |numbers| && Ascending(numbers)
      ensures forall i :: 0 <= i < |segments| ==> segments[i] == Image(Ctrl(numbers[i], FLAG_NACK))
      ensures var q := old(sequencer.State());
              forall x: u32 :: x in numbers <==> q.ranges != [] && x < q.maxSeqNo && !Covers(q.ranges, x)
    {
      var missing := sequencer.IterateMissing();
      numbers := missing;
      segments := NackSegments(missing);
      phase := Srv.Polling;
    }

    static method NackSegments(missing: seq<u32>) returns (segments: seq<seq<byte>>)
      ensures segments == Images(Srv.Nacks(missing))
    {
      segments := [];
      for i := 0 to |missing|
        invariant |segments| == i
        invariant forall j :: 0 <= j < i ==> segments[j] == Image(Ctrl(missing[j], FLAG_NACK))
      {
        var segment := CtrlSegment(missing[i], FLAG_NACK);
        segments := segments + [segment];
      }
    }

    /** Lines 185-188 */
    method Finish() returns (segment: seq<byte>)
      requires Valid()
      modifies this, sequencer.Repr
      ensures State() == Srv.Finish(old(State())).0.(seqr := State().seqr)
      ensures segment == Image(Srv.Finish(old(State())).1)
      ensures sequencer.live == {} && sequencer.list.live == {}
    {
      segment := CtrlSegment(sequencer.expectedLastSeqNo, FLAG_FIN);
      phase, receiving := Srv.Finished, false;
      sequencer.Destroy();
    }

    /** send_ctrl_packet, lines 31-42: encoded in a buffer of ten bytes, of which six are sent */
    static method CtrlSegment(seqNo: u32, flag: byte) returns (segment: seq<byte>)
      ensures segment == Image(Ctrl(seqNo, flag))
    {
      var buf := new byte[10];
      var len := Encode(Ctrl(seqNo, flag), buf, buf.Length);
      segment := buf[..len];
    }
  }

  /** Lines 221-259: the file is made before the threads start. */
  method Open(size: nat, stale: int) returns (worker: Worker)
    ensures worker.Valid() && worker.State() == Srv.Opened(size)
  {
    var out := OpenFile(size);
    worker := new Worker(out, size, stale);
  }
}
