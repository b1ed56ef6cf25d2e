/** Everything the server says, in order, on every run: for each number popped the control packet for it
    and the NACKs that follow, and one FIN at the end (src/ucp_server.c:177-185). It is told by the plain
    set of the numbers popped, without the sequencer. */
module Transcript {
  import opened Basics
  import opened Ranges
  import opened SequencerRuns
  import opened Packets
  import opened Transfer
  import opened Safety
  import Srv = ServerSpec

  /** The numbers below `n` that these calls leave unrecorded, ascending. */
  ghost function GapsBelow(ops: seq<Op>, n: u32): seq<u32> {
    if n == 0 then []
    else if n - 1 in Recorded(ops) then GapsBelow(ops, n - 1)
    else GapsBelow(ops, n - 1) + [n - 1]
  }

  /** The greatest number added, or the one marked last if that was added later. */
  function Top(ops: seq<Op>): u32 {
    if ops == [] then 0
    else
      var before, op := Top(ops[..|ops| - 1]), ops[|ops| - 1];
      if op.AddOp? && (op.isLast || before < op.s) then op.s else before
  }

  function NacksFor(ms: seq<u32>): seq<seq<byte>> {
    if ms == [] then [] else NacksFor(ms[..|ms| - 1]) + [Image(Ctrl(ms[|ms| - 1], FLAG_NACK))]
  }

  /** The number last marked as last. */
  function Marked(ops: seq<Op>): u32 {
    if ops == [] then UINT32_MAX
    else
      var op := ops[|ops| - 1];
      if op.AddOp? && op.isLast then op.s else Marked(ops[..|ops| - 1])
  }

  /** The packet that answers for an item. */
  function Answered(item: Srv.Item): seq<byte> {
    Image(Ctrl(item.seqNo, item.flag))
  }

  /** What is said about these items: about each the packet for it, and then the NACKs. */
  ghost function Said(reading: Srv.Reading, items: seq<Srv.Item>): seq<seq<byte>> {
    if items == [] then []
    else
      var n, ops := |items| - 1, AddOps(reading, items);
      Said(reading, items[..n]) + [Answered(items[n])] + NacksFor(GapsBelow(ops, Top(ops)))
  }

  /** The control packets sent so far, by where the sequencing thread stands: while an item is being worked
      on, its packet or its NACKs are still to come. */
  ghost predicate ToldBy(reading: Srv.Reading, v: Srv.Server, ctrl: seq<seq<byte>>) {
    var n := |v.popped| - 1;
    match v.phase
    case Acking(_) => n >= 0 && ctrl == Said(reading, v.popped[..n])
    case Adding(_) => n >= 0 && ctrl == Said(reading, v.popped[..n]) + [Answered(v.popped[n])]
    case Nacking => n >= 0 && ctrl == Said(reading, v.popped[..n]) + [Answered(v.popped[n])]
    case Finished =>
      ctrl == Said(reading, v.popped) + [Image(Ctrl(Marked(AddOps(reading, v.popped)), FLAG_FIN))]
    case _ => ctrl == Said(reading, v.popped)
  }

  ghost predicate Told(cfg: Config, s: System) {
    ToldBy(cfg.reading, s.server, s.ctrl)
  }

  lemma {:induction false} CountersTold(ops: seq<Op>)
    ensures RunOps(ops).maxSeqNo == Top(ops) && RunOps(ops).expected == Marked(ops)
  {
    if ops != [] {
      CountersTold(ops[..|ops| - 1]);
    }
  }

  lemma {:induction false} MissingTold(rs: seq<Rng>, ops: seq<Op>, n: u32)
    requires forall x :: Covers(rs, x) <==> x in Recorded(ops)
    ensures MissingBelow(rs, n) == GapsBelow(ops, n)
  {
    if n > 0 {
      MissingTold(rs, ops, n - 1);
      assert Covers(rs, n - 1) <==> n - 1 in Recorded(ops);
    }
  }

  lemma {:induction false} NacksTold(ms: seq<u32>)
    ensures Images(Srv.Nacks(ms)) == NacksFor(ms)
  {
    if ms != [] {
      var before := ms[..|ms| - 1];
      NacksTold(before);
      assert Images(Srv.Nacks(ms)) == Images(Srv.Nacks(before)) + [Image(Ctrl(ms[|ms| - 1], FLAG_NACK))];
    }
  }

  /** The NACKs that go out after an item are those the plain set calls for. */
  lemma NackStepTold(cfg: Config, v: Srv.Server)
    requires SequencerOk(cfg, v) && v.phase.Nacking?
    ensures var ops := AddOps(cfg.reading, v.popped);
            Images(Srv.Nack(v).1) == NacksFor(GapsBelow(ops, Top(ops)))
  {
    var ops := AddOps(cfg.reading, v.popped);
    CountersTold(ops);
    MissingTold(v.seqr.ranges, ops, Top(ops));
    NacksTold(SeqMissing(v.seqr));
    SomethingRecorded(ops);
    if v.seqr.ranges == [] {
      NothingCovered(v.seqr, ops);
    }
  }

  lemma {:induction false} SomethingRecorded(ops: seq<Op>)
    requires ops != [] && ops[|ops| - 1].AddOp?
    ensures Recorded(ops) != {}
  {
    var before, s := Recorded(ops[..|ops| - 1]), ops[|ops| - 1].s;
    assert before == {} ==> s in Recorded(ops);
  }

  lemma NothingCovered(q: Seqr, ops: seq<Op>)
    requires StandsFor(q, ops) && q.ranges == []
    ensures Recorded(ops) == {}
  {
    forall y: int
      ensures y !in Recorded(ops)
    {
      assert Covers(q.ranges, y) <==> y in Recorded(ops);
    }
  }

  lemma PollingTold(cfg: Config, s: System)
    requires cfg.Valid() && Told(cfg, s) && Enabled(cfg, s, ServerPoll)
    ensures Told(cfg, Step(cfg, s, ServerPoll))
  {
    var v := Srv.Poll(s.server);
    assert v.popped == s.server.popped && (v.phase.Popping? || v.phase.Finishing?);
  }

  lemma RecordingTold(cfg: Config, s: System)
    requires cfg.Valid() && Told(cfg, s) && Enabled(cfg, s, ServerRecord)
    ensures Told(cfg, Step(cfg, s, ServerRecord))
  {
  }

  lemma AckingTold(cfg: Config, s: System)
    requires cfg.Valid() && SequencerOk(cfg, s.server) && Told(cfg, s) && Enabled(cfg, s, ServerAck)
    ensures Told(cfg, Step(cfg, s, ServerAck))
  {
  }

  lemma PoppingTold(cfg: Config, s: System)
    requires cfg.Valid() && Told(cfg, s) && Enabled(cfg, s, ServerPop)
    ensures Told(cfg, Step(cfg, s, ServerPop))
  {
    var v := s.server;
    if v.queue != [] {
      assert (v.popped + [v.queue[0]])[..|v.popped|] == v.popped;
    }
  }

  lemma FinishingTold(cfg: Config, s: System)
    requires cfg.Valid() && SequencerOk(cfg, s.server) && Told(cfg, s) && Enabled(cfg, s, ServerFinish)
    ensures Told(cfg, Step(cfg, s, ServerFinish))
  {
    CountersTold(AddOps(cfg.reading, s.server.popped));
  }

  lemma NackingTold(cfg: Config, s: System)
    requires cfg.Valid() && SequencerOk(cfg, s.server) && Told(cfg, s) && Enabled(cfg, s, ServerNack)
    ensures Told(cfg, Step(cfg, s, ServerNack))
  {
    NackStepTold(cfg, s.server);
  }

  /** The client and the receiving thread say nothing to the client. */
  lemma OthersSayNothing(cfg: Config, s: System, a: Action)
    requires cfg.Valid() && Told(cfg, s) && Enabled(cfg, s, a)
    requires a.ClientFetch? || a.ClientSend? || a.ClientRead? || a.ClientEndTick? || a.ServerReceive? || a.ServerPush?
    ensures Told(cfg, Step(cfg, s, a))
  {
    var after := Step(cfg, s, a);
    assert after.ctrl == s.ctrl;
    assert after.server.phase == s.server.phase && after.server.popped == s.server.popped;
  }

  lemma StepTold(cfg: Config, s: System, a: Action)
    requires cfg.Valid() && SequencerOk(cfg, s.server) && Told(cfg, s) && Enabled(cfg, s, a)
    ensures Told(cfg, Step(cfg, s, a))
  {
    match a
    case ServerNack => NackingTold(cfg, s);
    case ServerPoll => PollingTold(cfg, s);
    case ServerRecord => RecordingTold(cfg, s);
    case ServerAck => AckingTold(cfg, s);
    case ServerPop => PoppingTold(cfg, s);
    case ServerFinish => FinishingTold(cfg, s);
    case _ => OthersSayNothing(cfg, s, a);
  }

  /** On every run the control packets sent are these, in this order, and no others. */
  lemma {:induction false} RunTold(cfg: Config, actions: seq<Action>)
    requires cfg.Valid() && Exec(cfg, actions).Some?
    ensures Told(cfg, Exec(cfg, actions).value)
  {
    if actions != [] {
      var before := actions[..|actions| - 1];
      ExecInv(cfg, before);
      RunTold(cfg, before);
      StepTold(cfg, Exec(cfg, before).value, actions[|actions| - 1]);
    }
  }

  // ---------------------------------------------------------------- where the loop ends

  /** These items complete the set: it is exactly 0 to the number last marked. */
  ghost predicate Completes(reading: Srv.Reading, items: seq<Srv.Item>) {
    var ops := AddOps(reading, items);
    forall x :: x in Recorded(ops) <==> 0 <= x <= Marked(ops)
  }

  /** No item is taken from the queue once the set is complete, and the loop ends only then. */
  ghost predicate TakesNoMore(reading: Srv.Reading, v: Srv.Server) {
    && (forall n :: 0 <= n < |v.popped| ==> !Completes(reading, v.popped[..n]))
    && (v.phase.Popping? ==> !Completes(reading, v.popped))
    && (v.phase.Finishing? || v.phase.Finished? ==> Completes(reading, v.popped))
  }

  lemma PollDecides(cfg: Config, s: System)
    requires cfg.Valid() && Reachable(cfg, s) && s.server.phase.Polling?
    ensures Srv.Poll(s.server).phase.Finishing? <==> Completes(cfg.reading, s.server.popped)
  {
    var q, ops := s.server.seqr, AddOps(cfg.reading, s.server.popped);
    PollIsExact(cfg, s);
    ReachableInv(cfg, s);
    CountersTold(ops);
    if CoversExactlyUpTo(q.ranges, q.expected) {
      forall x
        ensures x in Recorded(ops) <==> 0 <= x <= Marked(ops)
      {
        assert Covers(q.ranges, x) <==> x in Recorded(ops);
      }
    }
  }

  lemma PopTakesOne(reading: Srv.Reading, v: Srv.Server)
    requires TakesNoMore(reading, v) && v.phase.Popping?
    ensures TakesNoMore(reading, Srv.Pop(v))
  {
    if v.queue != [] {
      var popped := v.popped + [v.queue[0]];
      forall n | 0 <= n < |popped|
        ensures !Completes(reading, popped[..n])
      {
        assert popped[..n] == if n < |v.popped| then v.popped[..n] else v.popped;
      }
    }
  }

  lemma StepTakesNoMore(cfg: Config, s: System, a: Action)
    requires cfg.Valid() && Reachable(cfg, s) && TakesNoMore(cfg.reading, s.server) && Enabled(cfg, s, a)
    ensures TakesNoMore(cfg.reading, Step(cfg, s, a).server)
  {
    match a
    case ServerPoll => PollDecides(cfg, s);
    case ServerPop => PopTakesOne(cfg.reading, s.server);
    case _ =>
  }

  lemma {:induction false} RunTakesNoMore(cfg: Config, actions: seq<Action>)
    requires cfg.Valid() && Exec(cfg, actions).Some?
    ensures TakesNoMore(cfg.reading, Exec(cfg, actions).value.server)
  {
    if actions != [] {
      var before := actions[..|actions| - 1];
      RunTakesNoMore(cfg, before);
      StepTakesNoMore(cfg, Exec(cfg, before).value, actions[|actions| - 1]);
    }
  }

  // ---------------------------------------------------------------- the sequencing thread on its own

  lemma Reach(cfg: Config, s: System, a: Action) returns (t: System)
    requires cfg.Valid() && Reachable(cfg, s) && Enabled(cfg, s, a)
    ensures t == Step(cfg, s, a) && Reachable(cfg, t)
  {
    t := Step(cfg, s, a);
    var actions :| Exec(cfg, actions) == Some(s);
    assert (actions + [a])[..|actions|] == actions;
    assert Exec(cfg, actions + [a]) == Some(t);
  }

  /** Only the sequencing thread has moved. */
  predicate SequencingThreadOnly(s: System, t: System) {
    && t.client == s.client && t.data == s.data
    && t.server.file == s.server.file && t.server.rcvPkt == s.server.rcvPkt && t.server.toPush == s.server.toPush
    && t.server.pushed == s.server.pushed && t.server.saved == s.server.saved
    && t.server.receiving == (s.server.receiving && !t.server.phase.Finished?)
    && (s.server.phase.Finished? ==> t.server.phase.Finished?)
  }

  /** The step the sequencing thread makes next, until its loop has ended. */
  function NextOfThread(v: Srv.Server): Action
    requires !v.phase.Finished?
  {
    match v.phase
    case Polling => ServerPoll
    case Popping => ServerPop
    case Acking(_) => ServerAck
    case Adding(_) => ServerRecord
    case Nacking => ServerNack
    case Finishing => ServerFinish
  }

  /** The queue is empty and the set is not complete: the thread goes round its loop with nothing to do. */
  predicate Waits(v: Srv.Server) {
    v.phase.Polling? && v.queue == [] && !Srv.Poll(v).phase.Finishing?
  }

  /** Falls with every step until the thread waits or has ended. */
  function ToDo(v: Srv.Server): nat {
    10 * |v.queue| + match v.phase
                     case Popping => if v.queue == [] then 6 else 4
                     case Acking(_) => 8
                     case Adding(_) => 7
                     case Nacking => 6
                     case Polling => 5
                     case Finishing => 1
                     case Finished => 0
  }

  lemma ThreadStep(cfg: Config, s: System) returns (t: System)
    requires cfg.Valid() && Reachable(cfg, s) && !s.server.phase.Finished? && !Waits(s.server)
    ensures Reachable(cfg, t) && SequencingThreadOnly(s, t) && ToDo(t.server) < ToDo(s.server)
  {
    t := Reach(cfg, s, NextOfThread(s.server));
  }

  lemma EndedMeansCancelled(cfg: Config, s: System)
    requires cfg.Valid() && Reachable(cfg, s) && s.server.phase.Finished?
    ensures !s.server.receiving
  {
    ReachableInv(cfg, s);
  }

  lemma {:induction false} ThreadRuns(cfg: Config, s: System) returns (t: System)
    requires cfg.Valid() && Reachable(cfg, s)
    ensures Reachable(cfg, t) && SequencingThreadOnly(s, t) && (t.server.phase.Finished? || Waits(t.server))
    decreases ToDo(s.server)
  {
    if s.server.phase.Finished? || Waits(s.server) {
      t := s;
      if s.server.phase.Finished? {
        EndedMeansCancelled(cfg, s);
      }
    } else {
      var next := ThreadStep(cfg, s);
      t := ThreadRuns(cfg, next);
    }
  }

  /** The loop ends at the `n`-th item: the first ones that complete the set, or all if none do. */
  ghost predicate EndsAfter(reading: Srv.Reading, items: seq<Srv.Item>, n: nat) {
    && n <= |items| && (forall j :: 0 <= j < n ==> !Completes(reading, items[..j]))
    && (n < |items| ==> Completes(reading, items[..n]))
  }

  /** What a thread that waits or has ended has taken from the queue, and what it has said. */
  lemma TakenAndSaid(cfg: Config, t: System)
    requires cfg.Valid() && Reachable(cfg, t) && (t.server.phase.Finished? || Waits(t.server))
    ensures TakesNoMore(cfg.reading, t.server) && Told(cfg, t) && t.server.pushed == t.server.popped + t.server.queue
    ensures Waits(t.server) ==> !Completes(cfg.reading, t.server.popped)
  {
    ReachableInv(cfg, t);
    var actions :| Exec(cfg, actions) == Some(t);
    RunTold(cfg, actions);
    RunTakesNoMore(cfg, actions);
    if Waits(t.server) {
      PollDecides(cfg, t);
    }
  }

  /** From every reachable state the sequencing thread, left to itself, works off the queue; and what the
      client has been sent then is told by the items pushed alone, however the threads took turns: the
      answers to the items up to the first that complete the set, and then the FIN; or the answers to all. */
  lemma EverythingAnswered(cfg: Config, s: System) returns (t: System, n: nat)
    requires cfg.Valid() && Reachable(cfg, s)
    ensures Reachable(cfg, t) && SequencingThreadOnly(s, t) && EndsAfter(cfg.reading, s.server.pushed, n)
    ensures var items := s.server.pushed[..n];
            t.ctrl == Said(cfg.reading, items)
                      + if Completes(cfg.reading, items)
                        then [Image(Ctrl(Marked(AddOps(cfg.reading, items)), FLAG_FIN))] else []
  {
    t := ThreadRuns(cfg, s);
    TakenAndSaid(cfg, t);
    n := |t.server.popped|;
    assert s.server.pushed[..n] == t.server.popped;
    assert forall j :: 0 <= j < n ==> s.server.pushed[..j] == t.server.popped[..j];
  }
}
