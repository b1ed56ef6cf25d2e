/** The sequencer as a value, and what holds after any series of calls (src/sequencer.c). */
module SequencerRuns {
  import opened Basics
  import opened Ranges
  import opened Polling

  /** `expected` is UINT32_MAX until a number marked last has been added. */
  datatype Seqr = Seqr(ranges: seq<Rng>, maxSeqNo: u32, expected: u32)

  const EMPTY := Seqr([], 0, UINT32_MAX)

  /** sequencer_add: the new state and the value returned */
  function SeqAdd(q: Seqr, s: u32, isLast: bool): (Seqr, bool) {
    var maxSeqNo := if isLast || q.maxSeqNo < s then s else q.maxSeqNo;
    var expected := if isLast then s else q.expected;
    (Seqr(Add(q.ranges, s).0, maxSeqNo, expected), Add(q.ranges, s).1)
  }

  /** sequencer_complete: the new state and the value returned */
  function SeqComplete(q: Seqr): (Seqr, bool) {
    var rs := MergePass(q.ranges);
    (q.(ranges := rs), |rs| == 1 && rs[0].first == 0 && rs[0].last == q.expected)
  }

  /** The numbers below `n` that are not in the set, ascending. */
  function MissingBelow(rs: seq<Rng>, n: u32): (ms: seq<u32>) {
    if n == 0 then []
    else if Covers(rs, n - 1) then MissingBelow(rs, n - 1)
    else MissingBelow(rs, n - 1) + [n - 1]
  }

  /** sequencer_iterate_missing_segments: the calls it makes; none on an empty list */
  function SeqMissing(q: Seqr): seq<u32> {
    if q.ranges == [] then [] else MissingBelow(q.ranges, q.maxSeqNo)
  }

  predicate Ascending(ms: seq<u32>) {
    forall i, j :: 0 <= i < j < |ms| ==> ms[i] < ms[j]
  }

  lemma {:induction false} MissingExact(rs: seq<Rng>, n: u32)
    ensures forall x: u32 :: x in MissingBelow(rs, n) <==> x < n && !Covers(rs, x)
    ensures Ascending(MissingBelow(rs, n))
  {
    if n > 0 {
      MissingExact(rs, n - 1);
      var ms := MissingBelow(rs, n - 1);
      assert forall i :: 0 <= i < |ms| ==> ms[i] in ms;
    }
  }

  /** The calls are strictly ascending, so no number twice, and are exactly the numbers below `maxSeqNo`
      that are not in the set; none if the set is empty. */
  lemma SeqMissingExact(q: Seqr)
    ensures Ascending(SeqMissing(q))
    ensures forall x: u32 :: x in SeqMissing(q) <==> q.ranges != [] && x < q.maxSeqNo && !Covers(q.ranges, x)
  {
    MissingExact(q.ranges, q.maxSeqNo);
  }

  lemma {:induction false} NoneMissing(rs: seq<Rng>, n: u32)
    requires forall x :: 0 <= x < n ==> Covers(rs, x)
    ensures MissingBelow(rs, n) == []
  {
    if n > 0 {
      NoneMissing(rs, n - 1);
    }
  }

  // ---------------------------------------------------------------- series of calls

  datatype Op = AddOp(s: u32, isLast: bool) | Poll

  function ApplyOp(q: Seqr, op: Op): Seqr {
    match op
    case AddOp(s, isLast) => SeqAdd(q, s, isLast).0
    case Poll => SeqComplete(q).0
  }

  /** The value the call returns. */
  function Answer(q: Seqr, op: Op): bool {
    match op
    case AddOp(s, isLast) => SeqAdd(q, s, isLast).1
    case Poll => SeqComplete(q).1
  }

  function RunOps(ops: seq<Op>): Seqr {
    if ops == [] then EMPTY else ApplyOp(RunOps(ops[..|ops| - 1]), ops[|ops| - 1])
  }

  /** The values a series of calls returns. */
  function Answers(ops: seq<Op>): seq<bool> {
    if ops == [] then []
    else
      var before := ops[..|ops| - 1];
      Answers(before) + [Answer(RunOps(before), ops[|ops| - 1])]
  }

  lemma OneMoreCall(script: seq<Op>, i: nat)
    requires i < |script|
    ensures RunOps(script[..i + 1]) == ApplyOp(RunOps(script[..i]), script[i])
    ensures Answers(script[..i + 1]) == Answers(script[..i]) + [Answer(RunOps(script[..i]), script[i])]
  {
    assert script[..i + 1][..i] == script[..i];
  }

  /** What call `i` should return: an add TRUE iff the plain set grows with it, a poll TRUE iff the set is
      {0..expected} and in at most two ranges. */
  ghost predicate RightAnswer(ops: seq<Op>, i: nat, answer: bool)
    requires i < |ops|
  {
    var q := RunOps(ops[..i]);
    answer <==> if ops[i].AddOp? then Recorded(ops[..i + 1]) != Recorded(ops[..i])
                else CoversExactlyUpTo(q.ranges, q.expected) && |q.ranges| <= 2
  }

  lemma {:induction false} AnswersLength(ops: seq<Op>)
    ensures |Answers(ops)| == |ops|
  {
    if ops != [] {
      AnswersLength(ops[..|ops| - 1]);
    }
  }

  /** Every call of a series returns what it should. */
  lemma {:induction false} AnswersExact(ops: seq<Op>, i: nat)
    requires BelowSentinel(ops) && i < |ops|
    ensures |Answers(ops)| == |ops| && RightAnswer(ops, i, Answers(ops)[i])
  {
    var n := |ops| - 1;
    var before := ops[..n];
    AnswersLength(before);
    assert ops == before + [ops[n]];
    if i < n {
      AnswersExact(before, i);
      EarlierAnswer(before, ops[n], i, Answers(before)[i]);
    } else {
      LastAnswer(before, ops[n]);
    }
  }

  lemma {:induction false} EarlierAnswer(before: seq<Op>, op: Op, i: nat, answer: bool)
    requires i < |before| && RightAnswer(before, i, answer)
    ensures RightAnswer(before + [op], i, answer)
  {
    var ops := before + [op];
    assert before[..i] == ops[..i] && before[..i + 1] == ops[..i + 1];
  }

  lemma {:induction false} LastAnswer(before: seq<Op>, op: Op)
    requires BelowSentinel(before + [op])
    ensures RightAnswer(before + [op], |before|, Answer(RunOps(before), op))
  {
    var q, ops := RunOps(before), before + [op];
    assert forall k :: 0 <= k < |before| ==> ops[k] == before[k];
    assert ops[|before|] == op && ops[..|before|] == before && ops[..|before| + 1] == ops;
    IndexRefinesSet(before);
    if op.Poll? {
      CompleteIff(q);
    } else {
      NothingWraps(q.ranges, op.s);
      AddExact(q.ranges, op.s);
      PlaceableIsSomeBelow(q.ranges, Recorded(before), op.s);
      assert Covers(q.ranges, op.s) <==> op.s in Recorded(before);
    }
  }

  /** The callers' numbers are chunk numbers, which stay below the sentinel. */
  predicate BelowSentinel(ops: seq<Op>) {
    forall i :: 0 <= i < |ops| && ops[i].AddOp? ==> ops[i].s < UINT32_MAX
  }

  /** A plain set with the rule the list follows: a number too far below the least is not taken. */
  ghost function Recorded(ops: seq<Op>): set<int> {
    if ops == [] then {}
    else
      var old_, op := Recorded(ops[..|ops| - 1]), ops[|ops| - 1];
      if op.AddOp? && (old_ == {} || exists y :: y in old_ && y <= op.s + 1) then old_ + {op.s} else old_
  }

  /** The index refines the plain set, over every series of calls. */
  lemma {:induction false} IndexRefinesSet(ops: seq<Op>)
    requires BelowSentinel(ops)
    ensures Sorted(RunOps(ops).ranges) && !Covers(RunOps(ops).ranges, UINT32_MAX)
    ensures forall x :: Covers(RunOps(ops).ranges, x) <==> x in Recorded(ops)
  {
    if ops != [] {
      var before, op := ops[..|ops| - 1], ops[|ops| - 1];
      IndexRefinesSet(before);
      var rs := RunOps(before).ranges;
      if op.Poll? {
        PassKeepsSet(rs);
      } else {
        NothingWraps(rs, op.s);
        AddExact(rs, op.s);
        PlaceableIsSomeBelow(rs, Recorded(before), op.s);
      }
    }
  }

  lemma NothingWraps(rs: seq<Rng>, s: u32)
    requires Sorted(rs) && s < UINT32_MAX && !Covers(rs, UINT32_MAX)
    ensures !Wraps(rs, s)
  {
    if rs != [] {
      var k := |rs| - 1;
      assert rs[k].first <= rs[k].last;
      assert !(rs[k].first <= UINT32_MAX <= rs[k].last);
    }
  }

  lemma PlaceableIsSomeBelow(rs: seq<Rng>, members: set<int>, s: u32)
    requires Sorted(rs) && forall x :: Covers(rs, x) <==> x in members
    ensures Placeable(rs, s) <==> members == {} || exists y :: y in members && y <= s + 1
  {
    HeadCovered(rs);
    if rs == [] {
      forall y: int
        ensures y !in members
      {
        assert Covers(rs, y) <==> y in members;
      }
      assert members == {};
    } else {
      assert rs[0].first in members;
      forall y | y in members
        ensures y >= rs[0].first
      {
        assert Covers(rs, y);
        var k :| 0 <= k < |rs| && rs[k].first <= y <= rs[k].last;
        RangesAscend(rs, 0, k);
      }
    }
  }

  // ---------------------------------------------------------------- completion

  ghost predicate CoversExactlyUpTo(rs: seq<Rng>, n: int) {
    forall x :: Covers(rs, x) <==> 0 <= x <= n
  }

  /** For any caller: one poll reports completion exactly when the set is {0..expected} and the list
      has at most two ranges; three adjacent ranges need another poll. */
  lemma CompleteIff(q: Seqr)
    requires Sorted(q.ranges)
    ensures SeqComplete(q).1 <==> CoversExactlyUpTo(q.ranges, q.expected) && |q.ranges| <= 2
  {
    var rs, out := q.ranges, MergePass(q.ranges);
    PassKeepsSet(rs);
    if SeqComplete(q).1 {
      assert forall x :: Covers(out, x) <==> out[0].first <= x <= out[0].last;
      PassAtMostHalves(rs);
    }
    if CoversExactlyUpTo(rs, q.expected) && |rs| <= 2 {
      UpToMeansOneRun(rs, q.expected);
      if |rs| == 2 {
        assert Inc(rs[0].last) == rs[0 + 1].first;
        assert out == [Rng(0, q.expected)];
      }
    }
  }

  lemma {:induction false} PassAtMostHalves(rs: seq<Rng>)
    ensures |rs| <= 2 * |MergePass(rs)|
  {
    if |rs| >= 2 {
      PassAtMostHalves(rs[2..]);
      PassAtMostHalves(rs[1..]);
    }
  }

  lemma UpToMeansOneRun(rs: seq<Rng>, n: u32)
    requires Sorted(rs) && CoversExactlyUpTo(rs, n)
    ensures rs != [] && rs[0].first == 0 && rs[|rs| - 1].last == n
    ensures forall i :: 0 <= i < |rs| - 1 ==> Inc(rs[i].last) == rs[i + 1].first
  {
    assert Covers(rs, 0) && Covers(rs, n);
    HeadCovered(rs);
    var t := |rs| - 1;
    var h :| 0 <= h < |rs| && rs[h].first <= 0 <= rs[h].last;
    RangesAscend(rs, 0, h);
    assert rs[t].first <= rs[t].last <= rs[t].last;
    assert Covers(rs, rs[t].last);
    var m :| 0 <= m < |rs| && rs[m].first <= n <= rs[m].last;
    RangesAscend(rs, m, t);
    forall i | 0 <= i < |rs| - 1
      ensures Inc(rs[i].last) == rs[i + 1].first
    {
      var x := rs[i].last + 1;
      forall k | 0 <= k < |rs|
        ensures if k <= i then rs[k].last < x else rs[i + 1].first <= rs[k].first
      {
        RangesAscend(rs, if k <= i then k else i + 1, if k <= i then i else k);
      }
      RangesAscend(rs, i + 1, t);
      assert rs[i].last < rs[i + 1].first;
      assert Covers(rs, x);
    }
  }

  lemma RangesAscend(rs: seq<Rng>, i: nat, j: nat)
    requires Sorted(rs) && i <= j < |rs|
    ensures rs[i].first <= rs[j].first && rs[i].last <= rs[j].last
  {
    if i < j {
      assert rs[i].last < rs[j].first;
    }
  }

  /** Soundness for any caller: TRUE means the set is exactly {0..expected}, and that number was
      passed with `isLast` in an earlier call. */
  lemma CompletionSound(ops: seq<Op>)
    requires BelowSentinel(ops) && SeqComplete(RunOps(ops)).1
    ensures CoversExactlyUpTo(RunOps(ops).ranges, RunOps(ops).expected)
    ensures AddOp(RunOps(ops).expected, true) in ops
  {
    IndexRefinesSet(ops);
    CompleteIff(RunOps(ops));
    assert Covers(RunOps(ops).ranges, RunOps(ops).expected);
    ExpectedWasAdded(ops);
  }

  lemma {:induction false} ExpectedWasAdded(ops: seq<Op>)
    requires BelowSentinel(ops)
    ensures RunOps(ops).expected == UINT32_MAX || AddOp(RunOps(ops).expected, true) in ops
  {
    if ops != [] {
      ExpectedWasAdded(ops[..|ops| - 1]);
    }
  }

  /** Before any number has been marked last, completion is never reported. */
  lemma NeverBeforeLast(ops: seq<Op>)
    requires BelowSentinel(ops) && forall op :: op in ops && op.AddOp? ==> !op.isLast
    ensures !SeqComplete(RunOps(ops)).1
  {
    if SeqComplete(RunOps(ops)).1 {
      CompletionSound(ops);
    }
  }

  /** Polls that skip the merging have a price: with all of {0..4} recorded and 4 marked last, the
      first poll after these five adds still says no. */
  lemma OnePollIsNotAlwaysEnough()
    ensures var q2 := ApplyOp(ApplyOp(EMPTY, AddOp(0, false)), AddOp(4, true));
            var q := ApplyOp(ApplyOp(ApplyOp(q2, AddOp(3, false)), AddOp(2, false)), AddOp(1, false));
            CoversExactlyUpTo(q.ranges, q.expected) && !SeqComplete(q).1 && SeqComplete(SeqComplete(q).0).1
  {
    var q2 := ApplyOp(ApplyOp(EMPTY, AddOp(0, false)), AddOp(4, true));
    assert q2 == Seqr([Rng(0, 0), Rng(4, 4)], 4, 4);
    var q3 := ApplyOp(q2, AddOp(3, false));
    assert q3 == Seqr([Rng(0, 0), Rng(3, 3), Rng(4, 4)], 4, 4);
    TwoMoreAdds(q3);
    PassesOnThree(ApplyOp(ApplyOp(q3, AddOp(2, false)), AddOp(1, false)));
  }

  lemma TwoMoreAdds(q: Seqr)
    requires q == Seqr([Rng(0, 0), Rng(3, 3), Rng(4, 4)], 4, 4)
    ensures ApplyOp(ApplyOp(q, AddOp(2, false)), AddOp(1, false)) == Seqr([Rng(0, 2), Rng(3, 3), Rng(4, 4)], 4, 4)
  {
    assert ApplyOp(q, AddOp(2, false)) == Seqr([Rng(0, 0), Rng(2, 2), Rng(3, 3), Rng(4, 4)], 4, 4);
  }

  lemma PassesOnThree(q: Seqr)
    requires q.ranges == [Rng(0, 2), Rng(3, 3), Rng(4, 4)] && q.expected == 4
    ensures CoversExactlyUpTo(q.ranges, 4) && !SeqComplete(q).1 && SeqComplete(SeqComplete(q).0).1
  {
    assert MergePass(q.ranges) == [Rng(0, 3)] + MergePass([Rng(4, 4)]);
    var once := SeqComplete(q).0;
    assert once.ranges == [Rng(0, 3), Rng(4, 4)];
    assert MergePass(once.ranges) == [Rng(0, 4)];
    forall x
      ensures Covers(q.ranges, x) <==> 0 <= x <= 4
    {
      if 0 <= x <= 4 {
        var k := if x <= 2 then 0 else x - 2;
        assert q.ranges[k].first <= x <= q.ranges[k].last;
      }
    }
  }

  // ---------------------------------------------------------------- the server's loop

  /** The calls of the sequencing thread: poll, add, poll, add, ... */
  function Alternate(adds: seq<(u32, bool)>): seq<Op> {
    if adds == [] then []
    else
      var last := adds[|adds| - 1];
      Alternate(adds[..|adds| - 1]) + [Poll, AddOp(last.0, last.1)]
  }

  predicate AddsBelowSentinel(adds: seq<(u32, bool)>) {
    forall i :: 0 <= i < |adds| ==> adds[i].0 < UINT32_MAX
  }

  /** In the server's loop each add starts from fully merged ranges and leaves at most one adjacent
      pair; the next poll mends it, so a poll reports completion exactly when the set is
      {0..expected}. */
  lemma {:induction false} ServerLoopCanonical(adds: seq<(u32, bool)>)
    requires AddsBelowSentinel(adds)
    ensures var q := RunOps(Alternate(adds));
            && BelowSentinel(Alternate(adds))
            && Sorted(q.ranges) && AtMostOneJoint(q.ranges)
            && Canonical(SeqComplete(q).0.ranges)
            && (SeqComplete(q).1 <==> CoversExactlyUpTo(q.ranges, q.expected))
  {
    var q := RunOps(Alternate(adds));
    if adds != [] {
      var before, add := adds[..|adds| - 1], adds[|adds| - 1];
      ServerLoopCanonical(before);
      RunOfTwoMore(Alternate(before), Poll, AddOp(add.0, add.1));
      var polled := Alternate(before) + [Poll];
      RunOfOneMore(Alternate(before), Poll);
      IndexRefinesSet(polled);
      NothingWraps(RunOps(polled).ranges, add.0);
      AddLeavesOneJoint(RunOps(polled).ranges, add.0);
    }
    IndexRefinesSet(Alternate(adds));
    OnePassMendsOneJoint(q.ranges);
    CompleteIff(q);
    if CoversExactlyUpTo(q.ranges, q.expected) && |q.ranges| > 2 {
      UpToMeansOneRun(q.ranges, q.expected);
      assert Joint(q.ranges, 0) && Joint(q.ranges, 1);
    }
  }

  lemma RunOfOneMore(ops: seq<Op>, a: Op)
    ensures RunOps(ops + [a]) == ApplyOp(RunOps(ops), a)
  {
    assert (ops + [a])[..|ops|] == ops;
  }

  lemma RunOfTwoMore(ops: seq<Op>, a: Op, b: Op)
    ensures RunOps(ops + [a, b]) == ApplyOp(ApplyOp(RunOps(ops), a), b)
  {
    assert ops + [a, b] == (ops + [a]) + [b];
    RunOfOneMore(ops, a);
    RunOfOneMore(ops + [a], b);
  }

  // ---------------------------------------------------------------- the greatest number

  /** No number exceeds one that was marked last. */
  predicate LastIsGreatest(ops: seq<Op>) {
    forall i, j :: 0 <= i < |ops| && 0 <= j < |ops| && ops[i].AddOp? && ops[j].AddOp? && ops[j].isLast
      ==> ops[i].s <= ops[j].s
  }

  lemma {:induction false} RecordedWasAdded(ops: seq<Op>, x: int)
    requires x in Recorded(ops)
    ensures exists i :: 0 <= i < |ops| && ops[i].AddOp? && ops[i].s == x
  {
    var before, op := ops[..|ops| - 1], ops[|ops| - 1];
    if x in Recorded(before) {
      RecordedWasAdded(before, x);
      var i :| 0 <= i < |before| && before[i].AddOp? && before[i].s == x;
      assert ops[i] == before[i];
    }
  }

  /** `maxSeqNo` is the greatest member of the set, although low numbers may have been dropped. */
  lemma {:induction false} MaxIsGreatestMember(ops: seq<Op>)
    requires BelowSentinel(ops) && LastIsGreatest(ops)
    ensures if Recorded(ops) == {} then RunOps(ops).maxSeqNo == 0 else RunOps(ops).maxSeqNo in Recorded(ops)
    ensures forall x :: x in Recorded(ops) ==> 0 <= x <= RunOps(ops).maxSeqNo && exists l :: AddOp(x, l) in ops
  {
    if ops != [] {
      var before, op := ops[..|ops| - 1], ops[|ops| - 1];
      MaxIsGreatestMember(before);
      if op.AddOp? && op.isLast {
        forall x | x in Recorded(before)
          ensures x <= op.s
        {
          RecordedWasAdded(before, x);
        }
      }
      assert Recorded(before) != {} ==> RunOps(before).maxSeqNo in Recorded(before);
    }
    forall x | x in Recorded(ops)
      ensures exists l :: AddOp(x, l) in ops
    {
      RecordedWasAdded(ops, x);
      var i :| 0 <= i < |ops| && ops[i].AddOp? && ops[i].s == x;
      assert AddOp(x, ops[i].isLast) in ops;
    }
  }

  /** `x` is not recorded, but a greater number is. */
  ghost predicate IsGap(ops: seq<Op>, x: int) {
    x !in Recorded(ops) && exists y :: y in Recorded(ops) && x < y
  }

  /** `q` is a sequencer these calls lead to, whatever polls came in between. */
  ghost predicate StandsFor(q: Seqr, ops: seq<Op>) {
    && Sorted(q.ranges) && (forall x :: Covers(q.ranges, x) <==> x in Recorded(ops))
    && q.maxSeqNo == RunOps(ops).maxSeqNo && q.expected == RunOps(ops).expected
  }

  lemma AskedExact(q: Seqr, ops: seq<Op>, x: u32)
    requires StandsFor(q, ops)
    ensures x in SeqMissing(q) <==> x !in Recorded(ops) && Recorded(ops) != {} && x < q.maxSeqNo
  {
    MissingExact(q.ranges, q.maxSeqNo);
    HeadCovered(q.ranges);
    if q.ranges == [] {
      forall y: int
        ensures y !in Recorded(ops)
      {
        assert Covers(q.ranges, y) <==> y in Recorded(ops);
      }
      assert Recorded(ops) == {};
    } else {
      assert q.ranges[0].first in Recorded(ops);
    }
  }

  /** The segments asked for are exactly the unrecorded numbers below the greatest recorded one. */
  lemma MissingAreTheGaps(q: Seqr, ops: seq<Op>)
    requires BelowSentinel(ops) && LastIsGreatest(ops) && StandsFor(q, ops)
    ensures forall x: u32 :: x in SeqMissing(q) <==> IsGap(ops, x)
  {
    MaxIsGreatestMember(ops);
    forall x: u32
      ensures x in SeqMissing(q) <==> IsGap(ops, x)
    {
      AskedExact(q, ops, x);
    }
  }

  lemma RunAsksForGaps(ops: seq<Op>)
    requires BelowSentinel(ops) && LastIsGreatest(ops)
    ensures forall x: u32 :: x in SeqMissing(RunOps(ops)) <==> IsGap(ops, x)
  {
    IndexRefinesSet(ops);
    MissingAreTheGaps(RunOps(ops), ops);
  }

  /** When the number marked last is not the greatest, the segments asked for are exactly the
      unrecorded numbers below it. That is all gaps if and only if there is no gap above it. */
  lemma MissingBelowLast(q: Seqr, before: seq<Op>, m: u32)
    requires StandsFor(q, before + [AddOp(m, true)])
    ensures var ops := before + [AddOp(m, true)];
            && (forall x: u32 :: x in SeqMissing(q) <==> x !in Recorded(ops) && x < m)
            && ((forall x: u32 :: x in SeqMissing(q) <==> IsGap(ops, x)) <==> forall x: u32 :: IsGap(ops, x) ==> x < m)
  {
    var ops := before + [AddOp(m, true)];
    assert ops[..|ops| - 1] == before;
    assert Recorded(before) == {} ==> m in Recorded(ops);
    forall x: u32
      ensures x in SeqMissing(q) <==> x !in Recorded(ops) && x < m
    {
      AskedExact(q, ops, x);
    }
    assert m in Recorded(ops) || forall y :: y in Recorded(ops) ==> y > m + 1;
  }

  /** Numbers 0, 5 and then 2 marked last: 1 is asked for, 3 and 4 are not. */
  lemma LateLastHidesGaps()
    ensures var ops := [AddOp(0, false), AddOp(5, false), AddOp(2, true)];
            SeqMissing(RunOps(ops)) == [1] && IsGap(ops, 3) && IsGap(ops, 4)
  {
    var two, ops := [AddOp(0, false), AddOp(5, false)], [AddOp(0, false), AddOp(5, false), AddOp(2, true)];
    assert ops[..2] == two;
    ZeroAndFive(two);
    assert Recorded(ops) == {0, 2, 5};
    var rs := RunOps(ops).ranges;
    assert rs == [Rng(0, 0), Rng(2, 2), Rng(5, 5)];
    assert rs[0].first <= 0 <= rs[0].last;
    assert MissingBelow(rs, 1) == [];
  }

  lemma ZeroAndFive(ops: seq<Op>)
    requires ops == [AddOp(0, false), AddOp(5, false)]
    ensures RunOps(ops) == Seqr([Rng(0, 0), Rng(5, 5)], 5, UINT32_MAX) && Recorded(ops) == {0, 5}
  {
    var one := [AddOp(0, false)];
    assert one[..0] == [] && ops[..1] == one;
    assert Recorded(one) == {0} && RunOps(one) == Seqr([Rng(0, 0)], 0, UINT32_MAX);
  }

  // ---------------------------------------------------------------- the order of arrival

  /** Number `x` was added, recorded or not. */
  ghost predicate Came(ops: seq<Op>, x: int) {
    exists i :: 0 <= i < |ops| && ops[i].AddOp? && ops[i].s == x
  }

  /** The first number added, lowered by one each time its left neighbour comes. */
  function Floor(ops: seq<Op>): Option<u32> {
    if ops == [] then None
    else
      var before, op := Floor(ops[..|ops| - 1]), ops[|ops| - 1];
      if op.AddOp? && (before.None? || op.s + 1 == before.value as int) then Some(op.s) else before
  }

  lemma CameOneMore(before: seq<Op>, op: Op, x: int)
    ensures Came(before + [op], x) <==> Came(before, x) || (op.AddOp? && op.s == x)
  {
    var ops := before + [op];
    if i :| 0 <= i < |before| && before[i].AddOp? && before[i].s == x {
      assert ops[i] == before[i];
    }
    assert ops[|before|] == op;
  }

  /** Over every series of calls, repeats included: a number is recorded if and only if it came and is
      not below the floor. */
  lemma {:induction false} RecordedIffAboveFloor(ops: seq<Op>)
    ensures Floor(ops).None? ==> Recorded(ops) == {} && forall x :: !Came(ops, x)
    ensures Floor(ops).Some? ==> Came(ops, Floor(ops).value)
    ensures Floor(ops).Some? ==> forall x :: x in Recorded(ops) <==> Came(ops, x) && Floor(ops).value <= x
  {
    if ops != [] {
      var before, op := ops[..|ops| - 1], ops[|ops| - 1];
      RecordedIffAboveFloor(before);
      assert ops == before + [op];
      forall x
        ensures Came(ops, x) <==> Came(before, x) || (op.AddOp? && op.s == x)
      {
        CameOneMore(before, op, x);
      }
      if Floor(before).Some? {
        assert Floor(before).value in Recorded(before);
      }
    }
  }

  /** The set is {0..m} if and only if the floor has come down to 0 and what came is 0, ..., m. */
  lemma CompleteUpToIff(q: Seqr, ops: seq<Op>, m: nat)
    requires StandsFor(q, ops)
    ensures CoversExactlyUpTo(q.ranges, m) <==> Floor(ops) == Some(0) && forall x :: Came(ops, x) <==> 0 <= x <= m
  {
    RecordedIffAboveFloor(ops);
    if CoversExactlyUpTo(q.ranges, m) {
      assert Covers(q.ranges, 0);
      assert 0 in Recorded(ops);
      assert Covers(q.ranges, Floor(ops).value) <==> Floor(ops).value in Recorded(ops);
      forall x
        ensures Came(ops, x) <==> 0 <= x <= m
      {
        assert Covers(q.ranges, x) <==> x in Recorded(ops);
        CameIsNumber(ops, x);
      }
    }
    if Floor(ops) == Some(0) && forall x :: Came(ops, x) <==> 0 <= x <= m {
      forall x
        ensures Covers(q.ranges, x) <==> 0 <= x <= m
      {
        assert Covers(q.ranges, x) <==> x in Recorded(ops);
      }
    }
  }

  lemma CameIsNumber(ops: seq<Op>, x: int)
    ensures Came(ops, x) ==> 0 <= x
  {
  }

  predicate AddsOnly(ops: seq<Op>) {
    forall i :: 0 <= i < |ops| ==> ops[i].AddOp?
  }

  predicate NoRepeats(ops: seq<Op>)
    requires AddsOnly(ops)
  {
    forall i, j :: 0 <= i < j < |ops| ==> ops[i].s != ops[j].s
  }

  /** The number at position `i`, if it is below all earlier ones, is one below their least. */
  predicate StepsDownAt(ops: seq<Op>, i: nat)
    requires AddsOnly(ops) && i < |ops|
  {
    i > 0 && (forall j :: 0 <= j < i ==> ops[i].s < ops[j].s) ==> exists j :: 0 <= j < i && ops[j].s == ops[i].s + 1
  }

  predicate StepsDown(ops: seq<Op>)
    requires AddsOnly(ops)
  {
    forall i :: 0 <= i < |ops| ==> StepsDownAt(ops, i)
  }

  ghost predicate AllRecorded(ops: seq<Op>)
    requires AddsOnly(ops)
  {
    forall i :: 0 <= i < |ops| ==> ops[i].s in Recorded(ops)
  }

  /** Numbers that come once each are all recorded if and only if they never step down by more than
      one below the least so far. */
  lemma {:induction false} OnceEachRecordedIff(ops: seq<Op>)
    requires AddsOnly(ops) && NoRepeats(ops)
    ensures AllRecorded(ops) <==> StepsDown(ops)
  {
    if ops != [] {
      var n := |ops| - 1;
      var before, op := ops[..n], ops[n];
      OnceEachRecordedIff(before);
      assert forall i :: 0 <= i < n ==> before[i] == ops[i];
      if op.s in Recorded(before) {
        RecordedWasAdded(before, op.s);
      }
      assert AllRecorded(ops) <==> AllRecorded(before) && op.s in Recorded(ops);
      assert forall i :: 0 <= i < n ==> (StepsDownAt(ops, i) <==> StepsDownAt(before, i));
      assert StepsDown(ops) <==> StepsDown(before) && StepsDownAt(ops, n);
      if AllRecorded(before) {
        LastRecordedIff(ops);
      }
    }
  }

  lemma LastRecordedIff(ops: seq<Op>)
    requires AddsOnly(ops) && NoRepeats(ops) && ops != []
    requires forall i :: 0 <= i < |ops| - 1 ==> ops[i].s in Recorded(ops[..|ops| - 1])
    ensures ops[|ops| - 1].s in Recorded(ops) <==> StepsDownAt(ops, |ops| - 1)
  {
    var n := |ops| - 1;
    var before, s := ops[..n], ops[n].s;
    if s in Recorded(before) {
      RecordedWasAdded(before, s);
    }
    if y: int :| y in Recorded(before) && y <= (s as int) + 1 {
      RecordedWasAdded(before, y);
      var j :| 0 <= j < n && before[j].s == y;
      assert ops[j].s == y && s != ops[j].s;
    }
    if n > 0 {
      assert ops[0].s in Recorded(before);
    }
  }
}
