/** src/sequencer.c on the heap: ranges are separate objects hung on a LinkedList and changed in
    place. Every method is tied to the value-level sequencer of SequencerRuns. */
module SequencerHeap {
  import opened Basics
  import opened Ranges
  import opened SequencerRuns
  import opened LinkedLists

  /** sequencer_item_t */
  class Range {
    var firstSeqNo: u32
    var lastSeqNo: u32
  }

  /** The range objects hold these values, in order. */
  ghost predicate Carries(items: seq<Range>, ranges: seq<Rng>)
    reads items
  {
    && |ranges| == |items|
    && (forall i :: 0 <= i < |items| ==>
          items[i].firstSeqNo == ranges[i].first && items[i].lastSeqNo == ranges[i].last)
  }

  /** The ranges on a list are the live ones: they are distinct, each is live, and there are no more. */
  ghost predicate AreLive(items: seq<Range>, live: set<Range>) {
    && |live| == |items|
    && (forall i, j :: 0 <= i < j < |items| ==> items[i] != items[j])
    && (forall i :: 0 <= i < |items| ==> items[i] in live)
  }

  lemma AreLiveInserted(items: seq<Range>, live: set<Range>, k: nat, range: Range)
    requires AreLive(items, live - {range}) && k <= |items| && range in live
    ensures AreLive(Inserted(items, k, range), live)
  {
    assert live == (live - {range}) + {range};
  }

  lemma AreLiveWithout(items: seq<Range>, live: set<Range>, k: nat)
    requires AreLive(items, live) && k < |items|
    ensures AreLive(Without(items, k), live - {items[k]})
  {
  }

  lemma HeldInserted(ring: seq<Elem<Range>>, repr: set<object>, k: nat, elem: Elem<Range>)
    requires k <= |ring| && forall i :: 0 <= i < |ring| ==> ring[i] in repr
    ensures forall i :: 0 <= i <= |ring| ==> Inserted(ring, k, elem)[i] in repr + {elem}
  {
  }

  class Sequencer {
    const list: LinkedList<Range>
    var maxSeqNo: u32
    var expectedLastSeqNo: u32

    /** The range objects allocated and not yet freed. */
    ghost var live: set<Range>

    /** The value of the range list, and the objects the sequencer owns. */
    ghost var ranges: seq<Rng>
    ghost var Repr: set<object>

    ghost predicate Valid()
      reads this, Repr
    {
      Sound() && AreLive(list.model, live)
    }

    ghost predicate Sound()
      reads this, Repr
    {
      && this in Repr && list in Repr && list.anchor in Repr
      && (forall i :: 0 <= i < |list.ring| ==> list.ring[i] in Repr)
      && (forall i :: 0 <= i < |list.model| ==> list.model[i] in Repr)
      && list.Valid() && list.bias == 0
      && Carries(list.model, ranges)
    }

    function FirstOf(range: Range): u32
      requires range in live
      reads this`live, range
    {
      range.firstSeqNo
    }

    function LastOf(range: Range): u32
      requires range in live
      reads this`live, range
    {
      range.lastSeqNo
    }

    /** create_sequencer_range, for a range of one number */
    method NewRange(seqNo: u32) returns (range: Range)
      modifies this`live
      ensures fresh(range) && range.firstSeqNo == range.lastSeqNo == seqNo && live == old(live) + {range}
    {
      range := new Range;
      range.firstSeqNo, range.lastSeqNo := seqNo, seqNo;
      live := live + {range};
    }

    /** free(range): only a live range can be freed, and what its fields hold afterwards is unknown. */
    method Free(range: Range)
      requires range in live
      modifies this`live, range
      ensures live == old(live) - {range}
    {
      range.firstSeqNo, range.lastSeqNo := *, *;
      live := live - {range};
    }

    ghost function State(): Seqr
      reads this
    {
      Seqr(ranges, maxSeqNo, expectedLastSeqNo)
    }

    /** sequencer_init */
    constructor Init()
      ensures Valid() && fresh(Repr)
      ensures State() == EMPTY && live == {}
    {
      list := new LinkedList<Range>.Init(0);
      maxSeqNo := 0;
      expectedLastSeqNo := UINT32_MAX;
      live, ranges := {}, [];
      new;
      Repr := {this, list, list.anchor};
    }

    /** sequencer_check */
    method Check(seqNo: u32) returns (found: bool)
      requires Valid()
      ensures found == Covers(ranges, seqNo)
    {
      var elem := list.First();
      ghost var i := 0;
      while elem != null
        invariant 0 <= i <= |list.model|
        invariant if elem == null then i == |list.model| else list.Holds(elem, i)
        invariant forall k :: 0 <= k < i ==> !(ranges[k].first <= seqNo <= ranges[k].last)
        decreases |list.model| - i
      {
        var item := list.ObjOf(elem).value;
        if FirstOf(item) <= seqNo && seqNo <= LastOf(item) {
          assert ranges[i].first <= seqNo <= ranges[i].last;
          return true;
        }
        elem := list.Next(elem, i);
        i := i + 1;
      }
      return false;
    }

    /** sequencer_add */
    method Add(seqNo: u32, isLast: bool) returns (grew: bool)
      requires Valid()
      modifies Repr
      ensures Valid()
      ensures (State(), grew) == SeqAdd(old(State()), seqNo, isLast)
      ensures Sorted(old(ranges)) && !Wraps(old(ranges), seqNo) ==>
                SaysWhetherGrew(old(ranges), ranges, seqNo, grew)
      ensures old(Repr) <= Repr && fresh(Repr - old(Repr))
    {
      ghost var was := ranges;
      if isLast {
        expectedLastSeqNo := seqNo;
        maxSeqNo := seqNo;
      } else if maxSeqNo < seqNo {
        maxSeqNo := seqNo;
      }
      grew := Insert(seqNo);
      if Sorted(was) && !Wraps(was, seqNo) {
        AddSaysWhetherGrew(was, seqNo);
      }
    }

    /** Lines 45-108 */
    method Insert(seqNo: u32) returns (grew: bool)
      requires Valid()
      modifies Repr
      ensures Valid() && maxSeqNo == old(maxSeqNo) && expectedLastSeqNo == old(expectedLastSeqNo)
      ensures (ranges, grew) == Ranges.Add(old(ranges), seqNo)
      ensures old(Repr) <= Repr && fresh(Repr - old(Repr))
    {
      var present := Check(seqNo);
      if present {
        return false;
      } else if list.Empty() {
        AppendNew(seqNo);
        assert [] + [Rng(seqNo, seqNo)] == [Rng(seqNo, seqNo)];
        return true;
      }
      grew := Place(seqNo);
    }

    /** The walk of sequencer_add over the ranges. */
    method Place(seqNo: u32) returns (grew: bool)
      requires Valid()
      modifies Repr
      ensures Valid() && maxSeqNo == old(maxSeqNo) && expectedLastSeqNo == old(expectedLastSeqNo)
      ensures (ranges, grew) == AddFrom(old(ranges), 0, seqNo)
      ensures old(Repr) <= Repr && fresh(Repr - old(Repr))
    {
      var elem := list.First();
      ghost var i := 0;
      while elem != null
        invariant Valid() && unchanged(Repr)
        invariant 0 <= i <= |list.model|
        invariant if elem == null then i == |list.model| else list.Holds(elem, i)
        invariant AddFrom(ranges, i, seqNo) == AddFrom(ranges, 0, seqNo)
        decreases |list.model| - i
      {
        var item := list.ObjOf(elem).value;
        if Inc(LastOf(item)) == seqNo {
          ExtendRight(elem, i, seqNo);
          return true;
        } else if Dec(FirstOf(item)) == seqNo {
          ExtendLeft(elem, i, seqNo);
          return true;
        } else {
          var nextElem := list.Next(elem, i);
          if nextElem != null {
            var nextItem := list.ObjOf(nextElem).value;
            if LastOf(item) < seqNo && seqNo < FirstOf(nextItem) {
              InsertNew(nextElem, i + 1, seqNo);
              return true;
            }
          } else {
            if LastOf(item) < seqNo {
              AppendNew(seqNo);
              return true;
            }
          }
        }
        elem := list.Next(elem, i);
        i := i + 1;
      }
      return false;
    }

    method InsertNew(elem: Elem<Range>, ghost i: nat, seqNo: u32)
      requires Valid() && list.Holds(elem, i)
      modifies Repr
      ensures Valid() && maxSeqNo == old(maxSeqNo) && expectedLastSeqNo == old(expectedLastSeqNo)
      ensures ranges == Inserted(old(ranges), i, Rng(seqNo, seqNo))
      ensures old(Repr) <= Repr && fresh(Repr - old(Repr))
    {
      var range := NewRange(seqNo);
      LinkBefore(range, elem, i);
    }

    method AppendNew(seqNo: u32)
      requires Valid()
      modifies Repr
      ensures Valid() && maxSeqNo == old(maxSeqNo) && expectedLastSeqNo == old(expectedLastSeqNo)
      ensures ranges == old(ranges) + [Rng(seqNo, seqNo)]
      ensures old(Repr) <= Repr && fresh(Repr - old(Repr))
    {
      var range := NewRange(seqNo);
      LinkLast(range);
    }

    method LinkBefore(range: Range, elem: Elem<Range>, ghost i: nat)
      requires Sound() && list.Holds(elem, i)
      requires range in live && range !in Repr && AreLive(list.model, live - {range})
      modifies Repr
      ensures Valid() && maxSeqNo == old(maxSeqNo) && expectedLastSeqNo == old(expectedLastSeqNo)
      ensures ranges == Inserted(old(ranges), i, Rng(range.firstSeqNo, range.lastSeqNo))
      ensures old(Repr) + {range} <= Repr && fresh(Repr - old(Repr) - {range})
    {
      AreLiveInserted(list.model, live, i, range);
      ghost var ring := list.ring;
      list.InsertBefore(range, elem, i);
      HeldInserted(ring, Repr, i + 1, list.ring[i + 1]);
      Adopt(range, list.ring[i + 1], i);
    }

    method LinkLast(range: Range)
      requires Sound()
      requires range in live && range !in Repr && AreLive(list.model, live - {range})
      modifies Repr
      ensures Valid() && maxSeqNo == old(maxSeqNo) && expectedLastSeqNo == old(expectedLastSeqNo)
      ensures ranges == old(ranges) + [Rng(range.firstSeqNo, range.lastSeqNo)]
      ensures old(Repr) + {range} <= Repr && fresh(Repr - old(Repr) - {range})
    {
      ghost var n, ring := |list.model|, list.ring;
      AreLiveInserted(list.model, live, n, range);
      InsertedAtEnd(list.model, range);
      InsertedAtEnd(ranges, Rng(range.firstSeqNo, range.lastSeqNo));
      list.Append(range);
      HeldInserted(ring, Repr, n + 1, list.ring[n + 1]);
      Adopt(range, list.ring[n + 1], n);
    }

    /** The sequencer owns the range just linked in at position `i`, and its element. */
    ghost method Adopt(range: Range, elem: Elem<Range>, i: nat)
      requires {this, list, list.anchor} <= Repr && list.bias == 0
      requires forall k :: 0 <= k < |list.ring| ==> list.ring[k] in Repr + {elem}
      requires forall k :: 0 <= k < |list.model| ==> list.model[k] in Repr + {range}
      requires list.Valid() && AreLive(list.model, live)
      requires i <= |ranges| && Carries(list.model, Inserted(ranges, i, Rng(range.firstSeqNo, range.lastSeqNo)))
      modifies this`ranges, this`Repr
      ensures Valid() && Repr == old(Repr) + {elem, range}
      ensures ranges == Inserted(old(ranges), i, Rng(range.firstSeqNo, range.lastSeqNo))
    {
      Repr := Repr + {elem, range};
      ranges := Inserted(ranges, i, Rng(range.firstSeqNo, range.lastSeqNo));
    }

    /** Lines 68-69: the range at `elem` is taken off the list and freed. */
    method Discard(elem: Elem<Range>, ghost k: nat)
      requires Valid() && list.Holds(elem, k)
      modifies Repr
      ensures Valid() && maxSeqNo == old(maxSeqNo) && expectedLastSeqNo == old(expectedLastSeqNo)
      ensures ranges == Without(old(ranges), k) && list.ring == Without(old(list.ring), k + 1)
      ensures Repr == old(Repr)
    {
      var item := list.ObjOf(elem).value;
      AreLiveWithout(list.model, live, k);
      list.Unlink(elem, k);
      Free(item);
      ranges := Without(ranges, k);
    }

    /** Lines 67-69 and 133-135: the range at `elem` takes over the next one, which is freed. */
    method Absorb(elem: Elem<Range>, nextElem: Elem<Range>, ghost i: nat)
      requires Valid() && list.Holds(elem, i) && list.Holds(nextElem, i + 1)
      modifies Repr
      ensures Valid() && maxSeqNo == old(maxSeqNo) && expectedLastSeqNo == old(expectedLastSeqNo)
      ensures ranges == Without(old(ranges), i + 1)[i := Rng(old(ranges)[i].first, old(ranges)[i + 1].last)]
      ensures Repr == old(Repr) && list.Holds(elem, i)
    {
      var item, nextItem := list.ObjOf(elem).value, list.ObjOf(nextElem).value;
      item.lastSeqNo := LastOf(nextItem);
      ranges := ranges[i := Rng(FirstOf(item), LastOf(item))];
      Discard(nextElem, i + 1);
    }

    /** Lines 84-86: the range at `elem` takes over the previous one, which is freed. */
    method AbsorbPrevious(elem: Elem<Range>, prevElem: Elem<Range>, ghost i: nat)
      requires Valid() && list.Holds(elem, i) && i > 0 && list.Holds(prevElem, i - 1)
      modifies Repr
      ensures Valid() && maxSeqNo == old(maxSeqNo) && expectedLastSeqNo == old(expectedLastSeqNo)
      ensures ranges == Without(old(ranges)[i := Rng(old(ranges)[i - 1].first, old(ranges)[i].last)], i - 1)
      ensures Repr == old(Repr)
    {
      var item, prevItem := list.ObjOf(elem).value, list.ObjOf(prevElem).value;
      item.firstSeqNo := FirstOf(prevItem);
      ranges := ranges[i := Rng(FirstOf(item), LastOf(item))];
      Discard(prevElem, i - 1);
    }

    /** Lines 58-72: extends the range at `elem` up to `seqNo`, which may close the gap to the next. */
    method ExtendRight(elem: Elem<Range>, ghost i: nat, seqNo: u32)
      requires Valid() && list.Holds(elem, i) && Inc(ranges[i].last) == seqNo
      modifies Repr
      ensures Valid() && maxSeqNo == old(maxSeqNo) && expectedLastSeqNo == old(expectedLastSeqNo)
      ensures ranges == AddFrom(old(ranges), i, seqNo).0
      ensures Repr == old(Repr)
    {
      var item := list.ObjOf(elem).value;
      item.lastSeqNo := seqNo;
      ranges := ranges[i := Rng(FirstOf(item), seqNo)];
      var nextElem := list.Next(elem, i);
      if nextElem != null {
        var nextItem := list.ObjOf(nextElem).value;
        if Dec(FirstOf(nextItem)) == LastOf(item) {
          Absorb(elem, nextElem, i);
        }
      }
    }

    /** Lines 75-89: extends the range at `elem` down to `seqNo`. */
    method ExtendLeft(elem: Elem<Range>, ghost i: nat, seqNo: u32)
      requires Valid() && list.Holds(elem, i) && Inc(ranges[i].last) != seqNo && Dec(ranges[i].first) == seqNo
      modifies Repr
      ensures Valid() && maxSeqNo == old(maxSeqNo) && expectedLastSeqNo == old(expectedLastSeqNo)
      ensures ranges == AddFrom(old(ranges), i, seqNo).0
      ensures Repr == old(Repr)
    {
      var item := list.ObjOf(elem).value;
      item.firstSeqNo := seqNo;
      ranges := ranges[i := Rng(seqNo, LastOf(item))];
      var prevElem := list.Prev(elem, i);
      if prevElem != null {
        var prevItem := list.ObjOf(prevElem).value;
        if Inc(LastOf(prevItem)) == FirstOf(item) {
          AbsorbPrevious(elem, prevElem, i);
        }
      }
    }

    /** Lines 128-137: merges the range at `elem` with the next one if they are adjacent. */
    method MergeWithNext(elem: Elem<Range>, ghost i: nat)
      requires Valid() && list.Holds(elem, i)
      modifies Repr
      ensures Valid() && maxSeqNo == old(maxSeqNo) && expectedLastSeqNo == old(expectedLastSeqNo)
      ensures list.Holds(elem, i)
      ensures ranges == if i + 1 < |old(ranges)| && Inc(old(ranges)[i].last) == old(ranges)[i + 1].first
                        then Without(old(ranges), i + 1)[i := Rng(old(ranges)[i].first, old(ranges)[i + 1].last)]
                        else old(ranges)
      ensures Repr == old(Repr)
    {
      var item := list.ObjOf(elem).value;
      var nextElem := list.Next(elem, i);
      if nextElem != null {
        var nextItem := list.ObjOf(nextElem).value;
        if Inc(LastOf(item)) == FirstOf(nextItem) {
          Absorb(elem, nextElem, i);
        }
      }
    }

    /** sequencer_complete */
    method Complete() returns (done: bool)
      requires Valid()
      modifies Repr
      ensures Valid()
      ensures (State(), done) == SeqComplete(old(State()))
      ensures Repr == old(Repr)
    {
      if list.Empty() {
        return false;
      }
      MergeNeighbours();
      WholeLoopIsPass(old(ranges));
      if list.Length() == 1 {
        var head := list.First();
        var item := list.ObjOf(head).value;
        return FirstOf(item) == 0 && LastOf(item) == expectedLastSeqNo;
      }
      return false;
    }

    /** Lines 126-138: the walk of sequencer_complete over the ranges. */
    method MergeNeighbours()
      requires Valid() && list.model != []
      modifies Repr
      ensures Valid() && maxSeqNo == old(maxSeqNo) && expectedLastSeqNo == old(expectedLastSeqNo)
      ensures ranges == MergeFrom(old(ranges), 0)
      ensures Repr == old(Repr)
    {
      var elem := list.First();
      ghost var i := 0;
      while elem != null
        invariant Valid() && Repr == old(Repr)
        invariant maxSeqNo == old(maxSeqNo) && expectedLastSeqNo == old(expectedLastSeqNo)
        invariant 0 <= i <= |list.model|
        invariant if elem == null then i == |list.model| else list.Holds(elem, i)
        invariant MergeFrom(ranges, i) == MergeFrom(old(ranges), 0)
        decreases |list.model| - i
      {
        MergeWithNext(elem, i);
        elem := list.Next(elem, i);
        i := i + 1;
      }
    }

    /** sequencer_iterate_missing_segments; `calls` are the arguments the callback gets, in order. */
    method IterateMissing() returns (calls: seq<u32>)
      requires Valid()
      ensures calls == SeqMissing(State())
      ensures Ascending(calls)
      ensures forall x: u32 :: x in calls <==> ranges != [] && x < maxSeqNo && !Covers(ranges, x)
    {
      calls := [];
      SeqMissingExact(State());
      if list.Empty() {
        return;
      }
      var next := 0;
      while next < maxSeqNo
        invariant 0 <= next <= maxSeqNo
        invariant calls == MissingBelow(ranges, next)
      {
        var found := Check(next);
        if !found {
          calls := calls + [next];
        }
        next := next + 1;
      }
    }

    /** sequencer_destroy, up to the release of the header itself: each range and each list element
        still live is freed, once, since only what is live can be. */
    method Destroy()
      requires Valid()
      modifies Repr
      ensures live == {} && list.live == {}
    {
      var elem := list.First();
      ghost var i := 0;
      while elem != null
        invariant list.Valid() && list.model == old(list.model) && list.ring == old(list.ring)
        invariant 0 <= i <= |list.model| && |live| == |list.model| - i
        invariant forall k :: i <= k < |list.model| ==> list.model[k] in live
        invariant if elem == null then i == |list.model| else list.Holds(elem, i)
        decreases |list.model| - i
      {
        Free(list.ObjOf(elem).value);
        elem := list.Next(elem, i);
        i := i + 1;
      }
      list.UnlinkAll();
    }
  }

  /** A sequencer's whole life: init, any series of calls, destroy. Its ranges and list elements are
      allocated into `live` and freed out of it, and in the end nothing is left. */
  method Lifetime(script: seq<Op>) returns (q: Sequencer, answers: seq<bool>)
    ensures answers == Answers(script) && |answers| == |script|
    ensures BelowSentinel(script) ==> forall i :: 0 <= i < |script| ==> RightAnswer(script, i, answers[i])
    ensures q.live == {} && q.list.live == {}
  {
    q := new Sequencer.Init();
    answers := [];
    for i := 0 to |script|
      invariant q.Valid() && fresh(q.Repr)
      invariant q.State() == RunOps(script[..i]) && answers == Answers(script[..i])
    {
      OneMoreCall(script, i);
      var answer := Call(q, script[i]);
      answers := answers + [answer];
    }
    assert script[..|script|] == script;
    AnswersLength(script);
    if BelowSentinel(script) {
      forall i | 0 <= i < |script|
        ensures RightAnswer(script, i, answers[i])
      {
        AnswersExact(script, i);
      }
    }
    q.Destroy();
  }

  method Call(q: Sequencer, op: Op) returns (answer: bool)
    requires q.Valid()
    modifies q.Repr
    ensures q.Valid() && fresh(q.Repr - old(q.Repr))
    ensures q.State() == ApplyOp(old(q.State()), op) && answer == Answer(old(q.State()), op)
  {
    match op
    case AddOp(s, isLast) =>
      answer := q.Add(s, isLast);
    case Poll =>
      answer := q.Complete();
  }
}
