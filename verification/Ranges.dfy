/** The sequencer's index as a value: a list of closed ranges standing for a set of sequence
    numbers (src/sequencer.c). `Add` and `MergePass` follow the walks of sequencer_add and
    sequencer_complete position by position; the lemmas say what they do to the set. */
module Ranges {
  import opened Basics

  datatype Rng = Rng(first: u32, last: u32)

  /** Non-empty ranges, ascending and disjoint. */
  predicate Sorted(rs: seq<Rng>) {
    && (forall i :: 0 <= i < |rs| ==> rs[i].first <= rs[i].last)
    && (forall i, j :: 0 <= i < j < |rs| ==> rs[i].last < rs[j].first)
  }

  /** `x` belongs to the set the ranges stand for. */
  predicate Covers(rs: seq<Rng>, x: int) {
    exists i :: 0 <= i < |rs| && rs[i].first <= x <= rs[i].last
  }

  /** No two neighbouring ranges could be merged. */
  predicate Canonical(rs: seq<Rng>) {
    Sorted(rs) && forall i :: 0 <= i < |rs| - 1 ==> rs[i].last + 1 < rs[i + 1].first
  }

  // ---------------------------------------------------------------- sequencer_add

  /** The loop of sequencer_add from position `i` on: the new list, and the value returned. */
  function AddFrom(rs: seq<Rng>, i: nat, s: u32): (seq<Rng>, bool)
    decreases |rs| - i
  {
    if i >= |rs| then (rs, false)
    else if Inc(rs[i].last) == s then
      if i + 1 < |rs| && Dec(rs[i + 1].first) == s then
        (Without(rs, i + 1)[i := Rng(rs[i].first, rs[i + 1].last)], true)
      else
        (rs[i := Rng(rs[i].first, s)], true)
    else if Dec(rs[i].first) == s then
      if i > 0 && Inc(rs[i - 1].last) == s then
        (Without(rs[i := Rng(rs[i - 1].first, rs[i].last)], i - 1), true)
      else
        (rs[i := Rng(s, rs[i].last)], true)
    else if i + 1 < |rs| then
      if rs[i].last < s < rs[i + 1].first then (Inserted(rs, i + 1, Rng(s, s)), true)
      else AddFrom(rs, i + 1, s)
    else if rs[i].last < s then (rs + [Rng(s, s)], true)
    else AddFrom(rs, i + 1, s)
  }

  function Add(rs: seq<Rng>, s: u32): (seq<Rng>, bool) {
    if Covers(rs, s) then (rs, false)
    else if rs == [] then ([Rng(s, s)], true)
    else AddFrom(rs, 0, s)
  }

  /** The numbers for which `last + 1` or `first - 1` wraps round 2^32 into a false match. */
  predicate Wraps(rs: seq<Rng>, s: u32) {
    && rs != [] && !Covers(rs, s)
    && ( || (s == UINT32_MAX && rs[0].first == 0 && rs[0].last + 1 != UINT32_MAX)
         || (s == 0 && rs[|rs| - 1].last == UINT32_MAX && !(|rs| > 1 && rs[0].first == 1)))
  }

  /** A number the walk can place: the set is empty, or it is not below the head's left neighbour. */
  predicate Placeable(rs: seq<Rng>, s: u32) {
    rs == [] || s + 1 >= rs[0].first
  }

  /** `rs2` is sorted and stands for the set of `rs1` together with `s`. */
  ghost predicate GrewBy(rs1: seq<Rng>, rs2: seq<Rng>, s: u32) {
    Sorted(rs2) && forall x :: Covers(rs2, x) <==> Covers(rs1, x) || x == s
  }

  /** The walk leaves position `i - 1` behind only when the range there ends below `s - 1` and
      the next one does not start above `s`. */
  predicate WalkedTo(rs: seq<Rng>, i: nat, s: u32)
    requires i < |rs|
  {
    i > 0 ==> rs[i - 1].last + 1 < s && rs[i].first <= s
  }

  /** A fresh number below the head's left neighbour is not recorded. */
  lemma {:induction false} LowNumberDropped(rs: seq<Rng>, i: nat, s: u32)
    requires Sorted(rs) && rs != [] && s + 1 < rs[0].first && !Wraps(rs, s)
    ensures AddFrom(rs, i, s) == (rs, false)
    decreases |rs| - i
  {
    if i < |rs| {
      assert s + 1 < rs[i].first;
      if i + 1 < |rs| {
        assert rs[i].last < rs[|rs| - 1].last;
      }
      LowNumberDropped(rs, i + 1, s);
    }
  }

  lemma {:induction false} PlaceableNumberAdded(rs: seq<Rng>, i: nat, s: u32)
    requires Sorted(rs) && i < |rs| && !Covers(rs, s) && s + 1 >= rs[0].first && !Wraps(rs, s)
    requires WalkedTo(rs, i, s)
    ensures AddFrom(rs, i, s).1 && GrewBy(rs, AddFrom(rs, i, s).0, s)
    decreases |rs| - i
  {
    assert !(rs[i].first <= s <= rs[i].last);
    var out := AddFrom(rs, i, s).0;
    if Inc(rs[i].last) == s {
      if i + 1 < |rs| && Dec(rs[i + 1].first) == s {
        Merged(rs, out, i, s);
      } else {
        Widened(rs, i, Rng(rs[i].first, s), s);
      }
    } else if Dec(rs[i].first) == s {
      Widened(rs, i, Rng(s, rs[i].last), s);
    } else if i + 1 < |rs| {
      if rs[i].last < s < rs[i + 1].first {
        Separate(rs, out, i + 1, s);
      } else {
        PlaceableNumberAdded(rs, i + 1, s);
      }
    } else {
      Separate(rs, out, i + 1, s);
    }
  }

  /** The set of a list put together from two lists around one range. */
  lemma CoversAround(a: seq<Rng>, m: Rng, b: seq<Rng>, x: int)
    ensures Covers(a + [m] + b, x) <==> Covers(a, x) || m.first <= x <= m.last || Covers(b, x)
  {
    var out := a + [m] + b;
    if i :| 0 <= i < |a| && a[i].first <= x <= a[i].last {
      assert out[i].first <= x <= out[i].last;
    }
    if m.first <= x <= m.last {
      assert out[|a|].first <= x <= out[|a|].last;
    }
    if i :| 0 <= i < |b| && b[i].first <= x <= b[i].last {
      assert out[|a| + 1 + i].first <= x <= out[|a| + 1 + i].last;
    }
  }

  lemma CoversTwo(a: seq<Rng>, p: Rng, q: Rng, b: seq<Rng>, x: int)
    ensures Covers(a + [p, q] + b, x)
            <==> Covers(a, x) || p.first <= x <= p.last || q.first <= x <= q.last || Covers(b, x)
  {
    assert a + [p, q] + b == a + [p] + ([] + [q] + b);
    CoversAround(a, p, [] + [q] + b, x);
    CoversAround([], q, b, x);
  }

  lemma {:induction false} Merged(rs: seq<Rng>, out: seq<Rng>, i: nat, s: u32)
    requires Sorted(rs) && i + 1 < |rs| && rs[i].last + 1 == s == rs[i + 1].first - 1
    requires out == Without(rs, i + 1)[i := Rng(rs[i].first, rs[i + 1].last)]
    ensures GrewBy(rs, out, s)
  {
    var a, b := rs[..i], rs[i + 2..];
    assert out == a + [out[i]] + b;
    assert rs == a + [rs[i], rs[i + 1]] + b;
    forall x
      ensures Covers(out, x) <==> Covers(rs, x) || x == s
    {
      CoversAround(a, out[i], b, x);
      CoversTwo(a, rs[i], rs[i + 1], b, x);
    }
  }

  lemma Widened(rs: seq<Rng>, i: nat, r: Rng, s: u32)
    requires Sorted(rs) && i < |rs| && r.first <= r.last
    requires (i > 0 ==> rs[i - 1].last < r.first) && (i + 1 < |rs| ==> r.last < rs[i + 1].first)
    requires || (s == rs[i].last + 1 && r == Rng(rs[i].first, s))
             || (s == rs[i].first - 1 && r == Rng(s, rs[i].last))
    ensures GrewBy(rs, rs[i := r], s)
  {
    SortedAfterReplacing(rs, i, r);
    var out := rs[i := r];
    forall x
      ensures Covers(out, x) <==> Covers(rs, x) || x == s
    {
      CoversAfterReplacing(rs, i, r, x);
      assert rs[i].first <= x <= rs[i].last ==> Covers(rs, x);
    }
  }

  lemma CoversAfterReplacing(rs: seq<Rng>, i: nat, r: Rng, x: int)
    requires Sorted(rs) && i < |rs|
    requires r.first <= rs[i].first && rs[i].last <= r.last
    ensures Covers(rs[i := r], x) <==> Covers(rs, x) || r.first <= x <= r.last
  {
    assert rs[i := r] == rs[..i] + [r] + rs[i + 1..];
    CoversAround(rs[..i], r, rs[i + 1..], x);
    assert rs == rs[..i] + [rs[i]] + rs[i + 1..];
    CoversAround(rs[..i], rs[i], rs[i + 1..], x);
  }

  lemma SortedAfterReplacing(rs: seq<Rng>, i: nat, r: Rng)
    requires Sorted(rs) && i < |rs| && r.first <= r.last
    requires (i > 0 ==> rs[i - 1].last < r.first) && (i + 1 < |rs| ==> r.last < rs[i + 1].first)
    ensures Sorted(rs[i := r])
  {
    forall j | 0 <= j < |rs|
      ensures (j < i ==> rs[j].last < r.first) && (j > i ==> r.last < rs[j].first)
    {
      assert j < i - 1 ==> rs[j].last < rs[i - 1].first;
      assert j > i + 1 ==> rs[i + 1].last < rs[j].first;
    }
  }

  lemma {:induction false} SortedAfterInserting(rs: seq<Rng>, i: nat, s: u32)
    requires Sorted(rs) && 0 < i <= |rs| && rs[i - 1].last < s && (i < |rs| ==> s < rs[i].first)
    ensures Sorted(Inserted(rs, i, Rng(s, s)))
  {
    forall j | 0 <= j < |rs|
      ensures if j < i then rs[j].last < s else s < rs[j].first
    {
      assert j < i - 1 ==> rs[j].last < rs[i - 1].first;
      assert j > i ==> rs[i].last < rs[j].first;
    }
  }

  lemma {:induction false} Separate(rs: seq<Rng>, out: seq<Rng>, i: nat, s: u32)
    requires Sorted(rs) && 0 < i <= |rs| && rs[i - 1].last < s && (i < |rs| ==> s < rs[i].first)
    requires out == Inserted(rs, i, Rng(s, s))
    ensures GrewBy(rs, out, s)
  {
    SortedAfterInserting(rs, i, s);
    var a, b := rs[..i], rs[i..];
    assert rs == a + b;
    forall x
      ensures Covers(out, x) <==> Covers(rs, x) || x == s
    {
      CoversAround(a, Rng(s, s), b, x);
      CoversJoined(a, b, x);
    }
  }

  lemma CoversJoined(a: seq<Rng>, b: seq<Rng>, x: int)
    ensures Covers(a + b, x) <==> Covers(a, x) || Covers(b, x)
  {
    if i :| 0 <= i < |a| && a[i].first <= x <= a[i].last {
      assert (a + b)[i].first <= x <= (a + b)[i].last;
    }
    if i :| 0 <= i < |b| && b[i].first <= x <= b[i].last {
      assert (a + b)[|a| + i].first <= x <= (a + b)[|a| + i].last;
    }
  }

  /** What sequencer_add does to the set, exactly: TRUE iff the set grew, it grows by the new number
      and nothing else, and that happens iff the number was absent and could be placed. */
  lemma AddExact(rs: seq<Rng>, s: u32)
    requires Sorted(rs) && !Wraps(rs, s)
    ensures Sorted(Add(rs, s).0)
    ensures Add(rs, s).1 <==> !Covers(rs, s) && Placeable(rs, s)
    ensures forall x :: Covers(Add(rs, s).0, x) <==> Covers(rs, x) || (Add(rs, s).1 && x == s)
  {
    if Covers(rs, s) {
    } else if rs == [] {
      assert Add(rs, s).0[0].first <= s <= Add(rs, s).0[0].last;
    } else if s + 1 < rs[0].first {
      LowNumberDropped(rs, 0, s);
    } else {
      PlaceableNumberAdded(rs, 0, s);
    }
  }

  /** `grew` says truly whether adding `s` put a number into the set: one that was absent and could be
      placed. */
  ghost predicate SaysWhetherGrew(was: seq<Rng>, now: seq<Rng>, s: u32, grew: bool) {
    && (grew <==> !Covers(was, s) && Placeable(was, s))
    && (grew <==> exists x: u32 :: Covers(now, x) && !Covers(was, x))
  }

  lemma AddSaysWhetherGrew(rs: seq<Rng>, s: u32)
    requires Sorted(rs) && !Wraps(rs, s)
    ensures SaysWhetherGrew(rs, Add(rs, s).0, s, Add(rs, s).1)
  {
    AddExact(rs, s);
    if Add(rs, s).1 {
      assert Covers(Add(rs, s).0, s) && !Covers(rs, s);
    }
  }

  /** Over all 32-bit numbers, the list stays well formed exactly when nothing wraps: adding
      UINT32_MAX beside a head at 0, or 0 beside a tail at UINT32_MAX, corrupts it. */
  lemma AddWellFormedIff(rs: seq<Rng>, s: u32)
    requires Sorted(rs)
    ensures Sorted(Add(rs, s).0) <==> !Wraps(rs, s)
  {
    if !Wraps(rs, s) {
      AddExact(rs, s);
    } else if s == UINT32_MAX {
      assert AddFrom(rs, 0, s).0[0] == Rng(s, rs[0].last);
      assert rs[0].last != UINT32_MAX;
    } else {
      ZeroCorruptsTail(rs, 0);
    }
  }

  lemma {:induction false} ZeroCorruptsTail(rs: seq<Rng>, i: nat)
    requires Sorted(rs) && i < |rs| && rs[0].first > 0 && rs[|rs| - 1].last == UINT32_MAX
    requires i == 0 ==> |rs| == 1 || rs[0].first > 1
    ensures !Sorted(AddFrom(rs, i, 0).0)
    decreases |rs| - i
  {
    if i == |rs| - 1 {
      assert AddFrom(rs, i, 0).0[i] == Rng(rs[i].first, 0);
    } else {
      assert rs[i].last < rs[|rs| - 1].first;
      assert i > 0 ==> rs[0].last < rs[i].first;
      ZeroCorruptsTail(rs, i + 1);
    }
  }

  /** Lines 80-88, merging a left-extended range into its predecessor, are never taken: a walk
      that arrives there has already extended that predecessor instead. */
  lemma MergeWithPreviousUnreachable(rs: seq<Rng>, i: nat, s: u32)
    requires 0 < i < |rs|
    requires Reaches(rs, 0, i, s)
    ensures !(Dec(rs[i].first) == s && Inc(rs[i - 1].last) == s)
  {
    ReachesPrevious(rs, 0, i, s);
  }

  /** The walk that stands at position `i` gets to position `k` without returning. */
  predicate Reaches(rs: seq<Rng>, i: nat, k: nat, s: u32)
    requires i <= k < |rs|
    decreases k - i
  {
    i == k || (!Stops(rs, i, s) && Reaches(rs, i + 1, k, s))
  }

  /** One of the returning branches is taken at position `i`. */
  predicate Stops(rs: seq<Rng>, i: nat, s: u32)
    requires i < |rs|
  {
    || Inc(rs[i].last) == s
    || Dec(rs[i].first) == s
    || (rs[i].last < s && (i + 1 < |rs| ==> s < rs[i + 1].first))
  }

  lemma {:induction false} ReachesPrevious(rs: seq<Rng>, i: nat, k: nat, s: u32)
    requires i < k < |rs| && Reaches(rs, i, k, s)
    ensures !Stops(rs, k - 1, s)
    decreases k - i
  {
    if i + 1 < k {
      ReachesPrevious(rs, i + 1, k, s);
    }
  }

  /** A walk that reaches position `k` computes there what it computes from the start. */
  lemma {:induction false} ReachesMeansCalled(rs: seq<Rng>, i: nat, k: nat, s: u32)
    requires i <= k < |rs| && Reaches(rs, i, k, s)
    ensures AddFrom(rs, i, s) == AddFrom(rs, k, s)
    decreases k - i
  {
    if i < k {
      ReachesMeansCalled(rs, i + 1, k, s);
    }
  }

  // ---------------------------------------------------------------- sequencer_complete

  /** The loop of sequencer_complete from position `i` on, on the list as it then is. */
  function MergeFrom(rs: seq<Rng>, i: nat): (r: seq<Rng>)
    ensures |r| <= |rs|
    decreases |rs| - i
  {
    if i + 1 >= |rs| then rs
    else if Inc(rs[i].last) == rs[i + 1].first then
      MergeFrom(Without(rs, i + 1)[i := Rng(rs[i].first, rs[i + 1].last)], i + 1)
    else MergeFrom(rs, i + 1)
  }

  /** The same pass by recursion on the list. It steps over a range it has just merged. */
  function MergePass(rs: seq<Rng>): (r: seq<Rng>) {
    if |rs| < 2 then rs
    else if Inc(rs[0].last) == rs[1].first then [Rng(rs[0].first, rs[1].last)] + MergePass(rs[2..])
    else [rs[0]] + MergePass(rs[1..])
  }

  /** The in-place loop is the recursive pass on the part of the list still ahead of it. */
  lemma {:induction false} MergeFromIsPass(done: seq<Rng>, todo: seq<Rng>)
    ensures MergeFrom(done + todo, |done|) == done + MergePass(todo)
    decreases |todo|
  {
    var rs, i := done + todo, |done|;
    if |todo| >= 2 {
      assert rs[i] == todo[0] && rs[i + 1] == todo[1];
      var n, m := 1, todo[0];
      if Inc(todo[0].last) == todo[1].first {
        n, m := 2, Rng(todo[0].first, todo[1].last);
        assert Without(rs, i + 1)[i := m] == (done + [m]) + todo[2..];
      } else {
        assert rs == (done + [m]) + todo[1..];
      }
      MergeFromIsPass(done + [m], todo[n..]);
      assert (done + [m]) + MergePass(todo[n..]) == done + ([m] + MergePass(todo[n..]));
    }
  }

  lemma WholeLoopIsPass(rs: seq<Rng>)
    ensures MergeFrom(rs, 0) == MergePass(rs)
  {
    MergeFromIsPass([], rs);
    assert [] + rs == rs && [] + MergePass(rs) == MergePass(rs);
  }

  /** A pass keeps the list sorted, its head and its tail, and the set. */
  lemma {:induction false} PassKeepsSet(rs: seq<Rng>)
    requires Sorted(rs)
    ensures Sorted(MergePass(rs)) && |MergePass(rs)| <= |rs|
    ensures MergePass(rs) == [] <==> rs == []
    ensures rs != [] ==> MergePass(rs)[0].first == rs[0].first
    ensures forall x :: Covers(MergePass(rs), x) <==> Covers(rs, x)
  {
    if |rs| >= 2 {
      var n := if Inc(rs[0].last) == rs[1].first then 2 else 1;
      var head := if n == 2 then Rng(rs[0].first, rs[1].last) else rs[0];
      assert rs[0].last < rs[1].first;
      PassKeepsSet(rs[n..]);
      var tail := MergePass(rs[n..]);
      assert MergePass(rs) == [head] + tail;
      HeadAndRest(rs, n, head, tail);
    }
  }

  lemma HeadAndRest(rs: seq<Rng>, n: nat, head: Rng, tail: seq<Rng>)
    requires Sorted(rs) && 1 <= n <= 2 && n <= |rs|
    requires n == 2 ==> rs[0].last + 1 == rs[1].first
    requires head == Rng(rs[0].first, rs[n - 1].last)
    requires Sorted(tail) && (forall x :: Covers(tail, x) <==> Covers(rs[n..], x))
    requires tail == [] <==> rs[n..] == []
    requires tail != [] ==> tail[0].first == rs[n].first
    ensures Sorted([head] + tail)
    ensures forall x :: Covers([head] + tail, x) <==> Covers(rs, x)
  {
    assert tail != [] ==> rs[n - 1].last < rs[n].first;
    forall x
      ensures Covers([head] + tail, x) <==> Covers(rs, x)
    {
      assert [head] + tail == [] + [head] + tail;
      CoversAround([], head, tail, x);
      assert rs == [] + [rs[0]] + rs[1..];
      CoversAround([], rs[0], rs[1..], x);
      if n == 2 {
        assert rs[1..] == [] + [rs[1]] + rs[2..];
        CoversAround([], rs[1], rs[2..], x);
      }
    }
  }

  /** Passes leave a list alone exactly when it is canonical already. */
  lemma {:induction false} PassFixesExactlyCanonical(rs: seq<Rng>)
    requires Sorted(rs)
    ensures MergePass(rs) == rs <==> Canonical(rs)
  {
    if |rs| >= 2 {
      assert rs[0].last < rs[1].first;
      CanonicalStep(rs);
      if Inc(rs[0].last) == rs[1].first {
        PassKeepsSet(rs[2..]);
        assert |MergePass(rs)| < |rs|;
      } else {
        PassFixesExactlyCanonical(rs[1..]);
        assert rs == [rs[0]] + rs[1..];
        assert MergePass(rs)[1..] == MergePass(rs[1..]);
      }
    }
  }

  lemma CanonicalStep(rs: seq<Rng>)
    requires Sorted(rs) && |rs| >= 2
    ensures Canonical(rs) <==> rs[0].last + 1 < rs[1].first && Canonical(rs[1..])
  {
    if Canonical(rs) {
      assert rs[0].last + 1 < rs[0 + 1].first;
      assert forall i :: 0 <= i < |rs[1..]| - 1 ==> rs[1..][i].last == rs[i + 1].last;
    }
    if rs[0].last + 1 < rs[1].first && Canonical(rs[1..]) {
      forall i | 0 <= i < |rs| - 1
        ensures rs[i].last + 1 < rs[i + 1].first
      {
        if i > 0 {
          assert rs[1..][i - 1].last + 1 < rs[1..][i].first;
        }
      }
    }
  }

  // ---------------------------------------------------------------- canonical lists

  /** There is one canonical list for each set. */
  lemma {:induction false} CanonicalUnique(rs: seq<Rng>, ts: seq<Rng>)
    requires Canonical(rs) && Canonical(ts)
    requires forall x :: Covers(rs, x) <==> Covers(ts, x)
    ensures rs == ts
  {
    HeadCovered(rs);
    HeadCovered(ts);
    if rs != [] {
      SameHead(rs, ts);
      TailsAgree(rs, ts);
      CanonicalUnique(rs[1..], ts[1..]);
      assert rs == [rs[0]] + rs[1..] && ts == [ts[0]] + ts[1..];
    }
  }

  lemma HeadCovered(rs: seq<Rng>)
    requires Sorted(rs)
    ensures rs != [] ==> Covers(rs, rs[0].first)
  {
    if rs != [] {
      assert rs[0].first <= rs[0].first <= rs[0].last;
    }
  }

  lemma TailsAgree(rs: seq<Rng>, ts: seq<Rng>)
    requires Sorted(rs) && Sorted(ts) && rs != [] && ts != [] && rs[0] == ts[0]
    requires forall x :: Covers(rs, x) <==> Covers(ts, x)
    ensures forall x :: Covers(rs[1..], x) <==> Covers(ts[1..], x)
  {
    forall x
      ensures Covers(rs[1..], x) <==> Covers(ts[1..], x)
    {
      CoversTail(rs, x);
      CoversTail(ts, x);
    }
  }

  lemma CoversTail(rs: seq<Rng>, x: int)
    requires Sorted(rs) && rs != []
    ensures Covers(rs[1..], x) <==> Covers(rs, x) && x > rs[0].last
  {
    assert rs == [] + [rs[0]] + rs[1..];
    CoversAround([], rs[0], rs[1..], x);
    if k :| 0 <= k < |rs[1..]| && rs[1..][k].first <= x <= rs[1..][k].last {
      assert rs[0].last < rs[k + 1].first;
    }
  }

  lemma SameHead(rs: seq<Rng>, ts: seq<Rng>)
    requires Canonical(rs) && Canonical(ts) && rs != [] && ts != []
    requires forall x :: Covers(rs, x) <==> Covers(ts, x)
    ensures rs[0] == ts[0]
  {
    HeadBounds(rs, ts);
    HeadBounds(ts, rs);
  }

  lemma HeadBounds(rs: seq<Rng>, ts: seq<Rng>)
    requires Canonical(rs) && Canonical(ts) && rs != [] && ts != []
    requires forall x :: Covers(rs, x) <==> Covers(ts, x)
    ensures rs[0].first >= ts[0].first
    ensures rs[0].first == ts[0].first ==> rs[0].last <= ts[0].last
  {
    var a := rs[0].first;
    assert rs[0].first <= a <= rs[0].last;
    assert Covers(ts, a);
    var k :| 0 <= k < |ts| && ts[k].first <= a <= ts[k].last;
    assert k > 0 ==> ts[0].last < ts[k].first;
    if rs[0].first == ts[0].first && rs[0].last > ts[0].last {
      GapAfterHead(ts);
    }
  }

  lemma GapAfterHead(ts: seq<Rng>)
    requires Canonical(ts) && ts != []
    ensures !Covers(ts, ts[0].last + 1)
  {
    if |ts| > 1 {
      assert ts[0].last + 1 < ts[0 + 1].first;
    }
    forall k | 0 < k < |ts|
      ensures ts[0].last + 1 < ts[k].first
    {
      assert k > 1 ==> ts[1].last < ts[k].first;
    }
  }
}
