/** How fast repeated polling with sequencer_complete tidies the range list (src/sequencer.c:126-138):
    a pass merges neighbours two by two, so it halves every run of adjacent ranges. */
module Polling {
  import opened Basics
  import opened Ranges

  /** Ranges `i` and `i + 1` are adjacent, so that a pass could merge them. */
  predicate Joint(rs: seq<Rng>, i: nat)
    requires i + 1 < |rs|
  {
    Inc(rs[i].last) == rs[i + 1].first
  }

  /** A list of lengths. */
  datatype Lengths = End | Len(head: nat, tail: Lengths)

  /** Lengths, in ranges, of the maximal runs of adjacent ranges, from the head on. */
  function Runs(rs: seq<Rng>): (ks: Lengths)
    ensures rs == [] <==> ks == End
  {
    if rs == [] then End
    else if |rs| > 1 && Joint(rs, 0) then Longer(Runs(rs[1..]))
    else Len(1, Runs(rs[1..]))
  }

  /** The first run is one range longer. */
  function Longer(ks: Lengths): Lengths
    requires ks.Len?
  {
    Len(ks.head + 1, ks.tail)
  }

  /** ceil(k / 2), for each run */
  function HalfUp(ks: Lengths): Lengths {
    match ks
    case End => End
    case Len(k, rest) => Len((k + 1) / 2, HalfUp(rest))
  }

  predicate AllAtMost(ks: Lengths, k: nat) {
    ks.Len? ==> ks.head <= k && AllAtMost(ks.tail, k)
  }

  function Polls(rs: seq<Rng>, n: nat): seq<Rng>
    decreases n
  {
    if n == 0 then rs else Polls(MergePass(rs), n - 1)
  }

  function Pow2(n: nat): nat {
    if n == 0 then 1 else 2 * Pow2(n - 1)
  }

  /** One pass turns each run of k adjacent ranges into a run of ceil(k / 2). */
  lemma {:induction false} PassHalvesRuns(rs: seq<Rng>)
    ensures Runs(MergePass(rs)) == HalfUp(Runs(rs))
  {
    if |rs| == 1 {
      assert rs[1..] == [];
    } else if |rs| >= 2 {
      assert rs == [rs[0]] + ([rs[1]] + rs[2..]) && rs[1..] == [rs[1]] + rs[2..];
      if Joint(rs, 0) {
        PassHalvesRuns(rs[2..]);
        PassKeepsHead(rs[2..]);
        PairHalved(rs[0], rs[1], rs[2..], MergePass(rs[2..]));
      } else {
        PassHalvesRuns(rs[1..]);
        PassKeepsHead(rs[1..]);
        SingleKept(rs[0], rs[1..], MergePass(rs[1..]));
      }
    }
  }

  /** The ranges `todo` have been passed over and have become `done`. */
  predicate Halved(todo: seq<Rng>, done: seq<Rng>) {
    && Runs(done) == HalfUp(Runs(todo))
    && (todo == [] <==> done == [])
    && (todo != [] ==> done[0].first == todo[0].first)
  }

  lemma SingleKept(a: Rng, todo: seq<Rng>, done: seq<Rng>)
    requires todo != [] && Inc(a.last) != todo[0].first && Halved(todo, done)
    ensures Runs([a] + done) == HalfUp(Runs([a] + todo))
  {
    RunsOfCons(a, todo);
    RunsOfCons(a, done);
  }

  lemma PairHalved(a: Rng, b: Rng, todo: seq<Rng>, done: seq<Rng>)
    requires Inc(a.last) == b.first && Halved(todo, done)
    ensures Runs([Rng(a.first, b.last)] + done) == HalfUp(Runs([a] + ([b] + todo)))
  {
    RunsOfCons(b, todo);
    RunsOfCons(a, [b] + todo);
    RunsOfCons(Rng(a.first, b.last), done);
  }

  lemma RunsOfCons(r: Rng, rs: seq<Rng>)
    ensures Runs([r] + rs) ==
            if rs != [] && Inc(r.last) == rs[0].first then Longer(Runs(rs)) else Len(1, Runs(rs))
  {
    assert ([r] + rs)[1..] == rs;
  }

  lemma PassKeepsHead(rs: seq<Rng>)
    ensures MergePass(rs) == [] <==> rs == []
    ensures rs != [] ==> MergePass(rs)[0].first == rs[0].first
  {
  }

  /** A sorted list is canonical exactly when all its runs have length one. */
  lemma {:induction false} CanonicalIffSingleRuns(rs: seq<Rng>)
    requires Sorted(rs)
    ensures Canonical(rs) <==> AllAtMost(Runs(rs), 1)
  {
    if |rs| >= 2 {
      CanonicalStep(rs);
      CanonicalIffSingleRuns(rs[1..]);
      assert rs[0].last < rs[1].first;
      RunsPositive(rs[1..]);
    }
  }

  lemma {:induction false} RunsPositive(rs: seq<Rng>)
    ensures rs != [] ==> Runs(rs).head >= 1
  {
    if rs != [] {
      RunsPositive(rs[1..]);
    }
  }

  /** After n calls the list is canonical if and only if no run was longer than 2^n ranges, so the
      calls needed are exactly ceil(log2 of the longest run). */
  lemma {:induction false} PollsConverge(rs: seq<Rng>, n: nat)
    requires Sorted(rs)
    ensures Canonical(Polls(rs, n)) <==> AllAtMost(Runs(rs), Pow2(n))
    ensures Sorted(Polls(rs, n)) && forall x :: Covers(Polls(rs, n), x) <==> Covers(rs, x)
    decreases n
  {
    if n == 0 {
      CanonicalIffSingleRuns(rs);
    } else {
      PassKeepsSet(rs);
      PassHalvesRuns(rs);
      PollsConverge(MergePass(rs), n - 1);
      HalvedBound(Runs(rs), Pow2(n - 1));
    }
  }

  lemma {:induction false} HalvedBound(ks: Lengths, k: nat)
    ensures AllAtMost(HalfUp(ks), k) <==> AllAtMost(ks, 2 * k)
  {
    if ks.Len? {
      HalvedBound(ks.tail, k);
    }
  }

  /** Whatever the calls before, a canonical result is the one list for the set, and more calls
      change nothing. */
  lemma PollsAgree(rs: seq<Rng>, n: nat, m: nat)
    requires Sorted(rs) && n <= m && AllAtMost(Runs(rs), Pow2(n))
    ensures Polls(rs, m) == Polls(rs, n)
  {
    Pow2Grows(n, m);
    LooserBound(Runs(rs), Pow2(n), Pow2(m));
    PollsConverge(rs, n);
    PollsConverge(rs, m);
    CanonicalUnique(Polls(rs, n), Polls(rs, m));
  }

  lemma {:induction false} LooserBound(ks: Lengths, k: nat, m: nat)
    requires AllAtMost(ks, k) && k <= m
    ensures AllAtMost(ks, m)
  {
    if ks.Len? {
      LooserBound(ks.tail, k, m);
    }
  }

  lemma {:induction false} Pow2Grows(n: nat, m: nat)
    requires n <= m
    ensures Pow2(n) <= Pow2(m)
    decreases m
  {
    if n < m {
      Pow2Grows(n, m - 1);
    }
  }

  // ------------------------------------------------------------ one add on a canonical list

  predicate AtMostOneJoint(rs: seq<Rng>) {
    forall i, j :: 0 <= i < |rs| - 1 && 0 <= j < |rs| - 1 && Joint(rs, i) && Joint(rs, j) ==> i == j
  }

  /** sequencer_add on a fully merged list leaves at most one adjacent pair. */
  lemma AddLeavesOneJoint(rs: seq<Rng>, s: u32)
    requires Canonical(rs) && !Wraps(rs, s)
    ensures AtMostOneJoint(Add(rs, s).0)
  {
    CanonicalHasNoJoint(rs);
    if !Covers(rs, s) && rs != [] {
      if s + 1 < rs[0].first {
        LowNumberDropped(rs, 0, s);
      } else {
        WalkLeavesOneJoint(rs, 0, s);
      }
    }
  }

  lemma CanonicalHasNoJoint(rs: seq<Rng>)
    requires Canonical(rs)
    ensures forall i :: 0 <= i < |rs| - 1 ==> !Joint(rs, i)
  {
    forall i | 0 <= i < |rs| - 1
      ensures !Joint(rs, i)
    {
      assert rs[i].last + 1 < rs[i + 1].first;
    }
  }

  lemma {:induction false} WalkLeavesOneJoint(rs: seq<Rng>, i: nat, s: u32)
    requires Canonical(rs) && i < |rs| && !Covers(rs, s) && s + 1 >= rs[0].first && !Wraps(rs, s)
    requires WalkedTo(rs, i, s)
    requires forall j :: 0 <= j < |rs| - 1 ==> !Joint(rs, j)
    ensures AtMostOneJoint(AddFrom(rs, i, s).0)
    decreases |rs| - i
  {
    assert !(rs[i].first <= s <= rs[i].last);
    assert i + 1 < |rs| ==> rs[i].last + 1 < rs[i + 1].first;
    if Inc(rs[i].last) == s {
      assert i > 0 ==> !Joint(rs, i - 1);
      if i + 1 < |rs| && Dec(rs[i + 1].first) == s {
        assert i + 2 < |rs| ==> !Joint(rs, i + 1);
        NoJointAfterReplacing(rs, i, 2, Rng(rs[i].first, rs[i + 1].last));
      } else {
        NoJointAfterReplacing(rs, i, 1, Rng(rs[i].first, s));
      }
    } else if Dec(rs[i].first) == s {
      assert i == 0;
      assert 1 < |rs| ==> !Joint(rs, 0);
      NoJointAfterReplacing(rs, i, 1, Rng(s, rs[i].last));
    } else if i + 1 < |rs| && !(rs[i].last < s < rs[i + 1].first) {
      WalkLeavesOneJoint(rs, i + 1, s);
    } else {
      OneJointAfterInserting(rs, i + 1, Rng(s, s));
    }
  }

  /** Putting `r` for the `n` ranges at `i`, without touching its neighbours, makes no joint. */
  lemma NoJointAfterReplacing(rs: seq<Rng>, i: nat, n: nat, r: Rng)
    requires 1 <= n <= 2 && i + n <= |rs|
    requires forall j :: 0 <= j < |rs| - 1 ==> !Joint(rs, j)
    requires i > 0 ==> Inc(rs[i - 1].last) != r.first
    requires i + n < |rs| ==> Inc(r.last) != rs[i + n].first
    ensures AtMostOneJoint(if n == 1 then rs[i := r] else Without(rs, i + 1)[i := r])
  {
    var out := if n == 1 then rs[i := r] else Without(rs, i + 1)[i := r];
    forall j | 0 <= j < |out| - 1
      ensures !Joint(out, j)
    {
      assert j + 1 < i ==> !Joint(rs, j);
      assert j > i ==> !Joint(rs, j + n - 1);
    }
  }

  lemma OneJointAfterInserting(rs: seq<Rng>, i: nat, r: Rng)
    requires 0 < i <= |rs|
    requires forall j :: 0 <= j < |rs| - 1 ==> !Joint(rs, j)
    requires Inc(rs[i - 1].last) != r.first
    ensures AtMostOneJoint(Inserted(rs, i, r))
  {
    var out := Inserted(rs, i, r);
    forall j | 0 <= j < |out| - 1 && j != i
      ensures !Joint(out, j)
    {
      assert j + 1 < i ==> !Joint(rs, j);
      assert j > i ==> !Joint(rs, j - 1);
    }
  }

  /** With at most one adjacent pair every run has length two at most, so one pass is enough. */
  lemma OnePassMendsOneJoint(rs: seq<Rng>)
    requires Sorted(rs) && AtMostOneJoint(rs)
    ensures Canonical(MergePass(rs))
  {
    ShortRuns(rs);
    PollsConverge(rs, 1);
    assert Polls(rs, 1) == Polls(MergePass(rs), 0) == MergePass(rs);
    assert Pow2(1) == 2 * Pow2(0) == 2;
  }

  lemma {:induction false} ShortRuns(rs: seq<Rng>)
    requires AtMostOneJoint(rs)
    ensures AllAtMost(Runs(rs), 2)
    ensures (forall i :: 0 <= i < |rs| - 1 ==> !Joint(rs, i)) ==> AllAtMost(Runs(rs), 1)
  {
    if |rs| >= 2 {
      assert forall i :: 0 <= i < |rs[1..]| - 1 ==> (Joint(rs[1..], i) <==> Joint(rs, i + 1));
      ShortRuns(rs[1..]);
    }
  }
}
