/** How many votes a visitor can come to hold when calls overlap: an upper bound, and that all counts below occur. */
module PollLimit {
  import opened Prelude
  import opened PollKeys
  import opened PollTable
  import opened PollBallot
  import opened PollRuns
  import opened PollTheorems

  // ---- the upper bound ----

  /** Votes held plus votes in flight: zero, or within the limit plus the overlap. */
  ghost predicate Bounded(s: System, v: string, k: nat) {
    var n := |OwnKeys(s.table, v)| + |InFlight(s, v)|;
    n == 0 || (Opened(s.table) && 1 <= k && 1 <= s.table[META].maxChoices && n <= s.table[META].maxChoices - 1 + k)
  }

  lemma FinishBounded(s: System, id: nat, t: Table, o: Outcome, v: string, k: nat)
    requires Bounded(s, v, k) && Active(s, id)
    requires Opened(s.table) ==> Opened(t) && t[META].maxChoices == s.table[META].maxChoices
    requires |OwnKeys(t, v)| <= |OwnKeys(s.table, v)| + (if id in InFlight(s, v) then 1 else 0)
    ensures Bounded(Finish(s, id, t, o), v, k)
  {
    assert InFlight(Finish(s, id, t, o), v) == InFlight(s, v) - {id};
  }

  lemma StepBounded(s: System, a: Action, v: string, k: nat)
    requires IsVisitor(v) && Inv(s) && Bounded(s, v, k) && |InFlight(Step(s, a), v)| <= k
    ensures Bounded(Step(s, a), v, k)
  {
    hide Commit;
    match a
    case OpenPoll(os, m) =>
      if META !in s.table {
        OpenIsSound(s.table, os, m);
        OwnKeysAreVoteKeys(Step(s, a).table, v);
        forall id | id in s.calls ensures !s.calls[id].phase.Passed? {
          assert CallFits(s, id);
        }
        assert InFlight(Step(s, a), v) == {};
      }
    case Begin(id, _, _) =>
      assert InFlight(Step(s, a), v) == InFlight(s, v);
    case Advance(id) =>
      if Active(s, id) {
        AdvanceBounded(s, id, v, k);
      }
    case Fault(id) =>
      if Active(s, id) {
        FinishBounded(s, id, s.table, StoreError, v, k);
      }
  }

  lemma AdvanceBounded(s: System, id: nat, v: string, k: nat)
    requires IsVisitor(v) && Inv(s) && Bounded(s, v, k) && Active(s, id)
    requires |InFlight(Step(s, Advance(id)), v)| <= k
    ensures Bounded(Step(s, Advance(id)), v, k)
  {
    hide Commit;
    var c := s.calls[id];
    var s' := Step(s, Advance(id));
    assert CallFits(s, id);
    if AtCommit(c) {
      CommitStep(s, id);
      CommitChanges(s.table, c.visitor, c.request);
      var t, o := Commit(s.table, c.visitor, c.request).0, Commit(s.table, c.visitor, c.request).1;
      ChangesOwnKeys(s.table, c.visitor, c.request, t, o, v);
      FinishBounded(s, id, t, o, v, k);
    } else if c.phase.Started? && !Opened(s.table) {
      FinishBounded(s, id, s.table, PollNotFound, v, k);
    } else if c.phase.Started? && !NamesOptions(c.request, s.table[META].options) {
      FinishBounded(s, id, s.table, InvalidChoice, v, k);
    } else if c.phase.MetaRead? && |OwnKeys(s.table, c.visitor)| >= c.phase.maxChoices {
      FinishBounded(s, id, s.table, MaxChoicesExceeded, v, k);
    } else if c.phase.Started? {
      assert InFlight(s', v) == InFlight(s, v);
    } else {
      assert c.phase.MetaRead?;
      if c.visitor != v {
        assert InFlight(s', v) == InFlight(s, v);
      }
    }
  }

  /**
   * If at most k of a visitor's votes are ever between the limit check and the commit at one time, the visitor never
   * holds more than maxChoices - 1 + k votes, whatever other requests do.
   */
  lemma {:induction false} OverlapBoundsVotes(acts: seq<Action>, v: string, k: nat)
    requires IsVisitor(v) && AlwaysAtMost(acts, v, k)
    ensures var t := Run(acts).table;
            OwnKeys(t, v) == {} || (Opened(t) && |OwnKeys(t, v)| <= t[META].maxChoices - 1 + k)
    ensures Bounded(Run(acts), v, k)
  {
    if acts == [] {
      assert OwnKeys(INIT.table, v) == {} && InFlight(INIT, v) == {};
    } else {
      var n := |acts| - 1;
      OverlapBoundsVotes(acts[..n], v, k);
      RunKeepsInv(acts[..n]);
      StepBounded(Run(acts[..n]), acts[n], v, k);
    }
  }

  /** Without overlap the limit holds as documented. */
  lemma {:induction false} ExclusiveCallsKeepLimit(acts: seq<Action>, v: string)
    requires IsVisitor(v) && AlwaysExclusive(acts)
    ensures var t := Run(acts).table;
            OwnKeys(t, v) == {} || (Opened(t) && |OwnKeys(t, v)| <= t[META].maxChoices)
  {
    ExclusiveIsAtMostOne(acts, v);
    OverlapBoundsVotes(acts, v, 1);
  }

  function OptionSet(options: seq<string>): set<string> {
    set o | o in options
  }

  /** Nobody holds more votes than there are different options. */
  lemma OneVotePerOption(t: Table, v: string)
    requires WellFormed(t) && Opened(t) && IsVisitor(v)
    ensures |OwnKeys(t, v)| <= |OptionSet(t[META].options)|
  {
    var own := OwnKeys(t, v);
    OwnKeysAreVoteKeys(t, v);
    var chosen := set k | k in own :: ChoiceOf(k);
    forall k, k' | k in own && k' in own && ChoiceOf(k) == ChoiceOf(k') ensures k == k' {
      VoteKeyInvertsDecode(k);
      VoteKeyInvertsDecode(k');
      PrefixSelectsOwner(v, k);
      PrefixSelectsOwner(v, k');
    }
    InjectiveImageSize(own, chosen, ChoiceOf);
    var options := OptionSet(t[META].options);
    assert options == chosen + (options - chosen);
  }

  // ---- every count below the bound occurs ----

  /** A vote that is alone in holding no record passes both checks in two steps. */
  lemma PassesChecks(s: System, id: nat)
    requires id in s.calls && s.calls[id].phase == Started && s.calls[id].request.Vote?
    requires Opened(s.table) && s.calls[id].request.choice in s.table[META].options
    requires |OwnKeys(s.table, s.calls[id].visitor)| < s.table[META].maxChoices
    ensures Step(Step(s, Advance(id)), Advance(id)) == s.(calls := s.calls[id := s.calls[id].(phase := Passed)])
  {
    hide Commit;
    var m := s.table[META].maxChoices;
    var s1 := Step(s, Advance(id));
    assert s1 == s.(calls := s.calls[id := s.calls[id].(phase := MetaRead(m))]);
  }

  /** A call in flight whose record does not exist yet is accepted, whatever the limit. */
  lemma AcceptedVote(s: System, id: nat)
    requires Inv(s) && id in s.calls && s.calls[id].phase.Passed?
    requires s.calls[id].request.Vote? && VoteKey(s.calls[id].visitor, s.calls[id].request.choice) !in s.table
    ensures var c, s' := s.calls[id], Step(s, Advance(id));
            && |OwnKeys(s'.table, c.visitor)| == |OwnKeys(s.table, c.visitor)| + 1
            && Opened(s.table) && Opened(s'.table) && s'.table[META].maxChoices == s.table[META].maxChoices
            && VoteKeys(s'.table) == VoteKeys(s.table) + {VoteKey(c.visitor, c.request.choice)}
            && s'.calls == s.calls[id := c.(phase := Done(Ok), landedAt := |s.log|)]
  {
    var c := s.calls[id];
    assert CallFits(s, id);
    CommitStep(s, id);
    CommitChanges(s.table, c.visitor, c.request);
    VoteTransaction(s.table, c.visitor, c.request.choice);
    ChangesOwnKeys(s.table, c.visitor, c.request, Commit(s.table, c.visitor, c.request).0, Ok, c.visitor);
  }


  /** Different options a visitor can vote for. */
  predicate Choosable(os: seq<string>, cs: seq<string>) {
    (forall i, j :: 0 <= i < j < |cs| ==> cs[i] != cs[j]) && forall i :: 0 <= i < |cs| ==> cs[i] in os
  }

  /** The records of the first `n` choices. */
  function Recorded(v: string, cs: seq<string>, n: nat): set<string>
    requires n <= |cs|
  {
    if n == 0 then {} else Recorded(v, cs, n - 1) + {VoteKey(v, cs[n - 1])}
  }

  lemma {:induction false} RecordedFacts(v: string, os: seq<string>, cs: seq<string>, n: nat)
    requires IsVisitor(v) && Choosable(os, cs) && n <= |cs|
    ensures |Recorded(v, cs, n)| == n
    ensures forall j :: n <= j < |cs| ==> VoteKey(v, cs[j]) !in Recorded(v, cs, n)
    ensures forall k :: k in Recorded(v, cs, n) ==> Prefix(v) <= k
  {
    if n > 0 {
      RecordedFacts(v, os, cs, n - 1);
      forall j | n <= j < |cs| ensures VoteKey(v, cs[j]) != VoteKey(v, cs[n - 1]) {
        if VoteKey(v, cs[j]) == VoteKey(v, cs[n - 1]) {
          VoteKeyInjective(v, cs[j], v, cs[n - 1]);
        }
      }
      assert Prefix(v) + cs[n - 1] == VoteKey(v, cs[n - 1]);
    }
  }

  function Interval(a: nat, b: nat): (s: set<nat>)
    requires a <= b
    ensures |s| == b - a && forall i :: i in s <==> a <= i < b
  {
    if a == b then {} else Interval(a, b - 1) + {b - 1}
  }

  /**
   * A visitor with `n` votes recorded and `f` in flight, each for another one of the listed choices, on a poll with
   * limit `m`.
   */
  ghost predicate Shape(s: System, v: string, os: seq<string>, cs: seq<string>, m: int, n: nat, f: nat) {
    && Opened(s.table) && s.table[META].options == os && s.table[META].maxChoices == m
    && n + f <= |cs|
    && VoteKeys(s.table) == Recorded(v, cs, n)
    && (forall id: nat :: id in s.calls <==> id < n + f)
    && (forall id: nat :: id < n + f ==>
          s.calls[id].visitor == v && s.calls[id].request == Vote(cs[id])
          && (s.calls[id].phase.Passed? <==> n <= id))
  }

  lemma ShapeCounts(s: System, v: string, os: seq<string>, cs: seq<string>, m: int, n: nat, f: nat)
    requires IsVisitor(v) && Choosable(os, cs) && Shape(s, v, os, cs, m, n, f)
    ensures |OwnKeys(s.table, v)| == n && |InFlight(s, v)| == f
  {
    assert InFlight(s, v) == Interval(n, n + f);
    RecordedFacts(v, os, cs, n);
    OwnKeysAreVoteKeys(s.table, v);
    assert OwnKeys(s.table, v) == Recorded(v, cs, n);
  }

  /** Another vote is cast and passes the limit check. */
  lemma OneMorePasses(s: System, v: string, os: seq<string>, cs: seq<string>, m: int, n: nat, f: nat)
    requires IsVisitor(v) && Choosable(os, cs) && Shape(s, v, os, cs, m, n, f) && n < m && n + f < |cs|
    ensures var s1 := Step(s, Begin(n + f, v, Vote(cs[n + f])));
            var s2 := Step(s1, Advance(n + f));
            && |InFlight(s1, v)| == f && |InFlight(s2, v)| == f
            && Shape(Step(s2, Advance(n + f)), v, os, cs, m, n, f + 1)
  {
    var id := n + f;
    ShapeCounts(s, v, os, cs, m, n, f);
    hide Commit, AdvanceCall, OwnKeys, VoteKeys, Recorded, HashIndex;
    var s1 := Step(s, Begin(id, v, Vote(cs[id])));
    assert s1.table == s.table && s1.calls == s.calls[id := Call(v, Vote(cs[id]), Started, |s.log|, 0)];
    PassesChecks(s1, id);
    ShapeGrows(s, Step(Step(s1, Advance(id)), Advance(id)), v, os, cs, m, n, f, |s.log|);
    assert InFlight(s1, v) == InFlight(s, v) && InFlight(Step(s1, Advance(id)), v) == InFlight(s, v);
  }

  lemma ShapeGrows(s: System, s': System, v: string, os: seq<string>, cs: seq<string>, m: int, n: nat, f: nat, at: nat)
    requires Shape(s, v, os, cs, m, n, f) && n + f < |cs| && s'.table == s.table
    requires s'.calls == s.calls[n + f := Call(v, Vote(cs[n + f]), Passed, at, 0)]
    ensures Shape(s', v, os, cs, m, n, f + 1)
  {
    hide VoteKeys, Recorded;
  }

  /** The oldest vote in flight is recorded. */
  lemma OneMoreRecorded(s: System, v: string, os: seq<string>, cs: seq<string>, m: int, n: nat, f: nat)
    requires Inv(s) && IsVisitor(v) && Choosable(os, cs) && Shape(s, v, os, cs, m, n, f) && 0 < f
    ensures Shape(Step(s, Advance(n)), v, os, cs, m, n + 1, f - 1)
  {
    VoteKeyIsNotMeta(v, cs[n]);
    RecordedFacts(v, os, cs, n);
    assert VoteKey(v, cs[n]) !in VoteKeys(s.table);
    assert Passing(s, n);
    StepKeepsOptions(s, n);
    hide Commit, Step, Inv, HashIndex, Recorded, OwnKeys;
    AcceptedVote(s, n);
    hide VoteKeys;
    ShapeLands(s, Step(s, Advance(n)), v, os, cs, m, n, f);
  }

  lemma ShapeLands(s: System, s': System, v: string, os: seq<string>, cs: seq<string>, m: int, n: nat, f: nat)
    requires Shape(s, v, os, cs, m, n, f) && 0 < f
    requires Opened(s'.table) && s'.table[META].options == os && s'.table[META].maxChoices == m
    requires VoteKeys(s'.table) == VoteKeys(s.table) + {VoteKey(v, cs[n])}
    requires s'.calls == s.calls[n := s.calls[n].(phase := Done(Ok), landedAt := |s.log|)]
    ensures Shape(s', v, os, cs, m, n + 1, f - 1)
  {
    hide VoteKeys, VoteKey;
  }

  lemma StepKeepsOptions(s: System, id: nat)
    requires Inv(s) && Passing(s, id)
    ensures Opened(s.table) && Opened(Step(s, Advance(id)).table)
    ensures Step(s, Advance(id)).table[META].options == s.table[META].options
  {
    var c := s.calls[id];
    assert CallFits(s, id);
    CommitStep(s, id);
    CommitChanges(s.table, c.visitor, c.request);
  }

  lemma OneMoreAction(acts: seq<Action>, a: Action, v: string, k: nat)
    ensures Run(acts + [a]) == Step(Run(acts), a)
    ensures AlwaysAtMost(acts + [a], v, k) <==> AlwaysAtMost(acts, v, k) && |InFlight(Step(Run(acts), a), v)| <= k
  {
    assert (acts + [a])[..|acts + [a]| - 1] == acts;
  }

  /** A run after which a visitor holds `n` votes, with at most `k` of its votes in flight at any time. */
  ghost predicate HoldsAfter(acts: seq<Action>, v: string, os: seq<string>, m: int, k: nat, n: nat) {
    var t := Run(acts).table;
    AlwaysAtMost(acts, v, k) && Opened(t) && t[META].options == os && t[META].maxChoices == m && |OwnKeys(t, v)| == n
  }

  ghost predicate CanHold(v: string, os: seq<string>, m: int, k: nat, n: nat) {
    exists acts :: HoldsAfter(acts, v, os, m, k, n)
  }

  lemma OpenOnly(v: string, os: seq<string>, cs: seq<string>, m: int, k: nat)
    ensures Shape(Run([OpenPoll(os, m)]), v, os, cs, m, 0, 0) && AlwaysAtMost([OpenPoll(os, m)], v, k)
  {
    var acts := [OpenPoll(os, m)];
    var s := Run(acts);
    OneMoreAction([], OpenPoll(os, m), v, k);
    assert [] + [OpenPoll(os, m)] == acts;
    assert s == System(map[META := Meta(os, m, ZeroVotes(os))], map[], [PollOpened(os, m)]);
    assert VoteKeys(s.table) == {} && InFlight(s, v) == {} && InFlight(INIT, v) == {};
  }

  /**
   * A run to `n` votes recorded and `f` in flight: below the limit votes are cast one after the other, and the last
   * ones all pass their check before the first of them is recorded.
   */
  lemma {:induction false} Reach(v: string, os: seq<string>, cs: seq<string>, m: int, k: nat, n: nat, f: nat)
    returns (acts: seq<Action>)
    requires IsVisitor(v) && Choosable(os, cs)
    requires n + f == 0 || (1 <= m && f <= k && 1 <= k && n + f <= m - 1 + k && n + f <= |cs|)
    ensures AlwaysAtMost(acts, v, k) && Shape(Run(acts), v, os, cs, m, n, f)
    decreases 2 * n + f
  {
    hide Run, Step, Shape, AlwaysAtMost, InFlight;
    if n + f == 0 {
      acts := [OpenPoll(os, m)];
      OpenOnly(v, os, cs, m, k);
    } else if n > 0 && (f == 0 || n >= m) {
      acts := Reach(v, os, cs, m, k, n - 1, f + 1);
      acts := Record(acts, v, os, cs, m, k, n - 1, f + 1);
    } else {
      acts := Reach(v, os, cs, m, k, n, f - 1);
      acts := Pass(acts, v, os, cs, m, k, n, f - 1);
    }
  }

  lemma Record(acts: seq<Action>, v: string, os: seq<string>, cs: seq<string>, m: int, k: nat, n: nat, f: nat)
    returns (acts': seq<Action>)
    requires IsVisitor(v) && Choosable(os, cs) && 0 < f <= k
    requires AlwaysAtMost(acts, v, k) && Shape(Run(acts), v, os, cs, m, n, f)
    ensures acts' == acts + [Advance(n)]
    ensures AlwaysAtMost(acts', v, k) && Shape(Run(acts'), v, os, cs, m, n + 1, f - 1)
  {
    RunKeepsInv(acts);
    hide Run, Step, Shape, AlwaysAtMost, InFlight, Inv;
    acts' := acts + [Advance(n)];
    OneMoreRecorded(Run(acts), v, os, cs, m, n, f);
    OneMoreAction(acts, Advance(n), v, k);
    ShapeCounts(Run(acts'), v, os, cs, m, n + 1, f - 1);
  }

  lemma Pass(acts: seq<Action>, v: string, os: seq<string>, cs: seq<string>, m: int, k: nat, n: nat, f: nat)
    returns (acts': seq<Action>)
    requires IsVisitor(v) && Choosable(os, cs) && f < k && n < m && n + f < |cs|
    requires AlwaysAtMost(acts, v, k) && Shape(Run(acts), v, os, cs, m, n, f)
    ensures acts' == acts + [Begin(n + f, v, Vote(cs[n + f]))] + [Advance(n + f)] + [Advance(n + f)]
    ensures AlwaysAtMost(acts', v, k) && Shape(Run(acts'), v, os, cs, m, n, f + 1)
  {
    hide Run, Step, Shape, AlwaysAtMost, InFlight;
    var id := n + f;
    OneMorePasses(Run(acts), v, os, cs, m, n, f);
    var acts1 := acts + [Begin(id, v, Vote(cs[id]))];
    var acts2 := acts1 + [Advance(id)];
    OneMoreAction(acts, Begin(id, v, Vote(cs[id])), v, k);
    OneMoreAction(acts1, Advance(id), v, k);
    acts' := acts2 + [Advance(id)];
    OneMoreAction(acts2, Advance(id), v, k);
    ShapeCounts(Run(acts'), v, os, cs, m, n, f + 1);
  }

  lemma {:induction false} ListOptions(os: seq<string>, s: set<string>) returns (cs: seq<string>)
    requires s <= OptionSet(os)
    ensures Choosable(os, cs) && |cs| == |s| && forall c :: c in cs ==> c in s
  {
    cs := [];
    if s != {} {
      var c :| c in s;
      var rest := ListOptions(os, s - {c});
      cs := rest + [c];
      assert forall i :: 0 <= i < |rest| ==> rest[i] in rest;
    }
  }

  /** Exactly how many votes a visitor can come to hold with at most `k` of its votes in flight. */
  lemma ReachableVoteCounts(v: string, os: seq<string>, m: int, k: nat, n: nat)
    requires IsVisitor(v)
    ensures CanHold(v, os, m, k, n) <==>
            n == 0 || (1 <= m && 1 <= k && n <= m - 1 + k && n <= |OptionSet(os)|)
  {
    hide Run, Step, AlwaysAtMost;
    if CanHold(v, os, m, k, n) && n > 0 {
      var acts :| HoldsAfter(acts, v, os, m, k, n);
      OverlapBoundsVotes(acts, v, k);
      RunKeepsInv(acts);
      OneVotePerOption(Run(acts).table, v);
    }
    if n == 0 || (1 <= m && 1 <= k && n <= m - 1 + k && n <= |OptionSet(os)|) {
      var cs := ListOptions(os, OptionSet(os));
      var acts := Reach(v, os, cs, m, k, n, 0);
      ShapeCounts(Run(acts), v, os, cs, m, n, 0);
      assert HoldsAfter(acts, v, os, m, k, n);
    }
  }

  /** The bound is attained: with enough options some run with at most `k` in flight ends with m - 1 + k votes. */
  lemma BoundIsAttained(v: string, os: seq<string>, m: int, k: nat)
    requires IsVisitor(v) && 1 <= m && 1 <= k && m - 1 + k <= |OptionSet(os)|
    ensures CanHold(v, os, m, k, m - 1 + k)
  {
    ReachableVoteCounts(v, os, m, k, m - 1 + k);
  }

  /**
   * The documented limit holds in every run with at most `k` of a visitor's votes in flight exactly when at most one
   * is, or the limit does not bind: nobody can vote at all, or there are no more options than the limit.
   */
  lemma LimitHoldsExactlyWhen(v: string, os: seq<string>, m: int, k: nat)
    requires IsVisitor(v)
    ensures (forall n: nat :: CanHold(v, os, m, k, n) ==> n == 0 || n <= m) <==> k <= 1 || m < 1 || |OptionSet(os)| <= m
  {
    hide CanHold;
    forall n: nat
      ensures CanHold(v, os, m, k, n) <==> n == 0 || (1 <= m && 1 <= k && n <= m - 1 + k && n <= |OptionSet(os)|)
    {
      ReachableVoteCounts(v, os, m, k, n);
    }
    if 2 <= k && 1 <= m < |OptionSet(os)| {
      assert CanHold(v, os, m, k, m + 1);
    }
  }

  /** For instance: two votes of one visitor both read before either commits, on a poll with one choice per visitor. */
  const OVERLAP: seq<Action> :=
    [OpenPoll(["x", "y"], 1)] + [Begin(0, "v", Vote("x"))] + [Advance(0)] + [Advance(0)]
    + [Begin(1, "v", Vote("y"))] + [Advance(1)] + [Advance(1)] + [Advance(0)] + [Advance(1)]

  /** Both are accepted. */
  lemma OverlapExceedsLimit()
    ensures HoldsAfter(OVERLAP, "v", ["x", "y"], 1, 2, 2)
  {
    hide Run, Step, Shape, AlwaysAtMost, InFlight;
    var v, os := "v", ["x", "y"];
    var acts := [OpenPoll(os, 1)];
    OpenOnly(v, os, os, 1, 2);
    acts := Pass(acts, v, os, os, 1, 2, 0, 0);
    acts := Pass(acts, v, os, os, 1, 2, 0, 1);
    acts := Record(acts, v, os, os, 1, 2, 0, 2);
    acts := Record(acts, v, os, os, 1, 2, 1, 1);
    assert acts == OVERLAP;
    ShapeCounts(Run(acts), v, os, os, 1, 2, 0);
    ShapeIsPoll(Run(acts), v, os, os, 1, 2, 0);
  }

  lemma ShapeIsPoll(s: System, v: string, os: seq<string>, cs: seq<string>, m: int, n: nat, f: nat)
    requires Shape(s, v, os, cs, m, n, f)
    ensures Opened(s.table) && s.table[META].options == os && s.table[META].maxChoices == m
  {
  }
}
