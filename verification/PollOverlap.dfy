/** Runs in which votes of one visitor overlap: they refine a ballot whose limit check may let some more votes pass. */
module PollOverlap {
  import opened Prelude
  import opened PollKeys
  import opened PollTable
  import opened PollBallot
  import opened PollRuns
  import opened PollTheorems
  import opened PollLimit

  /** The outcome when the limit counts as raised by `slack`. */
  function OutcomeUpTo(b: Ballot, v: string, q: Request, slack: nat): Outcome {
    Cast(if b.Closed? then b else b.(maxChoices := b.maxChoices + slack), v, q).1
  }

  /** A relaxed ballot may answer as the ballot does, or as it would with the limit raised, or fail without effect. */
  predicate Permitted(b: Ballot, v: string, q: Request, slack: nat, o: Outcome) {
    o == StoreError || o == Cast(b, v, q).1 || o == OutcomeUpTo(b, v, q, slack)
  }

  /** What a request does to the ballot, given its outcome. */
  function Effect(b: Ballot, v: string, q: Request, o: Outcome): Ballot {
    if o != Ok || b.Closed? then b else
      match q
      case Vote(c) => b.(votes := b.votes + {(v, c)})
      case Unvote(c) => b.(votes := b.votes - {(v, c)})
      case Switch(from, to) => b.(votes := b.votes - {(v, from)} + {(v, to)})
  }

  function FinalUpTo(log: seq<Entry>): Ballot {
    if log == [] then Closed else AfterEntry(FinalUpTo(log[..|log| - 1]), log[|log| - 1])
  }

  function AfterEntry(b: Ballot, e: Entry): Ballot {
    if e.PollOpened? then (if b.Closed? then Open(e.options, e.maxChoices, {}) else b)
    else Effect(b, e.visitor, e.request, e.outcome)
  }

  predicate LegalUpTo(log: seq<Entry>, slack: nat) {
    log == [] ||
    (LegalUpTo(log[..|log| - 1], slack) && Fits(FinalUpTo(log[..|log| - 1]), log[|log| - 1], slack))
  }

  predicate Fits(b: Ballot, e: Entry, slack: nat) {
    e.Landed? ==> Permitted(b, e.visitor, e.request, slack, e.outcome)
  }

  lemma AppendedUpTo(log: seq<Entry>, e: Entry, slack: nat)
    ensures FinalUpTo(log + [e]) == AfterEntry(FinalUpTo(log), e)
    ensures LegalUpTo(log + [e], slack) <==> LegalUpTo(log, slack) && Fits(FinalUpTo(log), e, slack)
  {
    assert (log + [e])[..|log|] == log;
  }

  /** Without slack the relaxed ballot is the ballot. */
  lemma {:induction false} NoSlackIsBallot(log: seq<Entry>)
    requires LegalUpTo(log, 0)
    ensures Legal(log) && FinalUpTo(log) == Final(log)
  {
    if log != [] {
      var before, e := log[..|log| - 1], log[|log| - 1];
      NoSlackIsBallot(before);
      if e.Landed? {
        var b := Final(before);
        assert b.Open? ==> b.(maxChoices := b.maxChoices + 0) == b;
        CastEffect(b, e.visitor, e.request);
      }
    }
  }

  lemma CastEffect(b: Ballot, v: string, q: Request)
    ensures Effect(b, v, q, Cast(b, v, q).1) == Cast(b, v, q).0
  {
  }

  /** On a relaxed ballot nobody holds more votes than the limit and the slack together. */
  lemma {:induction false} RelaxedBallotKeepsBound(log: seq<Entry>, slack: nat, v: string)
    requires LegalUpTo(log, slack)
    ensures var b := FinalUpTo(log);
            Own(b, v) == {} || (b.Open? && |Own(b, v)| <= b.maxChoices + slack)
  {
    if log != [] {
      var before, e := log[..|log| - 1], log[|log| - 1];
      RelaxedBallotKeepsBound(before, slack, v);
      if e.Landed? {
        EffectKeepsBound(FinalUpTo(before), e.visitor, e.request, slack, e.outcome, v);
      }
    }
  }

  /** What a successful request says about the ballot before it. */
  lemma PermittedOk(b: Ballot, w: string, q: Request, slack: nat)
    requires Permitted(b, w, q, slack, Ok)
    ensures b.Open?
    ensures q.Vote? ==> |Own(b, w)| < b.maxChoices + slack
    ensures q.Switch? ==> (w, q.from) in b.votes
  {
    if b.Open? {
      assert Own(b.(maxChoices := b.maxChoices + slack), w) == Own(b, w);
    }
  }

  lemma EffectKeepsBound(b: Ballot, w: string, q: Request, slack: nat, o: Outcome, v: string)
    requires Own(b, v) == {} || (b.Open? && |Own(b, v)| <= b.maxChoices + slack)
    requires Permitted(b, w, q, slack, o)
    ensures var b' := Effect(b, w, q, o);
            Own(b', v) == {} || (b'.Open? && |Own(b', v)| <= b'.maxChoices + slack)
  {
    if o == Ok {
      PermittedOk(b, w, q, slack);
      hide Permitted;
      OwnAfterEffect(b, w, q, v);
    }
  }

  lemma OwnAfterEffect(b: Ballot, w: string, q: Request, v: string)
    requires b.Open? && (q.Switch? ==> (w, q.from) in b.votes)
    ensures var b' := Effect(b, w, q, Ok);
            && (v != w || !q.Vote? ==> |Own(b', v)| <= |Own(b, v)|)
            && |Own(b', v)| <= |Own(b, v)| + 1
  {
    var b' := Effect(b, w, q, Ok);
    match q
    case Vote(c) =>
      OwnMoves(b, w, {}, {c}, v);
      assert b.votes - {} + {(w, c)} == b.votes + {(w, c)};
    case Unvote(c) =>
      OwnMoves(b, w, {c}, {}, v);
      assert b.votes - {(w, c)} + {} == b.votes - {(w, c)};
    case Switch(from, to) => OwnMoves(b, w, {from}, {to}, v);
  }

  function Of(w: string, cs: set<string>): set<(string, string)> {
    set c | c in cs :: (w, c)
  }

  /** The ballot with at most one vote of a visitor taken out and at most one put in. */
  function Moved(b: Ballot, w: string, removed: set<string>, added: set<string>): Ballot
    requires b.Open?
  {
    b.(votes := b.votes - Of(w, removed) + Of(w, added))
  }

  lemma OwnMoves(b: Ballot, w: string, removed: set<string>, added: set<string>, v: string)
    requires b.Open? && |added| <= 1
    ensures Of(w, {}) == {} && forall c :: Of(w, {c}) == {(w, c)}
    ensures var own, own' := Own(b, v), Own(Moved(b, w, removed, added), v);
            && |own'| <= |own| + 1
            && (v != w || added == {} || (|removed| == 1 && Of(w, removed) <= b.votes) ==> |own'| <= |own|)
  {
    OwnChanged(b, w, removed, added, v);
    OfSize(v, removed);
    OfSize(v, added);
    assert v == w && Of(w, removed) <= b.votes ==> Of(w, removed) <= Own(b, v);
    hide Own, Of, Moved;
    Sizes(Own(b, v), Of(v, removed), Of(v, added));
  }

  lemma OfSize(w: string, cs: set<string>)
    ensures |Of(w, cs)| == |cs|
  {
    InjectiveImageSize(cs, Of(w, cs), c => (w, c));
  }

  lemma OwnChanged(b: Ballot, w: string, removed: set<string>, added: set<string>, v: string)
    requires b.Open?
    ensures Own(Moved(b, w, removed, added), v)
            == if v == w then Own(b, v) - Of(v, removed) + Of(v, added) else Own(b, v)
  {
  }

  lemma Sizes(s: set<(string, string)>, removed: set<(string, string)>, added: set<(string, string)>)
    requires |added| <= 1
    ensures |s - removed + added| <= |s| + |added|
    ensures |removed| == 1 && removed <= s ==> |s - removed + added| <= |s|
  {
    assert s == (s - removed) + (s * removed);
    assert s - removed + added == (s - removed) + (added - (s - removed));
    assert added == (added - (s - removed)) + (added * (s - removed));
    assert removed <= s ==> s * removed == removed;
  }

  // ---- refinement ----

  /** As `Explained`, by a relaxed ballot. */
  ghost predicate ExplainedUpTo(s: System, slack: nat) {
    && LegalUpTo(s.log, slack) && FinalUpTo(s.log) == Abs(s.table)
    && forall id :: id in s.calls && s.calls[id].phase.Done? ==>
         var c := s.calls[id];
         && c.begunAt <= c.landedAt < |s.log|
         && s.log[c.landedAt] == Landed(id, c.visitor, c.request, c.phase.outcome)
  }

  ghost predicate RefinesUpTo(s: System, slack: nat) {
    Inv(s) && LegalUpTo(s.log, slack) && FinalUpTo(s.log) == Abs(s.table)
  }

  lemma FinishRefinesUpTo(s: System, id: nat, t: Table, o: Outcome, slack: nat)
    requires RefinesUpTo(s, slack) && Active(s, id) && Inv(Finish(s, id, t, o))
    requires var c := s.calls[id];
             && Permitted(Abs(s.table), c.visitor, c.request, slack, o)
             && Effect(Abs(s.table), c.visitor, c.request, o) == Abs(t)
    ensures RefinesUpTo(Finish(s, id, t, o), slack)
  {
    AppendedUpTo(s.log, Landed(id, s.calls[id].visitor, s.calls[id].request, o), slack);
  }

  /** A vote transaction is the relaxed ballot's vote while fewer votes than the raised limit are recorded. */
  lemma VoteIsAtomicUpTo(t: Table, v: string, c: string, slack: nat)
    requires Sound(t) && IsVisitor(v) && Opened(t) && c in t[META].options
    requires |OwnKeys(t, v)| < t[META].maxChoices + slack
    ensures var (t', o) := Commit(t, v, Vote(c));
            o == OutcomeUpTo(Abs(t), v, Vote(c), slack) && Effect(Abs(t), v, Vote(c), o) == Abs(t')
  {
    VoteTransaction(t, v, c);
    PairStored(t, v, c);
    OwnKeysAreOwnVotes(t, v);
    var b := Abs(t);
    assert Own(b.(maxChoices := b.maxChoices + slack), v) == Own(b, v);
    if VoteKey(v, c) !in t {
      AbsInsert(t, v, c);
    }
  }

  lemma CommitRefinesUpTo(s: System, id: nat, k: nat)
    requires 1 <= k && RefinesUpTo(s, k - 1) && Active(s, id) && AtCommit(s.calls[id])
    requires Bounded(s, s.calls[id].visitor, k)
    ensures RefinesUpTo(Step(s, Advance(id)), k - 1)
  {
    hide Commit, Sound;
    var c := s.calls[id];
    assert CallFits(s, id);
    CommitStep(s, id);
    StepKeepsInv(s, Advance(id));
    var (t, o) := Commit(s.table, c.visitor, c.request);
    if c.request.Vote? {
      var f := InFlight(s, c.visitor);
      assert id in f && |f| >= 1;
      VoteIsAtomicUpTo(s.table, c.visitor, c.request.choice, k - 1);
    } else {
      CommitIsAtomic(s.table, c.visitor, c.request);
      CastEffect(Abs(s.table), c.visitor, c.request);
    }
    FinishRefinesUpTo(s, id, t, o, k - 1);
  }

  lemma CheckRefinesUpTo(s: System, id: nat, slack: nat)
    requires RefinesUpTo(s, slack) && Active(s, id) && !AtCommit(s.calls[id])
    ensures RefinesUpTo(Step(s, Advance(id)), slack)
  {
    hide Commit;
    var c := s.calls[id];
    assert CallFits(s, id);
    StepKeepsInv(s, Advance(id));
    if c.phase.Started? && !Opened(s.table) {
      FinishRefinesUpTo(s, id, s.table, PollNotFound, slack);
    } else if c.phase.Started? && !NamesOptions(c.request, s.table[META].options) {
      FinishRefinesUpTo(s, id, s.table, InvalidChoice, slack);
    } else if c.phase.MetaRead? && |OwnKeys(s.table, c.visitor)| >= c.phase.maxChoices {
      OwnKeysAreOwnVotes(s.table, c.visitor);
      FinishRefinesUpTo(s, id, s.table, MaxChoicesExceeded, slack);
    }
  }

  lemma StepRefinesUpTo(s: System, a: Action, k: nat)
    requires 1 <= k && RefinesUpTo(s, k - 1) && forall v :: IsVisitor(v) ==> Bounded(s, v, k)
    ensures RefinesUpTo(Step(s, a), k - 1)
  {
    hide Commit, Sound, Bounded;
    StepKeepsInv(s, a);
    match a
    case OpenPoll(os, m) =>
      if META !in s.table {
        OpenIsSound(s.table, os, m);
        AppendedUpTo(s.log, PollOpened(os, m), k - 1);
      }
    case Begin(_, _, _) =>
    case Advance(id) =>
      if Active(s, id) {
        assert CallFits(s, id);
        if AtCommit(s.calls[id]) { CommitRefinesUpTo(s, id, k); } else { CheckRefinesUpTo(s, id, k - 1); }
      }
    case Fault(id) =>
      if Active(s, id) {
        FinishRefinesUpTo(s, id, s.table, StoreError, k - 1);
      }
  }

  lemma {:induction false} RunRefinesUpTo(acts: seq<Action>, k: nat)
    requires 1 <= k && forall v :: AlwaysAtMost(acts, v, k)
    ensures RefinesUpTo(Run(acts), k - 1)
  {
    if acts != [] {
      var before := acts[..|acts| - 1];
      forall v ensures AlwaysAtMost(before, v, k) {
        assert AlwaysAtMost(acts, v, k);
      }
      RunRefinesUpTo(before, k);
      forall v | IsVisitor(v) ensures Bounded(Run(before), v, k) {
        OverlapBoundsVotes(before, v, k);
      }
      StepRefinesUpTo(Run(before), acts[|acts| - 1], k);
    }
  }

  /**
   * Refinement under overlap: with at most `k` votes of one visitor in flight at a time, every interleaving is
   * explained by atomic operations of a ballot whose limit may be exceeded by `k - 1`.
   */
  lemma OverlapRefinesRelaxedBallot(acts: seq<Action>, k: nat)
    requires 1 <= k && forall v :: AlwaysAtMost(acts, v, k)
    ensures ExplainedUpTo(Run(acts), k - 1)
  {
    RunRefinesUpTo(acts, k);
    var s := Run(acts);
    forall id | id in s.calls && s.calls[id].phase.Done?
      ensures s.calls[id].begunAt <= s.calls[id].landedAt < |s.log|
      ensures var c := s.calls[id];
              s.log[c.landedAt] == Landed(id, c.visitor, c.request, c.phase.outcome)
    {
      assert CallFits(s, id);
    }
  }

  lemma {:induction false} CallsBoundOverlap(acts: seq<Action>, v: string, k: nat)
    requires |Run(acts).calls| <= k
    ensures AlwaysAtMost(acts, v, k)
  {
    var s := Run(acts);
    assert InFlight(s, v) <= s.calls.Keys;
    assert s.calls.Keys == InFlight(s, v) + (s.calls.Keys - InFlight(s, v));
    if acts != [] {
      var before := acts[..|acts| - 1];
      StepExtends(Run(before), acts[|acts| - 1]);
      assert s.calls.Keys == Run(before).calls.Keys + (s.calls.Keys - Run(before).calls.Keys);
      CallsBoundOverlap(before, v, k);
    }
  }

  /** So every run whatever is explained by some relaxed ballot. */
  lemma EveryRunIsExplained(acts: seq<Action>)
    ensures exists slack: nat :: ExplainedUpTo(Run(acts), slack)
  {
    var k := |Run(acts).calls| + 1;
    forall v ensures AlwaysAtMost(acts, v, k) {
      CallsBoundOverlap(acts, v, k);
    }
    OverlapRefinesRelaxedBallot(acts, k);
  }
}
