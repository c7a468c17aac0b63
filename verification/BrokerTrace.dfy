/** The accesses of a whole session creation: acquisitions bucket by bucket, with removals in between. */
module BrokerTrace {
  import opened Prelude
  import opened PoolTable
  import opened Broker

  /** The buckets queried, in order, repeated queries of one bucket taken together. */
  function BucketsAsked(ops: seq<Op>): seq<nat> {
    if ops == [] then [] else
      var before, op := BucketsAsked(ops[..|ops| - 1]), ops[|ops| - 1];
      if !op.Asked? || (before != [] && before[|before| - 1] == op.bucket) then before else before + [op.bucket]
  }

  /** How many runners it has tried to remove. */
  function Removals(ops: seq<Op>): nat {
    if ops == [] then 0 else Removals(ops[..|ops| - 1]) + if ops[|ops| - 1].Removed? then 1 else 0
  }

  predicate Takes(op: Op, runner: Listing, sid: string) {
    op == Tried(runner.id, runner.url, sid, Assigned)
  }

  predicate Failed(op: Op) {
    match op
    case Asked(_, answer) => answer.None?
    case Tried(_, _, _, r) => r == AssignFailed
    case Removed(_, done) => !done
  }

  /**
   * Runners are tried for the session only; a runner is removed only right after it was taken and with an unhealthy
   * URL, one taken is either the last or removed next, and nothing follows a failure.
   */
  ghost predicate Orderly(ops: seq<Op>, sid: string, healthy: string -> bool) {
    forall i :: 0 <= i < |ops| ==> OrderlyAt(ops, i, sid, healthy)
  }

  predicate OrderlyAt(ops: seq<Op>, i: nat, sid: string, healthy: string -> bool)
    requires i < |ops|
  {
    && (ops[i].Tried? ==> ops[i].session == sid)
    && (ops[i].Removed? ==>
          && i > 0 && ops[i - 1].Tried? && ops[i - 1].result == Assigned
          && ops[i - 1].id == ops[i].removedId && !healthy(ops[i - 1].url))
    && (i + 1 < |ops| ==> !Failed(ops[i]))
    && (i + 1 < |ops| && ops[i].Tried? && ops[i].result == Assigned ==> ops[i + 1].Removed?)
  }

  /** No runner taken is still in hand, and no access has failed. */
  predicate Settled(ops: seq<Op>) {
    ops != [] ==>
      var op := ops[|ops| - 1];
      !Failed(op) && (op.Tried? ==> op.result != Assigned)
  }

  /** The first `n` accesses include an attempt to take the runner. */
  predicate TriedBefore(ops: seq<Op>, n: nat, id: string, sid: string)
    requires n <= |ops|
  {
    exists j :: 0 <= j < n && ops[j].Tried? && ops[j].id == id && ops[j].session == sid
  }

  /** Some query of the bucket listed only runners tried before. */
  ghost predicate Exhausted(ops: seq<Op>, bucket: nat, sid: string) {
    exists i :: 0 <= i < |ops| && ExhaustedAt(ops, i, bucket, sid)
  }

  ghost predicate ExhaustedAt(ops: seq<Op>, i: nat, bucket: nat, sid: string)
    requires i < |ops|
  {
    && ops[i].Asked? && ops[i].bucket == bucket && ops[i].answer.Some?
    && forall l :: l in ops[i].answer.value ==> TriedBefore(ops, i, l.id, sid)
  }

  lemma ExhaustedLater(ops: seq<Op>, more: seq<Op>, bucket: nat, sid: string)
    requires Exhausted(ops, bucket, sid)
    ensures Exhausted(ops + more, bucket, sid)
  {
    var i :| 0 <= i < |ops| && ExhaustedAt(ops, i, bucket, sid);
    var all := ops + more;
    forall l | l in all[i].answer.value ensures TriedBefore(all, i, l.id, sid) {
      assert TriedBefore(ops, i, l.id, sid);
      var j :| 0 <= j < i && ops[j].Tried? && ops[j].id == l.id && ops[j].session == sid;
      assert all[j] == ops[j];
    }
    assert ExhaustedAt(all, i, bucket, sid);
  }

  lemma OneRemoval(id: string, done: bool)
    ensures Removals([Removed(id, done)]) == 1
  {
    assert [Removed(id, done)][..0] == [];
  }

  lemma {:induction false} RemovalsAppend(a: seq<Op>, b: seq<Op>)
    ensures Removals(a + b) == Removals(a) + Removals(b)
    decreases b
  {
    if b == [] {
      assert a + b == a;
    } else {
      assert (a + b)[..|a + b| - 1] == a + b[..|b| - 1];
      RemovalsAppend(a, b[..|b| - 1]);
    }
  }

  // ---- one acquisition ----

  lemma {:induction false} AcquisitionOps(ops: seq<Op>, sid: string, bucket: nat)
    requires Acquiring(ops, sid, bucket)
    ensures forall i :: 0 <= i < |ops| ==>
              && (ops[i].Asked? ==> ops[i].bucket == bucket) && (ops[i].Tried? ==> ops[i].session == sid)
              && !ops[i].Removed? && (i + 1 < |ops| ==> !Final(ops[i]))
    ensures ops != [] ==> ops[0].Asked?
  {
    if ops != [] {
      AcquisitionOps(ops[..|ops| - 1], sid, bucket);
      if |ops| == 1 {
        assert ops[..0] == [];
      }
    }
  }

  lemma {:induction false} TriedSomewhere(ops: seq<Op>, sid: string, id: string)
    requires id in TriedIds(ops) && forall i :: 0 <= i < |ops| ==> ops[i].Tried? ==> ops[i].session == sid
    ensures TriedBefore(ops, |ops|, id, sid)
  {
    var before := ops[..|ops| - 1];
    if id in TriedIds(before) {
      TriedSomewhere(before, sid, id);
      var j :| 0 <= j < |before| && before[j].Tried? && before[j].id == id && before[j].session == sid;
      assert ops[j] == before[j];
    }
  }

  lemma AcquisitionIsOrderly(ops: seq<Op>, sid: string, bucket: nat, healthy: string -> bool)
    requires Acquiring(ops, sid, bucket)
    ensures Orderly(ops, sid, healthy)
  {
    AcquisitionOps(ops, sid, bucket);
  }

  lemma {:induction false} NoRemovals(ops: seq<Op>)
    requires forall i :: 0 <= i < |ops| ==> !ops[i].Removed?
    ensures Removals(ops) == 0
  {
    if ops != [] {
      NoRemovals(ops[..|ops| - 1]);
    }
  }

  /** An acquisition that reports no idle runner has exhausted its bucket. */
  lemma NoneIdleIsExhausted(ops: seq<Op>, sid: string, bucket: nat)
    requires Acquiring(ops, sid, bucket) && Concludes(ops, sid, NoneIdle)
    ensures Exhausted(ops, bucket, sid)
  {
    AcquisitionOps(ops, sid, bucket);
    var n := |ops| - 1;
    forall l | l in ops[n].answer.value ensures TriedBefore(ops, n, l.id, sid) {
      TriedSomewhere(ops, sid, l.id);
      var j :| 0 <= j < |ops| && ops[j].Tried? && ops[j].id == l.id && ops[j].session == sid;
      assert j < n && ops[n].Asked?;
    }
    assert ExhaustedAt(ops, n, bucket, sid);
  }

  // ---- following each other ----

  lemma OrderlyAppend(a: seq<Op>, b: seq<Op>, sid: string, healthy: string -> bool)
    requires Orderly(a, sid, healthy) && Orderly(b, sid, healthy) && Settled(a)
    ensures Orderly(a + b, sid, healthy) && (Settled(b) ==> Settled(a + b))
  {
    var ops := a + b;
    forall i: nat | i < |ops| ensures OrderlyAt(ops, i, sid, healthy) {
      if i < |a| {
        assert OrderlyAt(a, i, sid, healthy);
      } else {
        assert OrderlyAt(b, i - |a|, sid, healthy);
      }
    }
  }

  lemma OrderlyRemoval(a: seq<Op>, runner: Listing, done: bool, sid: string, healthy: string -> bool)
    requires Orderly(a, sid, healthy) && a != [] && Takes(a[|a| - 1], runner, sid) && !healthy(runner.url)
    ensures Orderly(a + [Removed(runner.id, done)], sid, healthy)
    ensures Settled(a + [Removed(runner.id, done)]) <==> done
  {
    var ops := a + [Removed(runner.id, done)];
    forall i: nat | i < |ops| ensures OrderlyAt(ops, i, sid, healthy) {
      if i < |a| {
        assert OrderlyAt(a, i, sid, healthy);
      }
    }
  }

  predicate AsksAny(ops: seq<Op>) {
    ops != [] && (AsksAny(ops[..|ops| - 1]) || ops[|ops| - 1].Asked?)
  }

  lemma {:induction false} FirstAsks(ops: seq<Op>)
    requires ops != [] && ops[0].Asked?
    ensures AsksAny(ops)
  {
    if |ops| > 1 {
      FirstAsks(ops[..|ops| - 1]);
    }
  }

  /** More accesses, which query one bucket only. */
  lemma {:induction false} BucketsAskedAppend(a: seq<Op>, b: seq<Op>, bucket: nat)
    requires forall i :: 0 <= i < |b| ==> b[i].Asked? ==> b[i].bucket == bucket
    ensures var runs := BucketsAsked(a);
            BucketsAsked(a + b) == if AsksAny(b) && !(runs != [] && runs[|runs| - 1] == bucket) then runs + [bucket]
                                   else runs
    decreases b
  {
    if b == [] {
      assert a + b == a;
    } else {
      assert (a + b)[..|a + b| - 1] == a + b[..|b| - 1];
      BucketsAskedAppend(a, b[..|b| - 1], bucket);
    }
  }

  // ---- one bucket ----

  /** The accesses in one bucket. */
  ghost predicate InBucket(ops: seq<Op>, sid: string, bucket: nat, healthy: string -> bool) {
    Orderly(ops, sid, healthy) && forall i :: 0 <= i < |ops| ==> ops[i].Asked? ==> ops[i].bucket == bucket
  }

  lemma NothingInBucket(sid: string, bucket: nat, healthy: string -> bool)
    ensures InBucket([], sid, bucket, healthy) && Settled([]) && Removals([]) == 0
  {
  }

  /** An acquisition more, in the same bucket. */
  lemma AddAcquisition(ops: seq<Op>, more: seq<Op>, sid: string, bucket: nat, healthy: string -> bool, r: AcquireResult)
    requires InBucket(ops, sid, bucket, healthy) && Settled(ops)
    requires Acquiring(more, sid, bucket) && Concludes(more, sid, r)
    ensures var all := ops + more;
            && InBucket(all, sid, bucket, healthy) && AsksAny(all) && Removals(all) == Removals(ops)
            && (r.NoneIdle? ==> Exhausted(all, bucket, sid) && Settled(all))
            && (r.AcquireFailed? ==> Failed(all[|all| - 1]))
            && (r.Acquired? ==> Takes(all[|all| - 1], r.runner, sid))
  {
    var all := ops + more;
    AcquisitionOps(more, sid, bucket);
    AcquisitionIsOrderly(more, sid, bucket, healthy);
    OrderlyAppend(ops, more, sid, healthy);
    forall i | 0 <= i < |all| ensures all[i].Asked? ==> all[i].bucket == bucket {
      assert all[i] == if i < |ops| then ops[i] else more[i - |ops|];
    }
    RemovalsAppend(ops, more);
    NoRemovals(more);
    FirstAsks(more);
    AsksAppend(ops, more);
    if r.NoneIdle? {
      NoneIdleIsExhausted(more, sid, bucket);
      ExhaustedAfter(ops, more, bucket, sid);
    }
  }

  lemma {:induction false} AsksAppend(a: seq<Op>, b: seq<Op>)
    requires AsksAny(b)
    ensures AsksAny(a + b)
    decreases b
  {
    assert (a + b)[..|a + b| - 1] == a + b[..|b| - 1];
    if AsksAny(b[..|b| - 1]) {
      AsksAppend(a, b[..|b| - 1]);
    }
  }

  lemma ExhaustedAfter(a: seq<Op>, b: seq<Op>, bucket: nat, sid: string)
    requires Exhausted(b, bucket, sid)
    ensures Exhausted(a + b, bucket, sid)
  {
    var i :| 0 <= i < |b| && ExhaustedAt(b, i, bucket, sid);
    var all := a + b;
    forall l | l in all[|a| + i].answer.value ensures TriedBefore(all, |a| + i, l.id, sid) {
      assert TriedBefore(b, i, l.id, sid);
      var j :| 0 <= j < i && b[j].Tried? && b[j].id == l.id && b[j].session == sid;
      assert all[|a| + j] == b[j];
    }
    assert ExhaustedAt(all, |a| + i, bucket, sid);
  }

  /** The runner in hand is removed. */
  lemma AddRemoval(ops: seq<Op>, sid: string, bucket: nat, healthy: string -> bool, runner: Listing, done: bool)
    requires InBucket(ops, sid, bucket, healthy) && AsksAny(ops)
    requires ops != [] && Takes(ops[|ops| - 1], runner, sid) && !healthy(runner.url)
    ensures var all := ops + [Removed(runner.id, done)];
            && InBucket(all, sid, bucket, healthy) && AsksAny(all) && Removals(all) == Removals(ops) + 1
            && (Settled(all) <==> done) && (Failed(all[|all| - 1]) <==> !done)
  {
    OrderlyRemoval(ops, runner, done, sid, healthy);
    assert (ops + [Removed(runner.id, done)])[..|ops|] == ops;
  }

  // ---- the whole walk ----

  /** The accesses of a walk through the given buckets, the first `emptied` of them exhausted. */
  ghost predicate Walking(ops: seq<Op>, sid: string, healthy: string -> bool, walked: seq<nat>, emptied: nat) {
    && Orderly(ops, sid, healthy) && BucketsAsked(ops) == walked
    && forall k :: 0 <= k < |walked| && k < emptied ==> Exhausted(ops, walked[k], sid)
  }

  lemma WalkSetsOut(sid: string, healthy: string -> bool)
    ensures Walking([], sid, healthy, [], 0) && Settled([]) && Removals([]) == 0
  {
  }

  /** One more bucket is added to the walk. */
  lemma AddBucket(ops: seq<Op>, more: seq<Op>, sid: string, bucket: nat, healthy: string -> bool, walked: seq<nat>)
    requires Walking(ops, sid, healthy, walked, |walked|) && Settled(ops) && bucket !in walked
    requires InBucket(more, sid, bucket, healthy) && AsksAny(more)
    ensures var all := ops + more;
            && Walking(all, sid, healthy, walked + [bucket], |walked|)
            && Removals(all) == Removals(ops) + Removals(more)
            && (Settled(more) ==> Settled(all)) && more != [] && all[|all| - 1] == more[|more| - 1]
            && (Exhausted(more, bucket, sid) ==> Walking(all, sid, healthy, walked + [bucket], |walked| + 1))
  {
    OrderlyAppend(ops, more, sid, healthy);
    BucketsAskedAppend(ops, more, bucket);
    RemovalsAppend(ops, more);
    forall k | 0 <= k < |walked| ensures Exhausted(ops + more, walked[k], sid) {
      ExhaustedLater(ops, more, walked[k], sid);
    }
    if Exhausted(more, bucket, sid) {
      ExhaustedAfter(ops, more, bucket, sid);
    }
  }
}
