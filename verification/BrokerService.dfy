/** Creating, resolving and closing sessions on top of the runner repository. */
module BrokerService {
  import opened Prelude
  import opened PoolTable
  import opened Broker
  import opened BrokerTrace

  datatype CreateResult = Created(session: string, runner: Listing) | NoIdleRunner | Cancelled | StoreFailed

  datatype ResolveResult =
    | Resolved(session: string, url: string, created: bool, reassigned: bool)
    | NoRunner
    | Aborted

  datatype CloseResult = Closed | NotFound | CloseFailed

  /** What is left of the patience after some failed health checks. */
  function Left(patience: Option<nat>, failedChecks: nat): Option<nat> {
    if patience.Some? && failedChecks <= patience.value then Some(patience.value - failedChecks) else None
  }

  predicate Within(patience: Option<nat>, failedChecks: nat) {
    patience.Some? ==> failedChecks <= patience.value
  }

  /** What can cut a request short: a store access that fails, or cancellation after some failed health checks. */
  datatype Disturbance = Disturbance(storeFails: bool, patience: Option<nat>) {
    predicate AtOnce() { storeFails || patience == Some(0) }

    function AfterCheck(): Disturbance { this.(patience := Left(patience, 1)) }
  }

  /** The idle runners a bucket walk can reach, split by the health of their URL. */
  function Usable(t: Table, healthy: string -> bool, buckets: nat): set<string> {
    set id | id in t && t[id].bucket.Some? && t[id].bucket.value < buckets && healthy(t[id].url)
  }

  function Dead(t: Table, healthy: string -> bool, buckets: nat): set<string> {
    set id | id in t && t[id].bucket.Some? && t[id].bucket.value < buckets && !healthy(t[id].url)
  }

  /** `t'` is `t` without some unhealthy idle runners. */
  ghost predicate PurgedSome(t: Table, t': Table, healthy: string -> bool, buckets: nat) {
    && t'.Keys <= t.Keys && t.Keys - t'.Keys <= Dead(t, healthy, buckets)
    && forall k :: k in t' ==> t'[k] == t[k]
  }

  /** `t'` is `t` without some unhealthy idle runners and with one runner assigned to the session. */
  ghost predicate AssignedAfterPurge(t: Table, t': Table, healthy: string -> bool, buckets: nat, sid: string,
                                     id: string) {
    && id in t && id in t' && t[id].IsIdle()
    && t'.Keys <= t.Keys && t.Keys - t'.Keys <= Dead(t, healthy, buckets)
    && forall k :: k in t' ==> t'[k] == if k == id then t[k].(session := Some(sid), bucket := None) else t[k]
  }

  /**
   * What session creation does to a table nobody else touches: it succeeds with a healthy idle runner, or finds none
   * and has deleted exactly the unhealthy idle ones, or was cancelled while checking a runner, healthy or not, which is
   * then left assigned, or a store access failed, perhaps the one that was to remove an unhealthy runner.
   */
  ghost predicate Leaves(t: Table, t': Table, healthy: string -> bool, buckets: nat, sid: string, r: CreateResult) {
    match r
    case Created(s, l) =>
      && s == sid && l.id in Usable(t, healthy, buckets) && l.url == t[l.id].url
      && AssignedAfterPurge(t, t', healthy, buckets, sid, l.id)
    case NoIdleRunner => Usable(t, healthy, buckets) == {} && t' == t - Dead(t, healthy, buckets)
    case Cancelled =>
      exists id :: id in Usable(t, healthy, buckets) + Dead(t, healthy, buckets)
                   && AssignedAfterPurge(t, t', healthy, buckets, sid, id)
    case StoreFailed =>
      || PurgedSome(t, t', healthy, buckets)
      || exists id :: id in Dead(t, healthy, buckets) && AssignedAfterPurge(t, t', healthy, buckets, sid, id)
  }

  /** Each runner gone is a failed health check, and cancellation comes exactly when the patience has run out. */
  ghost predicate Costs(t: Table, t': Table, patience: Option<nat>, r: CreateResult) {
    var gone := t.Keys - t'.Keys;
    && Within(patience, |gone|)
    && (r.Created? ==> patience != Some(|gone|)) && (r.Cancelled? ==> patience == Some(|gone|))
  }

  ghost predicate Creates(t: Table, t': Table, healthy: string -> bool, buckets: nat, patience: Option<nat>,
                          sid: string, r: CreateResult) {
    Leaves(t, t', healthy, buckets, sid, r) && Costs(t, t', patience, r)
  }

  /** Whatever the result, some unhealthy idle runners are gone and at most one runner was assigned. */
  lemma CreatesShape(t: Table, t': Table, healthy: string -> bool, buckets: nat, patience: Option<nat>, sid: string,
                     r: CreateResult)
    requires Creates(t, t', healthy, buckets, patience, sid, r)
    ensures PurgedSome(t, t', healthy, buckets) || exists id :: AssignedAfterPurge(t, t', healthy, buckets, sid, id)
  {
    hide Costs;
    match r
    case Created(_, l) => assert AssignedAfterPurge(t, t', healthy, buckets, sid, l.id);
    case NoIdleRunner =>
      assert t.Keys - t'.Keys <= Dead(t, healthy, buckets);
    case Cancelled =>
    case StoreFailed =>
  }

  /** For the runners: only unhealthy idle ones are lost, and at most one changes, to hold the session. */
  lemma CreationSpares(t: Table, t': Table, healthy: string -> bool, buckets: nat, patience: Option<nat>, sid: string,
                       r: CreateResult)
    requires Creates(t, t', healthy, buckets, patience, sid, r)
    ensures forall id :: id in t && (healthy(t[id].url) || t[id].bucket.None?) ==> id in t'
    ensures forall id :: id in t' ==>
              id in t && (t'[id] == t[id] || (t[id].bucket.Some? && t'[id] == Runner(Some(sid), None, t[id].url)))
    ensures forall a, b :: a in t' && b in t' && t'[a] != t[a] && t'[b] != t[b] ==> a == b
  {
    CreatesShape(t, t', healthy, buckets, patience, sid, r);
    hide Creates;
    forall id | id in t && (healthy(t[id].url) || t[id].bucket.None?) ensures id in t' {
      assert id !in Dead(t, healthy, buckets);
      assert id !in t.Keys - t'.Keys;
    }
  }

  /**
   * A creation that is not cut short finds a runner if and only if a healthy one is idle in some bucket. It then holds
   * the session and has the URL returned; otherwise no idle runner is left.
   */
  lemma CreatedExactlyWhen(t: Table, t': Table, healthy: string -> bool, buckets: nat, patience: Option<nat>,
                           sid: string, r: CreateResult)
    requires Creates(t, t', healthy, buckets, patience, sid, r) && !r.StoreFailed? && !r.Cancelled?
    ensures r.Created? <==>
            exists id :: id in t && t[id].bucket.Some? && t[id].bucket.value < buckets && healthy(t[id].url)
    ensures r.Created? ==> && r.session == sid && r.runner.id in t' && t'[r.runner.id].session == Some(sid)
                           && t'[r.runner.id].url == r.runner.url && healthy(r.runner.url)
    ensures r.NoIdleRunner? ==> forall id :: id in t' ==> t'[id].bucket.None? || t'[id].bucket.value >= buckets
  {
    hide Costs;
    if r.Created? {
      assert r.runner.id in Usable(t, healthy, buckets);
    } else {
      forall id | id in t && t[id].bucket.Some? && t[id].bucket.value < buckets
        ensures id in Dead(t, healthy, buckets)
      {
        assert id !in Usable(t, healthy, buckets);
      }
    }
  }

  /** A creation whose patience exceeds the number of unhealthy idle runners is never cancelled. */
  lemma PatienceSuffices(t: Table, t': Table, healthy: string -> bool, buckets: nat, patience: nat, sid: string,
                         r: CreateResult)
    requires Creates(t, t', healthy, buckets, Some(patience), sid, r) && patience > |Dead(t, healthy, buckets)|
    ensures !r.Cancelled?
  {
    if r.Cancelled? {
      CreatesShape(t, t', healthy, buckets, Some(patience), sid, r);
      Subset(t.Keys - t'.Keys, Dead(t, healthy, buckets));
    }
  }

  ghost predicate CreatesForResolve(t: Table, t': Table, healthy: string -> bool, d: Disturbance, buckets: nat,
                                    sid: string, reassigned: bool, r: ResolveResult) {
    match r
    case Resolved(s, url, created, re) =>
      s == sid && created && re == reassigned
      && exists l: Listing :: l.url == url && Creates(t, t', healthy, buckets, d.patience, sid, Created(sid, l))
    case NoRunner => Creates(t, t', healthy, buckets, d.patience, sid, NoIdleRunner)
    case Aborted =>
      || Creates(t, t', healthy, buckets, d.patience, sid, Cancelled)
      || (d.storeFails && Creates(t, t', healthy, buckets, d.patience, sid, StoreFailed))
  }

  /**
   * What resolving a session does: a healthy holder is kept, an unhealthy one is replaced under a new session ID.
   * A healthy holder is always answered unless a store access fails or the request is cancelled at once.
   */
  ghost predicate Resolves(t: Table, t': Table, healthy: string -> bool, d: Disturbance, buckets: nat, sid: string,
                           newSid: string, r: ResolveResult) {
    if sid == "" || HoldersOf(t, sid) == {} then CreatesForResolve(t, t', healthy, d, buckets, newSid, false, r)
    else exists id :: id in HoldersOf(t, sid) && ResolvesFrom(t, t', healthy, d, buckets, sid, id, newSid, r)
  }

  ghost predicate ResolvesFrom(t: Table, t': Table, healthy: string -> bool, d: Disturbance, buckets: nat, sid: string,
                               id: string, newSid: string, r: ResolveResult)
    requires id in t
  {
    if healthy(t[id].url) then
      && t' == t
      && ((r == Resolved(sid, t[id].url, false, false) && d.patience != Some(0)) || (d.AtOnce() && r == Aborted))
    else
      || (t' == t && r == Aborted && d.AtOnce())
      || (d.patience != Some(0)
          && CreatesForResolve(t - {id}, t', healthy, d.AfterCheck(), buckets, newSid, true, r))
  }

  ghost predicate Closes(t: Table, t': Table, storeFails: bool, sid: string, r: CloseResult) {
    if r == CloseFailed then storeFails && t' == t
    else if HoldersOf(t, sid) == {} then r == NotFound && t' == t
    else r == Closed && exists id :: id in HoldersOf(t, sid) && t' == t - {id}
  }

  // ---- the bucket walk ----

  function BucketAt(start: nat, i: nat, buckets: nat): nat
    requires buckets > 0
  {
    (start + i) % buckets
  }

  /** Starting anywhere and going round, the buckets of one walk are all different and none is missed. */
  lemma WalkIsOnce(start: nat, buckets: nat, i: nat, j: nat)
    requires start < buckets && i < j < buckets
    ensures BucketAt(start, i, buckets) != BucketAt(start, j, buckets)
  {
    Wrap(start + i, buckets);
    Wrap(start + j, buckets);
  }

  lemma WalkReaches(start: nat, buckets: nat, b: nat)
    requires start < buckets && b < buckets
    ensures exists i: nat :: i < buckets && BucketAt(start, i, buckets) == b
  {
    var i := if start <= b then b - start else b + buckets - start;
    Wrap(start + i, buckets);
    assert BucketAt(start, i, buckets) == b;
  }

  lemma Wrap(x: nat, n: nat)
    requires 0 < n && x < 2 * n
    ensures x % n == if x < n then x else x - n
  {
    if x >= n {
      assert x == 1 * n + (x - n);
    }
  }

  lemma WalkDistinct(walked: seq<nat>, start: nat, bc: nat)
    requires start < bc && |walked| <= bc && forall k :: 0 <= k < |walked| ==> walked[k] == BucketAt(start, k, bc)
    ensures Distinct(walked) && forall b :: b in walked ==> b < bc
  {
    forall i, j | 0 <= i < j < |walked| ensures walked[i] != walked[j] {
      WalkIsOnce(start, bc, i, j);
    }
  }

  predicate Paid(gone: set<string>, patience: Option<nat>, left: Option<nat>) {
    Within(patience, |gone|) && left == Left(patience, |gone|)
  }

  lemma PaidSoFar(t0: Table, t: Table, gone: set<string>, patience: Option<nat>, left: Option<nat>, r: CreateResult)
    requires t.Keys == t0.Keys - gone && gone <= t0.Keys && Paid(gone, patience, left)
    requires (r.Created? ==> left != Some(0)) && (r.Cancelled? ==> left == Some(0))
    ensures Costs(t0, t, patience, r)
  {
    assert t0.Keys - t.Keys == gone;
  }

  lemma PaysOne(gone: set<string>, id: string, patience: Option<nat>, left: Option<nat>)
    requires Paid(gone, patience, left) && left != Some(0) && id !in gone
    ensures Paid(gone + {id}, patience, Left(left, 1))
  {
    assert |gone + {id}| == |gone| + 1;
  }

  /**
   * The walk so far has removed some unhealthy runners, each at the cost of some patience, and emptied the first `i`
   * buckets.
   */
  ghost predicate Walked(t0: Table, t: Table, gone: set<string>, healthy: string -> bool, bc: nat, start: nat, i: nat,
                         patience: Option<nat>, left: Option<nat>)
    requires bc > 0
  {
    && t == t0 - gone && gone <= Dead(t0, healthy, bc)
    && Paid(gone, patience, left)
    && forall k: nat :: k < i ==> IdleIn(t, BucketAt(start, k, bc)) == {}
  }

  lemma WalkBegins(t0: Table, healthy: string -> bool, bc: nat, start: nat, patience: Option<nat>)
    requires bc > 0
    ensures Walked(t0, t0, {}, healthy, bc, start, 0, patience, patience)
  {
    assert t0 == t0 - {};
  }

  lemma WalkNext(t0: Table, t: Table, gone: set<string>, healthy: string -> bool, bc: nat, start: nat, i: nat,
                 patience: Option<nat>, left: Option<nat>)
    requires bc > 0 && Walked(t0, t, gone, healthy, bc, start, i, patience, left)
    requires IdleIn(t, BucketAt(start, i, bc)) == {}
    ensures Walked(t0, t, gone, healthy, bc, start, i + 1, patience, left)
  {
  }

  /** The runner just taken was idle and reachable, and nothing but the purged runners is missing. */
  lemma WalkAcquires(t0: Table, t: Table, gone: set<string>, healthy: string -> bool, bc: nat, start: nat, i: nat,
                     patience: Option<nat>, left: Option<nat>, sid: string, runner: Listing)
    requires start < bc && Walked(t0, t, gone, healthy, bc, start, i, patience, left)
    requires runner.id in t && runner.id in IdleIn(t, BucketAt(start, i, bc)) && t[runner.id].url == runner.url
    ensures var t' := Apply(t, Assign(runner.id, sid));
            if left == Some(0) then Creates(t0, t', healthy, bc, patience, sid, Cancelled)
            else if healthy(runner.url) then Creates(t0, t', healthy, bc, patience, sid, Created(sid, runner))
            else && Creates(t0, t', healthy, bc, patience, sid, StoreFailed)
                 && Walked(t0, t' - {runner.id}, gone + {runner.id}, healthy, bc, start, i, patience, Left(left, 1))
  {
    var id := runner.id;
    var t' := Apply(t, Assign(id, sid));
    assert AssignedAfterPurge(t0, t', healthy, bc, sid, id);
    assert t'.Keys == t0.Keys - gone && id !in gone;
    assert t0[id].bucket.Some? && t0[id].bucket.value < bc && t0[id].url == runner.url;
    if left == Some(0) {
      PaidSoFar(t0, t', gone, patience, left, Cancelled);
      assert id in Usable(t0, healthy, bc) + Dead(t0, healthy, bc);
    } else if healthy(runner.url) {
      PaidSoFar(t0, t', gone, patience, left, Created(sid, runner));
    } else {
      PaidSoFar(t0, t', gone, patience, left, StoreFailed);
      assert id in Dead(t0, healthy, bc);
      WalkRemoves(t0, t, gone, healthy, bc, start, i, patience, left, id);
      assert t' - {id} == t - {id};
    }
  }

  lemma WalkRemoves(t0: Table, t: Table, gone: set<string>, healthy: string -> bool, bc: nat, start: nat, i: nat,
                    patience: Option<nat>, left: Option<nat>, id: string)
    requires bc > 0 && Walked(t0, t, gone, healthy, bc, start, i, patience, left) && left != Some(0)
    requires id in Dead(t0, healthy, bc) && id !in gone
    ensures Walked(t0, t - {id}, gone + {id}, healthy, bc, start, i, patience, Left(left, 1))
  {
    PaysOne(gone, id, patience, left);
    assert t - {id} == t0 - (gone + {id});
    forall k: nat | k < i ensures IdleIn(t - {id}, BucketAt(start, k, bc)) == {} {
      assert IdleIn(t - {id}, BucketAt(start, k, bc)) <= IdleIn(t, BucketAt(start, k, bc));
    }
  }

  /** What the check of the runner just taken leaves. */
  lemma WalkChecks(t0: Table, t: Table, t'': Table, gone: set<string>, healthy: string -> bool, bc: nat, start: nat,
                   i: nat, patience: Option<nat>, checks: bool, left: Option<nat>, left': Option<nat>, sid: string,
                   runner: Listing, removal: seq<Op>, done: Option<CreateResult>)
    requires start < bc && Walked(t0, t, gone, healthy, bc, start, i, patience, if checks then left else None)
    requires runner.id in t && runner.id in IdleIn(t, BucketAt(start, i, bc)) && t[runner.id].url == runner.url
    requires Judges(healthy, checks, sid, runner, left, left', removal, done) && (checks || healthy(runner.url))
    requires t'' == var t' := Apply(t, Assign(runner.id, sid)); if done.Some? then t' else t' - {runner.id}
    ensures if done.Some? then Creates(t0, t'', healthy, bc, patience, sid, done.value)
            else Walked(t0, t'', gone + {runner.id}, healthy, bc, start, i, patience, if checks then left' else None)
  {
    hide Walked, Creates, IdleIn, Apply;
    WalkAcquires(t0, t, gone, healthy, bc, start, i, patience, if checks then left else None, sid, runner);
  }

  lemma WalkFails(t0: Table, t: Table, gone: set<string>, healthy: string -> bool, bc: nat, start: nat, i: nat,
                  patience: Option<nat>, left: Option<nat>, sid: string)
    requires bc > 0 && Walked(t0, t, gone, healthy, bc, start, i, patience, left)
    ensures Creates(t0, t, healthy, bc, patience, sid, StoreFailed)
  {
    PaidSoFar(t0, t, gone, patience, left, StoreFailed);
    assert PurgedSome(t0, t, healthy, bc);
  }

  /** When every bucket is empty, only unhealthy runners are gone and all of them are. */
  lemma WalkEnds(t0: Table, t: Table, gone: set<string>, healthy: string -> bool, bc: nat, start: nat,
                 patience: Option<nat>, left: Option<nat>, sid: string)
    requires start < bc && Walked(t0, t, gone, healthy, bc, start, bc, patience, left)
    ensures Creates(t0, t, healthy, bc, patience, sid, NoIdleRunner)
  {
    PaidSoFar(t0, t, gone, patience, left, NoIdleRunner);
    hide Paid, Costs;
    forall id | id in Usable(t0, healthy, bc) + Dead(t0, healthy, bc) ensures id in gone {
      WalkEmpties(t0, t, gone, healthy, bc, start, patience, left, id);
    }
    hide Walked;
    assert gone == Dead(t0, healthy, bc);
    assert Usable(t0, healthy, bc) !! Dead(t0, healthy, bc);
  }

  lemma WalkEmpties(t0: Table, t: Table, gone: set<string>, healthy: string -> bool, bc: nat, start: nat,
                    patience: Option<nat>, left: Option<nat>, id: string)
    requires start < bc && Walked(t0, t, gone, healthy, bc, start, bc, patience, left)
    requires id in t0 && t0[id].bucket.Some? && t0[id].bucket.value < bc
    ensures id in gone
  {
    var b := t0[id].bucket.value;
    WalkReaches(start, bc, b);
    var k: nat :| k < bc && BucketAt(start, k, bc) == b;
    assert IdleIn(t, b) == {};
    assert id in t ==> id in IdleIn(t, b);
  }

  // ---- one runner per session ----

  /** Nobody holds the session, and no other broker is going to assign it. */
  ghost predicate Unclaimed(t: Table, others: seq<Access>, sid: string) {
    NeverAssigns(others, sid) && HoldersOf(t, sid) == {}
  }

  /** After a creation at most one record holds its session, on every path: the runner it returned, none on failure. */
  ghost predicate Claimed(t: Table, others: seq<Access>, sid: string, r: CreateResult) {
    && NeverAssigns(others, sid)
    && |HoldersOf(t, sid)| <= 1
    && (r.Created? ==> HoldersOf(t, sid) <= {r.runner.id})
    && (r.NoIdleRunner? ==> HoldersOf(t, sid) == {})
  }

  lemma NoneClaimed(t: Table, others: seq<Access>, sid: string)
    requires Unclaimed(t, others, sid)
    ensures Claimed(t, others, sid, NoIdleRunner)
  {
  }

  // ---- completeness while others act ----

  /** One of the tables from position `since` on has no idle runner in the bucket. */
  ghost predicate WasEmpty(seen: seq<Table>, since: nat, bucket: nat) {
    exists i :: since <= i < |seen| && IdleIn(seen[i], bucket) == {}
  }

  ghost predicate AllWereEmpty(seen: seq<Table>, since: nat, buckets: nat) {
    forall b: nat :: b < buckets ==> WasEmpty(seen, since, b)
  }

  /** Each of the first `i` buckets of the walk has been empty at some instant. */
  ghost predicate Visited(seen: seq<Table>, since: nat, bc: nat, start: nat, i: nat)
    requires bc > 0
  {
    forall k: nat :: k < i ==> WasEmpty(seen, since, BucketAt(start, k, bc))
  }

  lemma NothingVisited(seen: seq<Table>, since: nat, bc: nat, start: nat)
    requires bc > 0
    ensures Visited(seen, since, bc, start, 0)
  {
  }

  lemma VisitsNext(seen: seq<Table>, seen': seq<Table>, since: nat, bc: nat, start: nat, i: nat)
    requires bc > 0 && Visited(seen, since, bc, start, i)
    requires seen <= seen' && since < |seen'| && IdleIn(seen'[|seen'| - 1], BucketAt(start, i, bc)) == {}
    ensures Visited(seen', since, bc, start, i + 1)
  {
    forall k: nat | k < i + 1 ensures WasEmpty(seen', since, BucketAt(start, k, bc)) {
      if k < i {
        assert WasEmpty(seen, since, BucketAt(start, k, bc));
        var j :| since <= j < |seen| && IdleIn(seen[j], BucketAt(start, k, bc)) == {};
        assert seen'[j] == seen[j];
      }
    }
  }

  lemma VisitedAll(seen: seq<Table>, since: nat, bc: nat, start: nat)
    requires start < bc && Visited(seen, since, bc, start, bc)
    ensures AllWereEmpty(seen, since, bc)
  {
    forall b: nat | b < bc ensures WasEmpty(seen, since, b) {
      WalkReaches(start, bc, b);
    }
  }

  // ---- the accesses of a creation ----

  /** The accesses since `base`; each failed health check was followed by an attempt to remove the runner. */
  ghost predicate Spends(base: seq<Op>, trace: seq<Op>, ops: seq<Op>, patience: Option<nat>, left: Option<nat>) {
    trace == base + ops && Within(patience, Removals(ops)) && left == Left(patience, Removals(ops))
  }

  /**
   * How the last access decides the result: a session is created on a healthy runner just taken, checked in time;
   * cancellation hits the check of a runner just taken when patience has run out; a failure is that of the last access.
   */
  ghost predicate Justifies(ops: seq<Op>, sid: string, healthy: string -> bool, checks: bool, left: Option<nat>,
                            r: CreateResult) {
    && ops != []
    && var last := ops[|ops| - 1];
       match r
       case Created(s, l) => s == sid && Takes(last, l, sid) && healthy(l.url) && (checks ==> left != Some(0))
       case Cancelled => checks && left == Some(0) && last.Tried? && last.session == sid && last.result == Assigned
       case StoreFailed => Failed(last)
       case NoIdleRunner => Settled(ops)
  }

  /** What the check of a runner just taken does: a removal is attempted if and only if it was checked and unhealthy. */
  ghost predicate Judges(healthy: string -> bool, checks: bool, sid: string, runner: Listing, patience: Option<nat>,
                         left: Option<nat>, removal: seq<Op>, done: Option<CreateResult>) {
    if checks && patience == Some(0) then left == patience && removal == [] && done == Some(Cancelled)
    else if healthy(runner.url) then left == patience && removal == [] && done == Some(Created(sid, runner))
    else
      && left == Left(patience, 1)
      && ((done == None && removal == [Removed(runner.id, true)])
          || (done == Some(StoreFailed) && removal == [Removed(runner.id, false)]))
  }

  /** The accesses in one bucket so far, with no runner in hand. */
  ghost predicate Searching(base: seq<Op>, trace: seq<Op>, ops: seq<Op>, sid: string, bucket: nat,
                            healthy: string -> bool, patience: Option<nat>, left: Option<nat>) {
    Spends(base, trace, ops, patience, left) && InBucket(ops, sid, bucket, healthy) && Settled(ops)
  }

  /** The accesses of a whole visit to one bucket. */
  ghost predicate Searched(base: seq<Op>, trace: seq<Op>, ops: seq<Op>, sid: string, bucket: nat,
                           healthy: string -> bool, checks: bool, patience: Option<nat>, left: Option<nat>,
                           done: Option<CreateResult>) {
    && Spends(base, trace, ops, patience, left) && InBucket(ops, sid, bucket, healthy) && AsksAny(ops)
    && if done.Some? then Justifies(ops, sid, healthy, checks, left, done.value)
       else Settled(ops) && Exhausted(ops, bucket, sid)
  }

  lemma SearchBegins(base: seq<Op>, sid: string, bucket: nat, healthy: string -> bool, patience: Option<nat>)
    ensures Searching(base, base, [], sid, bucket, healthy, patience, patience)
  {
    assert base + [] == base;
    NothingInBucket(sid, bucket, healthy);
  }

  /** An acquisition that takes no runner ends the visit. */
  lemma SearchEnds(base: seq<Op>, trace: seq<Op>, trace': seq<Op>, ops: seq<Op>, more: seq<Op>, sid: string,
                   bucket: nat, healthy: string -> bool, checks: bool, patience: Option<nat>, left: Option<nat>,
                   r: AcquireResult)
    requires Searching(base, trace, ops, sid, bucket, healthy, patience, left) && !r.Acquired?
    requires Acquisition(trace, trace', more, sid, bucket, r)
    ensures Searched(base, trace', ops + more, sid, bucket, healthy, checks, patience, left,
                     if r.NoneIdle? then None else Some(StoreFailed))
  {
    hide InBucket, Settled, Acquiring, Removals, AsksAny, Exhausted, Failed;
    AddAcquisition(ops, more, sid, bucket, healthy, r);
    assert base + ops + more == base + (ops + more);
  }

  /** A runner taken is checked: either that ends the visit, or the runner is gone. */
  lemma SearchChecks(base: seq<Op>, trace: seq<Op>, trace': seq<Op>, ops: seq<Op>, more: seq<Op>, sid: string,
                     bucket: nat, healthy: string -> bool, checks: bool, patience: Option<nat>, left: Option<nat>,
                     runner: Listing, left': Option<nat>, removal: seq<Op>, done: Option<CreateResult>)
    requires Searching(base, trace, ops, sid, bucket, healthy, patience, left)
    requires Acquisition(trace, trace', more, sid, bucket, Acquired(runner))
    requires Judges(healthy, checks, sid, runner, left, left', removal, done) && (checks || healthy(runner.url))
    ensures if done.Some? then Searched(base, trace' + removal, ops + more + removal, sid, bucket, healthy, checks,
                                        patience, left', done)
            else Searching(base, trace' + removal, ops + more + removal, sid, bucket, healthy, patience, left')
    ensures done.Some? ==> !done.value.NoIdleRunner? && (patience.None? ==> !done.value.Cancelled?)
  {
    hide InBucket, Settled, Acquiring, Removals, AsksAny, Exhausted, Failed;
    AddAcquisition(ops, more, sid, bucket, healthy, Acquired(runner));
    var all := ops + more;
    assert base + ops + more + removal == base + (ops + more + removal);
    if removal == [] {
      assert all + removal == all;
    } else {
      assert all != [];
      AddRemoval(all, sid, bucket, healthy, runner, removal[0].done);
    }
  }

  /** The accesses of a walk that has exhausted all its buckets so far. */
  ghost predicate TraceSoFar(base: seq<Op>, trace: seq<Op>, ops: seq<Op>, sid: string, healthy: string -> bool,
                             walked: seq<nat>, patience: Option<nat>, left: Option<nat>) {
    Spends(base, trace, ops, patience, left) && Walking(ops, sid, healthy, walked, |walked|) && Settled(ops)
  }

  lemma TraceBegins(base: seq<Op>, sid: string, healthy: string -> bool, patience: Option<nat>)
    ensures TraceSoFar(base, base, [], sid, healthy, [], patience, patience)
  {
    assert base + [] == base;
    WalkSetsOut(sid, healthy);
  }

  lemma TraceGrows(base: seq<Op>, trace: seq<Op>, trace': seq<Op>, ops: seq<Op>, more: seq<Op>, sid: string,
                   healthy: string -> bool, checks: bool, walked: seq<nat>, bucket: nat, patience: Option<nat>,
                   left: Option<nat>, left': Option<nat>, done: Option<CreateResult>)
    requires TraceSoFar(base, trace, ops, sid, healthy, walked, patience, left) && bucket !in walked
    requires Searched(trace, trace', more, sid, bucket, healthy, checks, left, left', done)
    ensures var all := ops + more;
            && trace' == base + all && Orderly(all, sid, healthy) && BucketsAsked(all) == walked + [bucket]
            && Within(patience, Removals(all)) && left' == Left(patience, Removals(all))
            && if done.Some? then Justifies(all, sid, healthy, checks, left', done.value)
               else TraceSoFar(base, trace', all, sid, healthy, walked + [bucket], patience, left')
  {
    hide InBucket, Settled, Orderly, Removals, AsksAny, Exhausted, Failed, BucketsAsked;
    AddBucket(ops, more, sid, bucket, healthy, walked);
    assert base + ops + more == base + (ops + more);
  }

  /** A walk through all buckets has exhausted each of them. */
  lemma TraceComplete(base: seq<Op>, trace: seq<Op>, ops: seq<Op>, sid: string, healthy: string -> bool, checks: bool,
                      walked: seq<nat>, start: nat, bc: nat, patience: Option<nat>, left: Option<nat>)
    requires start < bc == |walked| && forall k :: 0 <= k < bc ==> walked[k] == BucketAt(start, k, bc)
    requires TraceSoFar(base, trace, ops, sid, healthy, walked, patience, left)
    ensures trace == base + ops && Orderly(ops, sid, healthy) && BucketsAsked(ops) == walked
    ensures Within(patience, Removals(ops)) && left == Left(patience, Removals(ops))
    ensures Justifies(ops, sid, healthy, checks, left, NoIdleRunner)
    ensures forall b: nat :: b < bc ==> Exhausted(ops, b, sid)
  {
    assert ops != [];
    hide InBucket, Settled, Orderly, Removals, Exhausted, BucketsAsked;
    forall b: nat | b < bc ensures Exhausted(ops, b, sid) {
      WalkReaches(start, bc, b);
    }
  }

  lemma WalkIsNew(walked: seq<nat>, start: nat, bc: nat)
    requires start < bc && |walked| < bc && forall k :: 0 <= k < |walked| ==> walked[k] == BucketAt(start, k, bc)
    ensures BucketAt(start, |walked|, bc) !in walked
  {
    forall k | 0 <= k < |walked| ensures walked[k] != BucketAt(start, |walked|, bc) {
      WalkIsOnce(start, bc, k, |walked|);
    }
  }

  /** What looking up a session leaves: an answer, or the table without an unhealthy holder, or nothing found. */
  ghost predicate LookedUp(t: Table, t': Table, healthy: string -> bool, d: Disturbance, sid: string,
                           early: Option<ResolveResult>, reassigned: bool) {
    if sid != "" && HoldersOf(t, sid) != {} then
      exists id :: id in HoldersOf(t, sid) && LookedUpAt(t, t', healthy, d, sid, id, early, reassigned)
    else t' == t && !reassigned && (early.Some? ==> d.storeFails && early == Some(Aborted))
  }

  ghost predicate LookedUpAt(t: Table, t': Table, healthy: string -> bool, d: Disturbance, sid: string, id: string,
                             early: Option<ResolveResult>, reassigned: bool)
    requires id in t
  {
    if early.Some? then
      && t' == t
      && (early.value == Resolved(sid, t[id].url, false, false) || early.value == Aborted)
      && (early.value == Aborted ==> d.AtOnce())
      && (early.value.Resolved? ==> healthy(t[id].url) && d.patience != Some(0))
    else reassigned && !healthy(t[id].url) && t' == t - {id} && d.patience != Some(0)
  }

  lemma ResolvedEarly(t: Table, t': Table, healthy: string -> bool, d: Disturbance, buckets: nat, sid: string,
                      newSid: string, r: ResolveResult, re: bool)
    requires LookedUp(t, t', healthy, d, sid, Some(r), re)
    ensures Resolves(t, t', healthy, d, buckets, sid, newSid, r)
  {
    if sid != "" && HoldersOf(t, sid) != {} {
      var id :| id in HoldersOf(t, sid) && LookedUpAt(t, t', healthy, d, sid, id, Some(r), re);
      assert ResolvesFrom(t, t', healthy, d, buckets, sid, id, newSid, r);
    } else {
      assert t.Keys - t'.Keys == {};
      assert PurgedSome(t, t', healthy, buckets);
    }
  }

  lemma ResolvedLate(t: Table, t1: Table, t': Table, healthy: string -> bool, d: Disturbance, d': Disturbance,
                     buckets: nat, sid: string, newSid: string, reassigned: bool, c: CreateResult)
    requires LookedUp(t, t1, healthy, d, sid, None, reassigned)
    requires d' == if reassigned then d.AfterCheck() else d
    requires Creates(t1, t', healthy, buckets, d'.patience, newSid, c)
    requires c == StoreFailed ==> d'.storeFails
    ensures Resolves(t, t', healthy, d, buckets, sid, newSid, AnswerFor(c, reassigned))
  {
    var r := AnswerFor(c, reassigned);
    assert CreatesForResolve(t1, t', healthy, d', buckets, newSid, reassigned, r) by {
      if c.Created? {
        assert c.session == newSid by { assert Creates(t1, t', healthy, buckets, d'.patience, newSid, c); }
      }
      hide Creates;
    }
    if sid != "" && HoldersOf(t, sid) != {} {
      var id :| id in HoldersOf(t, sid) && LookedUpAt(t, t1, healthy, d, sid, id, None, reassigned);
      assert ResolvesFrom(t, t', healthy, d, buckets, sid, id, newSid, r);
    }
  }

  /** The answer to a resolve that creates a session. */
  function AnswerFor(c: CreateResult, reassigned: bool): ResolveResult {
    match c
    case Created(s, l) => Resolved(s, l.url, true, reassigned)
    case NoIdleRunner => NoRunner
    case _ => Aborted
  }

  class Service {
    const repo: Repository
    /** The health verdict on URLs, or None when no checker is configured. */
    const checker: Option<string -> bool>

    constructor (r: Repository, c: Option<string -> bool>)
      ensures repo == r && checker == c
    {
      repo, checker := r, c;
    }

    function Healthy(): string -> bool {
      if checker.Some? then checker.value else (_ => true)
    }

    /** Without a checker no health check can fail. */
    function Bound(patience: Option<nat>): Option<nat> {
      if checker.Some? then patience else None
    }

    function MayDisturb(patience: Option<nat>): Disturbance {
      Disturbance(!repo.reliable, Bound(patience))
    }

    /**
     * Walks all buckets once from a random start, throwing away unhealthy runners, until a healthy one is acquired.
     * `patience` is how many failed health checks pass before the request is cancelled, when the check under way fails
     * whatever the runner's health; None is never.
     * `walked` lists the buckets visited and `ops` the accesses: whatever the indexes answer, a runner is removed only
     * right after it was taken and found unhealthy, and it gives up only when in each bucket some query has listed
     * nothing but runners tried before. With an up-to-date index and no deleted ID registered again meanwhile, it
     * gives up only after each bucket has been empty at some instant of the call, whatever else other brokers do.
     */
    method CreateSession(sid: string, patience: Option<nat>)
      returns (r: CreateResult, ghost walked: seq<nat>, ghost ops: seq<Op>)
      requires repo.Valid()
      modifies repo`table, repo`others, repo`seen, repo`trace
      ensures repo.Valid()
      ensures Distinct(walked) && forall b :: b in walked ==> b < repo.bucketCount
      ensures r.NoIdleRunner? ==> |walked| == repo.bucketCount
      ensures (patience.None? ==> !r.Cancelled?) && (repo.reliable ==> !r.StoreFailed?)
      ensures repo.trace == old(repo.trace) + ops && Orderly(ops, sid, Healthy()) && BucketsAsked(ops) == walked
      ensures patience.Some? ==> Removals(ops) <= patience.value
      ensures Justifies(ops, sid, Healthy(), checker.Some?, Left(patience, Removals(ops)), r)
      ensures r.NoIdleRunner? ==> forall b: nat :: b < repo.bucketCount ==> Exhausted(ops, b, sid)
      ensures Unclaimed(old(repo.table), old(repo.others), sid) ==> Claimed(repo.table, repo.others, sid, r)
      ensures old(repo.seen) <= repo.seen
      ensures r.NoIdleRunner? && repo.upToDate && NoReuse(old(repo.table), old(repo.others)) ==>
                AllWereEmpty(repo.seen, |old(repo.seen)| - 1, repo.bucketCount)
      ensures old(repo.others) == [] ==> repo.others == []
      ensures old(repo.others) == [] && repo.upToDate ==>
                Creates(old(repo.table), repo.table, Healthy(), repo.bucketCount, Bound(patience), sid, r)
    {
      hide Walked, Creates, Unclaimed, Distinct, PutIds, Visited, AllWereEmpty, NoReuse, IdleIn, TraceSoFar, Searched,
           Orderly, BucketsAsked, Removals, Justifies, Exhausted;
      var bc := repo.bucketCount;
      var start: nat :| start < bc;
      walked, ops := [], [];
      ghost var base := repo.trace;
      TraceBegins(base, sid, Healthy(), patience);
      var left := patience;
      ghost var t0, gone := repo.table, {};
      ghost var quiet := repo.others == [] && repo.upToDate;
      ghost var since, noReuse := |repo.seen| - 1, repo.upToDate && NoReuse(t0, repo.others);
      NothingVisited(repo.seen, since, bc, start);
      WalkBegins(t0, Healthy(), bc, start, Bound(patience));
      for i := 0 to bc
        invariant repo.Valid() && (left.Some? ==> patience.Some?)
        invariant TraceSoFar(base, repo.trace, ops, sid, Healthy(), walked, patience, left)
        invariant |walked| == i && forall k :: 0 <= k < i ==> walked[k] == BucketAt(start, k, bc)
        invariant Unclaimed(t0, old(repo.others), sid) ==> Unclaimed(repo.table, repo.others, sid)
        invariant old(repo.others) == [] ==> repo.others == []
        invariant quiet ==> Walked(t0, repo.table, gone, Healthy(), bc, start, i, Bound(patience), Bound(left))
        invariant old(repo.seen) <= repo.seen
        invariant noReuse ==> NoReuse(repo.table, repo.others) && Visited(repo.seen, since, bc, start, i)
      {
        var bucket := (start + i) % bc;
        assert bucket == BucketAt(start, i, bc);
        var done;
        ghost var seen, trace, left0, more := repo.seen, repo.trace, left, [];
        done, left, gone, more := WalkBucket(sid, bucket, left, t0, gone, start, i, quiet, Bound(patience));
        WalkIsNew(walked, start, bc);
        TraceGrows(base, trace, repo.trace, ops, more, sid, Healthy(), checker.Some?, walked, bucket, patience, left0,
                   left, done);
        walked, ops := walked + [bucket], ops + more;
        if done.Some? {
          WalkDistinct(walked, start, bc);
          return done.value, walked, ops;
        }
        if noReuse {
          VisitsNext(seen, repo.seen, since, bc, start, i);
        }
      }
      WalkDistinct(walked, start, bc);
      TraceComplete(base, repo.trace, ops, sid, Healthy(), checker.Some?, walked, start, bc, patience, left);
      if noReuse {
        VisitedAll(repo.seen, since, bc, start);
      }
      if quiet {
        WalkEnds(t0, repo.table, gone, Healthy(), bc, start, Bound(patience), Bound(left), sid);
      }
      if Unclaimed(t0, old(repo.others), sid) {
        NoneClaimed(repo.table, repo.others, sid);
      }
      r := NoIdleRunner;
    }

    /** One bucket of the walk: acquires and checks until a runner is healthy or the bucket gives no more. */
    method WalkBucket(sid: string, bucket: nat, patience: Option<nat>, ghost t0: Table, ghost gone0: set<string>,
                      ghost start: nat, ghost i: nat, ghost quiet: bool, ghost whole: Option<nat>)
      returns (done: Option<CreateResult>, left: Option<nat>, ghost gone: set<string>, ghost ops: seq<Op>)
      requires repo.Valid() && start < repo.bucketCount && bucket == BucketAt(start, i, repo.bucketCount)
      requires quiet ==>
                 && repo.others == [] && repo.upToDate
                 && Walked(t0, repo.table, gone0, Healthy(), repo.bucketCount, start, i, whole, Bound(patience))
      modifies repo`table, repo`others, repo`seen, repo`trace
      ensures repo.Valid() && (left.Some? ==> patience.Some?)
      ensures done.Some? ==> && !done.value.NoIdleRunner? && (patience.None? ==> !done.value.Cancelled?)
                             && (repo.reliable ==> !done.value.StoreFailed?)
      ensures Searched(old(repo.trace), repo.trace, ops, sid, bucket, Healthy(), checker.Some?, patience, left, done)
      ensures Unclaimed(old(repo.table), old(repo.others), sid) ==>
                if done.Some? then Claimed(repo.table, repo.others, sid, done.value)
                else Unclaimed(repo.table, repo.others, sid)
      ensures old(repo.seen) <= repo.seen
      ensures NoReuse(old(repo.table), old(repo.others)) ==> NoReuse(repo.table, repo.others)
      ensures done.None? && repo.upToDate && NoReuse(old(repo.table), old(repo.others)) ==>
                IdleIn(repo.table, bucket) == {}
      ensures old(repo.others) == [] ==> repo.others == []
      ensures quiet ==>
                if done.Some? then Creates(t0, repo.table, Healthy(), repo.bucketCount, whole, sid, done.value)
                else Walked(t0, repo.table, gone, Healthy(), repo.bucketCount, start, i + 1, whole, Bound(left))
    {
      hide Walked, Creates, PutIds, Apply, IdleIn, Succeeds, NoReuse, Searching, Searched, Acquisition, Judges,
           HoldersOf, IdleIds, NeverAssigns, Repository.Supply;
      left, gone, ops := patience, gone0, [];
      ghost var base := repo.trace;
      SearchBegins(base, sid, bucket, Healthy(), patience);
      ghost var alone := Unclaimed(repo.table, repo.others, sid);
      while true
        invariant repo.Valid() && (left.Some? ==> patience.Some?)
        invariant Searching(base, repo.trace, ops, sid, bucket, Healthy(), patience, left)
        invariant alone ==> Unclaimed(repo.table, repo.others, sid)
        invariant old(repo.seen) <= repo.seen
        invariant NoReuse(old(repo.table), old(repo.others)) ==> NoReuse(repo.table, repo.others)
        invariant old(repo.others) == [] ==> repo.others == []
        invariant quiet ==> Walked(t0, repo.table, gone, Healthy(), repo.bucketCount, start, i, whole, Bound(left))
        decreases repo.Supply()
      {
        ghost var before, trace0, left0 := repo.table, repo.trace, left;
        var acquired;
        ghost var more;
        acquired, more := repo.AcquireIdle(sid, bucket);
        ghost var trace1 := repo.trace;
        if !acquired.Acquired? {
          SearchEnds(base, trace0, trace1, ops, more, sid, bucket, Healthy(), checker.Some?, patience, left, acquired);
        }
        if acquired.AcquireFailed? {
          if quiet {
            WalkFails(t0, repo.table, gone, Healthy(), repo.bucketCount, start, i, whole, Bound(left), sid);
          }
          return Some(StoreFailed), left, gone, ops + more;
        }
        if acquired.NoneIdle? {
          if quiet {
            NothingToRegister(before);
            WalkNext(t0, repo.table, gone, Healthy(), repo.bucketCount, start, i, whole, Bound(left));
          }
          return None, left, gone, ops + more;
        }
        ghost var removal;
        done, left, removal := CheckRunner(sid, acquired.runner, left);
        SearchChecks(base, trace0, trace1, ops, more, sid, bucket, Healthy(), checker.Some?, patience, left0,
                     acquired.runner, left, removal, done);
        if quiet {
          NothingToRegister(before);
          WalkChecks(t0, before, repo.table, gone, Healthy(), repo.bucketCount, start, i, whole, checker.Some?, left0,
                     left, sid, acquired.runner, removal, done);
        }
        ops := ops + more + removal;
        if done.Some? {
          return done, left, gone, ops;
        }
        gone := gone + {acquired.runner.id};
      }
    }

    /** The check of a runner just acquired: it is returned when healthy, and otherwise removed. */
    method CheckRunner(sid: string, runner: Listing, patience: Option<nat>)
      returns (done: Option<CreateResult>, left: Option<nat>, ghost removal: seq<Op>)
      requires repo.Valid()
      modifies repo`table, repo`others, repo`seen, repo`trace
      ensures repo.Valid() && repo.Supply() <= old(repo.Supply()) && (left.Some? ==> patience.Some?)
      ensures Judges(Healthy(), checker.Some?, sid, runner, patience, left, removal, done)
      ensures checker.None? ==> Healthy()(runner.url)
      ensures repo.trace == old(repo.trace) + removal && (repo.reliable ==> done != Some(StoreFailed))
      ensures old(repo.seen) <= repo.seen
      ensures NoReuse(old(repo.table), old(repo.others)) ==> NoReuse(repo.table, repo.others)
      ensures NeverAssigns(old(repo.others), sid) && HoldersOf(old(repo.table), sid) <= {runner.id} ==>
                if done.Some? then Claimed(repo.table, repo.others, sid, done.value)
                else Unclaimed(repo.table, repo.others, sid)
      ensures old(repo.others) == [] ==>
                && repo.others == []
                && repo.table == if done.Some? then old(repo.table) else old(repo.table) - {runner.id}
    {
      hide PutIds, NoReuse, IdleIds, Repository.Supply;
      left, removal := patience, [];
      ghost var alone := NeverAssigns(repo.others, sid) && HoldersOf(repo.table, sid) <= {runner.id};
      Meanwhile(sid, runner.id);
      if checker.None? {
        return Some(Created(sid, runner)), left, removal;
      }
      if left == Some(0) {
        return Some(Cancelled), left, removal;
      }
      if checker.value(runner.url) {
        return Some(Created(sid, runner)), left, removal;
      }
      if left.Some? {
        left := Some(left.value - 1);
      }
      if alone {
        PurgedHolder(repo.table, sid, runner.id);
      }
      if NoReuse(repo.table, repo.others) {
        NoReuseWithout(repo.table, repo.others, runner.id);
      }
      var deleted := repo.Delete(runner.id);
      removal := [Removed(runner.id, deleted)];
      if !deleted {
        return Some(StoreFailed), left, removal;
      }
      return None, left, removal;
    }

    /**
     * Returns the runner holding the session if it is healthy; otherwise removes it and creates a session under a new
     * ID. `patience` counts failed health checks before cancellation, as for creation. `looked` is the removal of an
     * unhealthy holder, if any, and `ops` are the accesses of the creation.
     */
    method ResolveSession(sid: string, newSid: string, patience: Option<nat>)
      returns (r: ResolveResult, ghost looked: seq<Op>, ghost ops: seq<Op>)
      requires repo.Valid()
      modifies repo`table, repo`others, repo`seen, repo`trace
      ensures repo.Valid()
      ensures repo.trace == old(repo.trace) + looked + ops && Within(patience, Removals(looked + ops))
      ensures looked == [] || exists id, done :: looked == [Removed(id, done)]
      ensures r.Aborted? && repo.reliable ==> checker.Some? && patience == Some(Removals(looked + ops))
      ensures r.NoRunner? ==> forall b: nat :: b < repo.bucketCount ==> Exhausted(ops, b, newSid)
      ensures r.Resolved? ==> Healthy()(r.url) && (r.reassigned <==> looked != [])
      ensures r.Resolved? ==>
                if r.created then
                  r.session == newSid && ops != [] && exists id :: Takes(ops[|ops| - 1], Listing(id, r.url), newSid)
                else r.session == sid && looked == [] && ops == []
      ensures Unclaimed(old(repo.table), old(repo.others), newSid) ==>
                |HoldersOf(repo.table, newSid)| <= 1 && (r.NoRunner? ==> HoldersOf(repo.table, newSid) == {})
      ensures old(repo.others) == [] ==> repo.others == []
      ensures old(repo.others) == [] && repo.upToDate ==>
                Resolves(old(repo.table), repo.table, Healthy(), MayDisturb(patience), repo.bucketCount, sid, newSid, r)
    {
      hide Creates, LookedUp, Unclaimed, Claimed, PutIds, Orderly, BucketsAsked, Exhausted, Removals;
      ghost var t0 := repo.table;
      ghost var alone := Unclaimed(t0, repo.others, newSid);
      ops := [];
      var early, left, reassigned;
      early, left, reassigned, looked := Lookup(sid, patience, newSid);
      if early.Some? {
        if alone {
          NoneClaimed(repo.table, repo.others, newSid);
          ClaimedOnce(repo.table, repo.others, newSid, NoIdleRunner);
        }
        if repo.upToDate && old(repo.others) == [] {
          ResolvedEarly(t0, repo.table, Healthy(), MayDisturb(patience), repo.bucketCount, sid, newSid, early.value,
                        reassigned);
        }
        assert looked + ops == looked;
        return early.value, looked, ops;
      }
      ghost var t1 := repo.table;
      var created;
      ghost var walked;
      created, walked, ops := CreateSession(newSid, left);
      RemovalsAppend(looked, ops);
      r := AnswerFor(created, reassigned);
      if alone {
        ClaimedOnce(repo.table, repo.others, newSid, created);
      }
      if repo.upToDate && old(repo.others) == [] {
        ghost var d := MayDisturb(patience);
        ResolvedLate(t0, t1, repo.table, Healthy(), d, if reassigned then d.AfterCheck() else d, repo.bucketCount, sid,
                     newSid, reassigned, created);
      }
    }

    /** Finds the session's runner: it is returned while healthy, and otherwise removed. */
    method Lookup(sid: string, patience: Option<nat>, ghost newSid: string)
      returns (early: Option<ResolveResult>, left: Option<nat>, reassigned: bool, ghost looked: seq<Op>)
      requires repo.Valid()
      modifies repo`table, repo`others, repo`seen, repo`trace
      ensures repo.Valid() && (left.Some? ==> patience.Some?)
      ensures repo.trace == old(repo.trace) + looked
      ensures Within(patience, |looked|) && |looked| == Removals(looked)
      ensures left == if looked == [] then patience else Left(patience, 1)
      ensures looked == [] || exists id, done :: looked == [Removed(id, done)]
      ensures looked != [] ==> checker.Some? && early == if looked[0].done then None else Some(Aborted)
      ensures reassigned <==> looked != [] && looked[0].done
      ensures early == Some(Aborted) && repo.reliable ==> checker.Some? && left == Some(0)
      ensures early.Some? && !early.value.Aborted? ==>
                early.value.Resolved? && early.value == Resolved(sid, early.value.url, false, false)
                && Healthy()(early.value.url)
      ensures Unclaimed(old(repo.table), old(repo.others), newSid) ==> Unclaimed(repo.table, repo.others, newSid)
      ensures old(repo.others) == [] ==> repo.others == []
      ensures old(repo.others) == [] && repo.upToDate ==>
                LookedUp(old(repo.table), repo.table, Healthy(), MayDisturb(patience), sid, early, reassigned)
    {
      hide Unclaimed, PutIds;
      ghost var alone := Unclaimed(repo.table, repo.others, newSid);
      left, reassigned, looked := patience, false, [];
      if sid == "" {
        return None, left, reassigned, looked;
      }
      ghost var t := repo.table;
      ghost var burst := repo.Yield();
      if alone {
        StaysUnclaimed(t, burst, repo.others, newSid);
      }
      var failed, found := repo.FindBySessionID(sid);
      if failed {
        return Some(Aborted), left, reassigned, looked;
      }
      if found.None? {
        return None, left, reassigned, looked;
      }
      if checker.None? {
        return Some(Resolved(sid, found.value.url, false, false)), left, reassigned, looked;
      }
      if left == Some(0) {
        return Some(Aborted), left, reassigned, looked;
      }
      if checker.value(found.value.url) {
        return Some(Resolved(sid, found.value.url, false, false)), left, reassigned, looked;
      }
      if left.Some? {
        left := Some(left.value - 1);
      }
      t := repo.table;
      burst := repo.Yield();
      if alone {
        StaysUnclaimed(t, burst, repo.others, newSid);
        StaysUnclaimedWithout(repo.table, repo.others, newSid, found.value.id);
      }
      var deleted := repo.Delete(found.value.id);
      looked := [Removed(found.value.id, deleted)];
      OneRemoval(found.value.id, deleted);
      if !deleted {
        return Some(Aborted), left, reassigned, looked;
      }
      return None, left, true, looked;
    }

    /**
     * `before` and `between` are what other brokers do before the session is looked up and before its runner is
     * deleted.
     */
    method CloseSession(sid: string) returns (r: CloseResult, ghost before: seq<Access>, ghost between: seq<Access>)
      requires repo.Valid()
      modifies repo`table, repo`others, repo`seen, repo`trace
      ensures repo.Valid() && old(repo.others) == before + between + repo.others
      ensures repo.reliable ==> r != CloseFailed
      ensures var found := ApplyAll(old(repo.table), before);
              var t := ApplyAll(found, between);
              && (r == Closed ==> exists id :: id in repo.universe && repo.table == t - {id})
              && (r != Closed ==> repo.table == t)
              && (repo.upToDate && HoldersOf(found, sid) == {} && r != CloseFailed ==> r == NotFound)
              && (repo.upToDate && HoldersOf(found, sid) != {} && r != CloseFailed ==>
                    r == Closed && exists id :: id in HoldersOf(found, sid) && repo.table == t - {id})
      ensures old(repo.others) == [] && repo.upToDate ==> Closes(old(repo.table), repo.table, !repo.reliable, sid, r)
    {
      between := [];
      before := repo.Yield();
      var failed, found := repo.FindBySessionID(sid);
      if failed {
        return CloseFailed, before, between;
      }
      if found.None? {
        return NotFound, before, between;
      }
      between := repo.Yield();
      var deleted := repo.Delete(found.value.id);
      r := if deleted then Closed else CloseFailed;
    }

    /** Other brokers run during the health check; they may remove the runner just assigned, but not add another. */
    method Meanwhile(sid: string, id: string)
      requires repo.Valid()
      modifies repo`table, repo`others, repo`seen
      ensures repo.Valid() && repo.Supply() <= old(repo.Supply()) && old(repo.seen) <= repo.seen
      ensures NoReuse(old(repo.table), old(repo.others)) ==> NoReuse(repo.table, repo.others)
      ensures old(repo.others) == [] ==> repo.others == [] && repo.table == old(repo.table)
      ensures NeverAssigns(old(repo.others), sid) && HoldersOf(old(repo.table), sid) <= {id} ==>
                && NeverAssigns(repo.others, sid)
                && HoldersOf(repo.table, sid) <= {id} && |HoldersOf(repo.table, sid)| <= 1
    {
      ghost var t := repo.table;
      ghost var burst := repo.Yield();
      if NoReuse(t, old(repo.others)) {
        BurstKeepsNoReuse(t, burst, repo.others);
      }
      if NeverAssigns(old(repo.others), sid) && HoldersOf(t, sid) <= {id} {
        assert NeverAssigns(burst, sid);
        BurstKeepsSessionFree(t, burst, sid);
        Subset(HoldersOf(repo.table, sid), {id});
      }
    }
  }

  lemma StaysUnclaimed(t: Table, burst: seq<Access>, rest: seq<Access>, sid: string)
    requires Unclaimed(t, burst + rest, sid)
    ensures Unclaimed(ApplyAll(t, burst), rest, sid)
  {
    assert forall a :: a in burst || a in rest ==> a in burst + rest;
    BurstKeepsSessionFree(t, burst, sid);
  }

  lemma StaysUnclaimedWithout(t: Table, others: seq<Access>, sid: string, id: string)
    requires Unclaimed(t, others, sid)
    ensures Unclaimed(t - {id}, others, sid)
  {
    assert HoldersOf(t - {id}, sid) <= HoldersOf(t, sid);
  }

  lemma ClaimedOnce(t: Table, others: seq<Access>, sid: string, r: CreateResult)
    requires Claimed(t, others, sid, r)
    ensures |HoldersOf(t, sid)| <= 1 && (r.NoIdleRunner? ==> HoldersOf(t, sid) == {})
  {
  }

  lemma NothingToRegister(t: Table)
    ensures NoReuse(t, [])
  {
  }

  lemma PurgedHolder(t: Table, sid: string, id: string)
    requires HoldersOf(t, sid) <= {id}
    ensures HoldersOf(t - {id}, sid) == {}
  {
  }
}
