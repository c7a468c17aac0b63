/** The broker: its runner repository and its session service, with other brokers running in between. */
module Broker {
  import opened Prelude
  import opened PoolTable

  const QUERY_LIMIT := 20

  /** A runner as an index query answered it. */
  datatype Listing = Listing(id: string, url: string)

  datatype RegisterResult = Registered | EmptyUrl | Conflict | Vanished | RegisterFailed

  datatype AssignResult = Assigned | ConditionFailed | AssignFailed

  datatype AcquireResult = Acquired(runner: Listing) | NoneIdle | AcquireFailed

  /** What a broker has asked of the table, with the answers. */
  datatype Op =
    | Asked(bucket: nat, answer: Option<seq<Listing>>)
    | Tried(id: string, url: string, session: string, result: AssignResult)
    | Removed(removedId: string, done: bool)

  predicate Distinct<T(==)>(s: seq<T>) {
    forall i, j :: 0 <= i < j < |s| ==> s[i] != s[j]
  }

  /** Puts the elements of an array into a random order, in place. */
  method Shuffle(a: array<Listing>)
    modifies a
    ensures multiset(a[..]) == multiset(old(a[..]))
  {
    var i := a.Length;
    while i > 1
      invariant 0 <= i <= a.Length
      invariant multiset(a[..]) == multiset(old(a[..]))
    {
      i := i - 1;
      var j :| 0 <= j <= i;
      a[i], a[j] := a[j], a[i];
    }
  }

  /** `attempts` lists the elements of `tried`, each once. */
  ghost predicate Lists(attempts: seq<string>, tried: set<string>) {
    Distinct(attempts) && forall x :: x in attempts <==> x in tried
  }

  lemma ListsDistinct(attempts: seq<string>, tried: set<string>)
    requires Lists(attempts, tried)
    ensures Distinct(attempts)
  {
  }

  lemma ListsMore(attempts: seq<string>, tried: set<string>, x: string)
    requires Lists(attempts, tried) && x !in tried
    ensures Lists(attempts + [x], tried + {x}) && x !in attempts
  {
    assert forall k :: 0 <= k < |attempts| ==> attempts[k] in attempts;
  }

  /**
   * What holds during an acquisition that started from table `t0` with accesses `o0` to come: nothing changes when
   * there are none, nobody else takes the session, and the runners tried so far can never be idle again.
   */
  ghost predicate Pursues(t0: Table, o0: seq<Access>, t: Table, o: seq<Access>, sid: string,
                          known: set<string>, tried: set<string>, upToDate: bool) {
    && (o0 == [] ==> o == [] && t == t0)
    && (NeverAssigns(o0, sid) ==> NeverAssigns(o, sid))
    && (NeverAssigns(o0, sid) && HoldersOf(t0, sid) == {} ==> HoldersOf(t, sid) == {})
    && (NoReuse(t0, o0) ==>
          FreshPuts(o, t.Keys, known) && t.Keys <= known && (upToDate ==> tried <= known && tried !! IdleIds(t)))
  }

  /**
   * What an acquisition leaves: at most the runner it returned holds the session, and with nobody else acting nothing
   * but that assignment has happened.
   */
  ghost predicate Ends(t0: Table, o0: seq<Access>, t: Table, o: seq<Access>, sid: string, r: AcquireResult) {
    && (NeverAssigns(o0, sid) ==> NeverAssigns(o, sid))
    && (NeverAssigns(o0, sid) && HoldersOf(t0, sid) == {} ==>
          HoldersOf(t, sid) == if r.Acquired? then {r.runner.id} else {})
    && (NoReuse(t0, o0) ==> NoReuse(t, o))
    && (o0 == [] ==>
          && o == []
          && (r.Acquired? ==> Succeeds(t0, Assign(r.runner.id, sid)))
          && t == if r.Acquired? then Apply(t0, Assign(r.runner.id, sid)) else t0)
  }

  // ---- the order of a broker's accesses ----

  function TriedIds(ops: seq<Op>): seq<string> {
    if ops == [] then [] else
      var op := ops[|ops| - 1];
      TriedIds(ops[..|ops| - 1]) + if op.Tried? then [op.id] else []
  }

  /** The runners listed by the last query. */
  function LastAnswer(ops: seq<Op>): seq<Listing> {
    if ops == [] then [] else
      var op := ops[|ops| - 1];
      if op.Asked? then (if op.answer.Some? then op.answer.value else []) else LastAnswer(ops[..|ops| - 1])
  }

  /** An access after which an acquisition is over: a runner assigned, or a failure. */
  predicate Final(op: Op) {
    match op
    case Asked(_, answer) => answer.None?
    case Tried(_, _, _, r) => r != ConditionFailed
    case Removed(_, _) => true
  }

  /** A new query is due: at the beginning, or when all listed runners have been tried and the last access was one. */
  ghost predicate QueryDue(ops: seq<Op>, tried: seq<string>) {
    ops != [] ==> ops[|ops| - 1].Tried? && forall l :: l in LastAnswer(ops) ==> l.id in tried
  }

  /**
   * The accesses of one acquisition: queries of its bucket, each followed by attempts to take all the runners it listed
   * that have not been tried, until one is taken or an access fails.
   */
  ghost predicate Acquiring(ops: seq<Op>, sid: string, bucket: nat) {
    ops == [] ||
    var before, op := ops[..|ops| - 1], ops[|ops| - 1];
    && Acquiring(before, sid, bucket) && (before != [] ==> !Final(before[|before| - 1]))
    && match op
       case Asked(b, _) => b == bucket && QueryDue(before, TriedIds(before))
       case Tried(id, url, s, _) => s == sid && Listing(id, url) in LastAnswer(before) && id !in TriedIds(before)
       case Removed(_, _) => false
  }

  predicate Unfinished(ops: seq<Op>) {
    ops != [] ==> !Final(ops[|ops| - 1])
  }

  /** How the last access decides the result: it gives up only on an answer whose runners have all been tried before. */
  ghost predicate Concludes(ops: seq<Op>, sid: string, r: AcquireResult) {
    && ops != []
    && var op := ops[|ops| - 1];
       match r
       case Acquired(l) => op == Tried(l.id, l.url, sid, Assigned) && l in LastAnswer(ops)
       case NoneIdle => op.Asked? && op.answer.Some? && forall l :: l in op.answer.value ==> l.id in TriedIds(ops)
       case AcquireFailed => (op.Asked? && op.answer.None?) || (op.Tried? && op.result == AssignFailed)
  }

  lemma OneMoreOp(ops: seq<Op>, op: Op, sid: string, bucket: nat)
    requires Acquiring(ops, sid, bucket) && Unfinished(ops)
    requires match op
             case Asked(b, _) => b == bucket && QueryDue(ops, TriedIds(ops))
             case Tried(id, url, s, _) => s == sid && Listing(id, url) in LastAnswer(ops) && id !in TriedIds(ops)
             case Removed(_, _) => false
    ensures Acquiring(ops + [op], sid, bucket) && (Unfinished(ops + [op]) <==> !Final(op))
    ensures TriedIds(ops + [op]) == if op.Tried? then TriedIds(ops) + [op.id] else TriedIds(ops)
    ensures LastAnswer(ops + [op])
            == if op.Asked? then (if op.answer.Some? then op.answer.value else []) else LastAnswer(ops)
  {
    assert (ops + [op])[..|ops|] == ops;
  }

  lemma NoOps(sid: string, bucket: nat)
    ensures Acquiring([], sid, bucket) && Unfinished([]) && TriedIds([]) == []
  {
  }

  lemma PursuitBegins(t: Table, o: seq<Access>, sid: string, upToDate: bool)
    ensures Pursues(t, o, t, o, sid, t.Keys, {}, upToDate) && Lists([], {})
  {
  }

  lemma PursuitAt(t0: Table, o0: seq<Access>, t: Table, o: seq<Access>, sid: string,
                  known: set<string>, tried: set<string>, upToDate: bool)
    requires Pursues(t0, o0, t, o, sid, known, tried, upToDate)
    ensures o0 == [] ==> t == t0
    ensures Ends(t0, o0, t, o, sid, NoneIdle) && Ends(t0, o0, t, o, sid, AcquireFailed)
    ensures NoReuse(t0, o0) ==> t.Keys <= known
    ensures NoReuse(t0, o0) && upToDate ==> forall x, b :: x in tried ==> x !in IdleIn(t, b)
  {
    if NoReuse(t0, o0) {
      FreshPutsKnowingLess(o, t.Keys, known, t.Keys);
    }
    assert forall b :: IdleIn(t, b) <= IdleIds(t);
  }

  lemma Reordered(a: seq<Listing>, b: seq<Listing>)
    requires multiset(a) == multiset(b)
    ensures |a| == |b| && forall k :: 0 <= k < |a| ==> a[k] in b
  {
    assert |multiset(a)| == |a| && |multiset(b)| == |b|;
    forall k | 0 <= k < |a| ensures a[k] in b {
      assert a[k] in multiset(a);
    }
  }

  /** An attempt either ends the acquisition or adds one more runner that is taken. */
  lemma Attempted(t0: Table, o0: seq<Access>, t: Table, t': Table, o: seq<Access>, sid: string,
                  known: set<string>, tried: set<string>, upToDate: bool, runner: Listing)
    requires Pursues(t0, o0, t, o, sid, known, tried, upToDate) && t' == Apply(t, Assign(runner.id, sid))
    requires upToDate && NoReuse(t0, o0) ==> runner.id in known
    ensures if Succeeds(t, Assign(runner.id, sid)) then Ends(t0, o0, t', o, sid, Acquired(runner))
            else t' == t && Pursues(t0, o0, t, o, sid, known, tried + {runner.id}, upToDate)
  {
    if Succeeds(t, Assign(runner.id, sid)) {
      if NoReuse(t0, o0) {
        FreshPutsKnowingLess(o, t.Keys, known, t.Keys);
        assert t'.Keys == t.Keys;
      }
      assert HoldersOf(t', sid) == HoldersOf(t, sid) + {runner.id};
    }
  }

  /** The accesses since `base` are those of an acquisition under way that has tried the given runners. */
  ghost predicate UnderWay(base: seq<Op>, trace: seq<Op>, ops: seq<Op>, sid: string, bucket: nat, tried: set<string>) {
    trace == base + ops && Acquiring(ops, sid, bucket) && Unfinished(ops) && Lists(TriedIds(ops), tried)
  }

  /** They are those of a whole acquisition with the given result, which tried no runner twice. */
  ghost predicate Acquisition(base: seq<Op>, trace: seq<Op>, ops: seq<Op>, sid: string, bucket: nat, r: AcquireResult) {
    trace == base + ops && Acquiring(ops, sid, bucket) && Concludes(ops, sid, r) && Distinct(TriedIds(ops))
  }

  predicate JustAsked(ops: seq<Op>, bucket: nat, answer: seq<Listing>) {
    ops != [] && ops[|ops| - 1] == Asked(bucket, Some(answer))
  }

  ghost predicate AnswerSpent(ops: seq<Op>, tried: set<string>) {
    ops != [] ==> ops[|ops| - 1].Tried? && forall l :: l in LastAnswer(ops) ==> l.id in tried
  }

  lemma AllTried(answer: seq<Listing>, runners: seq<Listing>, tried: set<string>)
    requires multiset(runners) == multiset(answer) && forall k :: 0 <= k < |runners| ==> runners[k].id in tried
    ensures forall l :: l in answer ==> l.id in tried
  {
    forall l | l in answer ensures l.id in tried {
      assert l in multiset(answer) && l in multiset(runners);
    }
  }

  lemma Spent(ops: seq<Op>, tried: set<string>, answer: seq<Listing>)
    requires ops != [] && ops[|ops| - 1].Tried? && LastAnswer(ops) == answer
    requires forall l :: l in answer ==> l.id in tried
    ensures AnswerSpent(ops, tried)
  {
  }

  lemma SetsOut(base: seq<Op>, sid: string, bucket: nat)
    ensures UnderWay(base, base, [], sid, bucket, {}) && AnswerSpent([], {})
  {
    assert base + [] == base;
  }

  lemma QueryIsDue(ops: seq<Op>, tried: set<string>)
    requires Lists(TriedIds(ops), tried) && AnswerSpent(ops, tried)
    ensures QueryDue(ops, TriedIds(ops))
  {
  }

  lemma Asks(base: seq<Op>, trace: seq<Op>, ops: seq<Op>, sid: string, bucket: nat, tried: set<string>,
             answer: Option<seq<Listing>>)
    requires UnderWay(base, trace, ops, sid, bucket, tried) && AnswerSpent(ops, tried)
    ensures var op := Asked(bucket, answer);
            if answer.None? then Acquisition(base, trace + [op], ops + [op], sid, bucket, AcquireFailed)
            else && UnderWay(base, trace + [op], ops + [op], sid, bucket, tried)
                 && JustAsked(ops + [op], bucket, answer.value) && LastAnswer(ops + [op]) == answer.value
  {
    hide Acquiring, TriedIds, LastAnswer, Lists, QueryDue, AnswerSpent;
    var op := Asked(bucket, answer);
    QueryIsDue(ops, tried);
    OneMoreOp(ops, op, sid, bucket);
    ListsDistinct(TriedIds(ops), tried);
    assert base + ops + [op] == base + (ops + [op]);
    assert (ops + [op])[|ops + [op]| - 1] == op;
  }

  lemma GivesUp(base: seq<Op>, trace: seq<Op>, ops: seq<Op>, sid: string, bucket: nat, tried: set<string>,
                answer: seq<Listing>)
    requires UnderWay(base, trace, ops, sid, bucket, tried) && JustAsked(ops, bucket, answer)
    requires forall l :: l in answer ==> l.id in tried
    ensures Acquisition(base, trace, ops, sid, bucket, NoneIdle)
  {
    ListsDistinct(TriedIds(ops), tried);
  }

  lemma Attempts(base: seq<Op>, trace: seq<Op>, ops: seq<Op>, sid: string, bucket: nat, tried: set<string>,
                 runner: Listing, result: AssignResult)
    requires UnderWay(base, trace, ops, sid, bucket, tried)
    requires runner in LastAnswer(ops) && runner.id !in tried
    ensures var op := Tried(runner.id, runner.url, sid, result);
            match result
            case Assigned => Acquisition(base, trace + [op], ops + [op], sid, bucket, Acquired(runner))
            case AssignFailed => Acquisition(base, trace + [op], ops + [op], sid, bucket, AcquireFailed)
            case ConditionFailed =>
              && UnderWay(base, trace + [op], ops + [op], sid, bucket, tried + {runner.id})
              && LastAnswer(ops + [op]) == LastAnswer(ops) && (ops + [op])[|ops|].Tried?
  {
    var op := Tried(runner.id, runner.url, sid, result);
    ListsMore(TriedIds(ops), tried, runner.id);
    hide Acquiring, TriedIds, LastAnswer, Lists;
    OneMoreOp(ops, op, sid, bucket);
    ListsDistinct(TriedIds(ops) + [runner.id], tried + {runner.id});
    assert base + ops + [op] == base + (ops + [op]);
  }

  class Repository {
    var table: Table
    /** Accesses of other brokers still to come; at every yield some of them happen. */
    var others: seq<Access>
    /** The tables there have been, the current one last. */
    ghost var seen: seq<Table>
    /** This broker's own accesses for acquiring and removing runners. */
    ghost var trace: seq<Op>
    /** Whether index queries see the latest table. */
    const upToDate: bool
    /** Whether no store access fails. A failed access has no effect. */
    const reliable: bool
    /** Every ID the indexes can answer. */
    const universe: set<string>
    const bucketCount: nat

    ghost predicate Valid()
      reads this
    {
      && bucketCount > 0 && table.Keys + PutIds(others) <= universe
      && seen != [] && seen[|seen| - 1] == table
    }

    constructor (t: Table, schedule: seq<Access>, current: bool, faultless: bool, ids: set<string>, buckets: nat)
      requires buckets > 0 && t.Keys + PutIds(schedule) <= ids
      ensures Valid() && table == t && others == schedule
      ensures upToDate == current && reliable == faultless && universe == ids && bucketCount == buckets
    {
      table, others, upToDate, reliable, universe, bucketCount := t, schedule, current, faultless, ids, buckets;
      seen, trace := [t], [];
    }

    /** The idle runners plus the accesses to come: bounds how many acquisitions can still succeed. */
    ghost function Supply(): nat
      reads this
    {
      |IdleIds(table)| + |others|
    }

    /** Other brokers make some of their accesses. */
    method Yield() returns (ghost burst: seq<Access>)
      requires Valid()
      modifies this`table, this`others, this`seen
      ensures Valid() && Supply() <= old(Supply()) && old(seen) <= seen
      ensures old(others) == burst + others && table == ApplyAll(old(table), burst)
    {
      var n :| 0 <= n <= |others|;
      burst := others[..n];
      BurstAddsIdle(table, burst);
      table := ApplyAll(table, others[..n]);
      seen := seen + [table];
      others := others[n..];
      assert old(others) == burst + others;
    }

    /** Whether the next access fails. */
    method Fails() returns (failed: bool)
      ensures reliable ==> !failed
    {
      failed := *;
      failed := failed && !reliable;
    }

    /**
     * `before` and `between` are what other brokers do before the conditional put and before the read that follows a
     * refused one.
     */
    method Register(id: string, url: string)
      returns (r: RegisterResult, ghost before: seq<Access>, ghost between: seq<Access>)
      requires Valid() && id in universe
      modifies this`table, this`others, this`seen
      ensures Valid() && old(others) == before + between + others
      ensures r == EmptyUrl <==> url == ""
      ensures reliable ==> r != RegisterFailed
      ensures var t1 := ApplyAll(old(table), before);
              var t2 := ApplyAll(t1, between);
              && (r == EmptyUrl ==> table == old(table))
              && (url != "" && id !in t1 && r != RegisterFailed ==>
                    && r == Registered
                    && exists b: nat :: b < bucketCount && table == t1[id := Runner(None, Some(b), url)])
              && (id in t1 || r == RegisterFailed ==> table == t2)
              && (url != "" && id in t1 && r != RegisterFailed ==>
                    r == if id !in t2 then Vanished else if t2[id].url == url then Registered else Conflict)
    {
      before, between := [], [];
      if url == "" {
        return EmptyUrl, before, between;
      }
      before := Yield();
      var failed := Fails();
      if failed {
        return RegisterFailed, before, between;
      }
      var b: nat :| b < bucketCount;
      var put := Put(id, b, url);
      if Succeeds(table, put) {
        table := Apply(table, put);
        seen := seen + [table];
        return Registered, before, between;
      }
      between := Yield();
      failed := Fails();
      if failed {
        return RegisterFailed, before, between;
      }
      if id !in table {
        return Vanished, before, between;
      }
      r := if table[id].url == url then Registered else Conflict;
    }

    /** What the idle index answers: at most the query limit; exactly idle runners of the bucket when up to date. */
    method QueryIdleBucket(bucket: nat) returns (failed: bool, runners: array<Listing>)
      requires Valid()
      modifies this`trace
      ensures Valid() && (reliable ==> !failed) && Supply() == old(Supply())
      ensures trace == old(trace) + [Asked(bucket, if failed then None else Some(runners[..]))]
      ensures fresh(runners) && runners.Length <= QUERY_LIMIT
      ensures forall l :: l in runners[..] ==> l.id in universe
      ensures upToDate ==>
                forall l :: l in runners[..] ==>
                  l.id in table && l.id in IdleIn(table, bucket) && table[l.id].url == l.url
      ensures upToDate && !failed ==> (runners.Length == 0 <==> IdleIn(table, bucket) == {})
      ensures upToDate && !failed ==>
                runners.Length == if |IdleIn(table, bucket)| < QUERY_LIMIT then |IdleIn(table, bucket)| else QUERY_LIMIT
      ensures upToDate ==> forall i, j :: 0 <= i < j < runners.Length ==> runners[i].id != runners[j].id
    {
      failed := Fails();
      if failed {
        runners := new Listing[0];
        trace := trace + [Asked(bucket, None)];
        return;
      }
      var found: seq<Listing> := [];
      if upToDate {
        var left := IdleIn(table, bucket);
        while left != {} && |found| < QUERY_LIMIT
          invariant |found| <= QUERY_LIMIT && left <= IdleIn(table, bucket)
          invariant forall l :: l in found ==> l.id in IdleIn(table, bucket) && table[l.id].url == l.url
          invariant |found| + |left| == |IdleIn(table, bucket)|
          invariant forall l :: l in found ==> l.id !in left
          invariant forall i, j :: 0 <= i < j < |found| ==> found[i].id != found[j].id
          decreases left
        {
          var id :| id in left;
          left := left - {id};
          found := found + [Listing(id, table[id].url)];
        }
      } else if universe != {} {
        var n :| 0 <= n <= QUERY_LIMIT;
        for i := 0 to n
          invariant |found| == i
          invariant forall l :: l in found ==> l.id in universe
        {
          var id :| id in universe;
          var url: string := *;
          found := found + [Listing(id, url)];
        }
      }
      runners := new Listing[|found|](i requires 0 <= i < |found| => found[i]);
      assert runners[..] == found;
      trace := trace + [Asked(bucket, Some(found))];
      assert found != [] ==> found[0] in found;
    }

    /** `url` is what the index listed for the runner. */
    method AssignSession(id: string, sid: string, ghost url: string) returns (r: AssignResult)
      requires Valid()
      modifies this`table, this`seen, this`trace
      ensures Valid() && (reliable ==> r != AssignFailed) && old(seen) <= seen
      ensures trace == old(trace) + [Tried(id, url, sid, r)]
      ensures r != AssignFailed ==> r == if old(Succeeds(table, Assign(id, sid))) then Assigned else ConditionFailed
      ensures table == if r == AssignFailed then old(table) else old(Apply(table, Assign(id, sid)))
      ensures Supply() == old(Supply()) - if r == Assigned then 1 else 0
    {
      var failed := Fails();
      if failed {
        trace := trace + [Tried(id, url, sid, AssignFailed)];
        return AssignFailed;
      }
      r := if Succeeds(table, Assign(id, sid)) then Assigned else ConditionFailed;
      table := Apply(table, Assign(id, sid));
      seen, trace := seen + [table], trace + [Tried(id, url, sid, r)];
      if r == Assigned {
        assert IdleIds(table) == old(IdleIds(table)) - {id};
      }
    }

    /**
     * Takes one idle runner of a bucket for a session; `ops` are its accesses. Each runner is tried at most once, and
     * whatever the index answers it gives up only on an answer that lists nothing it has not tried before. With an
     * up-to-date index and no deleted ID registered again meanwhile, that is only when the bucket is empty at that
     * instant, whatever else other brokers do.
     */
    method AcquireIdle(sid: string, bucket: nat) returns (r: AcquireResult, ghost ops: seq<Op>)
      requires Valid()
      modifies this`table, this`others, this`seen, this`trace
      ensures Valid() && (reliable ==> !r.AcquireFailed?) && old(seen) <= seen
      ensures Acquisition(old(trace), trace, ops, sid, bucket, r)
      ensures r.Acquired? ==> Supply() < old(Supply())
      ensures Supply() <= old(Supply())
      ensures Ends(old(table), old(others), table, others, sid, r)
      ensures r.NoneIdle? && upToDate && NoReuse(old(table), old(others)) ==> IdleIn(table, bucket) == {}
      ensures old(others) == [] && r.Acquired? && upToDate ==>
                && r.runner.id in old(table) && r.runner.id in IdleIn(old(table), bucket)
                && old(table)[r.runner.id].url == r.runner.url
    {
      hide Pursues, Ends, HoldersOf, NoReuse, IdleIds, IdleIn, Apply, Supply, PutIds, UnderWay, Acquisition,
           AnswerSpent, LastAnswer;
      var tried: set<string> := {};
      ops := [];
      ghost var known, t0, o0, base := table.Keys, table, others, trace;
      PursuitBegins(t0, o0, sid, upToDate);
      SetsOut(base, sid, bucket);
      while true
        invariant Valid() && Supply() <= old(Supply()) && old(seen) <= seen && tried <= universe
        invariant UnderWay(base, trace, ops, sid, bucket, tried) && AnswerSpent(ops, tried)
        invariant Pursues(t0, o0, table, others, sid, known, tried, upToDate)
        decreases universe - tried
      {
        known := Interleave(t0, o0, sid, known, tried);
        PursuitAt(t0, o0, table, others, sid, known, tried, upToDate);
        ghost var trace0 := trace;
        var failed, runners := QueryIdleBucket(bucket);
        ghost var answer := runners[..];
        ghost var asked := if failed then None else Some(answer);
        Asks(base, trace0, ops, sid, bucket, tried, asked);
        ops := ops + [Asked(bucket, asked)];
        if failed {
          return AcquireFailed, ops;
        }
        if runners.Length == 0 {
          GivesUp(base, trace, ops, sid, bucket, tried, answer);
          return NoneIdle, ops;
        }
        Shuffle(runners);
        Reordered(runners[..], answer);
        var done, progressed;
        done, tried, progressed, ops, known := TryCandidates(runners, sid, bucket, tried, base, ops, t0, o0, known);
        if done.Some? {
          return done.value, ops;
        }
        if progressed {
          AllTried(answer, runners[..], tried);
          Spent(ops, tried, answer);
        } else {
          PursuitAt(t0, o0, table, others, sid, known, tried, upToDate);
          assert runners[0] in answer;
          AllTried(answer, runners[..], tried);
          GivesUp(base, trace, ops, sid, bucket, tried, answer);
          return NoneIdle, ops;
        }
      }
    }

    /** One pass over the candidates: tries those not tried before until one is assigned or an access fails. */
    method TryCandidates(runners: array<Listing>, sid: string, ghost bucket: nat, tried0: set<string>,
                         ghost base: seq<Op>, ghost ops0: seq<Op>, ghost t0: Table, ghost o0: seq<Access>,
                         ghost known0: set<string>)
      returns (done: Option<AcquireResult>, tried: set<string>, progressed: bool, ghost ops: seq<Op>,
               ghost known: set<string>)
      requires Valid() && tried0 <= universe && UnderWay(base, trace, ops0, sid, bucket, tried0)
      requires forall k :: 0 <= k < runners.Length ==> runners[k] in LastAnswer(ops0)
      requires Pursues(t0, o0, table, others, sid, known0, tried0, upToDate)
      requires forall k :: 0 <= k < runners.Length ==> runners[k].id in universe
      requires upToDate && NoReuse(t0, o0) ==> forall k :: 0 <= k < runners.Length ==> runners[k].id in known0
      modifies this`table, this`others, this`seen, this`trace
      ensures Valid() && Supply() <= old(Supply()) && old(seen) <= seen && tried <= universe
      ensures done.Some? ==>
                && Ends(t0, o0, table, others, sid, done.value)
                && Acquisition(base, trace, ops, sid, bucket, done.value)
                && !done.value.NoneIdle? && (reliable ==> done.value.Acquired?)
                && (done.value.Acquired? ==>
                      && Supply() < old(Supply())
                      && exists k :: 0 <= k < runners.Length && runners[k] == done.value.runner)
      ensures done.None? ==>
                && Pursues(t0, o0, table, others, sid, known, tried, upToDate)
                && UnderWay(base, trace, ops, sid, bucket, tried) && LastAnswer(ops) == LastAnswer(ops0)
                && (forall k :: 0 <= k < runners.Length ==> runners[k].id in tried)
                && if progressed then tried0 < tried && ops != [] && ops[|ops| - 1].Tried?
                   else tried == tried0 && table == old(table) && ops == ops0
    {
      hide Pursues, Ends, HoldersOf, NoReuse, IdleIds, IdleIn, Apply, Supply, PutIds, UnderWay, Acquisition,
           AnswerSpent, LastAnswer;
      tried, progressed, ops, known := tried0, false, ops0, known0;
      for i := 0 to runners.Length
        invariant Valid() && Supply() <= old(Supply()) && old(seen) <= seen
        invariant tried <= universe && known0 <= known
        invariant UnderWay(base, trace, ops, sid, bucket, tried) && LastAnswer(ops) == LastAnswer(ops0)
        invariant Pursues(t0, o0, table, others, sid, known, tried, upToDate)
        invariant if progressed then tried0 < tried && ops != [] && ops[|ops| - 1].Tried?
                  else tried0 == tried && table == old(table) && ops == ops0
        invariant forall k :: 0 <= k < i ==> runners[k].id in tried
      {
        var runner := runners[i];
        if runner.id in tried {
          continue;
        }
        known := Interleave(t0, o0, sid, known, tried);
        ghost var table1, trace1 := table, trace;
        PursuitAt(t0, o0, table, others, sid, known, tried, upToDate);
        var result := AssignSession(runner.id, sid, runner.url);
        Attempts(base, trace1, ops, sid, bucket, tried, runner, result);
        ops := ops + [Tried(runner.id, runner.url, sid, result)];
        if result == AssignFailed {
          return Some(AcquireFailed), tried + {runner.id}, true, ops, known;
        }
        Attempted(t0, o0, table1, table, others, sid, known, tried, upToDate, runner);
        tried := tried + {runner.id};
        progressed := true;
        if result == Assigned {
          return Some(Acquired(runner)), tried, true, ops, known;
        }
      }
      done := None;
    }

    /** A yield as an acquisition sees it: runners found taken stay taken, and nobody else takes its session. */
    method Interleave(ghost t0: Table, ghost o0: seq<Access>, sid: string, ghost known: set<string>,
                      ghost tried: set<string>)
      returns (ghost known': set<string>)
      requires Valid() && Pursues(t0, o0, table, others, sid, known, tried, upToDate)
      modifies this`table, this`others, this`seen
      ensures Valid() && Supply() <= old(Supply()) && known <= known' && old(seen) <= seen
      ensures Pursues(t0, o0, table, others, sid, known', tried, upToDate)
      ensures o0 == [] ==> table == old(table)
    {
      ghost var burst := Yield();
      known' := known + PutIds(burst);
      if NeverAssigns(o0, sid) {
        assert NeverAssigns(burst, sid);
        BurstKeepsSessionFree(old(table), burst, sid);
      }
      if NoReuse(t0, o0) {
        BurstKeepsTakenTaken(old(table), burst, others, known);
      }
    }

    /** The record the session index answers for a session, if any. */
    method FindBySessionID(sid: string) returns (failed: bool, r: Option<Listing>)
      requires Valid()
      ensures reliable ==> !failed
      ensures r.Some? ==> !failed && r.value.id in universe
      ensures upToDate && HoldersOf(table, sid) == {} ==> r.None?
      ensures upToDate && !failed && HoldersOf(table, sid) != {} ==>
                && r.Some? && r.value.id in table && r.value.id in HoldersOf(table, sid)
                && table[r.value.id].url == r.value.url
    {
      failed := Fails();
      if failed {
        return failed, None;
      }
      if upToDate {
        var holders := HoldersOf(table, sid);
        if holders == {} {
          return failed, None;
        }
        var id :| id in holders;
        return failed, Some(Listing(id, table[id].url));
      }
      var hit: bool := *;
      if universe == {} || !hit {
        return failed, None;
      }
      var id :| id in universe;
      var url: string := *;
      r := Some(Listing(id, url));
    }

    method Delete(id: string) returns (ok: bool)
      requires Valid()
      modifies this`table, this`seen, this`trace
      ensures Valid() && (reliable ==> ok) && Supply() <= old(Supply()) && old(seen) <= seen
      ensures trace == old(trace) + [Removed(id, ok)]
      ensures table == if ok then old(table) - {id} else old(table)
    {
      var failed := Fails();
      trace := trace + [Removed(id, !failed)];
      if failed {
        return false;
      }
      Subset(IdleIds(table - {id}), IdleIds(table));
      table := Apply(table, Remove(id));
      seen := seen + [table];
      ok := true;
    }
  }
}
