/** The poll store and the message handlers in front of it, one request at a time. */
module PollStore {
  import opened Prelude
  import opened PollKeys
  import opened PollTable
  import opened PollBallot
  import opened PollRuns

  datatype PollState = PollState(options: seq<string>, maxChoices: int, votes: map<string, int>, myChoices: seq<string>)

  function VotesFor(b: Ballot, c: string): set<(string, string)> {
    if b.Closed? then {} else set p | p in b.votes && p.1 == c
  }

  /** An option has as many records in the table as votes on the ballot. */
  lemma KeysForAreVotesFor(t: Table, c: string)
    requires WellFormed(t) && Opened(t)
    ensures |KeysFor(t, c)| == |VotesFor(Abs(t), c)|
  {
    var s, o := KeysFor(t, c), VotesFor(Abs(t), c);
    forall k, k' | k in s && k' in s && PairOf(k) == PairOf(k') ensures k == k' {
      VoteKeyInvertsDecode(k);
      VoteKeyInvertsDecode(k');
    }
    forall p | p in o ensures exists k :: k in s && PairOf(k) == p {
      var k :| k in VoteKeys(t) && PairOf(k) == p;
    }
    InjectiveImageSize(s, o, PairOf);
  }

  predicate NoRepeats(s: seq<string>) {
    forall i, j :: 0 <= i < j < |s| ==> s[i] != s[j]
  }

  /** A state sent to a visitor shows the ballot: totals per option, and the visitor's own choices, each once. */
  ghost predicate Shows(p: PollState, b: Ballot, visitor: string) {
    && b.Open?
    && p.options == b.options && p.maxChoices == b.maxChoices
    && p.votes.Keys == (set o | o in b.options)
    && (forall o :: o in b.options ==> p.votes[o] == |VotesFor(b, o)|)
    && NoRepeats(p.myChoices)
    && forall c :: c in p.myChoices <==> (visitor, c) in b.votes
  }

  /** What reading the poll gives. */
  datatype GetResult = Got(state: PollState) | Missing | GetFailed

  /** A call is the ballot's operation, or a store access failed and nothing was written. */
  ghost predicate Performs(t: Table, t': Table, o: Outcome, visitor: string, q: Request, reliable: bool) {
    (Abs(t'), o) == Cast(Abs(t), visitor, q) || (!reliable && o == StoreError && t' == t)
  }

  class Store {
    var items: Table
    /** Whether no access to the table fails. A failed access writes nothing. */
    const reliable: bool

    ghost predicate Valid()
      reads this
    {
      Sound(items)
    }

    ghost function Ballot(): Ballot
      reads this
    {
      Abs(items)
    }

    constructor (faultless: bool)
      ensures Valid() && Ballot() == Closed && reliable == faultless
    {
      items, reliable := map[], faultless;
    }

    /** Whether the next access fails. */
    method Fails() returns (failed: bool)
      ensures reliable ==> !failed
    {
      failed := *;
      failed := failed && !reliable;
    }

    /** The partition's keys with a given prefix, in some order and each once. */
    method QueryPrefix(prefix: string) returns (keys: seq<string>)
      ensures NoRepeats(keys)
      ensures forall k :: k in keys <==> k in items && prefix <= k
    {
      keys := [];
      var left := set k | k in items && prefix <= k;
      while left != {}
        invariant NoRepeats(keys)
        invariant forall k :: k in keys <==> k in items && prefix <= k && k !in left
        invariant forall k :: k in left ==> k in items && prefix <= k
        decreases left
      {
        var k :| k in left;
        left := left - {k};
        keys := keys + [k];
      }
    }

    method GetMyChoices(visitor: string) returns (failed: bool, choices: seq<string>)
      ensures reliable ==> !failed
      ensures !failed ==> |choices| == |OwnKeys(items, visitor)|
      ensures !failed && IsVisitor(visitor) ==> NoRepeats(choices)
      ensures !failed && IsVisitor(visitor) && WellFormed(items) ==>
                forall c :: c in choices <==> (visitor, c) in Pairs(items)
    {
      failed, choices := false, [];
      if visitor == "" {
        return;
      }
      failed := Fails();
      if failed {
        return;
      }
      var keys := QueryPrefix(Prefix(visitor));
      for n := 0 to |keys|
        invariant |choices| == n
        invariant forall i :: 0 <= i < n ==> DecodeChoice(keys[i]) == Some(choices[i])
      {
        assert keys[n] in keys;
        assert keys[n][|visitor|] == Prefix(visitor)[|visitor|] == '#';
        var part := DecodeChoice(keys[n]);
        if part.Some? {
          choices := choices + [part.value];
        }
      }
      SizeOfSeq(keys, OwnKeys(items, visitor));
      if IsVisitor(visitor) {
        DecodedKeys(keys, choices, visitor);
        if WellFormed(items) {
          forall c ensures c in choices <==> (visitor, c) in Pairs(items) {
            PairStored(items, visitor, c);
          }
        }
      }
    }

    /** Vote, one call at a time, is the ballot's Vote unless the table cannot be reached. */
    method Vote(visitor: string, choice: string) returns (o: Outcome)
      requires Valid() && IsVisitor(visitor)
      modifies this
      ensures Valid()
      ensures Performs(old(items), items, o, visitor, Request.Vote(choice), reliable)
      ensures o != Ok ==> items == old(items)
    {
      PairStored(items, visitor, choice);
      OwnKeysAreOwnVotes(items, visitor);
      var failed := Fails();
      if failed {
        return StoreError;
      }
      if META !in items {
        return PollNotFound;
      }
      var meta := items[META];
      if choice !in meta.options {
        return InvalidChoice;
      }
      var mine;
      failed, mine := GetMyChoices(visitor);
      if failed {
        return StoreError;
      }
      if |mine| >= meta.maxChoices {
        return MaxChoicesExceeded;
      }
      failed := Fails();
      if failed {
        return StoreError;
      }
      CommitIsAtomic(items, visitor, Request.Vote(choice));
      CommitChanges(items, visitor, Request.Vote(choice));
      var r := TransactWrite(items, VoteWrites(visitor, choice));
      items := After(items, r);
      o := VoteOutcome(r);
    }

    method Unvote(visitor: string, choice: string) returns (o: Outcome)
      requires Valid() && IsVisitor(visitor)
      modifies this
      ensures Valid()
      ensures Performs(old(items), items, o, visitor, Request.Unvote(choice), reliable)
      ensures o != Ok ==> items == old(items)
    {
      var failed := Fails();
      if failed {
        return StoreError;
      }
      CommitIsAtomic(items, visitor, Request.Unvote(choice));
      CommitChanges(items, visitor, Request.Unvote(choice));
      var r := TransactWrite(items, UnvoteWrites(visitor, choice));
      items := After(items, r);
      o := UnvoteOutcome(r);
    }

    method Switch(visitor: string, from: string, to: string) returns (o: Outcome)
      requires Valid() && IsVisitor(visitor)
      modifies this
      ensures Valid()
      ensures Performs(old(items), items, o, visitor, Request.Switch(from, to), reliable)
      ensures o != Ok ==> items == old(items)
    {
      var failed := Fails();
      if failed {
        return StoreError;
      }
      if META !in items {
        return PollNotFound;
      }
      var meta := items[META];
      if from !in meta.options || to !in meta.options {
        return InvalidChoice;
      }
      failed := Fails();
      if failed {
        return StoreError;
      }
      CommitIsAtomic(items, visitor, Request.Switch(from, to));
      CommitChanges(items, visitor, Request.Switch(from, to));
      var r := TransactWrite(items, SwitchWrites(visitor, from, to));
      items := After(items, r);
      o := SwitchOutcome(r);
    }

    /** Reads the poll; a presenter naming options opens it first, which has an effect only the first time. */
    method Get(visitor: string, options: Option<seq<string>>, maxChoices: int, isPresenter: bool)
      returns (r: GetResult)
      requires Valid() && IsVisitor(visitor)
      modifies this
      ensures Valid() && (reliable ==> r != GetFailed)
      ensures var after := if isPresenter && options.Some? && old(Ballot()).Closed?
                            then Open(options.value, maxChoices, {}) else old(Ballot());
              Ballot() == after || (r == GetFailed && items == old(items))
      ensures r != GetFailed ==> (r == Missing <==> Ballot().Closed?)
      ensures !isPresenter ==> items == old(items)
      ensures r.Got? ==> Shows(r.state, Ballot(), visitor)
    {
      if isPresenter && options.Some? {
        var failed := Fails();
        if failed {
          return GetFailed;
        }
        if META !in items {
          OpenIsSound(items, options.value, maxChoices);
          items := items[META := Meta(options.value, maxChoices, ZeroVotes(options.value))];
        }
      }
      var failed := Fails();
      if failed {
        return GetFailed;
      }
      if META !in items {
        return Missing;
      }
      var meta := items[META];
      var mine;
      failed, mine := GetMyChoices(visitor);
      if failed {
        return GetFailed;
      }
      forall o | o in meta.options ensures meta.votes[o] == |VotesFor(Ballot(), o)| {
        KeysForAreVotesFor(items, o);
      }
      r := Got(PollState(meta.options, meta.maxChoices, meta.votes, mine));
    }
  }

  lemma {:induction false} SizeOfSeq(s: seq<string>, all: set<string>)
    requires NoRepeats(s) && forall k :: k in s <==> k in all
    ensures |s| == |all|
  {
    if s == [] {
      assert all == {};
    } else {
      var n := |s| - 1;
      assert forall k :: k in s[..n] <==> k in all - {s[n]};
      SizeOfSeq(s[..n], all - {s[n]});
    }
  }

  lemma DecodedKeys(keys: seq<string>, choices: seq<string>, v: string)
    requires IsVisitor(v) && NoRepeats(keys) && |choices| == |keys|
    requires forall k :: k in keys ==> Prefix(v) <= k
    requires forall i :: 0 <= i < |keys| ==> DecodeChoice(keys[i]) == Some(choices[i])
    ensures NoRepeats(choices)
    ensures forall c :: c in choices <==> VoteKey(v, c) in keys
  {
    forall i | 0 <= i < |keys| ensures keys[i] == VoteKey(v, choices[i]) {
      assert keys[i] in keys;
      VoteKeyInvertsDecode(keys[i]);
      PrefixSelectsOwner(v, keys[i]);
    }
    forall c ensures c in choices <==> VoteKey(v, c) in keys {
      if VoteKey(v, c) in keys {
        var i :| 0 <= i < |keys| && keys[i] == VoteKey(v, c);
        VoteKeyInjective(v, c, v, choices[i]);
      }
    }
  }

  // ---- message handlers ----

  /** What one WebSocket message leads to: a text to the sender, a poll_error, a broadcast, or a failed invocation. */
  datatype Reply =
    | SentError(message: string)
    | SentPollError(error: Outcome, state: PollState)
    | Broadcast(poll: PollState)
    | ServerError

  predicate IsBusinessError(o: Outcome) {
    o in {MaxChoicesExceeded, DuplicateVote, VoteNotFound, InvalidChoice, PollNotFound}
  }

  /** The reply a visitor must get for an outcome on a ballot. */
  ghost predicate Answers(r: Reply, o: Outcome, b: Ballot, visitor: string) {
    match o
    case Ok => r.Broadcast? && Shows(r.poll, b, visitor)
    case PollNotFound => r.SentError?
    case StoreError => r == ServerError
    case _ => if b.Closed? then r == ServerError else r.SentPollError? && r.error == o && Shows(r.state, b, visitor)
  }

  /** The reply to one request: the ballot's answer, or an internal error when the table cannot be reached. */
  ghost predicate Serves(r: Reply, t: Table, t': Table, visitor: string, q: Request, reliable: bool) {
    var (b, o) := Cast(Abs(t), visitor, q);
    || (Abs(t') == b && Answers(r, o, b, visitor))
    || (!reliable && r == ServerError && (Abs(t') == b || t' == t))
  }

  /**
   * With a reliable store the kind of reply tells the outcome: a broadcast exactly for a request that was carried out,
   * a poll_error with the state for one refused on an open poll. Both carry the ballot as the request has left it.
   */
  lemma RepliesExactlyWhen(r: Reply, t: Table, t': Table, visitor: string, q: Request)
    requires Serves(r, t, t', visitor, q, true)
    ensures var (b, o) := Cast(Abs(t), visitor, q);
            && Abs(t') == b
            && (r.Broadcast? <==> o == Ok)
            && (r.SentError? <==> o == PollNotFound)
            && (r.SentPollError? <==> o !in {Ok, PollNotFound, StoreError} && Abs(t).Open?)
            && (r.SentPollError? ==> r.error == o && b == Abs(t))
            && (r.Broadcast? || r.SentPollError? ==>
                  var p := if r.Broadcast? then r.poll else r.state;
                  && b.Open? && p.options == b.options && p.maxChoices == b.maxChoices
                  && (forall c :: c in b.options ==>
                        c in p.votes && p.votes[c] == |set v | v in b.votes && v.1 == c|)
                  && (forall c :: c in p.myChoices <==> (visitor, c) in b.votes)
                  && forall i, j :: 0 <= i < j < |p.myChoices| ==> p.myChoices[i] != p.myChoices[j])
  {
    CastOutcomes(Abs(t), visitor, q);
    hide Abs, Cast;
  }

  /** When each outcome can arise. */
  lemma CastOutcomes(b: Ballot, v: string, q: Request)
    ensures var (b', o) := Cast(b, v, q);
            && (o == Ok ==> b'.Open?)
            && (o != Ok ==> b' == b)
            && (b.Closed? ==> o == if q.Unvote? then VoteNotFound else PollNotFound)
            && (o == PollNotFound ==> b.Closed?)
            && (o == StoreError ==> q.Switch? && q.from == q.to)
  {
  }

  /** The ballot's outcome is one the handlers answer with an internal error. */
  ghost predicate EndsInError(b: Ballot, visitor: string, q: Request) {
    var o := Cast(b, visitor, q).1;
    o == StoreError || (b.Closed? && o == VoteNotFound)
  }

  /** With different choices that happens only to an unvote on a poll that was never opened. */
  lemma EndsInErrorExactlyWhen(b: Ballot, visitor: string, q: Request)
    requires q.Switch? ==> q.from != q.to
    ensures EndsInError(b, visitor, q) <==> q.Unvote? && b.Closed?
  {
  }

  class MessageHandler {
    const store: Store

    constructor (s: Store)
      ensures store == s
    {
      store := s;
    }

    method HandlePollError(visitor: string, o: Outcome) returns (r: Reply)
      requires store.Valid() && IsVisitor(visitor) && o != Ok
      modifies store
      ensures store.Valid() && store.items == old(store.items)
      ensures Answers(r, o, store.Ballot(), visitor) || (!store.reliable && r == ServerError)
    {
      if !IsBusinessError(o) {
        return ServerError;
      }
      if o == PollNotFound {
        return SentError("poll not found");
      }
      var state := store.Get(visitor, None, 0, false);
      if !state.Got? {
        return ServerError;
      }
      r := SentPollError(o, state.state);
    }

    method RefreshAndBroadcast(visitor: string) returns (r: Reply)
      requires store.Valid() && IsVisitor(visitor) && store.Ballot().Open?
      modifies store
      ensures store.Valid() && store.items == old(store.items)
      ensures Answers(r, Ok, store.Ballot(), visitor) || (!store.reliable && r == ServerError)
    {
      var state := store.Get(visitor, None, 0, false);
      if !state.Got? {
        return ServerError;
      }
      r := Broadcast(state.state);
    }

    /** What the three handlers do with the outcome of a request that has been performed. */
    method Conclude(ghost t: Table, visitor: string, ghost q: Request, o: Outcome) returns (r: Reply)
      requires store.Valid() && IsVisitor(visitor) && Performs(t, store.items, o, visitor, q, store.reliable)
      modifies store
      ensures store.Valid() && store.items == old(store.items)
      ensures Serves(r, t, store.items, visitor, q, store.reliable)
      ensures store.reliable ==> (r == ServerError <==> EndsInError(Abs(t), visitor, q))
    {
      CastOutcomes(Abs(t), visitor, q);
      hide Cast, Shows, Abs;
      if o != Ok {
        r := HandlePollError(visitor, o);
      } else {
        r := RefreshAndBroadcast(visitor);
      }
    }

    /** A complete vote message is answered by what the ballot says, and the broadcast shows the vote. */
    method HandlePollVote(visitor: string, pollId: string, choice: string) returns (r: Reply)
      requires store.Valid() && IsVisitor(visitor)
      modifies store
      ensures store.Valid()
      ensures pollId == "" || choice == "" ==> r.SentError? && store.items == old(store.items)
      ensures pollId != "" && choice != "" ==>
                && Serves(r, old(store.items), store.items, visitor, Vote(choice), store.reliable)
                && (store.reliable ==> r != ServerError)
    {
      hide Cast, Shows, Performs, Serves, EndsInError, Sound, Abs;
      if pollId == "" || choice == "" {
        return SentError("pollId and choice are required");
      }
      ghost var t := store.items;
      var o := store.Vote(visitor, choice);
      r := Conclude(t, visitor, Vote(choice), o);
      EndsInErrorExactlyWhen(Abs(t), visitor, Vote(choice));
    }

    /** With a reliable store an unvote fails the invocation exactly when the poll was never opened. */
    method HandlePollUnvote(visitor: string, pollId: string, choice: string) returns (r: Reply)
      requires store.Valid() && IsVisitor(visitor)
      modifies store
      ensures store.Valid()
      ensures pollId == "" || choice == "" ==> r.SentError? && store.items == old(store.items)
      ensures pollId != "" && choice != "" ==>
                && Serves(r, old(store.items), store.items, visitor, Unvote(choice), store.reliable)
                && (store.reliable ==> (r == ServerError <==> old(store.Ballot()).Closed?))
    {
      hide Cast, Shows, Performs, Serves, EndsInError, Sound, Abs;
      if pollId == "" || choice == "" {
        return SentError("pollId and choice are required");
      }
      ghost var t := store.items;
      var o := store.Unvote(visitor, choice);
      r := Conclude(t, visitor, Unvote(choice), o);
      EndsInErrorExactlyWhen(Abs(t), visitor, Unvote(choice));
    }

    /** The guard on equal choices keeps the transaction from ever being refused as malformed. */
    method HandlePollSwitch(visitor: string, pollId: string, from: string, to: string) returns (r: Reply)
      requires store.Valid() && IsVisitor(visitor)
      modifies store
      ensures store.Valid()
      ensures pollId == "" || from == "" || to == "" || from == to ==> r.SentError? && store.items == old(store.items)
      ensures pollId != "" && from != "" && to != "" && from != to ==>
                && Serves(r, old(store.items), store.items, visitor, Switch(from, to), store.reliable)
                && (store.reliable ==> r != ServerError)
    {
      hide Cast, Shows, Performs, Serves, EndsInError, Sound, Abs;
      if pollId == "" || from == "" || to == "" {
        return SentError("pollId, from, and to are required");
      }
      if from == to {
        return SentError("from and to must be different");
      }
      ghost var t := store.items;
      var o := store.Switch(visitor, from, to);
      r := Conclude(t, visitor, Switch(from, to), o);
      EndsInErrorExactlyWhen(Abs(t), visitor, Switch(from, to));
    }

    /** Only a presenter opens a poll, and opening it again changes nothing. */
    method HandlePollOpen(visitor: string, role: string, pollId: string, options: seq<string>, maxChoices: int)
      returns (r: Reply)
      requires store.Valid() && IsVisitor(visitor)
      modifies store
      ensures store.Valid()
      ensures var refused := pollId == "" || options == [] || maxChoices == 0 || role != "presenter";
              var after := if old(store.Ballot()).Closed? then Open(options, maxChoices, {}) else old(store.Ballot());
              if refused then r.SentError? && store.items == old(store.items)
              else || (store.Ballot() == after && Answers(r, Ok, after, visitor))
                   || (!store.reliable && r == ServerError
                       && (store.Ballot() == after || store.items == old(store.items)))
    {
      if pollId == "" || |options| == 0 || maxChoices == 0 {
        return SentError("pollId, options, and maxChoices are required");
      }
      if role != "presenter" {
        return SentError("only presenter can open a poll");
      }
      var state := store.Get(visitor, Some(options), maxChoices, true);
      if !state.Got? {
        return ServerError;
      }
      r := Broadcast(state.state);
    }
  }
}
