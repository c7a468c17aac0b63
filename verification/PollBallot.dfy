/** The ballot the poll table is meant to be: a set of (visitor, choice) pairs changed by atomic operations. */
module PollBallot {
  import opened Prelude
  import opened PollKeys
  import opened PollTable

  datatype Ballot = Closed | Open(options: seq<string>, maxChoices: int, votes: set<(string, string)>)

  datatype Request = Vote(choice: string) | Unvote(choice: string) | Switch(from: string, to: string)

  function Own(b: Ballot, v: string): set<(string, string)> {
    if b.Closed? then {} else set p | p in b.votes && p.0 == v
  }

  /** The atomic meaning of one request: the ballot after it and what is reported. */
  function Cast(b: Ballot, v: string, q: Request): (Ballot, Outcome) {
    match q
    case Vote(c) =>
      if b.Closed? then (b, PollNotFound)
      else if c !in b.options then (b, InvalidChoice)
      else if |Own(b, v)| >= b.maxChoices then (b, MaxChoicesExceeded)
      else if (v, c) in b.votes then (b, DuplicateVote)
      else (b.(votes := b.votes + {(v, c)}), Ok)
    case Unvote(c) =>
      if b.Closed? || (v, c) !in b.votes then (b, VoteNotFound)
      else (b.(votes := b.votes - {(v, c)}), Ok)
    case Switch(from, to) =>
      if b.Closed? then (b, PollNotFound)
      else if from !in b.options || to !in b.options then (b, InvalidChoice)
      else if from == to then (b, StoreError)
      else if (v, from) !in b.votes then (b, VoteNotFound)
      else if (v, to) in b.votes then (b, DuplicateVote)
      else (b.(votes := b.votes - {(v, from)} + {(v, to)}), Ok)
  }

  function PairOf(k: string): (string, string) {
    (VisitorOf(k), ChoiceOf(k))
  }

  function Pairs(t: Table): set<(string, string)> {
    set k | k in VoteKeys(t) :: PairOf(k)
  }

  /** The ballot a table stands for. */
  function Abs(t: Table): Ballot {
    if Opened(t) then Open(t[META].options, t[META].maxChoices, Pairs(t)) else Closed
  }

  lemma PairStored(t: Table, v: string, c: string)
    requires WellFormed(t) && '#' !in v
    ensures (v, c) in Pairs(t) <==> VoteKey(v, c) in t
  {
    var key := VoteKey(v, c);
    VoteKeyIsNotMeta(v, c);
    DecodeInvertsVoteKey(v, c);
    if (v, c) in Pairs(t) {
      var k :| k in VoteKeys(t) && PairOf(k) == (v, c);
      VoteKeyInvertsDecode(k);
    }
    if key in t {
      assert key in VoteKeys(t) && PairOf(key) == (v, c);
    }
  }

  lemma OwnKeysAreVoteKeys(t: Table, v: string)
    ensures OwnKeys(t, v) <= VoteKeys(t)
  {
    forall k | k in OwnKeys(t, v) ensures k in VoteKeys(t) {
      assert k[|v|] == Prefix(v)[|v|] == '#';
      assert '#' !in META;
    }
  }

  /** A visitor has as many records in the table as votes on the ballot. */
  lemma OwnKeysAreOwnVotes(t: Table, v: string)
    requires WellFormed(t) && IsVisitor(v)
    ensures |OwnKeys(t, v)| == |Own(Abs(t), v)|
  {
    var s, o := OwnKeys(t, v), Own(Abs(t), v);
    OwnKeysAreVoteKeys(t, v);
    if Opened(t) {
      forall k | k in s ensures PairOf(k) in o {
        PrefixSelectsOwner(v, k);
      }
      forall k, k' | k in s && k' in s && PairOf(k) == PairOf(k') ensures k == k' {
        VoteKeyInvertsDecode(k);
        VoteKeyInvertsDecode(k');
      }
      forall p | p in o ensures exists k :: k in s && PairOf(k) == p {
        var k :| k in VoteKeys(t) && PairOf(k) == p;
        PrefixSelectsOwner(v, k);
      }
      InjectiveImageSize(s, o, PairOf);
    } else {
      assert s == {};
    }
  }

  lemma AbsInsert(t: Table, v: string, c: string)
    requires WellFormed(t) && Opened(t) && IsVisitor(v) && c in t[META].options && VoteKey(v, c) !in t
    ensures Abs(Bump(t[VoteKey(v, c) := VoteRecord], c, 1))
            == Open(t[META].options, t[META].maxChoices, Pairs(t) + {(v, c)})
  {
    var k := VoteKey(v, c);
    var t' := Bump(t[k := VoteRecord], c, 1);
    InsertedKeys(t, v, c);
    DecodeInvertsVoteKey(v, c);
    VoteKeyIsNotMeta(v, c);
    assert PairOf(k) == (v, c);
    assert Pairs(t') == Pairs(t) + {(v, c)} by {
      forall p | p in Pairs(t) ensures p in Pairs(t') {
        var x :| x in VoteKeys(t) && PairOf(x) == p;
        assert x in VoteKeys(t');
      }
      assert k in VoteKeys(t');
    }
  }

  lemma AbsRemove(t: Table, v: string, c: string)
    requires Sound(t) && IsVisitor(v) && VoteKey(v, c) in t
    ensures Opened(t)
    ensures Abs(Bump(t - {VoteKey(v, c)}, c, -1))
            == Open(t[META].options, t[META].maxChoices, Pairs(t) - {(v, c)})
  {
    RemoveKeepsSound(t, v, c);
    VoteKeyIsNotMeta(v, c);
    DecodeInvertsVoteKey(v, c);
    PairsRemove(t, Bump(t - {VoteKey(v, c)}, c, -1), VoteKey(v, c));
  }

  lemma PairsRemove(t: Table, t': Table, key: string)
    requires forall k :: k in VoteKeys(t) ==> HashIndex(k) < |k|
    requires HashIndex(key) < |key| && VoteKeys(t') == VoteKeys(t) - {key}
    ensures Pairs(t') == Pairs(t) - {PairOf(key)}
  {
    hide HashIndex, VisitorOf, ChoiceOf, VoteKeys;
    VoteKeyInvertsDecode(key);
    forall p | p in Pairs(t') ensures p in Pairs(t) && p != PairOf(key) {
      var x :| x in VoteKeys(t') && PairOf(x) == p;
      VoteKeyInvertsDecode(x);
      assert x in VoteKeys(t);
    }
    forall p | p in Pairs(t) && p != PairOf(key) ensures p in Pairs(t') {
      var x :| x in VoteKeys(t) && PairOf(x) == p;
      assert x in VoteKeys(t');
    }
  }

  // ---- each transaction is the atomic operation, once the checks made before it still hold ----

  /** The vote transaction is the ballot's Vote when the poll is open, the choice valid and the limit not reached. */
  lemma VoteIsAtomic(t: Table, v: string, c: string)
    requires Sound(t) && IsVisitor(v) && Opened(t) && c in t[META].options
    ensures var r := TransactWrite(t, VoteWrites(v, c));
            && Sound(After(t, r))
            && (|OwnKeys(t, v)| < t[META].maxChoices ==> Cast(Abs(t), v, Vote(c)) == (Abs(After(t, r)), VoteOutcome(r)))
  {
    VoteTransaction(t, v, c);
    PairStored(t, v, c);
    OwnKeysAreOwnVotes(t, v);
    if VoteKey(v, c) !in t {
      InsertKeepsSound(t, v, c);
      AbsInsert(t, v, c);
    }
  }

  lemma UnvoteIsAtomic(t: Table, v: string, c: string)
    requires Sound(t) && IsVisitor(v)
    ensures var r := TransactWrite(t, UnvoteWrites(v, c));
            && Sound(After(t, r))
            && Cast(Abs(t), v, Unvote(c)) == (Abs(After(t, r)), UnvoteOutcome(r))
  {
    VoteKeyIsNotMeta(v, c);
    if VoteKey(v, c) in t {
      assert VoteKey(v, c) in VoteKeys(t);
      RemoveKeepsSound(t, v, c);
      AbsRemove(t, v, c);
    }
    UnvoteTransaction(t, v, c);
    PairStored(t, v, c);
  }

  lemma SwitchedTable(t: Table, v: string, from: string, to: string)
    requires Sound(t) && IsVisitor(v) && Opened(t) && to in t[META].options && from != to
    requires VoteKey(v, from) in t && VoteKey(v, to) !in t
    ensures var t' := Bump(Bump((t - {VoteKey(v, from)})[VoteKey(v, to) := VoteRecord], from, -1), to, 1);
            && Sound(t')
            && Abs(t') == Open(t[META].options, t[META].maxChoices, Pairs(t) - {(v, from)} + {(v, to)})
            && VoteKeys(t') == VoteKeys(t) - {VoteKey(v, from)} + {VoteKey(v, to)}
            && |VoteKeys(t')| == |VoteKeys(t)|
  {
    var fk, tk := VoteKey(v, from), VoteKey(v, to);
    VoteKeyIsNotMeta(v, from);
    VoteKeyIsNotMeta(v, to);
    var mid := Bump(t - {fk}, from, -1);
    SwitchIsRemoveThenInsert(t, v, from, to);
    RemoveKeepsSound(t, v, from);
    AbsRemove(t, v, from);
    InsertKeepsSound(mid, v, to);
    AbsInsert(mid, v, to);
    assert fk in VoteKeys(t) && tk !in VoteKeys(t);
  }

  lemma SwitchRefused(t: Table, v: string, from: string, to: string)
    requires WellFormed(t) && IsVisitor(v) && Opened(t) && from in t[META].options && to in t[META].options
    requires from == to || VoteKey(v, from) !in t || VoteKey(v, to) in t
    ensures Cast(Abs(t), v, Switch(from, to))
            == (Abs(t), if from == to then StoreError else if VoteKey(v, from) !in t then VoteNotFound
                        else DuplicateVote)
  {
    PairStored(t, v, from);
    PairStored(t, v, to);
  }

  lemma SwitchDone(t: Table, v: string, from: string, to: string)
    requires Sound(t) && IsVisitor(v) && Opened(t) && from in t[META].options && to in t[META].options && from != to
    requires VoteKey(v, from) in t && VoteKey(v, to) !in t
    ensures Cast(Abs(t), v, Switch(from, to))
            == (Open(t[META].options, t[META].maxChoices, Pairs(t) - {(v, from)} + {(v, to)}), Ok)
  {
    PairStored(t, v, from);
    PairStored(t, v, to);
  }

  lemma SwitchIsAtomic(t: Table, v: string, from: string, to: string)
    requires Sound(t) && IsVisitor(v) && Opened(t) && from in t[META].options && to in t[META].options
    ensures var r := TransactWrite(t, SwitchWrites(v, from, to));
            && Sound(After(t, r))
            && Cast(Abs(t), v, Switch(from, to)) == (Abs(After(t, r)), SwitchOutcome(r))
            && |VoteKeys(After(t, r))| == |VoteKeys(t)|
  {
    SwitchTransaction(t, v, from, to);
    var r := TransactWrite(t, SwitchWrites(v, from, to));
    if from == to || VoteKey(v, from) !in t || VoteKey(v, to) in t {
      SwitchRefused(t, v, from, to);
    } else {
      SwitchDone(t, v, from, to);
      SwitchedTable(t, v, from, to);
    }
  }

  // ---- the transaction of a request, whatever its kind ----

  function Writes(v: string, q: Request): seq<Write> {
    match q
    case Vote(c) => VoteWrites(v, c)
    case Unvote(c) => UnvoteWrites(v, c)
    case Switch(from, to) => SwitchWrites(v, from, to)
  }

  function OutcomeOf(q: Request, r: TxResult): Outcome {
    match q
    case Vote(_) => VoteOutcome(r)
    case Unvote(_) => UnvoteOutcome(r)
    case Switch(_, _) => SwitchOutcome(r)
  }

  function Commit(t: Table, v: string, q: Request): (Table, Outcome) {
    var r := TransactWrite(t, Writes(v, q));
    (After(t, r), OutcomeOf(q, r))
  }

  function RemovedKeys(v: string, q: Request): set<string> {
    match q case Vote(_) => {} case Unvote(c) => {VoteKey(v, c)} case Switch(from, _) => {VoteKey(v, from)}
  }

  function AddedKeys(v: string, q: Request): set<string> {
    match q case Vote(c) => {VoteKey(v, c)} case Unvote(_) => {} case Switch(_, to) => {VoteKey(v, to)}
  }

  /** What the checks before the transaction establish: the poll is open and names the choices. */
  predicate Checked(t: Table, q: Request) {
    match q
    case Vote(c) => Opened(t) && c in t[META].options
    case Unvote(_) => true
    case Switch(from, to) => Opened(t) && from in t[META].options && to in t[META].options
  }

  /** Which records a transaction adds and removes; a failed one leaves the table unchanged. */
  ghost predicate Changes(t: Table, v: string, q: Request, t': Table, o: Outcome) {
    && Sound(t')
    && (Opened(t) <==> Opened(t'))
    && (Opened(t) ==> t'[META].options == t[META].options && t'[META].maxChoices == t[META].maxChoices)
    && (o != Ok ==> t' == t)
    && (o == Ok ==> && VoteKeys(t') == VoteKeys(t) - RemovedKeys(v, q) + AddedKeys(v, q)
                    && RemovedKeys(v, q) <= VoteKeys(t)
                    && AddedKeys(v, q) !! VoteKeys(t))
  }

  lemma VoteChanges(t: Table, v: string, c: string)
    requires Sound(t) && IsVisitor(v) && Checked(t, Vote(c))
    ensures Changes(t, v, Vote(c), Commit(t, v, Vote(c)).0, Commit(t, v, Vote(c)).1)
  {
    hide WellFormed, CountersAgree;
    VoteKeyIsNotMeta(v, c);
    VoteTransaction(t, v, c);
    if VoteKey(v, c) !in t { InsertKeepsSound(t, v, c); }
  }

  lemma UnvotedChanges(t: Table, v: string, c: string)
    requires Sound(t) && IsVisitor(v) && VoteKey(v, c) in t
    ensures Changes(t, v, Unvote(c), Bump(t - {VoteKey(v, c)}, c, -1), Ok)
  {
    VoteKeyIsNotMeta(v, c);
    assert VoteKey(v, c) in VoteKeys(t);
    RemoveKeepsSound(t, v, c);
  }

  lemma UnvoteChanges(t: Table, v: string, c: string)
    requires Sound(t) && IsVisitor(v)
    ensures Changes(t, v, Unvote(c), Commit(t, v, Unvote(c)).0, Commit(t, v, Unvote(c)).1)
  {
    if VoteKey(v, c) in t {
      UnvotedChanges(t, v, c);
    }
    UnvoteTransaction(t, v, c);
  }

  lemma SwitchedChanges(t: Table, v: string, from: string, to: string)
    requires Sound(t) && IsVisitor(v) && Checked(t, Switch(from, to)) && from != to
    requires VoteKey(v, from) in t && VoteKey(v, to) !in t
    ensures Changes(t, v, Switch(from, to),
                    Bump(Bump((t - {VoteKey(v, from)})[VoteKey(v, to) := VoteRecord], from, -1), to, 1), Ok)
  {
    hide WellFormed, CountersAgree;
    VoteKeyIsNotMeta(v, from);
    VoteKeyIsNotMeta(v, to);
    SwitchedTable(t, v, from, to);
    assert VoteKey(v, from) in VoteKeys(t) && VoteKey(v, to) !in VoteKeys(t);
  }

  lemma SwitchChanges(t: Table, v: string, from: string, to: string)
    requires Sound(t) && IsVisitor(v) && Checked(t, Switch(from, to))
    ensures Changes(t, v, Switch(from, to), Commit(t, v, Switch(from, to)).0, Commit(t, v, Switch(from, to)).1)
  {
    SwitchTransaction(t, v, from, to);
    if from != to && VoteKey(v, from) in t && VoteKey(v, to) !in t {
      SwitchedChanges(t, v, from, to);
    }
  }

  lemma CommitChanges(t: Table, v: string, q: Request)
    requires Sound(t) && IsVisitor(v) && Checked(t, q)
    ensures Changes(t, v, q, Commit(t, v, q).0, Commit(t, v, q).1)
  {
    match q
    case Vote(c) => VoteChanges(t, v, c);
    case Unvote(c) => UnvoteChanges(t, v, c);
    case Switch(from, to) => SwitchChanges(t, v, from, to);
  }

  /** Every transaction is the ballot's atomic operation; a vote needs its limit check to hold still. */
  lemma CommitIsAtomic(t: Table, v: string, q: Request)
    requires Sound(t) && IsVisitor(v) && Checked(t, q)
    requires q.Vote? ==> |OwnKeys(t, v)| < t[META].maxChoices
    ensures Cast(Abs(t), v, q) == (Abs(Commit(t, v, q).0), Commit(t, v, q).1)
  {
    match q
    case Vote(c) => VoteIsAtomic(t, v, c);
    case Unvote(c) => UnvoteIsAtomic(t, v, c);
    case Switch(from, to) => SwitchIsAtomic(t, v, from, to);
  }

  lemma OwnKeysAfter(t: Table, t': Table, w: string, v: string, removed: set<string>, added: set<string>)
    requires '#' !in w && IsVisitor(v)
    requires VoteKeys(t') == VoteKeys(t) - removed + added
    requires forall k :: k in removed + added ==> HashIndex(k) < |k| && VisitorOf(k) == w
    ensures OwnKeys(t', v) == if v == w then OwnKeys(t, v) - removed + added else OwnKeys(t, v)
  {
    OwnKeysAreVoteKeys(t, v);
    OwnKeysAreVoteKeys(t', v);
    forall k | k in removed + added ensures Prefix(v) <= k <==> v == w {
      PrefixSelectsOwner(v, k);
    }
    assert forall k :: k in OwnKeys(t', v) <==> k in VoteKeys(t') && Prefix(v) <= k;
    assert forall k :: k in OwnKeys(t, v) <==> k in VoteKeys(t) && Prefix(v) <= k;
  }

  lemma TouchedKeysAreOwn(w: string, q: Request)
    requires IsVisitor(w)
    ensures forall k :: k in RemovedKeys(w, q) + AddedKeys(w, q) ==> HashIndex(k) < |k| && VisitorOf(k) == w
    ensures forall k :: k in RemovedKeys(w, q) + AddedKeys(w, q) ==> Prefix(w) <= k
  {
    forall k | k in RemovedKeys(w, q) + AddedKeys(w, q)
      ensures HashIndex(k) < |k| && VisitorOf(k) == w && Prefix(w) <= k
    {
      var c := k[|w| + 1..];
      assert k == VoteKey(w, c);
      DecodeInvertsVoteKey(w, c);
      PrefixSelectsOwner(w, k);
    }
  }

  lemma OwnCountAfter(t: Table, t': Table, v: string, removed: set<string>, added: set<string>)
    requires OwnKeys(t', v) == OwnKeys(t, v) - removed + added
    requires removed <= OwnKeys(t, v) && added !! OwnKeys(t, v)
    ensures |OwnKeys(t', v)| == |OwnKeys(t, v)| - |removed| + |added|
  {
  }

  /** A transaction of one visitor touches no other visitor's records. */
  lemma ChangesOwnKeys(t: Table, w: string, q: Request, t': Table, o: Outcome, v: string)
    requires IsVisitor(w) && IsVisitor(v) && Changes(t, w, q, t', o)
    ensures v != w ==> OwnKeys(t', v) == OwnKeys(t, v)
    ensures v == w && o == Ok ==> |OwnKeys(t', v)| == |OwnKeys(t, v)| - |RemovedKeys(v, q)| + |AddedKeys(v, q)|
  {
    if o == Ok {
      TouchedKeysAreOwn(w, q);
      OwnKeysAfter(t, t', w, v, RemovedKeys(w, q), AddedKeys(w, q));
      if v == w {
        OwnKeysAreVoteKeys(t, v);
        assert RemovedKeys(w, q) <= OwnKeys(t, v) by {
          forall k | k in RemovedKeys(w, q) ensures k in OwnKeys(t, v) {
            assert k in VoteKeys(t);
          }
        }
        OwnCountAfter(t, t', v, RemovedKeys(w, q), AddedKeys(w, q));
      }
    }
  }

  /** A request that does not succeed leaves the ballot as it was; a switch keeps the number of votes. */
  lemma CastConserves(b: Ballot, v: string, q: Request)
    ensures var (b', r) := Cast(b, v, q);
            && (r != Ok ==> b' == b)
            && (r == Ok ==> b.Open? && b' == b.(votes := b'.votes)
                            && |b'.votes| == |b.votes| + (if q.Vote? then 1 else if q.Unvote? then -1 else 0))
  {
    var r := Cast(b, v, q);
    if r.1 == Ok && q.Switch? {
      assert |b.votes - {(v, q.from)}| == |b.votes| - 1;
      assert (v, q.to) !in b.votes - {(v, q.from)};
    }
  }

  // ---- the counters add up to the number of votes ----

  ghost function Pick(s: set<string>): (x: string)
    requires s != {}
    ensures x in s
  {
    var x :| x in s; x
  }

  ghost function SumOver(votes: map<string, int>, cs: set<string>): int
    requires cs <= votes.Keys
  {
    if cs == {} then 0 else var c := Pick(cs); votes[c] + SumOver(votes, cs - {c})
  }

  function KeysIn(t: Table, cs: set<string>): set<string> {
    set k | k in VoteKeys(t) && ChoiceOf(k) in cs
  }

  lemma {:induction false} SumIsRecords(t: Table, votes: map<string, int>, cs: set<string>)
    requires cs <= votes.Keys && forall c :: c in cs ==> votes[c] == |KeysFor(t, c)|
    ensures SumOver(votes, cs) == |KeysIn(t, cs)|
    decreases cs
  {
    if cs == {} {
      assert KeysIn(t, cs) == {};
    } else {
      var c := Pick(cs);
      SumIsRecords(t, votes, cs - {c});
      assert KeysIn(t, cs) == KeysFor(t, c) + KeysIn(t, cs - {c});
      assert KeysFor(t, c) !! KeysIn(t, cs - {c});
    }
  }

  /** In a sound table no counter is negative and together they count every vote record. */
  lemma CountersAddUp(t: Table)
    requires Sound(t) && Opened(t)
    ensures forall c :: c in t[META].votes ==> 0 <= t[META].votes[c]
    ensures SumOver(t[META].votes, t[META].votes.Keys) == |VoteKeys(t)|
  {
    SumIsRecords(t, t[META].votes, t[META].votes.Keys);
    assert KeysIn(t, t[META].votes.Keys) == VoteKeys(t);
  }
}
