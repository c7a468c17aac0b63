/** Sort keys of the poll table: `META` for the poll record, `visitor#choice` for a vote. */
module PollKeys {
  import opened Prelude

  const META := "META"

  function VoteKey(visitor: string, choice: string): string {
    visitor + "#" + choice
  }

  function Prefix(visitor: string): string {
    visitor + "#"
  }

  /** A visitor is an API Gateway connection ID: never empty, never containing '#'. */
  predicate IsVisitor(v: string) {
    v != "" && '#' !in v
  }

  /** Position of the first '#', or the length of the string when there is none. */
  function HashIndex(s: string): (i: nat)
    ensures i <= |s|
    ensures forall k :: 0 <= k < i ==> s[k] != '#'
    ensures i < |s| ==> s[i] == '#'
  {
    if s == "" || s[0] == '#' then 0 else 1 + HashIndex(s[1..])
  }

  function VisitorOf(key: string): string {
    key[..HashIndex(key)]
  }

  /** The second part of splitting a key at its first '#', when there is one. */
  function DecodeChoice(key: string): Option<string> {
    var i := HashIndex(key);
    if i < |key| then Some(key[i + 1..]) else None
  }

  /** The choice in a key, or the empty string for a key without '#'. */
  function ChoiceOf(key: string): string {
    if DecodeChoice(key).Some? then DecodeChoice(key).value else ""
  }

  lemma {:induction false} HashIndexUnique(s: string, i: nat)
    requires i < |s| && s[i] == '#' && forall k :: 0 <= k < i ==> s[k] != '#'
    ensures HashIndex(s) == i
  {
    if i > 0 {
      HashIndexUnique(s[1..], i - 1);
    }
  }

  /** Decoding gives back the choice, whatever it contains, exactly for visitors without '#'. */
  lemma DecodeInvertsVoteKey(v: string, c: string)
    ensures DecodeChoice(VoteKey(v, c)) == Some(c) <==> '#' !in v
    ensures '#' !in v ==> VisitorOf(VoteKey(v, c)) == v && ChoiceOf(VoteKey(v, c)) == c
  {
    var k := VoteKey(v, c);
    if '#' !in v {
      assert k[..|v|] == v;
      HashIndexUnique(k, |v|);
      assert k[|v| + 1..] == c;
    } else {
      var i :| 0 <= i < |v| && v[i] == '#';
      assert k[i] == '#';
      assert |DecodeChoice(k).value| > |c|;
    }
  }

  lemma VoteKeyInjective(v: string, c: string, v': string, c': string)
    requires '#' !in v && '#' !in v'
    requires VoteKey(v, c) == VoteKey(v', c')
    ensures v == v' && c == c'
  {
    DecodeInvertsVoteKey(v, c);
    DecodeInvertsVoteKey(v', c');
  }

  /** A key with a '#' is the vote key of its two parts. */
  lemma VoteKeyInvertsDecode(k: string)
    requires HashIndex(k) < |k|
    ensures k == VoteKey(VisitorOf(k), ChoiceOf(k)) && '#' !in VisitorOf(k)
  {
    SplitAtHash(k, HashIndex(k));
  }

  lemma SplitAtHash(k: string, i: nat)
    requires i < |k| && k[i] == '#'
    ensures k == VoteKey(k[..i], k[i + 1..])
    ensures Prefix(k[..i]) <= k
  {
  }

  lemma PrefixedKeyOwner(v: string, k: string)
    requires '#' !in v && Prefix(v) <= k
    ensures VisitorOf(k) == v
  {
    hide HashIndex;
    assert forall i :: 0 <= i <= |v| ==> k[i] == Prefix(v)[i];
    assert k[|v|] == '#';
    HashIndexUnique(k, |v|);
    assert k[..|v|] == v;
  }

  lemma OwnerPrefixesKey(k: string)
    requires HashIndex(k) < |k|
    ensures Prefix(VisitorOf(k)) <= k
  {
    SplitAtHash(k, HashIndex(k));
  }

  /** The prefix query of a visitor selects exactly that visitor's records. */
  lemma PrefixSelectsOwner(v: string, k: string)
    requires '#' !in v && HashIndex(k) < |k|
    ensures Prefix(v) <= k <==> VisitorOf(k) == v
  {
    hide HashIndex, Prefix, VisitorOf;
    if Prefix(v) <= k { PrefixedKeyOwner(v, k); }
    OwnerPrefixesKey(k);
  }

  lemma VoteKeyIsNotMeta(v: string, c: string)
    ensures VoteKey(v, c) != META
  {
    assert VoteKey(v, c)[|v|] == '#';
    assert '#' !in META;
  }

  /** A '#' in a visitor makes each of its votes share a record with a vote of the visitor named before the '#'. */
  lemma HashInVisitorCollides(v: string, c: string)
    requires '#' in v
    ensures var v', c' := VisitorOf(v), v[HashIndex(v) + 1..] + "#" + c;
            && '#' !in v' && v' != v
            && VoteKey(v, c) == VoteKey(v', c') && Prefix(v') <= VoteKey(v, c)
  {
    SplitAtHash(v, HashIndex(v));
    var v', c' := VisitorOf(v), v[HashIndex(v) + 1..] + "#" + c;
    assert VoteKey(v, c) == v' + "#" + c';
  }

  /** The same record is the vote of two visitors. */
  predicate Collide(v: string, c: string, v': string, c': string) {
    v != v' && VoteKey(v, c) == VoteKey(v', c')
  }

  /** Records are shared with a visitor without '#' exactly by visitors containing one. */
  lemma VotesCollideExactlyWhen(v: string, c: string)
    ensures (exists v', c' :: '#' !in v' && Collide(v, c, v', c')) <==> '#' in v
  {
    if '#' in v {
      HashInVisitorCollides(v, c);
      assert Collide(v, c, VisitorOf(v), v[HashIndex(v) + 1..] + "#" + c);
    } else if v', c' :| '#' !in v' && Collide(v, c, v', c') {
      VoteKeyInjective(v, c, v', c');
    }
  }
}
