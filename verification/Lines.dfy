/** Text split at newlines, and the decimal numbers the pipeline prints and parses. */
module Lines {
  import opened Prelude

  /** The pieces between newlines; one more than there are newlines. */
  function Split(s: string): (ps: seq<string>)
    ensures |ps| >= 1
  {
    if s == "" then [""] else Push(s[0], Split(s[1..]))
  }

  /** The pieces after one more character in front. */
  function Push(c: char, ps: seq<string>): (r: seq<string>)
    requires ps != []
    ensures r != []
  {
    if c == '\n' then [""] + ps else [[c] + ps[0]] + ps[1..]
  }

  /** Pieces of two adjoining texts: the last of the first continues in the first of the second. */
  function Glue(ps: seq<string>, qs: seq<string>): (r: seq<string>)
    requires ps != [] && qs != []
    ensures r != []
  {
    Front(ps) + [Last(ps) + qs[0]] + qs[1..]
  }

  function Last<T>(s: seq<T>): T
    requires s != []
  {
    s[|s| - 1]
  }

  function Front<T>(s: seq<T>): seq<T>
    requires s != []
  {
    s[..|s| - 1]
  }

  function Concat(ss: seq<string>): string {
    if ss == [] then "" else ss[0] + Concat(ss[1..])
  }

  /** Each line with its newline, joined. */
  function Unlines(ls: seq<string>): string {
    if ls == [] then "" else ls[0] + "\n" + Unlines(ls[1..])
  }

  /** The lines a line scanner yields once the input has ended: no line for what follows a final newline. */
  function Tokens(s: string): seq<string> {
    var ps := Split(s);
    if Last(ps) == "" then Front(ps) else ps
  }

  /** A line scanner drops one carriage return at the end of a line. */
  function DropCR(l: string): (r: string)
    ensures l == r + "\r" || (l == r && (l == "" || Last(l) != '\r'))
  {
    if l != "" && Last(l) == '\r' then Front(l) else l
  }

  function Clean(ls: seq<string>): (r: seq<string>)
    ensures |r| == |ls|
    ensures forall i :: 0 <= i < |ls| ==> r[i] == DropCR(ls[i])
  {
    seq(|ls|, i requires 0 <= i < |ls| => DropCR(ls[i]))
  }

  // ---- splitting ----

  lemma {:induction false} PiecesHaveNoNewline(s: string)
    ensures forall i :: 0 <= i < |Split(s)| ==> '\n' !in Split(s)[i]
  {
    if s != "" {
      PiecesHaveNoNewline(s[1..]);
    }
  }

  lemma {:induction false} SplitPlain(s: string)
    requires '\n' !in s
    ensures Split(s) == [s]
  {
    if s != "" {
      assert s[0] in s && forall c :: c in s[1..] ==> c in s;
      SplitPlain(s[1..]);
      assert [s[0]] + s[1..] == s;
    }
  }

  lemma GlueCons(h: string, t: seq<string>, qs: seq<string>)
    requires t != [] && qs != []
    ensures Glue([h] + t, qs) == [h] + Glue(t, qs)
  {
    assert Front([h] + t) == [h] + Front(t);
  }

  lemma GluePush(c: char, ps: seq<string>, qs: seq<string>)
    requires ps != [] && qs != []
    ensures Glue(Push(c, ps), qs) == Push(c, Glue(ps, qs))
  {
    var h, t := ps[0], ps[1..];
    if c == '\n' {
      GlueCons("", ps, qs);
    } else if t != [] {
      assert ps == [h] + t;
      GlueCons(h, t, qs);
      GlueCons([c] + h, t, qs);
      hide Glue;
      assert ([h] + Glue(t, qs))[1..] == Glue(t, qs);
    } else {
      assert ps == [h] && Front(ps) == [] && Glue(ps, qs) == [h + qs[0]] + qs[1..];
      assert ([c] + h) + qs[0] == [c] + (h + qs[0]);
    }
  }

  /** Splitting a concatenation glues the pieces of its parts. */
  lemma {:induction false} SplitAppend(a: string, b: string)
    ensures Split(a + b) == Glue(Split(a), Split(b))
  {
    if a == "" {
      assert a + b == b;
      assert "" + Split(b)[0] == Split(b)[0];
    } else {
      assert (a + b)[0] == a[0] && (a + b)[1..] == a[1..] + b;
      SplitAppend(a[1..], b);
      GluePush(a[0], Split(a[1..]), Split(b));
    }
  }

  lemma SplitAtNewline(rest: string)
    ensures Split("\n" + rest) == [""] + Split(rest)
  {
    assert ("\n" + rest)[1..] == rest;
  }

  /** After a newline a new piece starts: the pieces of the two parts simply follow each other. */
  lemma SplitAfterNewline(a: string, b: string)
    ensures Split(a + "\n" + b) == Split(a) + Split(b)
  {
    assert a + "\n" + b == a + ("\n" + b);
    SplitAppend(a, "\n" + b);
    SplitAtNewline(b);
    var ps := Split(a);
    assert Last(ps) + "" == Last(ps);
    assert Front(ps) + [Last(ps)] == ps;
  }

  lemma SplitLine(l: string, rest: string)
    requires '\n' !in l
    ensures Split(l + "\n" + rest) == [l] + Split(rest)
  {
    SplitPlain(l);
    SplitAfterNewline(l, rest);
  }

  /** The pieces of a beginning of a text are pieces of the text, except that the last one may be cut short. */
  lemma SplitPrefix(p: string, s: string)
    requires p <= s
    ensures |Split(p)| <= |Split(s)|
    ensures Front(Split(p)) == Split(s)[..|Split(p)| - 1]
    ensures Last(Split(p)) <= Split(s)[|Split(p)| - 1]
  {
    var rest := s[|p|..];
    assert s == p + rest;
    SplitAppend(p, rest);
  }

  lemma UnlinesPush(c: char, ps: seq<string>)
    requires ps != []
    ensures Unlines(Push(c, ps)) == [c] + Unlines(ps)
  {
    if c == '\n' {
      assert ([""] + ps)[1..] == ps;
      assert Unlines(Push(c, ps)) == "" + "\n" + Unlines(ps) == [c] + Unlines(ps);
    } else {
      assert Push(c, ps)[1..] == ps[1..];
      assert [c] + ps[0] + "\n" + Unlines(ps[1..]) == [c] + (ps[0] + "\n" + Unlines(ps[1..]));
    }
  }

  /** The text whose lines these are, once its last line is terminated. */
  lemma {:induction false} UnlinesSplit(s: string)
    ensures Unlines(Split(s)) == s + "\n"
  {
    if s == "" {
      assert Unlines([""]) == "" + "\n" + Unlines([""][1..]);
    } else {
      UnlinesSplit(s[1..]);
      UnlinesPush(s[0], Split(s[1..]));
      assert [s[0]] + (s[1..] + "\n") == s + "\n";
    }
  }

  lemma {:induction false} UnlinesAppend(a: seq<string>, b: seq<string>)
    ensures Unlines(a + b) == Unlines(a) + Unlines(b)
  {
    if a == [] {
      assert a + b == b;
    } else {
      assert (a + b)[0] == a[0] && (a + b)[1..] == a[1..] + b;
      UnlinesAppend(a[1..], b);
    }
  }

  lemma {:induction false} ConcatAppend(a: seq<string>, b: seq<string>)
    ensures Concat(a + b) == Concat(a) + Concat(b)
  {
    if a == [] {
      assert a + b == b;
    } else {
      assert (a + b)[0] == a[0] && (a + b)[1..] == a[1..] + b;
      ConcatAppend(a[1..], b);
    }
  }

  // ---- decimal numbers ----

  predicate IsDigit(c: char) {
    '0' <= c <= '9'
  }

  function Digit(n: nat): char
    requires n < 10
  {
    '0' + n as char
  }

  function Decimal(n: nat): (s: string)
    ensures s != "" && forall c :: c in s ==> IsDigit(c)
  {
    if n < 10 then [Digit(n)] else Decimal(n / 10) + [Digit(n % 10)]
  }

  function DigitsValue(s: string): nat
    requires forall c :: c in s ==> IsDigit(c)
  {
    if s == "" then 0 else
      assert IsDigit(Last(s)) by { assert Last(s) in s; }
      assert forall c :: c in Front(s) ==> c in s;
      10 * DigitsValue(Front(s)) + (Last(s) as int - '0' as int)
  }

  const MAX_INT := 0x7fff_ffff_ffff_ffff

  /** An optional sign and at least one digit, within 64 bits. */
  function Atoi(s: string): Option<int> {
    var negative := s != "" && s[0] == '-';
    var digits := if s != "" && (s[0] == '-' || s[0] == '+') then s[1..] else s;
    if digits == "" || exists c :: c in digits && !IsDigit(c) then None
    else
      var v: int := DigitsValue(digits);
      if negative then (if v <= MAX_INT + 1 then Some(-v) else None)
      else (if v <= MAX_INT then Some(v) else None)
  }

  lemma {:induction false} DigitsOfDecimal(n: nat)
    ensures DigitsValue(Decimal(n)) == n
  {
    if n >= 10 {
      DigitsOfDecimal(n / 10);
      assert Front(Decimal(n)) == Decimal(n / 10);
    } else {
      assert Front(Decimal(n)) == "";
    }
  }

  /** Only an optional sign and digits are a number, and only within 64 bits. */
  lemma AtoiRejects(s: string)
    requires Atoi(s).Some?
    ensures s != "" && -MAX_INT - 1 <= Atoi(s).value <= MAX_INT
    ensures (forall i :: 1 <= i < |s| ==> IsDigit(s[i])) && (IsDigit(s[0]) || (s[0] in "+-" && |s| > 1))
  {
    var digits := if s[0] == '-' || s[0] == '+' then s[1..] else s;
    forall i | 1 <= i < |s| ensures IsDigit(s[i]) {
      assert s[i] == if |digits| == |s| then digits[i] else digits[i - 1];
      assert s[i] in digits;
    }
    assert |digits| == |s| ==> s[0] in digits;
  }

  /** A sign in front makes the number negative, or changes nothing. */
  lemma AtoiOfSigned(n: nat)
    requires n <= MAX_INT
    ensures Atoi("+" + Decimal(n)) == Some(n)
    ensures Atoi("-" + Decimal(n)).Some? && Atoi("-" + Decimal(n)).value + n == 0
  {
    DigitsOfDecimal(n);
    assert ("-" + Decimal(n))[1..] == Decimal(n) && ("+" + Decimal(n))[1..] == Decimal(n);
  }

  lemma AtoiOfDecimal(n: nat)
    requires n <= MAX_INT
    ensures Atoi(Decimal(n)) == Some(n)
  {
    DigitsOfDecimal(n);
    assert Decimal(n)[0] in Decimal(n);
  }
}
