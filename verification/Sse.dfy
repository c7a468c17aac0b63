/** Server-sent events between the execute handler and the browser client. */
module Sse {
  import opened Prelude
  import opened Lines

  datatype Event = Stdout(data: string) | Stderr(data: string) | Complete(exitCode: int)

  const PREFIX := "data: "

  /** An empty data field is omitted from the JSON, so such an event would not come back as it was. */
  predicate Carried(e: Event) {
    !e.Complete? ==> e.data != ""
  }

  /** JSON as far as the pipeline needs it: what is encoded decodes to itself, and contains no raw newline. */
  ghost predicate Codec(enc: Event -> string, dec: string -> Option<Event>) {
    forall e: Event :: Carried(e) ==> dec(enc(e)) == Some(e) && '\n' !in enc(e)
  }

  // ---- what the handler writes ----

  function Chunk(enc: Event -> string, e: Event): string {
    PREFIX + enc(e) + "\n\n"
  }

  function Body(enc: Event -> string, es: seq<Event>): string {
    if es == [] then "" else Body(enc, Front(es)) + Chunk(enc, Last(es))
  }

  function Stdouts(ch: seq<string>): (es: seq<Event>)
    ensures |es| == |ch| && forall i :: 0 <= i < |ch| ==> es[i] == Stdout(ch[i])
  {
    seq(|ch|, i requires 0 <= i < |ch| => Stdout(ch[i]))
  }

  /** The events of one command: its stdout, its stderr unless empty, and one completion. */
  function Response(ch: seq<string>, stderr: string, code: int): seq<Event> {
    Stdouts(ch) + (if stderr == "" then [] else [Stderr(stderr)]) + [Complete(code)]
  }

  method WriteSSE(body: string, enc: Event -> string, e: Event) returns (body': string)
    ensures body' == body + Chunk(enc, e)
  {
    var data := enc(e);
    body' := body + PREFIX + data + "\n\n";
  }

  // ---- what the client reads ----

  /** How reading ends: the body is complete, a line does not parse, a read fails, or the consumer stops. */
  datatype Ending = Done | Malformed | Aborted | Left

  datatype Parsed<V> = Parsed(events: seq<V>, ok: bool)

  /** The values of the data lines, up to the first one that does not parse. */
  function Events<V>(dec: string -> Option<V>, lines: seq<string>): Parsed<V> {
    if lines == [] then Parsed([], true)
    else ParseLine(dec, Events(dec, Front(lines)), Last(lines))
  }

  function ParseLine<V>(dec: string -> Option<V>, p: Parsed<V>, line: string): Parsed<V> {
    if !p.ok || !(PREFIX <= line) then p
    else
      var v := dec(line[|PREFIX|..]);
      if v.Some? then Parsed(p.events + [v.value], true) else Parsed(p.events, false)
  }

  lemma {:induction false} EventsAppend<V>(dec: string -> Option<V>, a: seq<string>, b: seq<string>)
    ensures Events(dec, a).ok ==>
              Events(dec, a + b) == Parsed(Events(dec, a).events + Events(dec, b).events, Events(dec, b).ok)
    ensures !Events(dec, a).ok ==> Events(dec, a + b) == Events(dec, a)
    decreases b
  {
    if b == [] {
      assert a + b == a;
    } else {
      assert Front(a + b) == a + Front(b) && Last(a + b) == Last(b);
      EventsAppend(dec, a, Front(b));
    }
  }

  lemma GlueLast(ps: seq<string>, qs: seq<string>)
    requires ps != [] && qs != []
    ensures Glue(ps, qs) == Front(ps) + Glue([Last(ps)], qs)
  {
    var last := Last(ps);
    assert Front([last]) == [] && Last([last]) == last;
    assert Glue([last], qs) == [last + qs[0]] + qs[1..];
  }

  /** Splitting can be resumed from the last, unterminated piece. */
  lemma SplitResume(p: string, c: string)
    ensures Split(p + c) == Front(Split(p)) + Split(Last(Split(p)) + c)
  {
    PiecesHaveNoNewline(p);
    hide Split, Glue;
    var last := Last(Split(p));
    SplitAppend(p, c);
    GlueLast(Split(p), Split(c));
    SplitPlain(last);
    SplitAppend(last, c);
  }

  /** The lines of a body: all pieces once it has ended, all but the last while more may come. */
  function LinesOf(text: string, ended: bool): seq<string> {
    if ended then Split(text) else Front(Split(text))
  }

  /** A consumer may leave at its `stop`-th event. */
  predicate Stopped(n: nat, stop: Option<nat>) {
    stop.Some? && 1 <= stop.value <= n
  }

  function Consumed<V>(p: Parsed<V>, ended: bool, stop: Option<nat>): (seq<V>, Ending) {
    if Stopped(|p.events|, stop) then (p.events[..stop.value], Left)
    else (p.events, if !p.ok then Malformed else if ended then Done else Aborted)
  }

  /** What stands behind the prefix of the lines that have it. */
  function DataOf(lines: seq<string>): seq<string> {
    if lines == [] then []
    else DataOf(Front(lines)) + if PREFIX <= Last(lines) then [Last(lines)[|PREFIX|..]] else []
  }

  /** The events are the values of the data lines in order; they stop at the first one that does not parse, if any. */
  lemma {:induction false} EventsAreData<V>(dec: string -> Option<V>, lines: seq<string>)
    ensures var p, data := Events(dec, lines), DataOf(lines);
            && |p.events| <= |data| && (p.ok <==> |p.events| == |data|)
            && (forall i :: 0 <= i < |p.events| ==> dec(data[i]) == Some(p.events[i]))
            && (!p.ok ==> dec(data[|p.events|]) == None)
  {
    if lines != [] {
      EventsAreData(dec, Front(lines));
    }
  }

  /** How reading ends: a consumer that leaves has had its number of events, and anyone else all there were. */
  lemma ConsumedExactly<V>(p: Parsed<V>, ended: bool, stop: Option<nat>)
    ensures var (events, ending) := Consumed(p, ended, stop);
            && events <= p.events
            && (ending == Left <==> stop.Some? && 1 <= stop.value <= |p.events|)
            && (if ending == Left then |events| == stop.value else events == p.events)
            && (ending == Malformed ==> !p.ok) && (ending == Done ==> p.ok && ended)
            && (ending == Aborted ==> p.ok && !ended)
  {
  }

  /** More lines only add events, and none after a line that does not parse. */
  lemma EventsGrow<V>(dec: string -> Option<V>, a: seq<string>, b: seq<string>)
    requires a <= b
    ensures Events(dec, a).events <= Events(dec, b).events
    ensures !Events(dec, a).ok ==> Events(dec, b) == Events(dec, a)
  {
    assert b == a + b[|a|..];
    EventsAppend(dec, a, b[|a|..]);
  }

  /** Lines complete so far stay what they are. */
  lemma LinesGrow(seen: string, body: string, done: bool, ended: bool)
    requires seen <= body && (done ==> ended && seen == body)
    ensures LinesOf(seen, done) <= LinesOf(body, ended)
  {
    SplitPrefix(seen, body);
  }

  lemma NextParsed<V>(dec: string -> Option<V>, lines: seq<string>, j: nat)
    requires j < |lines|
    ensures Events(dec, lines[..j + 1]) == ParseLine(dec, Events(dec, lines[..j]), lines[j])
  {
    assert Front(lines[..j + 1]) == lines[..j];
  }

  lemma AppendOne(chunks: seq<string>, c: string)
    ensures Concat(chunks + [c]) == Concat(chunks) + c
  {
    ConcatAppend(chunks, [c]);
    assert Concat([c]) == c;
  }

  /** Yields the events of complete lines; `stopped` tells why the generator ends here, if it does. */
  method YieldLines<V>(dec: string -> Option<V>, before: seq<V>, lines: seq<string>, stop: Option<nat>)
    returns (events: seq<V>, stopped: Option<Ending>)
    requires !Stopped(|before|, stop)
    ensures var p := Events(dec, lines);
            if Stopped(|before + p.events|, stop) then
              events == (before + p.events)[..stop.value] && stopped == Some(Left)
            else events == before + p.events && stopped == if p.ok then None else Some(Malformed)
  {
    hide ParseLine;
    events := before;
    var j := 0;
    while j < |lines|
      invariant j <= |lines| && !Stopped(|events|, stop) && before <= events
      invariant Events(dec, lines[..j]) == Parsed(events[|before|..], true)
    {
      var line := lines[j];
      NextParsed(dec, lines, j);
      EventsGrow(dec, lines[..j + 1], lines);
      ParseDataLine(dec, Events(dec, lines[..j]), line);
      if PREFIX <= line {
        var v := dec(line[|PREFIX|..]);
        if v.None? {
          return events, Some(Malformed);
        }
        ghost var was := events;
        events := events + [v.value];
        assert events[|before|..] == was[|before|..] + [v.value];
        if stop == Some(|events|) {
          return events, Some(Left);
        }
      }
      j := j + 1;
    }
    assert lines[..j] == lines;
    return events, None;
  }

  lemma ParseDataLine<V>(dec: string -> Option<V>, p: Parsed<V>, line: string)
    requires p.ok
    ensures ParseLine(dec, p, line) ==
            if !(PREFIX <= line) then p
            else if dec(line[|PREFIX|..]).None? then Parsed(p.events, false)
            else Parsed(p.events + [dec(line[|PREFIX|..]).value], true)
  {
  }

  /**
   * Reads the chunks of a body as they arrive; `last` is the decoder's final output when the body ends and absent when
   * the next read fails. However the body is cut, the result is that of splitting it once.
   */
  method Execute<V>(dec: string -> Option<V>, received: seq<string>, last: Option<string>, stop: Option<nat>)
    returns (events: seq<V>, ending: Ending, cancelled: bool)
    ensures var body := Concat(received) + if last.Some? then last.value else "";
            (events, ending) == Consumed(Events(dec, LinesOf(body, last.Some?)), last.Some?, stop)
    ensures cancelled <==> ending != Done
  {
    ghost var body := Concat(received) + if last.Some? then last.value else "";
    events := [];
    var chunks: seq<string> := [];
    ghost var seen := "";
    var i := 0;
    NothingRead(dec, received);
    hide Split, Events, Concat, LinesOf, Front, Last, Buffered, Consumed;
    while true
      invariant i <= |received| && seen == Concat(received[..i])
      invariant Buffered(dec, seen, chunks, events) && !Stopped(|events|, stop)
      decreases |received| - i
    {
      if i == |received| && last.None? {
        assert received[..i] == received && seen == body;
        NoMoreReads(dec, seen, chunks, events, stop);
        return events, Aborted, true;
      }
      var done := i == |received|;
      var text := if done then last.value else received[i];
      ReadSoFar(received, i, last, seen + text);
      NextRead(dec, seen, chunks, text, done, events);
      ReadResult(dec, seen + text, body, done, last.Some?, stop);
      chunks := chunks + [text];
      seen := seen + text;
      var lines := Split(Concat(chunks));
      chunks := [];
      if !done {
        chunks := [Last(lines)];
        lines := Front(lines);
      }
      var stopped;
      events, stopped := YieldLines(dec, events, lines, stop);
      if stopped.Some? {
        return events, stopped.value, true;
      }
      if done {
        return events, Done, false;
      }
      i := i + 1;
    }
  }

  /** Between reads: the last, unterminated piece is buffered and the events of all others have been yielded. */
  ghost predicate Buffered<V>(dec: string -> Option<V>, seen: string, chunks: seq<string>, events: seq<V>) {
    Concat(chunks) == Last(Split(seen)) && Events(dec, Front(Split(seen))) == Parsed(events, true)
  }

  lemma NoMoreReads<V>(dec: string -> Option<V>, seen: string, chunks: seq<string>, events: seq<V>, stop: Option<nat>)
    requires Buffered(dec, seen, chunks, events) && !Stopped(|events|, stop)
    ensures Consumed(Events(dec, LinesOf(seen, false)), false, stop) == (events, Aborted)
  {
  }

  /** The buffered last piece and a new chunk give the next lines of the body, and the next events. */
  lemma NextRead<V>(dec: string -> Option<V>, seen: string, chunks: seq<string>, text: string, done: bool,
                          events: seq<V>)
    requires Buffered(dec, seen, chunks, events)
    ensures var lines := Split(Concat(chunks + [text]));
            var p := Events(dec, if done then lines else Front(lines));
            && Events(dec, LinesOf(seen + text, done)) == Parsed(events + p.events, p.ok)
            && (!done && p.ok ==> Buffered(dec, seen + text, [Last(lines)], events + p.events))
  {
    hide Split, Events, Concat;
    AppendOne(chunks, text);
    SplitResume(seen, text);
    var before, lines := Front(Split(seen)), Split(Concat(chunks + [text]));
    JustOne(Last(lines));
    assert Front(before + lines) == before + Front(lines);
    EventsAppend(dec, before, if done then lines else Front(lines));
  }

  /** What the events read so far say about the result. */
  lemma ReadResult<V>(dec: string -> Option<V>, seen: string, body: string, done: bool, ended: bool, stop: Option<nat>)
    requires seen <= body && (done ==> ended && seen == body)
    ensures var p, r := Events(dec, LinesOf(seen, done)), Consumed(Events(dec, LinesOf(body, ended)), ended, stop);
            if Stopped(|p.events|, stop) then r == (p.events[..stop.value], Left)
            else (!p.ok ==> r == (p.events, Malformed)) && (p.ok && done ==> r == (p.events, Done))
  {
    LinesGrow(seen, body, done, ended);
    EventsGrow(dec, LinesOf(seen, done), LinesOf(body, ended));
    var p, all := Events(dec, LinesOf(seen, done)), Events(dec, LinesOf(body, ended));
    if Stopped(|p.events|, stop) {
      assert p.events[..stop.value] == all.events[..stop.value];
    }
  }

  lemma NothingRead<V>(dec: string -> Option<V>, received: seq<string>)
    ensures Concat(received[..0]) == "" && Buffered(dec, "", [], [])
  {
    assert Split("") == [""] && Front([""]) == [];
  }

  lemma JustOne(c: string)
    ensures Concat([c]) == c
  {
  }

  lemma ReadSoFar(received: seq<string>, i: nat, last: Option<string>, seen: string)
    requires i <= |received| && (i == |received| ==> last.Some?)
    requires seen == Concat(received[..i]) + if i == |received| then last.value else received[i]
    ensures var body := Concat(received) + if last.Some? then last.value else "";
            seen <= body && if i == |received| then seen == body else seen == Concat(received[..i + 1])
  {
    hide Concat;
    if i == |received| {
      assert received[..i] == received;
    } else {
      AppendOne(received[..i], received[i]);
      assert received[..i] + [received[i]] == received[..i + 1];
      ConcatPrefix(received, i + 1);
    }
  }

  lemma ConcatPrefix(ss: seq<string>, n: nat)
    requires n <= |ss|
    ensures Concat(ss[..n]) <= Concat(ss)
  {
    hide Concat;
    assert ss == ss[..n] + ss[n..];
    ConcatAppend(ss[..n], ss[n..]);
  }
}
