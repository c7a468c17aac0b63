/** The body as an event stream (section 9.2.6 of the WHATWG HTML Standard) and what a standard reader makes of it. */
module EventStream {
  import opened Prelude
  import opened Lines
  import opened Sse
  import opened EndToEnd

  /** A reader's data buffer and the data of the events it has dispatched. */
  datatype Reader = Reader(data: string, dispatched: seq<string>)

  const IDLE := Reader("", [])

  /** The position of the first colon, or the length of the line. */
  function Colon(line: string): (n: nat)
    ensures n <= |line| && (n < |line| ==> line[n] == ':') && forall i :: 0 <= i < n ==> line[i] != ':'
  {
    if line == "" || line[0] == ':' then 0 else 1 + Colon(line[1..])
  }

  /** The field value: what follows the colon, without one leading space. */
  function FieldValue(line: string): string {
    var n := Colon(line);
    var rest := if n < |line| then line[n + 1..] else "";
    if " " <= rest then rest[1..] else rest
  }

  /** Takes in one line: an empty one dispatches, a data field is added to the buffer, and no other matters here. */
  function Take(r: Reader, line: string): Reader {
    if line == "" then (if r.data == "" then r else Reader("", r.dispatched + [Front(r.data)]))
    else if line[..Colon(line)] == "data" then r.(data := r.data + FieldValue(line) + "\n")
    else r
  }

  function Interpret(lines: seq<string>): Reader {
    if lines == [] then IDLE else Take(Interpret(Front(lines)), Last(lines))
  }

  function Encoded(enc: Event -> string, es: seq<Event>): (r: seq<string>)
    ensures |r| == |es| && forall i :: 0 <= i < |es| ==> r[i] == enc(es[i])
  {
    seq(|es|, i requires 0 <= i < |es| => enc(es[i]))
  }

  lemma DataField(text: string)
    ensures var line := PREFIX + text;
            line != "" && line[..Colon(line)] == "data" && FieldValue(line) == text
  {
    var line := PREFIX + text;
    assert line[4] == ':' && forall i :: 0 <= i < 4 ==> line[i] != ':';
    assert Colon(line) == 4;
    assert line[5..] == " " + text;
  }

  /** A standard reader dispatches exactly the encoded events of a body, in order, and is left with nothing pending. */
  lemma BodyIsEventStream(enc: Event -> string, es: seq<Event>)
    requires forall e :: e in es ==> '\n' !in enc(e)
    ensures Interpret(Split(Body(enc, es))) == Reader("", Encoded(enc, es))
  {
    SplitBody(enc, es);
    hide Split, Body;
    LinesDispatch(enc, es);
    assert Front(BodyLines(enc, es) + [""]) == BodyLines(enc, es);
  }

  lemma {:induction false} LinesDispatch(enc: Event -> string, es: seq<Event>)
    ensures Interpret(BodyLines(enc, es)) == Reader("", Encoded(enc, es))
  {
    if es != [] {
      var before, text := BodyLines(enc, Front(es)), enc(Last(es));
      LinesDispatch(enc, Front(es));
      assert BodyLines(enc, es) == before + [PREFIX + text, ""];
      assert Encoded(enc, es) == Encoded(enc, Front(es)) + [text];
      hide BodyLines, Encoded;
      DispatchOne(before, text);
    }
  }

  lemma DispatchOne(before: seq<string>, text: string)
    requires Interpret(before).data == ""
    ensures Interpret(before + [PREFIX + text, ""]) == Reader("", Interpret(before).dispatched + [text])
  {
    DataField(text);
    hide FieldValue, Colon;
    assert Front(before + [PREFIX + text, ""]) == before + [PREFIX + text];
    assert Front(before + [PREFIX + text]) == before;
    assert "" + text + "\n" == text + "\n" && Front(text + "\n") == text;
  }

  /** On such a body the browser's reader takes the same events as a standard one. */
  lemma ClientReadsTheStream(enc: Event -> string, dec: string -> Option<Event>, es: seq<Event>)
    requires Codec(enc, dec) && forall e :: e in es ==> Carried(e)
    ensures var lines := Split(Body(enc, es));
            DataOf(lines) == Interpret(lines).dispatched && Events(dec, lines).events == es
  {
    BodyIsEventStream(enc, es);
    BodyParses(enc, dec, es);
    SplitBody(enc, es);
    hide Split, Body, Codec, Events, Interpret;
    DataOfBody(enc, es);
    assert Front(BodyLines(enc, es) + [""]) == BodyLines(enc, es) && !(PREFIX <= "");
  }

  lemma {:induction false} DataOfBody(enc: Event -> string, es: seq<Event>)
    ensures DataOf(BodyLines(enc, es)) == Encoded(enc, es)
  {
    if es != [] {
      var before, text := BodyLines(enc, Front(es)), enc(Last(es));
      DataOfBody(enc, Front(es));
      assert BodyLines(enc, es) == before + [PREFIX + text, ""];
      assert Encoded(enc, es) == Encoded(enc, Front(es)) + [text];
      hide BodyLines, Encoded;
      DataOfOne(before, text);
    }
  }

  lemma DataOfOne(before: seq<string>, text: string)
    ensures DataOf(before + [PREFIX + text, ""]) == DataOf(before) + [text]
  {
    assert Front(before + [PREFIX + text, ""]) == before + [PREFIX + text];
    assert Front(before + [PREFIX + text]) == before;
    assert (PREFIX + text)[|PREFIX|..] == text && !(PREFIX <= "");
  }
}
