/** One command from the request to the events the browser sees. */
module EndToEnd {
  import opened Prelude
  import opened Lines
  import opened Stderr
  import opened Shell
  import opened ShellRuns
  import opened Bash
  import opened Sse

  /** The events for the outcome of a call. */
  function ResponseTo(r: Result, ch: seq<string>): seq<Event> {
    var (code, stderr, err) := Returned(r);
    Response(ch, stderr, code)
  }

  /** The request handler from the start of the stream on: stdout lines as they come, stderr, completion. */
  method HandleExecute(shell: BashShell, command: string, nanos: nat, reply: Reply, ctx: Context, pace: Reads,
                       enc: Event -> string)
    returns (body: string)
    modifies shell
    ensures var (w, r, ch) := Serve(old(shell.Pipes()), Call(command, nanos, reply, ctx, pace));
            shell.Pipes() == w && body == Body(enc, ResponseTo(r, ch))
  {
    hide Serve, Body, Chunk;
    var exitCode, stderr, execErr, ch := shell.ExecuteStream(command, nanos, reply, ctx, pace);
    label Served:
    NoEvents(enc);
    body := "";
    ghost var written: seq<Event> := [];
    for i := 0 to |ch|
      invariant unchanged@Served(shell)
      invariant written == Stdouts(ch[..i]) && body == Body(enc, written)
    {
      body := WriteSSE(body, enc, Stdout(ch[i]));
      OneMoreEvent(enc, written, Stdout(ch[i]));
      written := written + [Stdout(ch[i])];
    }
    assert ch[..|ch|] == ch;
    if stderr != "" {
      body := WriteSSE(body, enc, Stderr(stderr));
      OneMoreEvent(enc, written, Stderr(stderr));
      written := written + [Stderr(stderr)];
    }
    body := WriteSSE(body, enc, Complete(exitCode));
    OneMoreEvent(enc, written, Complete(exitCode));
    assert written + [Complete(exitCode)] == Response(ch, stderr, exitCode);
  }

  lemma NoEvents(enc: Event -> string)
    ensures Body(enc, []) == ""
  {
  }

  lemma OneMoreEvent(enc: Event -> string, es: seq<Event>, e: Event)
    ensures Body(enc, es + [e]) == Body(enc, es) + Chunk(enc, e)
  {
    assert Front(es + [e]) == es;
  }

  // ---- reading a body back ----

  function BodyLines(enc: Event -> string, es: seq<Event>): seq<string> {
    if es == [] then [] else BodyLines(enc, Front(es)) + [PREFIX + enc(Last(es)), ""]
  }

  lemma {:induction false} SplitBody(enc: Event -> string, es: seq<Event>)
    requires forall e :: e in es ==> '\n' !in enc(e)
    ensures Split(Body(enc, es)) == BodyLines(enc, es) + [""]
  {
    if es != [] {
      assert Last(es) in es && forall e :: e in Front(es) ==> e in es;
      SplitBody(enc, Front(es));
      OneMoreLine(Body(enc, Front(es)), BodyLines(enc, Front(es)), PREFIX + enc(Last(es)));
      assert Body(enc, es) == Body(enc, Front(es)) + (PREFIX + enc(Last(es)) + "\n\n");
    }
  }

  lemma OneMoreLine(body: string, lines: seq<string>, l: string)
    requires Split(body) == lines + [""] && '\n' !in l
    ensures Split(body + (l + "\n\n")) == lines + [l, ""] + [""]
  {
    SplitAtNewline("");
    SplitAfterNewline(body + l, "\n");
    LastLineGrows(body, lines, l);
    SplitPlain("");
    hide Split;
    assert body + (l + "\n\n") == body + l + "\n" + "\n" && "\n" + "" == "\n";
    assert lines + [l] + ([""] + [""]) == lines + [l, ""] + [""];
  }

  lemma LastLineGrows(body: string, lines: seq<string>, l: string)
    requires Split(body) == lines + [""] && '\n' !in l
    ensures Split(body + l) == lines + [l]
  {
    SplitPlain(l);
    SplitAppend(body, l);
    hide Split;
    GlueLast(lines + [""], [l]);
    assert Front(lines + [""]) == lines;
    GlueEmpty(l);
  }

  lemma GlueEmpty(l: string)
    ensures Glue([""], [l]) == [l]
  {
    assert Front([""]) == [] && "" + l == l;
  }

  lemma OneEventLine(enc: Event -> string, dec: string -> Option<Event>, e: Event)
    requires Codec(enc, dec) && Carried(e)
    ensures Events(dec, [PREFIX + enc(e), ""]) == Parsed([e], true)
  {
    var data := PREFIX + enc(e);
    assert data[|PREFIX|..] == enc(e);
    assert Events(dec, [data]) == ParseLine(dec, Parsed([], true), data) == Parsed([e], true) by {
      assert Front([data]) == [];
    }
    hide Codec;
    assert Front([data, ""]) == [data] && Last([data, ""]) == "" && !(PREFIX <= "");
  }

  /** Every event is read back from its own two lines. */
  ghost predicate ReadBack(enc: Event -> string, dec: string -> Option<Event>, es: seq<Event>) {
    forall e :: e in es ==> Events(dec, [PREFIX + enc(e), ""]) == Parsed([e], true)
  }

  lemma {:induction false} EventsOfLines(enc: Event -> string, dec: string -> Option<Event>, es: seq<Event>)
    requires ReadBack(enc, dec, es)
    ensures Events(dec, BodyLines(enc, es)) == Parsed(es, true)
  {
    if es != [] {
      var before, e := Front(es), Last(es);
      var lines, own := BodyLines(enc, before), [PREFIX + enc(e), ""];
      assert es == before + [e] && BodyLines(enc, es) == lines + own;
      assert ReadBack(enc, dec, before) && Events(dec, own) == Parsed([e], true);
      EventsOfLines(enc, dec, before);
      hide Events, BodyLines, ReadBack, Front, Last;
      EventsAppend(dec, lines, own);
    }
  }

  /** Parsing what was printed gives back the events. */
  lemma BodyParses(enc: Event -> string, dec: string -> Option<Event>, es: seq<Event>)
    requires Codec(enc, dec) && forall e :: e in es ==> Carried(e)
    ensures Events(dec, Split(Body(enc, es))) == Parsed(es, true)
  {
    SplitBody(enc, es);
    forall e | e in es ensures Events(dec, [PREFIX + enc(e), ""]) == Parsed([e], true) {
      OneEventLine(enc, dec, e);
    }
    EventsOfLines(enc, dec, es);
    assert Front(BodyLines(enc, es) + [""]) == BodyLines(enc, es);
    assert !(PREFIX <= "");
  }

  /** A body that breaks off anywhere gives a beginning of the events, and no parse error. */
  lemma BrokenOffBody(enc: Event -> string, dec: string -> Option<Event>, es: seq<Event>, p: string)
    requires Codec(enc, dec) && forall e :: e in es ==> Carried(e)
    requires p <= Body(enc, es)
    ensures var r := Events(dec, LinesOf(p, false));
            r.ok && r.events <= es
  {
    BodyParses(enc, dec, es);
    LinesGrow(p, Body(enc, es), false, true);
    EventsGrow(dec, LinesOf(p, false), Split(Body(enc, es)));
  }

  // ---- the whole way ----

  /** The chunks of a body when the reads return the given numbers of characters, and what the last one returns. */
  function Cut(body: string, sizes: seq<nat>): (cs: seq<string>)
    ensures Concat(cs) == body
    decreases sizes
  {
    if sizes == [] then
      assert [body][1..] == [];
      [body]
    else
      var n := if sizes[0] <= |body| then sizes[0] else |body|;
      assert body[..n] + body[n..] == body;
      [body[..n]] + Cut(body[n..], sizes[1..])
  }

  /** Every way to cut a body is covered. */
  lemma {:induction false} EveryCut(cs: seq<string>)
    requires cs != []
    ensures Cut(Concat(cs), Lengths(Front(cs))) == cs
  {
    if |cs| == 1 {
      assert Concat(cs) == cs[0] + Concat([]) == cs[0];
    } else {
      EveryCut(cs[1..]);
      assert Front(cs)[0] == cs[0] && Front(cs)[1..] == Front(cs[1..]);
      assert Lengths(Front(cs))[1..] == Lengths(Front(cs[1..]));
      assert Concat(cs)[..|cs[0]|] == cs[0] && Concat(cs)[|cs[0]|..] == Concat(cs[1..]);
    }
  }

  function Lengths(cs: seq<string>): seq<nat> {
    seq(|cs|, i requires 0 <= i < |cs| => |cs[i]|)
  }

  /** Chunks of a call's channel are lines with their newline, so all events of a response can be carried. */
  lemma ResponseCarried(w: Wire, call: Call)
    ensures var (w', r, ch) := Serve(w, call);
            && (forall i :: 0 <= i < |ch| ==> ch[i] != "")
            && forall e :: e in ResponseTo(r, ch) ==> Carried(e)
  {
    ChunksNonEmpty(w, call);
    hide Serve;
    var (w', r, ch) := Serve(w, call);
    forall e | e in ResponseTo(r, ch) ensures Carried(e) {
      if e in Stdouts(ch) {
        var i :| 0 <= i < |ch| && Stdouts(ch)[i] == e;
      }
    }
  }

  lemma ChunksNonEmpty(w: Wire, call: Call)
    ensures var ch := Serve(w, call).2;
            forall i :: 0 <= i < |ch| ==> ch[i] != ""
  {
    hide Split, Decimal, Atoi, Marker, Script, Pieces, Absorb, Tokens, FirstMarker, Frame, Emitted, Visible, AfterWrite,
         Clean, SendFails, AfterLines;
  }

  function StdoutText(es: seq<Event>): string {
    if es == [] then "" else
      (if es[0].Stdout? then es[0].data else "") + StdoutText(es[1..])
  }

  lemma {:induction false} TextOfResponse(ch: seq<string>, stderr: string, code: int)
    ensures StdoutText(Response(ch, stderr, code)) == Concat(ch)
  {
    var es := Response(ch, stderr, code);
    if ch == [] {
      assert StdoutText([Complete(code)]) == "" + StdoutText([]);
      if stderr == "" {
        assert es == [Complete(code)];
      } else {
        assert es == [Stderr(stderr)] + [Complete(code)] && es[1..] == [Complete(code)];
      }
    } else {
      TextOfResponse(ch[1..], stderr, code);
      assert Stdouts(ch) == [Stdout(ch[0])] + Stdouts(ch[1..]);
      assert es == [Stdout(ch[0])] + Response(ch[1..], stderr, code);
    }
  }

  function StderrText(es: seq<Event>): string {
    if es == [] then "" else
      (if es[0].Stderr? then es[0].data else "") + StderrText(es[1..])
  }

  lemma {:induction false} ErrorTextOfResponse(ch: seq<string>, stderr: string, code: int)
    ensures StderrText(Response(ch, stderr, code)) == stderr
  {
    var es := Response(ch, stderr, code);
    if ch == [] {
      assert StderrText([Complete(code)]) == "" + StderrText([]);
      if stderr == "" {
        assert es == [Complete(code)];
      } else {
        assert es == [Stderr(stderr)] + [Complete(code)] && es[1..] == [Complete(code)];
      }
    } else {
      ErrorTextOfResponse(ch[1..], stderr, code);
      assert Stdouts(ch) == [Stdout(ch[0])] + Stdouts(ch[1..]);
      assert es == [Stdout(ch[0])] + Response(ch[1..], stderr, code);
    }
  }

  /** Stdout events first, then at most one stderr event, then the one completion. */
  predicate WellOrdered(es: seq<Event>) {
    && es != [] && Last(es).Complete?
    && (forall i :: 0 <= i < |es| - 1 ==> !es[i].Complete?)
    && (forall i, j :: 0 <= i < j < |es| && es[i].Stderr? ==> es[j].Complete?)
  }

  /** The events tell the outcome: each chunk as it was sent, exactly the stderr text, none if empty, and the code. */
  ghost predicate Tells(es: seq<Event>, chunks: seq<string>, stderr: string, code: int) {
    && WellOrdered(es) && Last(es) == Complete(code)
    && StdoutText(es) == Concat(chunks) && StderrText(es) == stderr
    && (forall i :: 0 <= i < |es| ==> (es[i].Stdout? <==> i < |chunks|))
    && (forall i :: 0 <= i < |chunks| ==> i < |es| && es[i] == Stdout(chunks[i]))
    && (forall i :: 0 <= i < |es| && es[i].Stderr? ==> es[i].data != "")
  }

  lemma ResponseTells(ch: seq<string>, stderr: string, code: int)
    ensures Tells(Response(ch, stderr, code), ch, stderr, code)
  {
    TextOfResponse(ch, stderr, code);
    ErrorTextOfResponse(ch, stderr, code);
    hide StdoutText, StderrText, Concat;
  }

  /** The events of a call, whatever became of it; an error has no stderr and the code -1. */
  lemma OutcomeIsTold(w: Wire, call: Call)
    ensures var (w', r, ch) := Serve(w, call);
            if r.Exited? then Tells(ResponseTo(r, ch), ch, r.stderr, r.code) else Tells(ResponseTo(r, ch), ch, "", -1)
  {
    hide Serve, Response, Tells;
    var (w', r, ch) := Serve(w, call);
    if r.Exited? {
      ResponseTells(ch, r.stderr, r.code);
    } else {
      ResponseTells(ch, "", -1);
    }
  }

  /** The stderr of a command: bytes left over, its own, and a newline read apart from the marker but in time. */
  function CollectedStderr(w: Wire, call: Call): string {
    var e := (if call.pace.early then "" else w.pipe) + call.reply.err;
    if NewlineApart(e, MarkerOf(call), call.pace.sizes) && call.pace.late then e + "\n" else e
  }

  /**
   * A command that runs to its end on a shell in step: the client sees the lines of its output, its stderr, and the
   * exit code, and the text of the stdout events is the output, terminated, exactly when no line of it ends in '\r'.
   */
  lemma OutputArrives(w: Wire, call: Call)
    requires Synced(w) && Whole(call) && Tame(call) && call.ctx.sends.None?
    ensures var (w', r, ch) := Serve(w, call);
            var es := ResponseTo(r, ch);
            && r.Exited? && Synced(w')
            && Tells(es, Lined(Visible(Clean(Split(call.reply.out)))), CollectedStderr(w, call), call.reply.code)
            && (StdoutText(es) == Terminated(call.reply.out) <==> NoCarriageReturns(call.reply.out))
            && (w.pipe == "" && !call.pace.late ==> StderrText(es) == call.reply.err)
  {
    WholeCall(w, call);
    WholeCallStderr(w, call);
    OutcomeIsTold(w, call);
    hide Serve, Split, Clean, Lined, Visible, Synced, Terminated, NoCarriageReturns, MarkerFree, MarkerLast,
         StdoutText, StderrText, WellOrdered, NewlineApart, Response;
    assert w.pipe == "" ==> (if call.pace.early then "" else w.pipe) + call.reply.err == call.reply.err;
    SentTextIsOutput(call.reply.out);
  }

  /** A failed call: the chunks sent so far, no stderr, and exit code -1. */
  lemma FailureArrives(w: Wire, call: Call)
    requires Serve(w, call).1.Failed?
    ensures var (w', r, ch) := Serve(w, call);
            ResponseTo(r, ch) == Stdouts(ch) + [Complete(-1)]
  {
    hide Serve;
  }

  /**
   * Handler and client composed: whatever happens to the call and however the body is cut, the client gets exactly
   * the call's stdout chunks, its stderr unless empty, and one completion.
   */
  method RunCommand(shell: BashShell, command: string, nanos: nat, reply: Reply, ctx: Context, pace: Reads,
                    enc: Event -> string, dec: string -> Option<Event>, sizes: seq<nat>)
    returns (events: seq<Event>, ending: Ending, cancelled: bool)
    requires Codec(enc, dec)
    modifies shell
    ensures var (w, r, ch) := Serve(old(shell.Pipes()), Call(command, nanos, reply, ctx, pace));
            && shell.Pipes() == w && ending == Done && !cancelled
            && if r.Exited? then Tells(events, ch, r.stderr, r.code) else Tells(events, ch, "", -1)
    ensures var call := Call(command, nanos, reply, ctx, pace);
            Synced(old(shell.Pipes())) && Whole(call) && Tame(call) && ctx.sends.None? ==>
              && Synced(shell.Pipes()) && WellOrdered(events) && Last(events) == Complete(reply.code)
              && (StdoutText(events) == Terminated(reply.out) <==> NoCarriageReturns(reply.out))
              && StderrText(events) == CollectedStderr(old(shell.Pipes()), call)
  {
    hide Synced, Whole, Tame, StdoutText, StderrText, WellOrdered, CollectedStderr, Terminated, NoCarriageReturns;
    hide Serve, Codec, Events, Body, Split, Response;
    var body := HandleExecute(shell, command, nanos, reply, ctx, pace, enc);
    ghost var call := Call(command, nanos, reply, ctx, pace);
    ghost var (w, r, ch) := Serve(old(shell.Pipes()), call);
    ResponseCarried(old(shell.Pipes()), call);
    BodyParses(enc, dec, ResponseTo(r, ch));
    var chunks := Cut(body, sizes);
    assert body + "" == body;
    events, ending, cancelled := Execute(dec, chunks, Some(""), None);
    OutcomeIsTold(old(shell.Pipes()), call);
    if Synced(old(shell.Pipes())) && Whole(call) && Tame(call) && ctx.sends.None? {
      OutputArrives(old(shell.Pipes()), call);
    }
  }
}
