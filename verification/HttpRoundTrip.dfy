/**
 Parsing undoes printing: the theorems about well-formed GET and POST requests and the two
 parsers of lib/http.
 */
module HttpRoundTrip {
  import opened Text
  import opened HttpMessage
  import opened HttpParser
  import opened HttpParcels
  import opened HttpPrint
  import opened HttpStreams

  predicate AllWellFormed(dialect: Dialect, ms: seq<Message>)
  {
    forall i :: 0 <= i < |ms| ==> WellFormed(dialect, ms[i])
  }

  function ExpectedAll(ms: seq<Message>): (rs: seq<Request>)
    ensures |rs| == |ms|
  {
    seq(|ms|, i requires 0 <= i < |ms| => Expected(ms[i]))
  }

  function PrintAll(ms: seq<Message>): string
  {
    if ms == [] then "" else Print(ms[0]) + PrintAll(ms[1..])
  }

  function ParcelsOf(ms: seq<Message>): (ps: seq<Parcel>)
    ensures |ps| == |ms|
  {
    seq(|ms|, i requires 0 <= i < |ms| => ParcelOf(ms[i]))
  }

  lemma {:induction false} PrintAllIsText(ms: seq<Message>)
    ensures PrintAll(ms) == TextOfAll(ParcelsOf(ms))
    decreases |ms|
  {
    if ms != [] {
      PrintIsText(ms[0]);
      PrintAllIsText(ms[1..]);
      assert ParcelsOf(ms)[1..] == ParcelsOf(ms[1..]);
    }
  }

  lemma LastParcel(ms: seq<Message>)
    requires ms != []
    ensures var p := ParcelsOf(ms)[|ms| - 1];
            p.body == Body(ms[|ms| - 1]) && (p.request.httpMethod == Get <==> ms[|ms| - 1].GetMessage?)
    ensures Requests(ParcelsOf(ms)[..|ms| - 1]) == ExpectedAll(ms[..|ms| - 1])
  {
  }

  lemma AllReadBack(dialect: Dialect, ms: seq<Message>)
    requires AllWellFormed(dialect, ms)
    ensures AllReady(ParserOf(dialect), ParcelsOf(ms))
    ensures Requests(ParcelsOf(ms)) == ExpectedAll(ms)
  {
    forall i | 0 <= i < |ms|
      ensures Ready(ParserOf(dialect), ParcelsOf(ms)[i])
    {
      WellFormedReadsBack(dialect, ms[i]);
    }
  }

  /** What a call makes of a batch: everything queued, or all but a final POST and an exception. */
  predicate BatchOutcome(st: State, ms: seq<Message>, tail: string, st': State, outcome: Outcome)
    requires ms != []
  {
    if |ms| == 1 || ms[|ms| - 1].GetMessage? then
      outcome == Returned && st'.buffer == tail && st'.queue == st.queue + ExpectedAll(ms)
    else
      && outcome == Threw && st'.buffer == Body(ms[|ms| - 1]) + tail
      && st'.queue == st.queue + ExpectedAll(ms[..|ms| - 1])
  }

  lemma BatchDecided(st: State, ms: seq<Message>, tail: string, st': State, outcome: Outcome)
    requires ms != [] && BatchOutcome(st, ms, tail, st', outcome)
    ensures st'.queue == st.queue + ExpectedAll(ms) <==> |ms| == 1 || ms[|ms| - 1].GetMessage?
  {
    assert |ExpectedAll(ms[..|ms| - 1])| < |ExpectedAll(ms)|;
  }

  /**
   One call that completes a batch of well-formed messages, in any mix of GET and POST and
   possibly followed by the start of another: the batch is queued, in order and with every body
   cut out, exactly when it is a single message or ends in a GET. Otherwise the call throws and
   the final POST is lost, its body left in the buffer.
   */
  lemma BatchCall(dialect: Dialect, st: State, chunk: string, ms: seq<Message>, tail: string)
    requires !st.waiting && |st.buffer| + |chunk| <= st.bufferMax
    requires ms != [] && AllWellFormed(dialect, ms)
    requires st.buffer + chunk == PrintAll(ms) + tail && !Contains(Body(ms[|ms| - 1]) + tail, END_MARKER)
    ensures var (st', outcome) := Append(ParserOf(dialect), st, chunk);
            && !st'.waiting && BatchOutcome(st, ms, tail, st', outcome)
            && (st'.queue == st.queue + ExpectedAll(ms) <==> |ms| == 1 || ms[|ms| - 1].GetMessage?)
  {
    hide Append;
    hide Ready;
    hide WellFormed;
    hide ParserOf;
    hide PrintAll;
    hide TextOfAll;
    hide Expected;
    hide ParcelOf;
    hide Body;
    var ps := ParcelsOf(ms);
    AllReadBack(dialect, ms);
    PrintAllIsText(ms);
    LastParcel(ms);
    BatchOfReady(ParserOf(dialect), st, chunk, ps, tail);
    var (st', outcome) := Append(ParserOf(dialect), st, chunk);
    BatchDecided(st, ms, tail, st', outcome);
  }

  /** A stream of messages of which nothing has arrived. */
  function StreamOf(ms: seq<Message>): Cursor
  {
    Cursor(ParcelsOf(ms), 0, false)
  }

  /**
   Parsing undoes printing under any chunking, exactly: well-formed messages sent to an idle parser
   in chunks that may span several of them are queued exactly, in order, with every call returning
   and the parser idle at the end, if and only if the chunking is smooth: every chunk finds room,
   no call that waits for nothing completes several header sections of which the last is a POST's,
   and the last call leaves nothing unscanned.
   */
  lemma StreamCondition(dialect: Dialect, st: State, ms: seq<Message>, chunks: seq<string>)
    requires Idle(st) && AllWellFormed(dialect, ms) && Concat(chunks) == PrintAll(ms)
    ensures var st' := Run(ParserOf(dialect), st, chunks);
            Smooth(StreamOf(ms), chunks, st.bufferMax) <==>
              AllReturn(ParserOf(dialect), st, chunks) && Idle(st') && st'.queue == st.queue + ExpectedAll(ms)
  {
    hide Smooth;
    hide Run;
    hide AllReturn;
    hide ParserOf;
    hide Ready;
    AllReadBack(dialect, ms);
    PrintAllIsText(ms);
    var c := StreamOf(ms);
    assert TextOfAll(c.ps)[0..] == TextOfAll(c.ps) && TextOfAll(c.ps)[..0] == "";
    StreamRun(ParserOf(dialect), st, c, chunks);
  }

  /**
   Parsing undoes printing under chunking: well-formed messages that each fit the buffer, sent to
   an idle parser in chunks that do not span two messages, are queued exactly, in order, and
   leave the parser idle with an empty buffer; no chunk is refused and no call throws.
   */
  lemma ParseUndoesPrint(dialect: Dialect, st: State, ms: seq<Message>, css: seq<seq<string>>)
    requires Idle(st) && AllWellFormed(dialect, ms) && |css| == |ms|
    requires forall i :: 0 <= i < |ms| ==> Concat(css[i]) == Print(ms[i]) && |Print(ms[i])| <= st.bufferMax
    ensures AllReturn(ParserOf(dialect), st, Flatten(css))
    ensures Idle(Run(ParserOf(dialect), st, Flatten(css)))
    ensures Run(ParserOf(dialect), st, Flatten(css)).queue == st.queue + ExpectedAll(ms)
  {
    hide Run;
    hide AllReturn;
    hide Smooth;
    hide ParserOf;
    var ps := ParcelsOf(ms);
    forall i | 0 <= i < |ms|
      ensures Concat(css[i]) == TextOf(ps[i]) && |TextOf(ps[i])| <= st.bufferMax
    {
      PrintIsText(ms[i]);
    }
    SeparateIsSmooth(ps, css, st.bufferMax);
    PrintAllIsText(ms);
    StreamCondition(dialect, st, ms, Flatten(css));
  }

  /**
   Messages that come with the end of an awaited body stay in the buffer, whole ones included, until
   the next call, even one that brings nothing; that call then takes them, with what it brings, as
   any batch.
   */
  lemma LeftoverWaits(dialect: Dialect, st: State, chunk: string, body: string, left: string, next: string,
                      ms: seq<Message>, tail: string)
    requires st.waiting && st.contentLength == |body| && |st.buffer| + |chunk| <= st.bufferMax
    requires st.buffer + chunk == body + left && |left| + |next| <= st.bufferMax
    requires ms != [] && AllWellFormed(dialect, ms) && !Contains(Body(ms[|ms| - 1]) + tail, END_MARKER)
    requires left + next == PrintAll(ms) + tail
    ensures var (st1, outcome1) := Append(ParserOf(dialect), st, chunk);
            var (st2, outcome2) := Append(ParserOf(dialect), st1, next);
            && outcome1 == Returned && st1 == Deliver(st, body).(buffer := left, waiting := false)
            && BatchOutcome(st1, ms, tail, st2, outcome2)
  {
    hide ParserOf;
    hide BatchOutcome;
    hide PrintAll;
    hide WellFormed;
    hide Body;
    hide Append;
    BodyCompleted(ParserOf(dialect), st, chunk, body, left);
    BatchCall(dialect, Append(ParserOf(dialect), st, chunk).0, next, ms, tail);
  }
}
