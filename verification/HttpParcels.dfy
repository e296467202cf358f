/**
 What the machine does with requests its message parser understands, whatever the syntax of a
 header section: several to a call, or cut into chunks.
 */
module HttpParcels {
  import opened Wrappers
  import opened Text
  import opened HttpMessage
  import opened HttpParser

  /** A request on the wire: its header section, its body, and what should be queued for it. */
  datatype Parcel = Parcel(head: string, body: string, request: Request)

  function TextOf(p: Parcel): string
  {
    p.head + END_MARKER + p.body
  }

  function TextOfAll(ps: seq<Parcel>): string
  {
    if ps == [] then "" else TextOf(ps[0]) + TextOfAll(ps[1..])
  }

  function Requests(ps: seq<Parcel>): (rs: seq<Request>)
    ensures |rs| == |ps|
  {
    seq(|ps|, i requires 0 <= i < |ps| => ps[i].request)
  }

  /** The declared length the machine finds in a request is `n`. */
  predicate Declares(r: Request, n: nat)
  {
    && CONTENT_LENGTH in r.headers && IsDigits(r.headers[CONTENT_LENGTH])
    && r.headers[CONTENT_LENGTH] != "" && Value(r.headers[CONTENT_LENGTH]) == n
  }

  predicate Understood(parse: PieceParser, p: Parcel)
  {
    && p.head != "" && parse(p.head) == (p.request.(payload := ""), true)
    && p.request.payload == p.body
    && p.request.httpMethod != MethodOther
    && (p.request.httpMethod == Get ==> p.body == "")
    && (p.request.httpMethod == Post ==> Declares(p.request, |p.body|) && |p.body| <= POST_MAX_CONTENT_LENGTH)
  }

  /** The header section, with a marker-free body before it, is one piece. */
  ghost predicate Separable(p: Parcel)
  {
    && !Contains(p.body, END_MARKER)
    && forall body :: !Contains(body, END_MARKER) ==> CleanToken(body + p.head, END_MARKER)
  }

  ghost predicate Ready(parse: PieceParser, p: Parcel)
  {
    Understood(parse, p) && Separable(p)
  }

  ghost predicate AllReady(parse: PieceParser, ps: seq<Parcel>)
  {
    forall i :: 0 <= i < |ps| ==> Ready(parse, ps[i])
  }

  // ---------------------------------------------------------------- one piece

  lemma GetStep(parse: PieceParser, st: State, p: Parcel, next: Option<string>, single: bool)
    requires Understood(parse, p) && p.request.httpMethod == Get
    ensures ProcessPiece(parse, st, p.head, next, single)
         == Step(st.(current := p.request, queue := st.queue + [p.request]), next, Good)
  {
  }

  /** The state in which the body of `p` is looked for. */
  function BodyWanted(st: State, p: Parcel): State
  {
    st.(current := p.request.(payload := ""), contentLength := |p.body|)
  }

  lemma PostStep(parse: PieceParser, st: State, p: Parcel, next: Option<string>, single: bool)
    requires Understood(parse, p) && p.request.httpMethod == Post
    ensures var s := ProcessPiece(parse, st, p.head, next, single);
            var st2 := BodyWanted(st, p);
            && (single && |st.buffer| >= |p.body| ==>
                  s == Step(Deliver(st2, st.buffer[..|p.body|]).(buffer := st.buffer[|p.body|..]), next, Good))
            && (single && |st.buffer| < |p.body| ==> s == Step(st2.(waiting := true), next, Good))
            && (!single && next.None? ==> s == Step(st2, next, Thrown))
            && (!single && next.Some? && |next.value| >= |p.body| ==>
                  s == Step(Deliver(st2, next.value[..|p.body|]), Some(next.value[|p.body|..]), Good))
  {
    var st1 := st.(current := p.request.(payload := ""));
    assert ProcessPiece(parse, st, p.head, next, single) == ProcessPost(st1, next, single);
  }

  // ---------------------------------------------------------------- a batch in one call

  lemma RequestsStep(ps: seq<Parcel>)
    requires ps != []
    ensures Requests(ps) == [ps[0].request] + Requests(ps[1..])
  {
  }

  lemma OneRequest(ps: seq<Parcel>)
    requires |ps| == 1
    ensures Requests(ps) == [ps[0].request]
  {
  }

  /** The pieces a batch is split into: each body ends up in front of the next header section. */
  function BatchPieces(carry: string, ps: seq<Parcel>): (ts: seq<string>)
    ensures |ts| == |ps|
    decreases |ps|
  {
    if ps == [] then [] else [carry + ps[0].head] + BatchPieces(ps[0].body, ps[1..])
  }

  lemma HeadPiece(ps: seq<Parcel>)
    requires ps != []
    ensures BatchPieces("", ps) == [ps[0].head] + BatchPieces(ps[0].body, ps[1..])
  {
    var carry := "";
    assert carry + ps[0].head == ps[0].head;
    assert BatchPieces(carry, ps) == [carry + ps[0].head] + BatchPieces(ps[0].body, ps[1..]);
  }

  function LastBody(carry: string, ps: seq<Parcel>): string
  {
    if ps == [] then carry else ps[|ps| - 1].body
  }

  lemma {:induction false} BatchText(carry: string, ps: seq<Parcel>, tail: string)
    ensures Unsplit(BatchPieces(carry, ps), LastBody(carry, ps) + tail, END_MARKER) == carry + TextOfAll(ps) + tail
    decreases |ps|
  {
    if ps == [] {
      assert carry + TextOfAll(ps) + tail == carry + tail;
    } else {
      var h, b, rest := ps[0].head, ps[0].body, ps[1..];
      BatchText(b, rest, tail);
      UnsplitStep(carry + h, BatchPieces(b, rest), LastBody(b, rest) + tail, END_MARKER);
      assert LastBody(b, rest) == LastBody(carry, ps);
      Regroup(carry, h, END_MARKER, b, TextOfAll(rest), tail);
    }
  }

  lemma Regroup(carry: string, h: string, d: string, b: string, more: string, tail: string)
    ensures carry + h + d + (b + more + tail) == carry + (h + d + b + more) + tail
  {
  }

  lemma {:induction false} BatchPiecesClean(parse: PieceParser, carry: string, ps: seq<Parcel>)
    requires AllReady(parse, ps) && !Contains(carry, END_MARKER)
    ensures forall t :: t in BatchPieces(carry, ps) ==> CleanToken(t, END_MARKER)
    decreases |ps|
  {
    if ps != [] {
      assert Ready(parse, ps[0]);
      BatchPiecesClean(parse, ps[0].body, ps[1..]);
    }
  }

  lemma BatchSplits(parse: PieceParser, ps: seq<Parcel>, tail: string, text: string)
    requires AllReady(parse, ps) && !Contains(LastBody("", ps) + tail, END_MARKER)
    requires text == TextOfAll(ps) + tail
    ensures Tokens(text, END_MARKER) == BatchPieces("", ps)
    ensures Rest(text, END_MARKER) == LastBody("", ps) + tail
  {
    hide Tokens;
    hide Rest;
    hide TextOfAll;
    hide Unsplit;
    hide BatchPieces;
    hide Ready;
    BatchText("", ps, tail);
    assert text == "" + TextOfAll(ps) + tail;
    assert !Contains("", END_MARKER);
    BatchPiecesClean(parse, "", ps);
    SplitIsUnique(BatchPieces("", ps), LastBody("", ps) + tail, END_MARKER);
  }

  lemma BodyCut(body: string, head: string)
    ensures (body + head)[..|body|] == body
    ensures (body + head)[|body|..] == head
  {
  }

  /** Nothing but the queue, the request being built and its length differ. */
  predicate SameStream(a: State, b: State)
  {
    a.buffer == b.buffer && a.waiting == b.waiting && a.bufferMax == b.bufferMax && a.parseError == b.parseError
  }

  /** A parcel that is not the last of its batch: its body is cut from the piece after it. */
  lemma BatchParcel(parse: PieceParser, st: State, p: Parcel, head: string, more: seq<string>) returns (st': State)
    requires Understood(parse, p)
    ensures ProcessAll(parse, st, [p.head, p.body + head] + more, false)
         == ProcessAll(parse, st', [head] + more, false)
    ensures st'.queue == st.queue + [p.request] && SameStream(st, st')
  {
    var pieces := [p.head, p.body + head] + more;
    var next := NextPiece(pieces);
    BodyCut(p.body, head);
    if p.request.httpMethod == Get {
      GetStep(parse, st, p, next, false);
      assert p.body + head == head;
    } else {
      PostStep(parse, st, p, next, false);
    }
    var s := ProcessPiece(parse, st, p.head, next, false);
    assert s.next == Some(head);
    assert Remaining(pieces, s.next) == [head] + more;
    st' := s.st;
  }

  lemma BatchEnd(parse: PieceParser, st: State, p: Parcel)
    requires Understood(parse, p)
    ensures ProcessAll(parse, st, [p.head], false) ==
            if p.request.httpMethod == Get then (st.(current := p.request, queue := st.queue + [p.request]), Good)
            else (BodyWanted(st, p), Thrown)
  {
    if p.request.httpMethod == Get {
      GetStep(parse, st, p, None, false);
    } else {
      PostStep(parse, st, p, None, false);
    }
  }

  predicate EndsInGet(ps: seq<Parcel>)
    requires ps != []
  {
    ps[|ps| - 1].request.httpMethod == Get
  }

  /** What the loop makes of a batch: everything queued, or all but a final POST. */
  predicate BatchResult(st: State, ps: seq<Parcel>, r: (State, Signal))
    requires ps != []
  {
    && SameStream(st, r.0)
    && if EndsInGet(ps) then r.1 == Good && r.0.queue == st.queue + Requests(ps)
       else r.1 == Thrown && r.0.queue == st.queue + Requests(ps[..|ps| - 1])
  }

  lemma BatchResultStep(st: State, st1: State, ps: seq<Parcel>, r: (State, Signal))
    requires |ps| > 1 && SameStream(st, st1) && st1.queue == st.queue + [ps[0].request]
    requires BatchResult(st1, ps[1..], r)
    ensures BatchResult(st, ps, r)
  {
    var rest := ps[1..];
    assert rest[|rest| - 1] == ps[|ps| - 1];
    RequestsStep(ps);
    RequestsStep(ps[..|ps| - 1]);
    assert ps[..|ps| - 1][1..] == rest[..|rest| - 1];
  }

  /** The loop over the pieces of a batch of at least two, from any point on. */
  lemma {:induction false} BatchLoop(parse: PieceParser, st: State, ps: seq<Parcel>, pieces: seq<string>)
    requires ps != [] && AllReady(parse, ps) && pieces == BatchPieces("", ps)
    ensures BatchResult(st, ps, ProcessAll(parse, st, pieces, false))
    decreases |ps|
  {
    hide ProcessAll;
    hide Separable;
    var p, rest := ps[0], ps[1..];
    assert Ready(parse, p);
    HeadPiece(ps);
    if rest == [] {
      assert pieces == [p.head];
      BatchEnd(parse, st, p);
      assert Requests(ps) == [p.request] && Requests(ps[..0]) == [];
    } else {
      var more := BatchPieces(rest[0].body, rest[1..]);
      HeadPiece(rest);
      assert pieces == [p.head, p.body + rest[0].head] + more;
      var st1 := BatchParcel(parse, st, p, rest[0].head, more);
      BatchLoop(parse, st1, rest, [rest[0].head] + more);
      BatchResultStep(st, st1, ps, ProcessAll(parse, st, pieces, false));
    }
  }

  /** The loop over a batch of one, whose body is taken from the buffer. */
  lemma SingleLoop(parse: PieceParser, st: State, p: Parcel)
    requires Understood(parse, p)
    ensures ProcessAll(parse, st, [p.head], true).1 == Good
    ensures |st.buffer| >= |p.body| && st.buffer[..|p.body|] == p.body ==>
              var st' := ProcessAll(parse, st, [p.head], true).0;
              st'.queue == st.queue + [p.request] && SameStream(st', st.(buffer := st.buffer[|p.body|..]))
    ensures |st.buffer| < |p.body| ==>
              ProcessAll(parse, st, [p.head], true).0 == BodyWanted(st, p).(waiting := true)
  {
    if p.request.httpMethod == Get {
      GetStep(parse, st, p, None, true);
      assert st.buffer[0..] == st.buffer;
    } else {
      PostStep(parse, st, p, None, true);
    }
  }

  /** A call on a buffer with a marker does what the loop does with its pieces. */
  lemma CallIsLoop(parse: PieceParser, st: State, chunk: string, pieces: seq<string>, rest: string)
    requires |st.buffer| + |chunk| <= st.bufferMax
    requires !(st.waiting && |st.buffer + chunk| >= st.contentLength)
    requires pieces == Tokens(st.buffer + chunk, END_MARKER) && pieces != []
    requires rest == Rest(st.buffer + chunk, END_MARKER)
    ensures var r := ProcessAll(parse, st.(buffer := rest), pieces, |pieces| == 1);
            Append(parse, st, chunk) == (r.0, if r.1 == Thrown then Threw else Returned)
  {
  }

  lemma BatchOfReady(parse: PieceParser, st: State, chunk: string, ps: seq<Parcel>, tail: string)
    requires !st.waiting && |st.buffer| + |chunk| <= st.bufferMax
    requires ps != [] && AllReady(parse, ps)
    requires st.buffer + chunk == TextOfAll(ps) + tail && !Contains(ps[|ps| - 1].body + tail, END_MARKER)
    ensures var (st', outcome) := Append(parse, st, chunk);
            && !st'.waiting
            && if |ps| == 1 || EndsInGet(ps) then
                 outcome == Returned && st'.buffer == tail && st'.queue == st.queue + Requests(ps)
               else && outcome == Threw && st'.buffer == ps[|ps| - 1].body + tail
                    && st'.queue == st.queue + Requests(ps[..|ps| - 1])
  {
    hide Append;
    hide ProcessAll;
    hide TextOfAll;
    hide Tokens;
    hide Rest;
    hide BatchPieces;
    hide Separable;
    hide Requests;
    var pieces, rest := BatchPieces("", ps), ps[|ps| - 1].body + tail;
    BatchSplits(parse, ps, tail, st.buffer + chunk);
    CallIsLoop(parse, st, chunk, pieces, rest);
    assert Ready(parse, ps[|ps| - 1]);
    BodyCut(ps[|ps| - 1].body, tail);
    if |ps| == 1 {
      HeadPiece(ps);
      assert ps[1..] == [] && pieces == [ps[0].head];
      SingleLoop(parse, st.(buffer := rest), ps[0]);
      OneRequest(ps);
    } else {
      BatchLoop(parse, st.(buffer := rest), ps, pieces);
      if EndsInGet(ps) {
        assert rest == tail;
      }
    }
  }

  // ---------------------------------------------------------------- parcels in chunks

  /** The number of bytes before the body. */
  function BodyAt(p: Parcel): nat
  {
    |p.head| + |END_MARKER|
  }

  lemma HeadIsPiece(p: Parcel)
    requires Separable(p)
    ensures CleanToken(p.head, END_MARKER)
  {
    var none := "";
    assert !Contains(none, END_MARKER);
    assert none + p.head == p.head;
  }

  /** The parser waits for nothing and holds no byte. */
  predicate Idle(st: State)
  {
    !st.waiting && st.buffer == ""
  }

  /** The call that completes an awaited body delivers it and leaves the bytes after it in the buffer. */
  lemma BodyCompleted(parse: PieceParser, st: State, chunk: string, body: string, extra: string)
    requires |st.buffer| + |chunk| <= st.bufferMax && st.waiting && st.contentLength == |body|
    requires st.buffer + chunk == body + extra
    ensures Append(parse, st, chunk) == (Deliver(st, body).(buffer := extra, waiting := false), Returned)
    ensures |extra| <= st.bufferMax
  {
    assert |body + extra| == |body| + |extra|;
    BodyCut(body, extra);
  }
}
