/**
 Bodies and declared lengths: what every run keeps as long as no end marker arrives inside an
 awaited body, and why that condition is needed.
 */
module HttpBodies {
  import opened Wrappers
  import opened Text
  import opened HttpMessage
  import opened HttpParser
  import opened HttpParcels
  import opened HttpRuns

  /** The length a POST declares, before it is narrowed to 16 bits. */
  function Declared(r: Request): Option<nat>
  {
    if CONTENT_LENGTH in r.headers && IsDigits(r.headers[CONTENT_LENGTH])
    then Some(Value(r.headers[CONTENT_LENGTH])) else None
  }

  /** An HTTP/1.1 POST that declares a length, narrowed to `n`, within the parser's bounds. */
  predicate PostOf(r: Request, n: nat)
  {
    && r.version == Http11 && r.httpMethod == Post && Declared(r).Some?
    && Declared(r).value <= INT_MAX && n == Declared(r).value % UINT16_RANGE && n <= POST_MAX_CONTENT_LENGTH
  }

  /** A request that may stand in the queue. */
  predicate Proper(r: Request)
  {
    (r.version == Http11 && r.httpMethod == Get && r.payload == "") || PostOf(r, |r.payload|)
  }

  predicate AllProper(queue: seq<Request>)
  {
    forall i :: 0 <= i < |queue| ==> Proper(queue[i])
  }

  /** What every undisturbed run keeps. */
  predicate Invariant(st: State)
  {
    && AllProper(st.queue)
    && (st.waiting ==> PostOf(st.current, st.contentLength) && |st.buffer| < st.contentLength)
  }

  lemma PieceKeepsInvariant(parse: PieceParser, st: State, piece: string, next: Option<string>, single: bool)
    requires Sane(parse) && AllProper(st.queue) && !st.waiting
    ensures Invariant(ProcessPiece(parse, st, piece, next, single).st)
    ensures !single ==> !ProcessPiece(parse, st, piece, next, single).st.waiting
  {
  }

  lemma {:induction false} PiecesKeepInvariant(parse: PieceParser, st: State, pieces: seq<string>, single: bool)
    requires Sane(parse) && AllProper(st.queue) && !st.waiting && (single ==> |pieces| <= 1)
    ensures Invariant(ProcessAll(parse, st, pieces, single).0)
    decreases |pieces|
  {
    hide ProcessPiece;
    hide Sane;
    hide AllProper;
    if pieces != [] {
      var s := ProcessPiece(parse, st, pieces[0], NextPiece(pieces), single);
      PieceKeepsInvariant(parse, st, pieces[0], NextPiece(pieces), single);
      if s.signal == Good && !single {
        PiecesKeepInvariant(parse, s.st, Remaining(pieces, s.next), single);
      }
    }
  }

  /** The call does not find an end marker in a body it is still waiting for. */
  predicate Undisturbed(st: State, chunk: string)
  {
    var b := st.buffer + chunk;
    |b| <= st.bufferMax && st.waiting && |b| < st.contentLength ==> !Contains(b, END_MARKER)
  }

  lemma CallKeepsInvariant(parse: PieceParser, st: State, chunk: string)
    requires Sane(parse) && Invariant(st) && Undisturbed(st, chunk)
    ensures Invariant(Append(parse, st, chunk).0)
  {
    hide ProcessAll;
    hide Sane;
    var b := st.buffer + chunk;
    if |b| <= st.bufferMax && !st.waiting && Contains(b, END_MARKER) {
      var pieces := Tokens(b, END_MARKER);
      PiecesKeepInvariant(parse, st.(buffer := Rest(b, END_MARKER)), pieces, |pieces| == 1);
    }
  }

  predicate UndisturbedRun(parse: PieceParser, st: State, chunks: seq<string>)
    decreases |chunks|
  {
    chunks == [] || (Undisturbed(st, chunks[0]) && UndisturbedRun(parse, Append(parse, st, chunks[0]).0, chunks[1..]))
  }

  /**
   Every undisturbed run keeps: each queued request is an HTTP/1.1 GET without payload or a POST
   whose payload has its declared length, narrowed to 16 bits and at most 2048; and while the
   parser waits, the buffer is shorter than the awaited length.
   */
  lemma {:induction false} RunKeepsInvariant(parse: PieceParser, st: State, chunks: seq<string>)
    requires Sane(parse) && Invariant(st) && UndisturbedRun(parse, st, chunks)
    ensures Invariant(Run(parse, st, chunks))
    decreases |chunks|
  {
    hide Append;
    hide Invariant;
    if chunks != [] {
      CallKeepsInvariant(parse, st, chunks[0]);
      RunKeepsInvariant(parse, Append(parse, st, chunks[0]).0, chunks[1..]);
    }
  }

  /** Both results for either parser of lib/http and every run from a new parser. */
  lemma FreshRun(dialect: Dialect, bufferMax: nat, chunks: seq<string>) returns (done: string, at: seq<nat>)
    ensures var (parse, st) := (ParserOf(dialect), Initial(bufferMax));
            && Conserved(Run(parse, st, chunks), AcceptedBytes(parse, st, chunks), done, at)
            && (UndisturbedRun(parse, st, chunks) ==> Invariant(Run(parse, st, chunks)))
  {
    hide Run;
    hide AcceptedBytes;
    hide UndisturbedRun;
    var parse, st := ParserOf(dialect), Initial(bufferMax);
    BothSane(dialect);
    done, at := RunConserves(parse, st, chunks, "", "", []);
    assert "" + AcceptedBytes(parse, st, chunks) == AcceptedBytes(parse, st, chunks);
    if UndisturbedRun(parse, st, chunks) {
      RunKeepsInvariant(parse, st, chunks);
    }
  }

  // ---------------------------------------------------------------- bytes that are gone

  function PayloadBytes(queue: seq<Request>): nat
  {
    if queue == [] then 0 else PayloadBytes(queue[..|queue| - 1]) + |queue[|queue| - 1].payload|
  }

  lemma PayloadBytesMore(queue: seq<Request>, r: Request)
    ensures PayloadBytes(queue + [r]) == PayloadBytes(queue) + |r.payload|
  {
    assert (queue + [r])[..|queue|] == queue;
  }

  /** Bytes the parser still has: in payloads and in the buffer. */
  function Kept(st: State): nat
  {
    PayloadBytes(st.queue) + |st.buffer|
  }

  function TotalLength(pieces: seq<string>): nat
  {
    if pieces == [] then 0 else |pieces[0]| + TotalLength(pieces[1..])
  }

  lemma PieceKeeps(parse: PieceParser, st: State, piece: string, next: Option<string>, single: bool)
    requires Sane(parse)
    ensures var s := ProcessPiece(parse, st, piece, next, single);
            Kept(s.st) + (if s.next.Some? then |s.next.value| else 0)
            <= Kept(st) + (if next.Some? then |next.value| else 0)
  {
    var s := ProcessPiece(parse, st, piece, next, single);
    if |s.st.queue| != |st.queue| {
      assert s.st.queue == st.queue + [s.st.current];
      PayloadBytesMore(st.queue, s.st.current);
    } else {
      assert s.st.queue == st.queue;
    }
  }

  /** Processing pieces can only lose their bytes. */
  lemma {:induction false} PiecesKeep(parse: PieceParser, st: State, pieces: seq<string>, single: bool)
    requires Sane(parse)
    ensures Kept(ProcessAll(parse, st, pieces, single).0) <= Kept(st) + TotalLength(pieces)
    decreases |pieces|
  {
    hide ProcessPiece;
    hide Sane;
    if pieces != [] {
      var next := NextPiece(pieces);
      var s := ProcessPiece(parse, st, pieces[0], next, single);
      PieceKeeps(parse, st, pieces[0], next, single);
      var rest := Remaining(pieces, s.next);
      if next.Some? {
        assert pieces[1..] == [next.value] + pieces[2..];
        assert rest[1..] == pieces[2..];
      }
      if s.signal == Good {
        PiecesKeep(parse, s.st, rest, single);
      }
    }
  }

  lemma {:induction false} SplitLength(s: string, d: string)
    requires d != ""
    ensures |s| == TotalLength(Tokens(s, d)) + |d| * |Tokens(s, d)| + |Rest(s, d)|
    decreases |s|
  {
    hide Find;
    hide Tokens;
    hide Rest;
    hide TotalLength;
    var p := Find(s, d);
    if p == NPOS {
      NothingToSplit(s, d);
      NoLength();
    } else {
      assert MatchAt(s, d, p);
      var more := s[p + |d|..];
      SplitStep(s, d, p, more);
      SplitLength(more, d);
      OneMoreToken(s[..p], Tokens(more, d), |d|);
    }
  }

  lemma NoLength()
    ensures TotalLength([]) == 0
  {
  }

  lemma OneMoreToken(t: string, ts: seq<string>, n: nat)
    ensures TotalLength([t] + ts) == |t| + TotalLength(ts)
    ensures n * |[t] + ts| == n + n * |ts|
  {
    assert ([t] + ts)[1..] == ts;
  }

  /** A call keeps no more bytes than it had, and loses those of every end marker it splits at. */
  lemma CallKeeps(parse: PieceParser, st: State, chunk: string)
    requires Sane(parse)
    ensures Kept(Append(parse, st, chunk).0) <= Kept(st) + |chunk|
    ensures (&& |st.buffer| + |chunk| <= st.bufferMax
             && !(st.waiting && |st.buffer| + |chunk| >= st.contentLength)
             && Contains(st.buffer + chunk, END_MARKER)) ==>
              Kept(Append(parse, st, chunk).0) < Kept(st) + |chunk|
  {
    hide ProcessAll;
    var b := st.buffer + chunk;
    if st.waiting && |b| >= st.contentLength {
      PayloadBytesMore(st.queue, st.current.(payload := b[..st.contentLength]));
    } else if Contains(b, END_MARKER) {
      var pieces := Tokens(b, END_MARKER);
      PiecesKeep(parse, st.(buffer := Rest(b, END_MARKER)), pieces, |pieces| == 1);
      SplitLength(b, END_MARKER);
      assert |pieces| >= 1;
    }
  }

  lemma {:induction false} RunKeeps(parse: PieceParser, st: State, chunks: seq<string>)
    requires Sane(parse)
    ensures Kept(Run(parse, st, chunks)) <= Kept(st) + |Concat(chunks)|
    decreases |chunks|
  {
    hide Append;
    hide Kept;
    if chunks != [] {
      CallKeeps(parse, st, chunks[0]);
      RunKeeps(parse, Append(parse, st, chunks[0]).0, chunks[1..]);
    }
  }

  // ---------------------------------------------------------------- an awaited body

  /** No buffer short of `n` bytes that a call ends with contains the end marker. */
  predicate Quiet(b: string, chunks: seq<string>, n: nat)
    decreases |chunks|
  {
    chunks == [] ||
    (var b' := b + chunks[0]; (|b'| < n ==> !Contains(b', END_MARKER)) && Quiet(b', chunks[1..], n))
  }

  /** The state after the body has been delivered; `extra` came with the last of it. */
  function BodyDelivered(st: State, body: string, extra: string): State
  {
    Deliver(st, body).(buffer := extra, waiting := false)
  }

  /** The last of the chunks, and no earlier one, brings the buffer to `n` bytes. */
  predicate LastCompletes(b: string, chunks: seq<string>, n: nat)
  {
    && chunks != [] && |b| + |Concat(chunks)| >= n
    && |b| + |Concat(chunks[..|chunks| - 1])| < n
  }

  lemma LastCompletesStep(b: string, chunks: seq<string>, n: nat)
    requires LastCompletes(b, chunks, n) && |chunks| > 1
    ensures |b + chunks[0]| < n && LastCompletes(b + chunks[0], chunks[1..], n)
  {
    assert chunks[..|chunks| - 1][1..] == chunks[1..][..|chunks| - 2];
  }

  lemma {:induction false} QuietBodyArrives(parse: PieceParser, st: State, chunks: seq<string>, body: string, extra: string)
    requires st.waiting && st.contentLength == |body| && |body| + |extra| <= st.bufferMax
    requires body + extra == st.buffer + Concat(chunks) && LastCompletes(st.buffer, chunks, |body|)
    requires Quiet(st.buffer, chunks, |body|)
    ensures Run(parse, st, chunks) == BodyDelivered(st, body, extra)
    decreases |chunks|
  {
    var b := st.buffer + chunks[0];
    if |chunks| == 1 {
      assert chunks[1..] == [] && b == body + extra;
      BodyCompleted(parse, st, chunks[0], body, extra);
    } else {
      LastCompletesStep(st.buffer, chunks, |body|);
      assert body + extra == b + Concat(chunks[1..]);
      assert Append(parse, st, chunks[0]).0 == st.(buffer := b);
      QuietBodyArrives(parse, st.(buffer := b), chunks[1..], body, extra);
    }
  }

  lemma {:induction false} NoisyBodyIsCut(parse: PieceParser, st: State, chunks: seq<string>, n: nat)
    requires Sane(parse) && st.waiting && st.contentLength == n && |st.buffer| + |Concat(chunks)| <= st.bufferMax
    requires LastCompletes(st.buffer, chunks, n) && !Quiet(st.buffer, chunks, n)
    ensures Kept(Run(parse, st, chunks)) < Kept(st) + |Concat(chunks)|
    decreases |chunks|
  {
    hide Sane;
    var b := st.buffer + chunks[0];
    assert Concat(chunks) == chunks[0] + Concat(chunks[1..]);
    if |chunks| == 1 {
      OneIsQuiet(st.buffer, chunks, n);
      assert false;
    } else {
      LastCompletesStep(st.buffer, chunks, n);
      if Contains(b, END_MARKER) {
        CallKeeps(parse, st, chunks[0]);
        RunKeeps(parse, Append(parse, st, chunks[0]).0, chunks[1..]);
      } else {
        assert Append(parse, st, chunks[0]).0 == st.(buffer := b);
        NoisyBodyIsCut(parse, st.(buffer := b), chunks[1..], n);
      }
    }
  }

  lemma OneIsQuiet(b: string, chunks: seq<string>, n: nat)
    requires LastCompletes(b, chunks, n) && |chunks| == 1
    ensures Quiet(b, chunks, n)
  {
    assert chunks[1..] == [];
    assert Concat(chunks) == chunks[0] + Concat(chunks[1..]);
  }

  /**
   The chunks that complete an awaited body deliver exactly it, as the payload of the request that
   waits for it, and leave the bytes that came after it in the buffer, exactly when no call before
   the last finds an end marker in what has arrived.
   */
  lemma AwaitedBody(parse: PieceParser, st: State, chunks: seq<string>, body: string, extra: string)
    requires Sane(parse) && st.waiting && st.contentLength == |body| && |body| + |extra| <= st.bufferMax
    requires body + extra == st.buffer + Concat(chunks) && LastCompletes(st.buffer, chunks, |body|)
    ensures var st' := Run(parse, st, chunks);
            && (st'.queue == st.queue + [st.current.(payload := body)] && st'.buffer == extra
                <==> Quiet(st.buffer, chunks, |body|))
            && (Quiet(st.buffer, chunks, |body|) ==> st' == BodyDelivered(st, body, extra))
  {
    hide Run;
    assert |body + extra| == |st.buffer| + |Concat(chunks)|;
    if Quiet(st.buffer, chunks, |body|) {
      QuietBodyArrives(parse, st, chunks, body, extra);
    } else {
      NoisyBodyIsCut(parse, st, chunks, |body|);
      PayloadBytesMore(st.queue, st.current.(payload := body));
    }
  }

  /**
   What goes wrong otherwise: a whole GET that arrives while a body is awaited is queued, and the
   awaited number of bytes after it is queued as the payload of that same GET.
   */
  lemma GetInsideBody(parse: PieceParser, st: State, p: Parcel, block: string)
    requires st.waiting && st.buffer == "" && |block| == st.contentLength <= st.bufferMax
    requires Ready(parse, p) && p.request.httpMethod == Get && |TextOf(p)| < st.contentLength
    ensures var st' := Run(parse, st, [TextOf(p), block]);
            && st'.queue == st.queue + [p.request, p.request.(payload := block)]
            && !Invariant(st')
  {
    hide ProcessAll;
    var st1 := st.(current := p.request, queue := st.queue + [p.request]);
    GetWhileWaiting(parse, st, p);
    assert st1.buffer + block == block && block[..|block|] == block;
    var st2 := Append(parse, st1, block).0;
    assert st2.queue == st1.queue + [p.request.(payload := block)];
    assert [TextOf(p), block][1..] == [block] && [block][1..] == [];
    assert Run(parse, st, [TextOf(p), block]) == Run(parse, st1, [block]) == Run(parse, st2, []);
    assert !Proper(st2.queue[|st.queue| + 1]);
  }

  lemma GetWhileWaiting(parse: PieceParser, st: State, p: Parcel)
    requires st.waiting && st.buffer == "" && st.contentLength <= st.bufferMax
    requires Ready(parse, p) && p.request.httpMethod == Get && |TextOf(p)| < st.contentLength
    ensures Append(parse, st, TextOf(p)).0 == st.(current := p.request, queue := st.queue + [p.request])
  {
    HeadIsPiece(p);
    var text := TextOf(p);
    assert st.buffer + text == p.head + END_MARKER + "";
    FirstToken(p.head, "", END_MARKER);
    assert !Contains("", END_MARKER);
    NothingToSplit("", END_MARKER);
    CallIsLoop(parse, st, text, [p.head], "");
    GetStep(parse, st, p, None, true);
    assert ProcessAll(parse, st, [p.head], true) == (st.(current := p.request, queue := st.queue + [p.request]), Good);
  }
}
