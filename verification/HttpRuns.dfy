/**
 Whole runs of the parser, for any message parser that leaves the payload to the machine:
 independence of the chunking, what a rejected piece does, and conservation of bytes.
 */
module HttpRuns {
  import opened Wrappers
  import opened Text
  import opened HttpMessage
  import opened HttpParser
  import opened HttpParcels

  /** A piece is taken only as an HTTP/1.1 GET or POST, and its request has no payload yet. */
  ghost predicate Sane(parse: PieceParser)
  {
    forall piece :: parse(piece).0.payload == ""
      && (parse(piece).1 ==> parse(piece).0.version == Http11 && parse(piece).0.httpMethod != MethodOther)
  }

  /** Both parsers of lib/http are sane. */
  lemma BothSane(dialect: Dialect)
    ensures Sane(ParserOf(dialect))
  {
  }

  // ---------------------------------------------------------------- chunking of GET streams

  predicate AllGets(parse: PieceParser, pieces: seq<string>)
  {
    forall i :: 0 <= i < |pieces| ==>
      pieces[i] != "" && parse(pieces[i]).1 && parse(pieces[i]).0.httpMethod == Get
  }

  function ParseAll(parse: PieceParser, pieces: seq<string>): (rs: seq<Request>)
    ensures |rs| == |pieces|
  {
    seq(|pieces|, i requires 0 <= i < |pieces| => parse(pieces[i]).0)
  }

  lemma {:induction false} GetPieces(parse: PieceParser, st: State, pieces: seq<string>, single: bool)
    requires AllGets(parse, pieces)
    ensures var (st', signal) := ProcessAll(parse, st, pieces, single);
            signal == Good && SameStream(st, st') && st'.queue == st.queue + ParseAll(parse, pieces)
    decreases |pieces|
  {
    if pieces != [] {
      var s := ProcessPiece(parse, st, pieces[0], NextPiece(pieces), single);
      assert Remaining(pieces, s.next) == pieces[1..];
      GetPieces(parse, s.st, pieces[1..], single);
      assert ParseAll(parse, pieces) == [parse(pieces[0]).0] + ParseAll(parse, pieces[1..]);
    }
  }

  lemma GetCall(parse: PieceParser, st: State, chunk: string)
    requires !st.waiting && AllGets(parse, Tokens(st.buffer + chunk, END_MARKER))
    requires Append(parse, st, chunk).1 != Refused
    ensures var (st', outcome) := Append(parse, st, chunk);
            var b := st.buffer + chunk;
            && outcome == Returned && !st'.waiting && st'.buffer == Rest(b, END_MARKER)
            && st'.queue == st.queue + ParseAll(parse, Tokens(b, END_MARKER))
  {
    var b := st.buffer + chunk;
    var pieces := Tokens(b, END_MARKER);
    GetPieces(parse, st.(buffer := Rest(b, END_MARKER)), pieces, |pieces| == 1);
  }

  predicate NoneRefused(parse: PieceParser, st: State, chunks: seq<string>)
    decreases |chunks|
  {
    chunks == [] || (Append(parse, st, chunks[0]).1 != Refused && NoneRefused(parse, Append(parse, st, chunks[0]).0, chunks[1..]))
  }

  lemma ParseAllConcat(parse: PieceParser, ps: seq<string>, qs: seq<string>)
    ensures ParseAll(parse, ps + qs) == ParseAll(parse, ps) + ParseAll(parse, qs)
  {
  }

  /** The canonical result: requests and remainder depend on the received bytes alone. */
  lemma {:induction false} GetRun(parse: PieceParser, st: State, chunks: seq<string>)
    requires !st.waiting && !Contains(st.buffer, END_MARKER) && NoneRefused(parse, st, chunks)
    requires AllGets(parse, Tokens(st.buffer + Concat(chunks), END_MARKER))
    ensures AllReturn(parse, st, chunks)
    ensures var (st', text) := (Run(parse, st, chunks), st.buffer + Concat(chunks));
            && !st'.waiting && st'.buffer == Rest(text, END_MARKER)
            && st'.queue == st.queue + ParseAll(parse, Tokens(text, END_MARKER))
    decreases |chunks|
  {
    hide Append;
    hide Tokens;
    hide Rest;
    hide Contains;
    hide AllGets;
    hide ParseAll;
    if chunks == [] {
      assert st.buffer + Concat(chunks) == st.buffer;
      NothingToSplit(st.buffer, END_MARKER);
    } else {
      var b, more := st.buffer + chunks[0], Concat(chunks[1..]);
      var st1 := Append(parse, st, chunks[0]).0;
      assert st.buffer + Concat(chunks) == b + more;
      SplitIsIncremental(b, more, END_MARKER);
      AllGetsSplit(parse, Tokens(b, END_MARKER), Tokens(Rest(b, END_MARKER) + more, END_MARKER));
      GetCall(parse, st, chunks[0]);
      SplitIsInverse(b, END_MARKER);
      GetRun(parse, st1, chunks[1..]);
      ParseAllConcat(parse, Tokens(b, END_MARKER), Tokens(Rest(b, END_MARKER) + more, END_MARKER));
    }
  }

  lemma AllGetsSplit(parse: PieceParser, ps: seq<string>, qs: seq<string>)
    requires AllGets(parse, ps + qs)
    ensures AllGets(parse, ps) && AllGets(parse, qs)
  {
    assert forall i :: 0 <= i < |ps| ==> (ps + qs)[i] == ps[i];
    assert forall i :: 0 <= i < |qs| ==> (ps + qs)[|ps| + i] == qs[i];
  }

  /**
   Chunking independence: for a stream whose complete pieces are all acceptable GET requests, any
   two ways to cut it in which no chunk is refused give the same requests and the same residual
   buffer.
   */
  lemma ChunkingIndependent(parse: PieceParser, st: State, cs: seq<string>, ds: seq<string>)
    requires !st.waiting && !Contains(st.buffer, END_MARKER) && Concat(cs) == Concat(ds)
    requires NoneRefused(parse, st, cs) && NoneRefused(parse, st, ds)
    requires AllGets(parse, Tokens(st.buffer + Concat(cs), END_MARKER))
    ensures Run(parse, st, cs).queue == Run(parse, st, ds).queue
    ensures Run(parse, st, cs).buffer == Run(parse, st, ds).buffer
  {
    GetRun(parse, st, cs);
    GetRun(parse, st, ds);
  }

  // ---------------------------------------------------------------- a rejected piece

  /** No Content-Length, one that is no number, or one over the maximum once narrowed to 16 bits. */
  predicate UnusableLength(headers: map<string, string>)
  {
    || CONTENT_LENGTH !in headers
    || (exists j :: 0 <= j < |headers[CONTENT_LENGTH]| && !('0' <= headers[CONTENT_LENGTH][j] <= '9'))
    || (&& headers[CONTENT_LENGTH] != "" && IsDigits(headers[CONTENT_LENGTH])
        && Value(headers[CONTENT_LENGTH]) <= INT_MAX
        && Value(headers[CONTENT_LENGTH]) % UINT16_RANGE > POST_MAX_CONTENT_LENGTH)
  }

  /** A piece that is empty, that the message parser rejects, or a POST whose length is of no use. */
  predicate Unacceptable(parse: PieceParser, piece: string)
  {
    || piece == "" || !parse(piece).1
    || (parse(piece).0.httpMethod == Post && UnusableLength(parse(piece).0.headers))
  }

  /** The first piece that is not an acceptable GET is at `k`, and it is unacceptable. */
  predicate FirstBad(parse: PieceParser, pieces: seq<string>, k: nat)
  {
    k < |pieces| && AllGets(parse, pieces[..k]) && Unacceptable(parse, pieces[k])
  }

  function Queued(st: State, r: Request): State
  {
    st.(current := r, queue := st.queue + [r])
  }

  lemma GetFirst(parse: PieceParser, st: State, pieces: seq<string>, single: bool)
    requires pieces != [] && AllGets(parse, pieces[..1])
    ensures ProcessAll(parse, st, pieces, single) ==
            ProcessAll(parse, Queued(st, parse(pieces[0]).0), pieces[1..], single)
  {
    assert pieces[..1][0] == pieces[0];
    var s := ProcessPiece(parse, st, pieces[0], NextPiece(pieces), single);
    assert Remaining(pieces, s.next) == pieces[1..];
  }

  lemma FirstBadTail(parse: PieceParser, pieces: seq<string>, k: nat)
    requires FirstBad(parse, pieces, k) && k > 0
    ensures AllGets(parse, pieces[..1]) && FirstBad(parse, pieces[1..], k - 1)
    ensures ParseAll(parse, pieces[..k]) == [parse(pieces[0]).0] + ParseAll(parse, pieces[1..][..k - 1])
  {
    assert pieces[..k] == pieces[..1] + pieces[1..][..k - 1];
    AllGetsSplit(parse, pieces[..1], pieces[1..][..k - 1]);
  }

  /** What is left of a batch when it is stopped after queueing `rs`. */
  predicate Stopped(st: State, rs: seq<Request>, st': State, signal: Signal)
  {
    && signal == Bad && st'.parseError == ERROR_BAD_REQUEST && st'.buffer == st.buffer && st'.waiting == st.waiting
    && st'.queue == st.queue + rs
  }

  lemma StoppedLater(st: State, r: Request, rs: seq<Request>, st': State, signal: Signal)
    requires Stopped(Queued(st, r), rs, st', signal)
    ensures Stopped(st, [r] + rs, st', signal)
  {
  }

  lemma BadFirst(parse: PieceParser, st: State, pieces: seq<string>, single: bool)
    requires FirstBad(parse, pieces, 0)
    ensures var (st', signal) := ProcessAll(parse, st, pieces, single);
            Stopped(st, ParseAll(parse, pieces[..0]), st', signal)
  {
    assert ParseAll(parse, pieces[..0]) == [];
  }

  lemma {:induction false} BadPieceStops(parse: PieceParser, st: State, pieces: seq<string>, single: bool, k: nat)
    requires FirstBad(parse, pieces, k)
    ensures k < |pieces|
    ensures var (st', signal) := ProcessAll(parse, st, pieces, single);
            Stopped(st, ParseAll(parse, pieces[..k]), st', signal)
    decreases k
  {
    assert k < |pieces|;
    hide ProcessAll;
    hide ParseAll;
    hide AllGets;
    hide FirstBad;
    hide Stopped;
    hide Queued;
    if k == 0 {
      BadFirst(parse, st, pieces, single);
    } else {
      FirstBadTail(parse, pieces, k);
      GetFirst(parse, st, pieces, single);
      var st1 := Queued(st, parse(pieces[0]).0);
      BadPieceStops(parse, st1, pieces[1..], single, k - 1);
      var (st', signal) := ProcessAll(parse, st1, pieces[1..], single);
      StoppedLater(st, parse(pieces[0]).0, ParseAll(parse, pieces[1..][..k - 1]), st', signal);
    }
  }

  /**
   The error path: a call whose batch holds GET requests up to an unacceptable piece queues
   exactly those before it, sets error 400 and drops the rest of the batch, but not the bytes
   after the last end marker.
   */
  lemma BadCall(parse: PieceParser, st: State, chunk: string, k: nat)
    requires !st.waiting && |st.buffer| + |chunk| <= st.bufferMax
    requires FirstBad(parse, Tokens(st.buffer + chunk, END_MARKER), k)
    ensures var (st', outcome) := Append(parse, st, chunk);
            var b := st.buffer + chunk;
            && outcome == Returned && st'.parseError == ERROR_BAD_REQUEST && !st'.waiting
            && st'.buffer == Rest(b, END_MARKER)
            && st'.queue == st.queue + ParseAll(parse, Tokens(b, END_MARKER)[..k])
  {
    hide ProcessAll;
    hide FirstBad;
    var b := st.buffer + chunk;
    var pieces := Tokens(b, END_MARKER);
    BadPieceStops(parse, st.(buffer := Rest(b, END_MARKER)), pieces, |pieces| == 1, k);
  }

  /** A chunk is refused exactly when it does not fit, and then nothing changes. */
  lemma RefusedIsFull(parse: PieceParser, st: State, chunk: string)
    ensures Append(parse, st, chunk).1 == Refused <==> |st.buffer| + |chunk| > st.bufferMax
    ensures Append(parse, st, chunk).1 == Refused ==> Append(parse, st, chunk).0 == st
  {
  }

  // ---------------------------------------------------------------- conservation

  function Payloads(queue: seq<Request>): (ps: seq<string>)
    ensures |ps| == |queue|
  {
    seq(|queue|, i requires 0 <= i < |queue| => queue[i].payload)
  }

  /** The strings `ps` are slices of `s` at the positions `at`, in order and without overlap. */
  predicate Placed(ps: seq<string>, s: string, at: seq<nat>)
  {
    && |at| == |ps|
    && (forall i :: 0 <= i < |ps| ==> at[i] + |ps[i]| <= |s| && s[at[i]..at[i] + |ps[i]|] == ps[i])
    && (forall i, j :: 0 <= i < j < |ps| ==> at[i] + |ps[i]| <= at[j])
  }

  lemma PlacedWider(ps: seq<string>, s: string, at: seq<nat>, t: string)
    requires Placed(ps, s, at)
    ensures Placed(ps, s + t, at)
  {
    forall i | 0 <= i < |ps|
      ensures (s + t)[at[i]..at[i] + |ps[i]|] == ps[i]
    {
      assert (s + t)[at[i]..at[i] + |ps[i]|] == s[at[i]..at[i] + |ps[i]|];
    }
  }

  lemma PlacedMore(queue: seq<Request>, r: Request, s: string, at: seq<nat>)
    requires Placed(Payloads(queue), s, at)
    ensures Placed(Payloads(queue + [r]), s + r.payload, at + [|s|])
  {
    PlacedWider(Payloads(queue), s, at, r.payload);
    assert Payloads(queue + [r]) == Payloads(queue) + [r.payload];
    assert (s + r.payload)[|s|..|s| + |r.payload|] == r.payload;
  }

  /** What is cut for at most one new request comes from the next piece if there is one, else from the buffer. */
  predicate Cuts(st: State, next: Option<string>, s: Step, rs: seq<Request>)
  {
    && |rs| <= 1 && s.st.queue == st.queue + rs && s.next.Some? == next.Some?
    && var cut := if rs == [] then "" else rs[0].payload;
       if next.Some? then next.value == cut + s.next.value && s.st.buffer == st.buffer
       else st.buffer == cut + s.st.buffer
  }

  lemma PostCuts(st: State, next: Option<string>, single: bool) returns (rs: seq<Request>)
    requires single ==> next.None?
    ensures Cuts(st, next, ProcessPost(st, next, single), rs)
  {
    hide IsDigits;
    hide Value;
    var s := ProcessPost(st, next, single);
    rs := if |s.st.queue| == |st.queue| then [] else [s.st.current];
  }

  lemma PieceCuts(parse: PieceParser, st: State, piece: string, next: Option<string>, single: bool) returns (rs: seq<Request>)
    requires Sane(parse) && (single ==> next.None?)
    ensures Cuts(st, next, ProcessPiece(parse, st, piece, next, single), rs)
  {
    hide ProcessPost;
    rs := [];
    if piece != "" && parse(piece).1 {
      var r := parse(piece).0;
      if r.httpMethod == Get {
        rs := [r];
      } else {
        rs := PostCuts(st.(current := r), next, single);
      }
    }
  }

  /** One piece: what it consumes goes to the end of `done`, and a payload it queues is there. */
  lemma PieceConserves(parse: PieceParser, st: State, piece: string, next: Option<string>, single: bool,
                       done: string, at: seq<nat>) returns (cut: string, at': seq<nat>)
    requires Sane(parse) && Placed(Payloads(st.queue), done, at) && (single ==> next.None?)
    ensures var s := ProcessPiece(parse, st, piece, next, single);
            && Placed(Payloads(s.st.queue), done + piece + END_MARKER + cut, at')
            && (next.Some? ==> next.value == cut + s.next.value && s.st.buffer == st.buffer)
            && (next.None? ==> st.buffer == cut + s.st.buffer)
  {
    hide ProcessPiece;
    hide Placed;
    hide Payloads;
    hide Sane;
    var rs := PieceCuts(parse, st, piece, next, single);
    var done1 := done + piece + END_MARKER;
    assert done1 == done + (piece + END_MARKER);
    PlacedWider(Payloads(st.queue), done, at, piece + END_MARKER);
    if rs == [] {
      cut, at' := "", at;
      assert done1 + cut == done1 && st.queue + rs == st.queue;
    } else {
      PlacedMore(st.queue, rs[0], done1, at);
      cut, at' := rs[0].payload, at + [|done1|];
      assert rs == [rs[0]];
    }
  }

  lemma {:induction false} PiecesConserve(parse: PieceParser, st: State, pieces: seq<string>, single: bool,
                                          done: string, at: seq<nat>) returns (done': string, at': seq<nat>)
    requires Sane(parse) && Placed(Payloads(st.queue), done, at) && (single ==> |pieces| <= 1)
    ensures var st' := ProcessAll(parse, st, pieces, single).0;
            && Placed(Payloads(st'.queue), done', at')
            && done + Unsplit(pieces, st.buffer, END_MARKER) == done' + st'.buffer
            && |st'.buffer| <= |st.buffer|
    decreases |pieces|
  {
    hide ProcessPiece;
    hide Placed;
    hide Sane;
    hide Unsplit;
    if pieces == [] {
      UnsplitNothing(st.buffer, END_MARKER);
      done', at' := done, at;
    } else {
      var next := NextPiece(pieces);
      var s := ProcessPiece(parse, st, pieces[0], next, single);
      var cut, at1 := PieceConserves(parse, st, pieces[0], next, single, done, at);
      var done1 := done + pieces[0] + END_MARKER + cut;
      var rest := Remaining(pieces, s.next);
      CutText(pieces, st.buffer, next, cut, s.next, s.st.buffer);
      assert done + Unsplit(pieces, st.buffer, END_MARKER) == done1 + Unsplit(rest, s.st.buffer, END_MARKER);
      if s.signal == Good {
        done', at' := PiecesConserve(parse, s.st, rest, single, done1, at1);
      } else {
        done', at' := done1 + Unsplit(rest, "", END_MARKER), at1;
        UnsplitRest(rest, s.st.buffer, END_MARKER);
        PlacedWider(Payloads(s.st.queue), done1, at1, Unsplit(rest, "", END_MARKER));
        assert done' + s.st.buffer == done1 + Unsplit(rest, s.st.buffer, END_MARKER);
      }
    }
  }

  lemma CutText(pieces: seq<string>, buffer: string, next: Option<string>, cut: string, next': Option<string>, buffer': string)
    requires pieces != [] && next == NextPiece(pieces) && next'.Some? == next.Some?
    requires next.Some? ==> next.value == cut + next'.value && buffer' == buffer
    requires next.None? ==> buffer == cut + buffer'
    ensures Unsplit(pieces, buffer, END_MARKER)
         == pieces[0] + END_MARKER + cut + Unsplit(Remaining(pieces, next'), buffer', END_MARKER)
  {
    if next.Some? {
      var more := pieces[2..];
      assert pieces[1..] == [next.value] + more;
      UnsplitStep(next.value, more, buffer, END_MARKER);
      UnsplitStep(next'.value, more, buffer, END_MARKER);
    } else {
      assert pieces[1..] == [];
    }
  }

  lemma UnsplitNothing(rest: string, d: string)
    ensures Unsplit([], rest, d) == rest
  {
  }

  lemma {:induction false} UnsplitRest(ts: seq<string>, rest: string, d: string)
    ensures Unsplit(ts, rest, d) == Unsplit(ts, "", d) + rest
    decreases |ts|
  {
    if ts != [] {
      UnsplitRest(ts[1..], rest, d);
    }
  }

  /**
   `acc` are the bytes accepted so far. The buffer is their end, within the configured size; the
   payloads queued are slices of what comes before it, in order and without overlap.
   */
  predicate Conserved(st: State, acc: string, done: string, at: seq<nat>)
  {
    acc == done + st.buffer && Placed(Payloads(st.queue), done, at) && |st.buffer| <= st.bufferMax
  }

  lemma CallConserves(parse: PieceParser, st: State, chunk: string, acc: string, done: string, at: seq<nat>)
    returns (done': string, at': seq<nat>)
    requires Sane(parse) && Conserved(st, acc, done, at)
    ensures var (st', outcome) := Append(parse, st, chunk);
            Conserved(st', if outcome == Refused then acc else acc + chunk, done', at')
  {
    var b := st.buffer + chunk;
    done', at' := done, at;
    if |b| <= st.bufferMax {
      assert acc + chunk == done + b;
      if st.waiting && |b| >= st.contentLength {
        var r := st.current.(payload := b[..st.contentLength]);
        PlacedMore(st.queue, r, done, at);
        done', at' := done + r.payload, at + [|done|];
        assert b == b[..st.contentLength] + b[st.contentLength..];
      } else if Contains(b, END_MARKER) {
        var pieces := Tokens(b, END_MARKER);
        var st1 := st.(buffer := Rest(b, END_MARKER));
        SplitIsInverse(b, END_MARKER);
        done', at' := PiecesConserve(parse, st1, pieces, |pieces| == 1, done, at);
        AppendKeepsSize(parse, st, chunk);
        RestShorter(b, END_MARKER);
      }
    }
  }

  lemma {:induction false} RestShorter(s: string, d: string)
    requires d != ""
    ensures |Rest(s, d)| <= |s|
    decreases |s|
  {
    var p := Find(s, d);
    if p != NPOS {
      RestShorter(s[p + |d|..], d);
    }
  }

  /** The bytes of the chunks that are not refused. */
  function AcceptedBytes(parse: PieceParser, st: State, chunks: seq<string>): string
    decreases |chunks|
  {
    if chunks == [] then ""
    else
      var (st', outcome) := Append(parse, st, chunks[0]);
      (if outcome == Refused then "" else chunks[0]) + AcceptedBytes(parse, st', chunks[1..])
  }

  /**
   Whole-run conservation: after every run, refused chunks and exceptions included, the buffer is
   a suffix of the accepted bytes no longer than the maximum, and the queued payloads are
   disjoint slices of the bytes before it, in queueing order.
   */
  lemma {:induction false} RunConserves(parse: PieceParser, st: State, chunks: seq<string>, acc: string, done: string, at: seq<nat>)
    returns (done': string, at': seq<nat>)
    requires Sane(parse) && Conserved(st, acc, done, at)
    ensures Conserved(Run(parse, st, chunks), acc + AcceptedBytes(parse, st, chunks), done', at')
    decreases |chunks|
  {
    hide Append;
    hide Conserved;
    done', at' := done, at;
    if chunks == [] {
      assert acc + AcceptedBytes(parse, st, chunks) == acc;
    } else {
      var done1, at1 := CallConserves(parse, st, chunks[0], acc, done, at);
      var (st1, outcome) := Append(parse, st, chunks[0]);
      var acc1 := if outcome == Refused then acc else acc + chunks[0];
      done', at' := RunConserves(parse, st1, chunks[1..], acc1, done1, at1);
      assert acc1 + AcceptedBytes(parse, st1, chunks[1..]) == acc + AcceptedBytes(parse, st, chunks);
    }
  }
}
