/**
 The incremental request parser of lib/http: the class as the source has it, proved against
 the step function `Append` on its state. Everything but the header parser is the same text in
 httpparser.cpp and httpparser-cpp11.cpp, so one class with a `dialect` stands for both.
 */
module HttpParser {
  import opened Wrappers
  import opened Text
  import opened HttpMessage

  /** What the machine asks of the message parser: the request of a piece, and whether it is taken. */
  type PieceParser = string -> (Request, bool)

  datatype State = State(
    bufferMax: nat,
    buffer: string,
    waiting: bool,
    contentLength: nat,
    current: Request,
    queue: seq<Request>,
    parseError: nat)

  /** How `_processRequestProperties` ends: true, false, or an exception out of `appendBuffer`. */
  datatype Signal = Good | Bad | Thrown

  /** How `appendBuffer` ends. A refused chunk leaves no trace, an exception may. */
  datatype Outcome = Refused | Returned | Threw

  /** The state after a piece, the piece after it (a POST body may be cut from it), and the signal. */
  datatype Step = Step(st: State, next: Option<string>, signal: Signal)

  function Initial(bufferMax: nat): State
  {
    State(bufferMax, "", false, 0, UNPARSED, [], 0)
  }

  /** Set the payload of the current request and queue it. */
  function Deliver(st: State, payload: string): State
  {
    var r := st.current.(payload := payload);
    st.(current := r, queue := st.queue + [r])
  }

  /** The POST branch. `single` says that the batch has one piece. */
  function ProcessPost(st: State, next: Option<string>, single: bool): (s: Step)
    ensures s.next.Some? == next.Some?
  {
    var h := st.current.headers;
    if CONTENT_LENGTH !in h || !IsDigits(h[CONTENT_LENGTH]) then Step(st, next, Bad)
    else if h[CONTENT_LENGTH] == "" || Value(h[CONTENT_LENGTH]) > INT_MAX then Step(st, next, Thrown)
    else
      var n := Value(h[CONTENT_LENGTH]) % UINT16_RANGE;
      var st1 := st.(contentLength := n);
      if n > POST_MAX_CONTENT_LENGTH then Step(st1, next, Bad)
      else if single then
        if |st1.buffer| >= n then
          Step(Deliver(st1, st1.buffer[..n]).(buffer := st1.buffer[n..]), next, Good)
        else
          Step(st1.(waiting := true), next, Good)
      else if next.None? then Step(st1, next, Thrown)
      else if |next.value| >= n then Step(Deliver(st1, next.value[..n]), Some(next.value[n..]), Good)
      else Step(st1, next, Bad)
  }

  /** `_processRequestProperties` */
  function ProcessPiece(parse: PieceParser, st: State, piece: string, next: Option<string>, single: bool): (s: Step)
    ensures s.next.Some? == next.Some?
  {
    if piece == "" then Step(st, next, Bad)
    else
      var (r, ok) := parse(piece);
      var st1 := st.(current := r);
      if !ok then Step(st1, next, Bad)
      else if r.httpMethod == Get then Step(st1.(queue := st1.queue + [r]), next, Good)
      else ProcessPost(st1, next, single)
  }

  function NextPiece(pieces: seq<string>): Option<string>
    requires pieces != []
  {
    if |pieces| > 1 then Some(pieces[1]) else None
  }

  function Remaining(pieces: seq<string>, next: Option<string>): (r: seq<string>)
    requires pieces != [] && (next.Some? <==> |pieces| > 1)
    ensures |r| == |pieces| - 1
  {
    if next.Some? then [next.value] + pieces[2..] else []
  }

  /** The loop of `_processRequests` over the pieces that are left. */
  function ProcessAll(parse: PieceParser, st: State, pieces: seq<string>, single: bool): (State, Signal)
    decreases |pieces|
  {
    if pieces == [] then (st, Good)
    else
      var s := ProcessPiece(parse, st, pieces[0], NextPiece(pieces), single);
      match s.signal
      case Good => ProcessAll(parse, s.st, Remaining(pieces, s.next), single)
      case Bad => (s.st.(parseError := ERROR_BAD_REQUEST), Bad)
      case Thrown => (s.st, Thrown)
  }

  lemma ProcessAllStep(parse: PieceParser, st: State, pieces: seq<string>, single: bool)
    requires pieces != []
    ensures var s := ProcessPiece(parse, st, pieces[0], NextPiece(pieces), single);
            ProcessAll(parse, st, pieces, single) ==
            match s.signal {
              case Good => ProcessAll(parse, s.st, Remaining(pieces, s.next), single)
              case Bad => (s.st.(parseError := ERROR_BAD_REQUEST), Bad)
              case Thrown => (s.st, Thrown)
            }
  {
  }

  lemma NoPiecesLeft(parse: PieceParser, st: State, single: bool)
    ensures ProcessAll(parse, st, [], single) == (st, Good)
  {
  }

  /** `_processRequests` on a state whose buffer holds an end marker. */
  function ProcessBuffer(parse: PieceParser, st: State): (State, Signal)
  {
    var pieces := Tokens(st.buffer, END_MARKER);
    ProcessAll(parse, st.(buffer := Rest(st.buffer, END_MARKER)), pieces, |pieces| == 1)
  }

  /** `appendBuffer` */
  function Append(parse: PieceParser, st: State, chunk: string): (State, Outcome)
  {
    if |st.buffer| + |chunk| > st.bufferMax then (st, Refused)
    else
      var b := st.buffer + chunk;
      if st.waiting && |b| >= st.contentLength then
        (Deliver(st, b[..st.contentLength]).(buffer := b[st.contentLength..], waiting := false), Returned)
      else if Contains(b, END_MARKER) then
        var (st', signal) := ProcessBuffer(parse, st.(buffer := b));
        (st', if signal == Thrown then Threw else Returned)
      else
        (st.(buffer := b), Returned)
  }

  /** A run of `appendBuffer` calls whose exceptions, if any, are caught by the caller. */
  function Run(parse: PieceParser, st: State, chunks: seq<string>): State
    decreases |chunks|
  {
    if chunks == [] then st else Run(parse, Append(parse, st, chunks[0]).0, chunks[1..])
  }

  /** Every call of the run is accepted and returns normally. */
  predicate AllReturn(parse: PieceParser, st: State, chunks: seq<string>)
    decreases |chunks|
  {
    chunks == [] || (Append(parse, st, chunks[0]).1 == Returned && AllReturn(parse, Append(parse, st, chunks[0]).0, chunks[1..]))
  }

  lemma {:induction false} RunConcat(parse: PieceParser, st: State, cs: seq<string>, ds: seq<string>)
    ensures Run(parse, st, cs + ds) == Run(parse, Run(parse, st, cs), ds)
    ensures AllReturn(parse, st, cs + ds) <==> AllReturn(parse, st, cs) && AllReturn(parse, Run(parse, st, cs), ds)
    decreases |cs|
  {
    if cs == [] {
      assert cs + ds == ds;
    } else {
      assert (cs + ds)[1..] == cs[1..] + ds;
      RunConcat(parse, Append(parse, st, cs[0]).0, cs[1..], ds);
    }
  }

  /** No call changes the configured buffer size. */
  lemma AppendKeepsSize(parse: PieceParser, st: State, chunk: string)
    ensures Append(parse, st, chunk).0.bufferMax == st.bufferMax
  {
    var b := st.buffer + chunk;
    var pieces := Tokens(b, END_MARKER);
    ProcessAllKeepsSize(parse, st.(buffer := Rest(b, END_MARKER)), pieces, |pieces| == 1);
  }

  lemma {:induction false} ProcessAllKeepsSize(parse: PieceParser, st: State, pieces: seq<string>, single: bool)
    ensures ProcessAll(parse, st, pieces, single).0.bufferMax == st.bufferMax
    decreases |pieces|
  {
    if pieces != [] {
      var s := ProcessPiece(parse, st, pieces[0], NextPiece(pieces), single);
      if s.signal == Good {
        ProcessAllKeepsSize(parse, s.st, Remaining(pieces, s.next), single);
      }
    }
  }

  // ---------------------------------------------------------------- the two message parsers

  /** The request a non-empty piece parses to, and whether it is an HTTP/1.1 GET or POST. */
  function ParsePiece(dialect: Dialect, piece: string): (Request, bool)
  {
    var (r, ok) := ParseBase(piece, UNPARSED);
    if !ok || r.version != Http11 || r.httpMethod == MethodOther then (r, false)
    else
      var r' := r.(headers := Headers(dialect, piece));
      (if r'.httpMethod == Get then r'.(params := Params(r'.url)) else r', true)
  }

  function ParserOf(dialect: Dialect): PieceParser
  {
    piece => ParsePiece(dialect, piece)
  }

  class HTTPParser {
    const dialect: Dialect
    const bufferMax: nat
    var buffer: string
    var splitted: seq<string>
    var waiting: bool
    var contentLength: nat
    var current: Request
    var requests: seq<Request>
    var parseError: nat

    function View(): State
      reads this
    {
      State(bufferMax, buffer, waiting, contentLength, current, requests, parseError)
    }

    constructor (dialect: Dialect, bufferSize: nat)
      ensures View() == Initial(bufferSize) && this.dialect == dialect
    {
      this.dialect, this.bufferMax := dialect, bufferSize;
      buffer, splitted, waiting, contentLength := "", [], false, 0;
      current, requests, parseError := UNPARSED, [], 0;
    }

    method AppendBuffer(chunk: string) returns (outcome: Outcome)
      modifies this
      ensures (View(), outcome) == Append(ParserOf(dialect), old(View()), chunk)
    {
      if |buffer| + |chunk| > bufferMax {
        return Refused;
      }
      buffer := buffer + chunk;
      outcome := Returned;
      if waiting && |buffer| >= contentLength {
        current := current.(payload := buffer[..contentLength]);
        buffer := buffer[contentLength..];
        requests := requests + [current];
        waiting := false;
      } else {
        splitted := [];
        var endMarkerFound := Find(buffer, END_MARKER);
        if endMarkerFound != NPOS {
          var signal := ProcessRequests();
          if signal == Thrown {
            outcome := Threw;
          }
        }
      }
    }

    method ProcessRequests() returns (signal: Signal)
      requires splitted == []
      modifies this
      ensures (View(), signal) == ProcessBuffer(ParserOf(dialect), old(View()))
    {
      hide ProcessPiece;
      hide ProcessAll;
      hide ParserOf;
      ghost var parse := ParserOf(dialect);
      ghost var result := ProcessBuffer(parse, View());
      splitted, buffer := Split(buffer, END_MARKER);
      signal := Good;
      var i := 0;
      ghost var single := |splitted| == 1;
      assert splitted[0..] == splitted;
      while i < |splitted|
        invariant 0 <= i <= |splitted| && single == (|splitted| == 1) && signal == Good
        invariant ProcessAll(parse, View(), splitted[i..], single) == result
        decreases |splitted| - i
      {
        ghost var pieces := splitted[i..];
        ghost var s := ProcessPiece(parse, View(), pieces[0], NextPiece(pieces), single);
        ProcessAllStep(parse, View(), pieces, single);
        signal := ProcessRequestProperties(i);
        if signal == Bad {
          parseError := ERROR_BAD_REQUEST;
          return;
        }
        if signal == Thrown {
          return;
        }
        i := i + 1;
        assert splitted[i..] == Remaining(pieces, s.next);
      }
      assert splitted[i..] == [];
      NoPiecesLeft(parse, View(), single);
    }

    method ProcessRequestProperties(index: nat) returns (signal: Signal)
      requires index < |splitted|
      modifies this`contentLength, this`current, this`requests, this`waiting, this`buffer, this`splitted
      ensures var next := if index + 1 < |old(splitted)| then Some(old(splitted)[index + 1]) else None;
              var s := ProcessPiece(ParserOf(dialect), old(View()), old(splitted)[index], next, |old(splitted)| == 1);
              && View() == s.st && signal == s.signal
              && splitted == (if s.next.Some? then old(splitted)[index + 1 := s.next.value] else old(splitted))
    {
      hide Headers;
      hide Params;
      hide ParseBase;
      hide ProcessPost;
      var request := splitted[index];
      if request == "" { return Bad; }
      current := UNPARSED;
      var ok;
      current, ok := ParseRequestProperties(request, current);
      if !ok { return Bad; }
      if current.version != Http11 { return Bad; }
      if current.httpMethod == MethodOther { return Bad; }
      var headers;
      if dialect == Cpp23 {
        headers := ParseRequestHeaders23(request);
      } else {
        headers := ParseRequestHeaders11(request);
      }
      current := current.(headers := headers);
      if current.httpMethod == Get {
        var params := ParseGetParameter(dialect, current.url);
        current := current.(params := params);
        requests := requests + [current];
        return Good;
      }
      signal := ProcessPostRequest(index);
    }

    method ProcessPostRequest(index: nat) returns (signal: Signal)
      requires index < |splitted|
      modifies this`contentLength, this`current, this`requests, this`waiting, this`buffer, this`splitted
      ensures var next := if index + 1 < |old(splitted)| then Some(old(splitted)[index + 1]) else None;
              var s := ProcessPost(old(View()), next, |old(splitted)| == 1);
              && View() == s.st && signal == s.signal
              && splitted == (if s.next.Some? then old(splitted)[index + 1 := s.next.value] else old(splitted))
    {
      if CONTENT_LENGTH !in current.headers { return Bad; }
      var declared := current.headers[CONTENT_LENGTH];
      if !IsDigits(declared) { return Bad; }
      if declared == "" || Value(declared) > INT_MAX { return Thrown; }
      contentLength := Value(declared) % UINT16_RANGE;
      if contentLength > POST_MAX_CONTENT_LENGTH { return Bad; }
      if |splitted| == 1 {
        if |buffer| >= contentLength {
          current := current.(payload := buffer[..contentLength]);
          buffer := buffer[contentLength..];
          requests := requests + [current];
        } else {
          waiting := true;
        }
      } else {
        if index + 1 == |splitted| { return Thrown; }
        var nextRequest := splitted[index + 1];
        if |nextRequest| >= contentLength {
          current := current.(payload := nextRequest[..contentLength]);
          splitted := splitted[index + 1 := nextRequest[contentLength..]];
          requests := requests + [current];
        } else {
          return Bad;
        }
      }
      return Good;
    }
  }

  /** `_parseRequestProperties` */
  method ParseRequestProperties(piece: string, props: Request) returns (r: Request, ok: bool)
    ensures (r, ok) == ParseBase(piece, props)
  {
    r := props;
    var startPos := Find(piece, CRLF);
    if startPos == NPOS {
      startPos := |piece|;
    }
    var parts := RSplit(piece, startPos, " ");
    if |parts| != 3 {
      return r, false;
    }
    if Find(parts[0], "HTTP/1.1") != NPOS {
      r := r.(version := Http11);
    }
    if Find(parts[2], "GET") != NPOS {
      r := r.(httpMethod := Get);
    } else if Find(parts[2], "POST") != NPOS {
      r := r.(httpMethod := Post);
    }
    r := r.(url := parts[1]);
    ok := true;
  }
}
