/**
 What the parser makes of the length a POST declares: an exception, an error, or a body of that
 length narrowed to 16 bits; and for which lengths that is the declared body.
 */
module HttpLengths {
  import opened Wrappers
  import opened Text
  import opened HttpMessage
  import opened HttpParser
  import opened HttpParcels
  import opened HttpPrint

  /** The Content-Length field reads as `n`. */
  predicate DeclaresLength(fields: seq<Field>, n: nat)
  {
    exists i :: 0 <= i < |fields| && fields[i].0 == CONTENT_LENGTH && IsDigits(fields[i].1) && Value(fields[i].1) == n
  }

  /** A clean POST that declares `n`, however long its body is. */
  predicate CleanPost(dialect: Dialect, m: Message, n: nat)
  {
    m.PostMessage? && CleanHead(dialect, m) && !EndsInColon(m.url) && DeclaresLength(m.fields, n)
  }

  /** The request a message stands for, before its body is known. */
  function WithoutBody(m: Message): Request
  {
    Expected(m).(payload := "")
  }

  lemma PostParses(dialect: Dialect, m: Message, n: nat)
    requires CleanPost(dialect, m, n)
    ensures ParsePiece(dialect, Head(m)) == (WithoutBody(m), true) && Head(m) != ""
    ensures Declares(WithoutBody(m), n)
  {
    hide ParseBase;
    hide Headers;
    hide Dict;
    hide CleanText;
    BaseReadsBack(m);
    PlainFieldsReadBack(dialect, m);
    DictHolds(m.fields);
    var i :| 0 <= i < |m.fields| && m.fields[i].0 == CONTENT_LENGTH
      && IsDigits(m.fields[i].1) && Value(m.fields[i].1) == n;
    assert CleanField(dialect, m.fields[i]);
  }

  /** How a call ends that completes the header section of a POST declaring `n`, with `got` after it. */
  predicate PostOutcome(st: State, r: Request, n: nat, got: string, st': State, outcome: Outcome)
  {
    var w := n % UINT16_RANGE;
    if n > INT_MAX then
      outcome == Threw && !st'.waiting && st'.buffer == got && st'.queue == st.queue && st'.parseError == st.parseError
    else if w > POST_MAX_CONTENT_LENGTH then
      && outcome == Returned && !st'.waiting && st'.buffer == got && st'.queue == st.queue
      && st'.parseError == ERROR_BAD_REQUEST
    else if |got| >= w then
      && outcome == Returned && !st'.waiting && st'.buffer == got[w..]
      && st'.queue == st.queue + [r.(payload := got[..w])] && st'.parseError == st.parseError
    else
      && outcome == Returned && st'.waiting && st'.contentLength == w && st'.buffer == got && st'.current == r
      && st'.queue == st.queue && st'.parseError == st.parseError
  }

  lemma PostPiece(parse: PieceParser, st: State, head: string, r: Request, n: nat)
    requires head != "" && parse(head) == (r, true) && r.httpMethod == Post && Declares(r, n) && !st.waiting
    ensures var (st', signal) := ProcessAll(parse, st, [head], true);
            PostOutcome(st, r, n, st.buffer, st', if signal == Thrown then Threw else Returned)
  {
    var s := ProcessPiece(parse, st, head, None, true);
    assert s == ProcessPost(st.(current := r), None, true);
    assert Remaining([head], s.next) == [];
  }

  /**
   Every declared length is decided: beyond the range of `stoi` the call throws, a length that is
   over the maximum once narrowed is a bad request, and any other has its narrowed number of bytes
   delivered if they are there and awaited if they are not.
   */
  lemma PostDecision(dialect: Dialect, st: State, chunk: string, m: Message, n: nat, got: string)
    requires !st.waiting && |st.buffer| + |chunk| <= st.bufferMax && CleanPost(dialect, m, n)
    requires st.buffer + chunk == Head(m) + END_MARKER + got && !Contains(got, END_MARKER)
    ensures var (st', outcome) := Append(ParserOf(dialect), st, chunk);
            && PostOutcome(st, WithoutBody(m), n, got, st', outcome)
            && (outcome == Threw <==> n > 0x7fff_ffff)
            && (st.parseError != 400 ==> (st'.parseError == 400 <==> n <= 0x7fff_ffff && n % 0x1_0000 > 2048))
  {
    hide Append;
    hide ProcessAll;
    hide ParsePiece;
    hide Head;
    hide Expected;
    PostParses(dialect, m, n);
    var head := Head(m);
    PostIsOnePiece(dialect, m);
    FirstToken(head, got, END_MARKER);
    NothingToSplit(got, END_MARKER);
    CallIsLoop(ParserOf(dialect), st, chunk, [head], got);
    assert WithoutBody(m).httpMethod == Post by { MethodOfPost(m); }
    PostPiece(ParserOf(dialect), st.(buffer := got), head, WithoutBody(m), n);
  }

  lemma MethodOfPost(m: Message)
    requires m.PostMessage?
    ensures WithoutBody(m).httpMethod == Post
  {
  }

  lemma PostIsOnePiece(dialect: Dialect, m: Message)
    requires CleanHead(dialect, m)
    ensures CleanToken(Head(m), END_MARKER)
  {
    var none: string := "";
    assert !Contains(none, END_MARKER);
    HeadIsClean(dialect, none, m);
    assert none + Head(m) == Head(m);
  }

  // ---------------------------------------------------------------- with more in the same call

  lemma PostFirst(parse: PieceParser, st: State, head: string, r: Request, pieces: seq<string>)
    requires head != "" && parse(head) == (r, true) && r.httpMethod == Post && pieces != [] && pieces[0] == head
    ensures ProcessPiece(parse, st, head, NextPiece(pieces), |pieces| == 1)
         == ProcessPost(st.(current := r), NextPiece(pieces), |pieces| == 1)
  {
  }

  /** The call that completes a clean POST starts its loop with the POST branch. */
  lemma PostLeads(dialect: Dialect, st: State, chunk: string, m: Message, n: nat, got: string)
    requires !st.waiting && |st.buffer| + |chunk| <= st.bufferMax && CleanPost(dialect, m, n)
    requires st.buffer + chunk == Head(m) + END_MARKER + got
    ensures var parse, pieces := ParserOf(dialect), [Head(m)] + Tokens(got, END_MARKER);
            var st1 := st.(buffer := Rest(got, END_MARKER));
            var r := ProcessAll(parse, st1, pieces, |pieces| == 1);
            && Append(parse, st, chunk) == (r.0, if r.1 == Thrown then Threw else Returned)
            && ProcessPiece(parse, st1, Head(m), NextPiece(pieces), |pieces| == 1)
               == ProcessPost(st1.(current := WithoutBody(m)), NextPiece(pieces), |pieces| == 1)
            && Declares(WithoutBody(m), n)
  {
    hide Append;
    hide ProcessAll;
    hide ProcessPiece;
    hide ProcessPost;
    hide ParsePiece;
    hide Head;
    hide Expected;
    hide Tokens;
    hide Rest;
    PostParses(dialect, m, n);
    PostIsOnePiece(dialect, m);
    FirstToken(Head(m), got, END_MARKER);
    var pieces := [Head(m)] + Tokens(got, END_MARKER);
    CallIsLoop(ParserOf(dialect), st, chunk, pieces, Rest(got, END_MARKER));
    MethodOfPost(m);
    PostFirst(ParserOf(dialect), st.(buffer := Rest(got, END_MARKER)), Head(m), WithoutBody(m), pieces);
  }

  /** A length beyond the range of `stoi` throws, whatever comes after the header section. */
  lemma HugeLengthThrows(dialect: Dialect, st: State, chunk: string, m: Message, n: nat, got: string)
    requires !st.waiting && |st.buffer| + |chunk| <= st.bufferMax && CleanPost(dialect, m, n) && n > INT_MAX
    requires st.buffer + chunk == Head(m) + END_MARKER + got
    ensures var (st', outcome) := Append(ParserOf(dialect), st, chunk);
            && outcome == Threw && st'.queue == st.queue && st'.parseError == st.parseError && !st'.waiting
            && st'.buffer == Rest(got, END_MARKER)
  {
    hide Append;
    hide ProcessPiece;
    hide Head;
    hide Tokens;
    hide Rest;
    hide ParserOf;
    hide ProcessAll;
    hide WithoutBody;
    PostLeads(dialect, st, chunk, m, n, got);
    var pieces, st1 := [Head(m)] + Tokens(got, END_MARKER), st.(buffer := Rest(got, END_MARKER));
    ProcessAllStep(ParserOf(dialect), st1, pieces, |pieces| == 1);
  }

  lemma TwoPieces(head: string, t: string, more: string)
    requires CleanToken(t, END_MARKER)
    ensures var got := t + END_MARKER + more;
            && [head] + Tokens(got, END_MARKER) == [head, t] + Tokens(more, END_MARKER)
            && Rest(got, END_MARKER) == Rest(more, END_MARKER)
  {
    hide Tokens;
    hide Rest;
    FirstToken(t, more, END_MARKER);
  }

  /** A following piece shorter than the body is a bad request: nothing is queued and the rest dropped. */
  lemma ShortNextPiece(dialect: Dialect, st: State, chunk: string, m: Message, n: nat, t: string, more: string)
    requires !st.waiting && |st.buffer| + |chunk| <= st.bufferMax && CleanPost(dialect, m, n)
    requires n <= INT_MAX && |t| < n % UINT16_RANGE && CleanToken(t, END_MARKER)
    requires st.buffer + chunk == Head(m) + END_MARKER + (t + END_MARKER + more)
    ensures var (st', outcome) := Append(ParserOf(dialect), st, chunk);
            && outcome == Returned && st'.queue == st.queue && st'.parseError == ERROR_BAD_REQUEST && !st'.waiting
            && st'.buffer == Rest(more, END_MARKER)
  {
    hide Append;
    hide ProcessPiece;
    hide Head;
    hide Tokens;
    hide Rest;
    hide ParserOf;
    hide ProcessAll;
    hide WithoutBody;
    var got := t + END_MARKER + more;
    PostLeads(dialect, st, chunk, m, n, got);
    TwoPieces(Head(m), t, more);
    var pieces, st1 := [Head(m)] + Tokens(got, END_MARKER), st.(buffer := Rest(got, END_MARKER));
    assert NextPiece(pieces) == Some(t);
    ProcessAllStep(ParserOf(dialect), st1, pieces, |pieces| == 1);
  }

  lemma {:induction false} QueueGrows(parse: PieceParser, st: State, pieces: seq<string>, single: bool)
    ensures st.queue <= ProcessAll(parse, st, pieces, single).0.queue
    decreases |pieces|
  {
    if pieces != [] {
      var s := ProcessPiece(parse, st, pieces[0], NextPiece(pieces), single);
      assert st.queue <= s.st.queue;
      hide ProcessPiece;
      if s.signal == Good {
        QueueGrows(parse, s.st, Remaining(pieces, s.next), single);
      }
    }
  }

  /**
   A following piece that is long enough gives the body from its front, and the loop goes on with what
   is left of it: the request is queued with exactly that body before anything else.
   */
  lemma BodyFromNextPiece(dialect: Dialect, st: State, chunk: string, m: Message, n: nat, t: string, more: string)
    requires !st.waiting && |st.buffer| + |chunk| <= st.bufferMax && CleanPost(dialect, m, n)
    requires n <= INT_MAX && n % UINT16_RANGE <= POST_MAX_CONTENT_LENGTH && n % UINT16_RANGE <= |t|
    requires CleanToken(t, END_MARKER) && st.buffer + chunk == Head(m) + END_MARKER + (t + END_MARKER + more)
    ensures var w, r := n % UINT16_RANGE, WithoutBody(m);
            var st1 := st.(buffer := Rest(more, END_MARKER), current := r.(payload := t[..w]), contentLength := w,
                           queue := st.queue + [r.(payload := t[..w])]);
            var left := ProcessAll(ParserOf(dialect), st1, [t[w..]] + Tokens(more, END_MARKER), false);
            && Append(ParserOf(dialect), st, chunk) == (left.0, if left.1 == Thrown then Threw else Returned)
            && st1.queue <= left.0.queue
  {
    hide Append;
    hide ProcessPiece;
    hide Head;
    hide Tokens;
    hide Rest;
    hide ParserOf;
    hide ProcessAll;
    hide WithoutBody;
    var got, w, r := t + END_MARKER + more, n % UINT16_RANGE, WithoutBody(m);
    PostLeads(dialect, st, chunk, m, n, got);
    TwoPieces(Head(m), t, more);
    var pieces, st0 := [Head(m)] + Tokens(got, END_MARKER), st.(buffer := Rest(got, END_MARKER));
    assert NextPiece(pieces) == Some(t) && pieces[2..] == Tokens(more, END_MARKER);
    ProcessAllStep(ParserOf(dialect), st0, pieces, |pieces| == 1);
    var st1 := st0.(current := r.(payload := t[..w]), contentLength := w, queue := st.queue + [r.(payload := t[..w])]);
    assert ProcessPost(st0.(current := r), Some(t), false) == Step(st1, Some(t[w..]), Good);
    QueueGrows(ParserOf(dialect), st1, [t[w..]] + Tokens(more, END_MARKER), false);
  }

  /** The declared `n` bytes are what the request is given, or what it waits for. */
  predicate Honoured(st: State, r: Request, n: nat, got: string, st': State)
  {
    if |got| >= n then st'.queue == st.queue + [r.(payload := got[..n])]
    else st'.waiting && st'.contentLength == n && st'.queue == st.queue
  }

  /** A POST is given, or waits for, the body it declares exactly when that is at most 2048 bytes. */
  lemma DeclaredIsDelivered(dialect: Dialect, st: State, chunk: string, m: Message, n: nat, got: string)
    requires !st.waiting && |st.buffer| + |chunk| <= st.bufferMax && CleanPost(dialect, m, n)
    requires st.buffer + chunk == Head(m) + END_MARKER + got && !Contains(got, END_MARKER)
    ensures Honoured(st, WithoutBody(m), n, got, Append(ParserOf(dialect), st, chunk).0)
            <==> n <= 2048
  {
    hide Append;
    PostDecision(dialect, st, chunk, m, n, got);
    var (st', outcome) := Append(ParserOf(dialect), st, chunk);
    OutcomeHonours(st, WithoutBody(m), n, got, st', outcome);
  }

  lemma OutcomeHonours(st: State, r: Request, n: nat, got: string, st': State, outcome: Outcome)
    requires PostOutcome(st, r, n, got, st', outcome)
    ensures Honoured(st, r, n, got, st') <==> n <= POST_MAX_CONTENT_LENGTH
  {
    var w := n % UINT16_RANGE;
    if n <= INT_MAX && w <= POST_MAX_CONTENT_LENGTH < n {
      assert w < n;
      if |got| >= n {
        var q, q' := st.queue + [r.(payload := got[..n])], st.queue + [r.(payload := got[..w])];
        assert |q[|st.queue|].payload| == n && |q'[|st.queue|].payload| == w;
      }
    }
  }

  /** A POST to "/" with the one field Content-Length is clean. */
  lemma PlainPostIsClean(dialect: Dialect, digits: string, body: string)
    requires digits != "" && IsDigits(digits)
    ensures CleanPost(dialect, PostMessage("/", [(CONTENT_LENGTH, digits)], body), Value(digits))
  {
    LengthFieldIsClean(dialect, digits);
    var m := PostMessage("/", [(CONTENT_LENGTH, digits)], body);
    assert m.fields[0] == (CONTENT_LENGTH, digits);
  }

  lemma ValueOf65537()
    ensures IsDigits("65537") && Value("65537") == 65537
  {
    var s: string := "65537";
    assert s[..4] == "6553" && s[..4][..3] == "655" && s[..4][..3][..2] == "65" && s[..4][..3][..2][..1] == "6";
    assert Value("6") == 6 && Value("65") == 65 && Value("655") == 655 && Value("6553") == 6553;
  }

  lemma OneField(f: Field)
    ensures FieldText([f]) == CRLF + FieldLine(f)
  {
    assert [f][1..] == [];
    assert FieldText([f]) == CRLF + FieldLine(f) + FieldText([]);
  }

  /** The text of a POST to "/" with the one field Content-Length. */
  lemma PlainPostText(digits: string, body: string)
    ensures Head(PostMessage("/", [(CONTENT_LENGTH, digits)], body))
         == "POST / HTTP/1.1\r\nContent-Length: " + digits
  {
    var m := PostMessage("/", [(CONTENT_LENGTH, digits)], body);
    OneField((CONTENT_LENGTH, digits));
    hide FieldText;
    assert RequestLine(m) == "POST / HTTP/1.1";
    assert RequestLine(m) + (CRLF + ("Content-Length" + ": " + digits)) == "POST / HTTP/1.1\r\nContent-Length: " + digits;
  }

  const WRAPPED := "POST / HTTP/1.1\r\nContent-Length: 65537\r\n\r\nA"

  lemma WrappedText()
    ensures "" + WRAPPED == Head(PostMessage("/", [(CONTENT_LENGTH, "65537")], "A")) + END_MARKER + "A"
  {
    hide Head;
    PlainPostText("65537", "A");
  }

  /** A POST that declares 65537 bytes is queued with the one byte that has arrived. */
  lemma WrappedLength(dialect: Dialect)
    ensures var (st', outcome) := Append(ParserOf(dialect), Initial(1024), WRAPPED);
            && outcome == Returned && Idle(st') && st'.parseError == 0
            && |st'.queue| == 1 && st'.queue[0].httpMethod == Post && st'.queue[0].payload == "A"
  {
    hide Append;
    hide ParserOf;
    hide CleanPost;
    hide Head;
    hide IsDigits;
    hide Value;
    var m := PostMessage("/", [(CONTENT_LENGTH, "65537")], "A");
    ValueOf65537();
    PlainPostIsClean(dialect, "65537", "A");
    WrappedText();
    assert !Contains("A", END_MARKER);
    PostDecision(dialect, Initial(1024), WRAPPED, m, 65537, "A");
    assert "A"[..1] == "A" && "A"[1..] == "";
  }
}
