/**
 A stream of messages in any chunks: what a call leaves unscanned, and exactly which chunkings
 the parser copes with, chunks that span several messages included.
 */
module HttpStreams {
  import opened Wrappers
  import opened Text
  import opened HttpMessage
  import opened HttpParser
  import opened HttpParcels

  // ---------------------------------------------------------------- what is left in the buffer

  predicate IsSuffix(b: string, s: string)
  {
    |b| <= |s| && b == s[|s| - |b|..]
  }

  lemma SuffixOfSuffix(a: string, b: string, c: string)
    requires IsSuffix(a, b) && IsSuffix(b, c)
    ensures IsSuffix(a, c)
  {
  }

  lemma PostShrinks(st: State, next: Option<string>, single: bool)
    ensures IsSuffix(ProcessPost(st, next, single).st.buffer, st.buffer)
  {
    hide IsDigits;
    hide Value;
  }

  lemma PieceShrinks(parse: PieceParser, st: State, piece: string, next: Option<string>, single: bool)
    ensures IsSuffix(ProcessPiece(parse, st, piece, next, single).st.buffer, st.buffer)
  {
    hide ProcessPost;
    PostShrinks(st.(current := parse(piece).0), next, single);
  }

  lemma {:induction false} BufferShrinks(parse: PieceParser, st: State, pieces: seq<string>, single: bool)
    ensures IsSuffix(ProcessAll(parse, st, pieces, single).0.buffer, st.buffer)
    decreases |pieces|
  {
    hide ProcessPiece;
    if pieces != [] {
      var s := ProcessPiece(parse, st, pieces[0], NextPiece(pieces), single);
      PieceShrinks(parse, st, pieces[0], NextPiece(pieces), single);
      if s.signal == Good {
        hide IsSuffix;
        var rest := Remaining(pieces, s.next);
        BufferShrinks(parse, s.st, rest, single);
        SuffixOfSuffix(ProcessAll(parse, s.st, rest, single).0.buffer, s.st.buffer, st.buffer);
      }
    }
  }

  lemma NotInSuffix(s: string, k: nat, d: string)
    requires k <= |s| && !Contains(s, d)
    ensures !Contains(s[k..], d)
  {
    assert s == s[..k] + s[k..] + "";
    NotInPart(s[..k], s[k..], "", d);
  }

  /** The call completes the body the parser waits for. */
  predicate Completes(st: State, chunk: string)
  {
    st.waiting && |st.buffer| + |chunk| >= st.contentLength
  }

  /**
   After a call that is not refused the buffer holds an end marker only if the call completed an
   awaited body, and then exactly if the bytes after that body hold one.
   */
  lemma BufferIsScanned(parse: PieceParser, st: State, chunk: string)
    requires Append(parse, st, chunk).1 != Refused
    ensures Contains(Append(parse, st, chunk).0.buffer, END_MARKER) <==>
            Completes(st, chunk) && Contains((st.buffer + chunk)[st.contentLength..], END_MARKER)
  {
    var b := st.buffer + chunk;
    if !Completes(st, chunk) && Contains(b, END_MARKER) {
      hide ProcessAll;
      var pieces, rest := Tokens(b, END_MARKER), Rest(b, END_MARKER);
      SplitIsInverse(b, END_MARKER);
      BufferShrinks(parse, st.(buffer := rest), pieces, |pieces| == 1);
      var left := ProcessAll(parse, st.(buffer := rest), pieces, |pieces| == 1).0.buffer;
      NotInSuffix(rest, |rest| - |left|, END_MARKER);
    }
  }

  // ---------------------------------------------------------------- how a stream is split

  /** The header sections complete in the first `got` bytes of the stream. */
  function Heads(ps: seq<Parcel>, got: nat): (h: nat)
    ensures h <= |ps|
    decreases |ps|
  {
    if ps == [] || got < BodyAt(ps[0]) then 0
    else if got < |TextOf(ps[0])| then 1
    else 1 + Heads(ps[1..], got - |TextOf(ps[0])|)
  }

  /** The bytes after the last complete header section, `carry` standing before the stream. */
  function Tail(carry: string, ps: seq<Parcel>, got: nat): string
    requires got <= |TextOfAll(ps)|
    decreases |ps|
  {
    if ps == [] || got < BodyAt(ps[0]) then carry + TextOfAll(ps)[..got]
    else if got < |TextOf(ps[0])| then ps[0].body[..got - BodyAt(ps[0])]
    else Tail(ps[0].body, ps[1..], got - |TextOf(ps[0])|)
  }

  /** A marker-free body and a part of the next header section and its marker hold no marker. */
  lemma NoMarkerInPart(carry: string, p: Parcel, k: nat)
    requires Separable(p) && !Contains(carry, END_MARKER) && k < BodyAt(p)
    ensures !Contains(carry + (p.head + END_MARKER)[..k], END_MARKER)
  {
    var full := carry + p.head + END_MARKER;
    var part := carry + (p.head + END_MARKER)[..k];
    assert CleanToken(carry + p.head, END_MARKER);
    assert part == full[..|part|] && full == part + full[|part|..];
    forall j | 0 <= j <= |part| - |END_MARKER|
      ensures !MatchAt(part, END_MARKER, j)
    {
      MatchInPrefix(part, full[|part|..], END_MARKER, j);
    }
  }

  lemma SliceInFirst(h: string, b: string, m: string, k: nat)
    requires k <= |h|
    ensures (h + b + m)[..k] == h[..k]
  {
  }

  lemma SliceInSecond(h: string, b: string, m: string, k: nat)
    requires |h| <= k <= |h| + |b|
    ensures (h + b + m)[..k] == h + b[..k - |h|]
    ensures (h + b + m)[|h|..k] == b[..k - |h|]
  {
  }

  lemma SliceInThird(h: string, b: string, m: string, k: nat)
    requires |h| + |b| <= k <= |h| + |b| + |m|
    ensures (h + b + m)[..k] == h + (b + m[..k - |h| - |b|])
    ensures (h + b + m)[|h|..k] == b + m[..k - |h| - |b|]
    ensures (h + b + m)[k..] == m[k - |h| - |b|..]
  {
  }

  lemma StreamText(ps: seq<Parcel>)
    requires ps != []
    ensures TextOfAll(ps) == (ps[0].head + END_MARKER) + ps[0].body + TextOfAll(ps[1..])
    ensures |TextOf(ps[0])| == BodyAt(ps[0]) + |ps[0].body|
    ensures |TextOfAll(ps)| == |TextOf(ps[0])| + |TextOfAll(ps[1..])|
  {
  }

  /** The text before a point inside the first parcel or after it. */
  lemma PrefixOfStream(carry: string, ps: seq<Parcel>, got: nat)
    requires ps != [] && got <= |TextOfAll(ps)|
    ensures got >= |TextOf(ps[0])| ==> got - |TextOf(ps[0])| <= |TextOfAll(ps[1..])|
    ensures var p, more, s := ps[0], TextOfAll(ps[1..]), carry + TextOfAll(ps)[..got];
            if got < BodyAt(p) then s == carry + (p.head + END_MARKER)[..got]
            else if got < |TextOf(p)| then s == (carry + p.head) + END_MARKER + p.body[..got - BodyAt(p)]
            else s == (carry + p.head) + END_MARKER + (p.body + more[..got - |TextOf(p)|])
  {
    hide TextOfAll;
    hide TextOf;
    var p, more := ps[0], TextOfAll(ps[1..]);
    StreamText(ps);
    var h := p.head + END_MARKER;
    if got < BodyAt(p) {
      SliceInFirst(h, p.body, more, got);
    } else if got < |TextOf(p)| {
      SliceInSecond(h, p.body, more, got);
      Carried(carry, p.head, END_MARKER, p.body[..got - BodyAt(p)]);
    } else {
      SliceInThird(h, p.body, more, got);
      Carried(carry, p.head, END_MARKER, p.body + more[..got - |TextOf(p)|]);
    }
  }

  lemma Carried(carry: string, head: string, d: string, rest: string)
    ensures carry + ((head + d) + rest) == (carry + head) + d + rest
  {
  }

  /** A prefix of the stream splits into its complete header sections, each after the body before it. */
  lemma {:induction false} StreamSplits(parse: PieceParser, carry: string, ps: seq<Parcel>, got: nat)
    requires AllReady(parse, ps) && !Contains(carry, END_MARKER) && got <= |TextOfAll(ps)|
    ensures var s := carry + TextOfAll(ps)[..got];
            && Tokens(s, END_MARKER) == BatchPieces(carry, ps[..Heads(ps, got)])
            && Rest(s, END_MARKER) == Tail(carry, ps, got)
    decreases |ps|
  {
    hide Tokens;
    hide Rest;
    hide TextOfAll;
    hide Ready;
    var s := carry + TextOfAll(ps)[..got];
    if ps == [] {
      assert TextOfAll(ps) == "" by { NoText(); }
      assert s == carry;
      NothingToSplit(s, END_MARKER);
      assert ps[..0] == [];
    } else {
      var p := ps[0];
      assert Ready(parse, p);
      assert Separable(p) by { ReadyParts(parse, p); }
      PrefixOfStream(carry, ps, got);
      if got < BodyAt(p) {
        NoMarkerInPart(carry, p, got);
        NothingToSplit(s, END_MARKER);
        assert ps[..0] == [];
      } else {
        assert CleanToken(carry + p.head, END_MARKER);
        if got < |TextOf(p)| {
          var part := p.body[..got - BodyAt(p)];
          FirstToken(carry + p.head, part, END_MARKER);
          NotInPrefix(p.body, |part|, END_MARKER);
          NothingToSplit(part, END_MARKER);
          PiecesCons(carry, ps, 1);
          assert ps[1..][..0] == [];
        } else {
          var g := got - |TextOf(p)|;
          StreamSplits(parse, p.body, ps[1..], g);
          FirstToken(carry + p.head, p.body + TextOfAll(ps[1..])[..g], END_MARKER);
          PiecesCons(carry, ps, 1 + Heads(ps[1..], g));
        }
      }
    }
  }

  lemma NoText()
    ensures TextOfAll([]) == ""
  {
  }

  lemma ReadyParts(parse: PieceParser, p: Parcel)
    requires Ready(parse, p)
    ensures Understood(parse, p) && Separable(p)
  {
  }

  lemma PiecesCons(carry: string, ps: seq<Parcel>, h: nat)
    requires 0 < h <= |ps|
    ensures BatchPieces(carry, ps[..h]) == [carry + ps[0].head] + BatchPieces(ps[0].body, ps[1..][..h - 1])
  {
    assert ps[..h][1..] == ps[1..][..h - 1] && ps[..h][0] == ps[0];
  }

  // ---------------------------------------------------------------- a stream in any chunks

  /**
   How far a stream has come: the messages not queued yet, the number of their bytes that have
   arrived, and whether the parser waits for the body of the first. It is known from the sizes
   and methods of the messages and the sizes of the chunks alone.
   */
  datatype Cursor = Cursor(ps: seq<Parcel>, pos: nat, waiting: bool)

  /** The bytes in the buffer. */
  function Buffered(c: Cursor): int
  {
    if c.waiting && c.ps != [] then c.pos - BodyAt(c.ps[0]) else c.pos
  }

  /**
   A call with `n` more bytes neither is refused nor throws: they fit, and the header sections it
   completes, if several and none was waited for, end in that of a GET.
   */
  predicate Copes(c: Cursor, n: nat, bufferMax: nat)
  {
    && Buffered(c) + n <= bufferMax
    && (c.waiting || Heads(c.ps, c.pos + n) <= 1 || EndsInGet(c.ps[..Heads(c.ps, c.pos + n)]))
  }

  function FirstPassed(c: Cursor, pos: nat): Cursor
    requires c.ps != []
  {
    if pos < |TextOf(c.ps[0])| then Cursor(c.ps, pos, true) else Cursor(c.ps[1..], pos - |TextOf(c.ps[0])|, false)
  }

  /** The stream after such a call. */
  function Moved(c: Cursor, n: nat): Cursor
    requires c.waiting ==> c.ps != []
  {
    var pos, h := c.pos + n, Heads(c.ps, c.pos + n);
    if c.waiting || h == 1 then FirstPassed(c, pos)
    else if h == 0 then c.(pos := pos)
    else
      var passed := |TextOfAll(c.ps[..h])|;
      Cursor(c.ps[h..], if pos >= passed then pos - passed else 0, false)
  }

  /** Every chunk is coped with, and nothing is left unscanned at the end. */
  predicate Smooth(c: Cursor, chunks: seq<string>, bufferMax: nat)
    requires c.waiting ==> c.ps != []
    decreases |chunks|
  {
    if chunks == [] then c.ps == []
    else Copes(c, |chunks[0]|, bufferMax) && Smooth(Moved(c, |chunks[0]|), chunks[1..], bufferMax)
  }

  /** The parser is where the cursor says. */
  ghost predicate Reached(st: State, c: Cursor)
  {
    && c.pos <= |TextOfAll(c.ps)|
    && (if c.waiting then
          && c.ps != [] && BodyAt(c.ps[0]) <= c.pos < |TextOf(c.ps[0])|
          && st.waiting && st.contentLength == |c.ps[0].body| && st.current == c.ps[0].request.(payload := "")
          && st.buffer == c.ps[0].body[..c.pos - BodyAt(c.ps[0])]
        else
          !st.waiting && st.buffer == TextOfAll(c.ps)[..c.pos])
  }

  /** What one call does to a stream. */
  ghost predicate Followed(st: State, c: Cursor, n: nat, st': State, c': Cursor)
  {
    && Reached(st', c') && st'.bufferMax == st.bufferMax
    && st'.queue + Requests(c'.ps) == st.queue + Requests(c.ps)
    && c.pos + n <= |TextOfAll(c.ps)|
    && TextOfAll(c'.ps)[c'.pos..] == TextOfAll(c.ps)[c.pos + n..]
    && |c'.ps| <= |c.ps| && c'.ps == c.ps[|c.ps| - |c'.ps|..]
  }

  /** The call returns, and takes the stream from `c` to `c'`. */
  ghost predicate CallFollows(parse: PieceParser, st: State, c: Cursor, chunk: string, c': Cursor)
  {
    var (st', outcome) := Append(parse, st, chunk);
    outcome == Returned && Followed(st, c, |chunk|, st', c')
  }

  lemma Follows(parse: PieceParser, st: State, c: Cursor, chunk: string, st': State, c': Cursor)
    requires Append(parse, st, chunk) == (st', Returned) && Followed(st, c, |chunk|, st', c')
    ensures CallFollows(parse, st, c, chunk, c')
  {
  }

  /** The next bytes of the stream. */
  ghost predicate Coming(parse: PieceParser, st: State, c: Cursor, chunk: string)
  {
    && AllReady(parse, c.ps) && Reached(st, c)
    && c.pos + |chunk| <= |TextOfAll(c.ps)| && chunk == TextOfAll(c.ps)[c.pos..c.pos + |chunk|]
  }

  lemma StreamCons(ps: seq<Parcel>, pos: nat)
    requires ps != [] && |TextOf(ps[0])| <= pos <= |TextOfAll(ps)|
    ensures pos - |TextOf(ps[0])| <= |TextOfAll(ps[1..])|
    ensures TextOfAll(ps)[pos..] == TextOfAll(ps[1..])[pos - |TextOf(ps[0])|..]
    ensures TextOfAll(ps)[BodyAt(ps[0])..pos] == ps[0].body + TextOfAll(ps[1..])[..pos - |TextOf(ps[0])|]
  {
    hide TextOfAll;
    hide TextOf;
    StreamText(ps);
    SliceInThird(ps[0].head + END_MARKER, ps[0].body, TextOfAll(ps[1..]), pos);
  }

  lemma {:induction false} StreamParts(ps: seq<Parcel>, h: nat)
    requires h <= |ps|
    ensures TextOfAll(ps) == TextOfAll(ps[..h]) + TextOfAll(ps[h..])
    ensures Requests(ps) == Requests(ps[..h]) + Requests(ps[h..])
    decreases h
  {
    if h == 0 {
      assert ps[..h] == [] && ps[h..] == ps;
    } else {
      StreamParts(ps[1..], h - 1);
      assert ps[..h][1..] == ps[1..][..h - 1] && ps[h..] == ps[1..][h - 1..] && ps[..h][0] == ps[0];
    }
  }

  /** Once the last header section is that of a GET, the bytes after it begin the next message. */
  lemma {:induction false} TailAfterGet(carry: string, ps: seq<Parcel>, got: nat)
    requires got <= |TextOfAll(ps)| && Heads(ps, got) > 0 && ps[Heads(ps, got) - 1].body == ""
    ensures var h := Heads(ps, got);
            var passed := |TextOfAll(ps[..h])|;
            && passed <= got <= passed + |TextOfAll(ps[h..])|
            && Tail(carry, ps, got) == TextOfAll(ps[h..])[..got - passed]
    decreases |ps|
  {
    hide TextOfAll;
    var p := ps[0];
    StreamText(ps);
    if got >= |TextOf(p)| {
      var g, h := got - |TextOf(p)|, Heads(ps, got);
      StreamParts(ps, h);
      PassedMore(ps, h);
      if Heads(ps[1..], g) == 0 {
        NoText();
        assert ps[1..][..0] == [];
        assert "" + TextOfAll(ps[1..])[..g] == TextOfAll(ps[1..])[..g];
      } else {
        TailAfterGet(p.body, ps[1..], g);
        assert ps[1..][h - 1..] == ps[h..];
      }
    }
  }

  lemma PassedMore(ps: seq<Parcel>, h: nat)
    requires 0 < h <= |ps|
    ensures TextOfAll(ps[..h]) == TextOf(ps[0]) + TextOfAll(ps[1..][..h - 1])
  {
    assert ps[..h][1..] == ps[1..][..h - 1] && ps[..h][0] == ps[0];
  }

  /** The first message has been queued, and the bytes after it are in the buffer. */
  lemma FirstFollowed(st: State, c: Cursor, n: nat, st': State)
    requires c.ps != [] && |TextOf(c.ps[0])| <= c.pos + n <= |TextOfAll(c.ps)|
    requires st'.bufferMax == st.bufferMax && !st'.waiting && st'.queue == st.queue + [c.ps[0].request]
    requires c.ps[0].body + st'.buffer == TextOfAll(c.ps)[BodyAt(c.ps[0])..c.pos + n]
    ensures Followed(st, c, n, st', FirstPassed(c, c.pos + n))
  {
    hide TextOfAll;
    hide TextOf;
    var p, pos := c.ps[0], c.pos + n;
    StreamCons(c.ps, pos);
    var left := TextOfAll(c.ps[1..])[..pos - |TextOf(p)|];
    SameEnd(p.body, st'.buffer, left);
    RequestsStep(c.ps);
  }

  lemma SameEnd(a: string, b: string, c: string)
    requires a + b == a + c
    ensures b == c
  {
    assert b == (a + b)[|a|..] && c == (a + c)[|a|..];
  }

  /** The first message waits for the rest of its body. */
  lemma WaitFollowed(st: State, c: Cursor, n: nat, st': State)
    requires c.ps != [] && BodyAt(c.ps[0]) <= c.pos + n < |TextOf(c.ps[0])| && c.pos + n <= |TextOfAll(c.ps)|
    requires st'.bufferMax == st.bufferMax && st'.waiting && st'.queue == st.queue
    requires st'.contentLength == |c.ps[0].body| && st'.current == c.ps[0].request.(payload := "")
    requires st'.buffer == c.ps[0].body[..c.pos + n - BodyAt(c.ps[0])]
    ensures Followed(st, c, n, st', FirstPassed(c, c.pos + n))
  {
  }

  /** What is known of a waiting parser when more of the stream comes. */
  lemma WaitingFacts(parse: PieceParser, st: State, c: Cursor, chunk: string)
    requires Coming(parse, st, c, chunk) && c.waiting
    ensures c.ps != [] && c.pos + |chunk| <= |TextOfAll(c.ps)|
    ensures var p := c.ps[0];
            && Understood(parse, p) && Separable(p) && BodyAt(p) <= c.pos
            && st.waiting && st.contentLength == |p.body| && st.current == p.request.(payload := "")
            && if c.pos + |chunk| < |TextOf(p)| then st.buffer + chunk == p.body[..c.pos + |chunk| - BodyAt(p)]
               else st.buffer + chunk == TextOfAll(c.ps)[BodyAt(p)..c.pos + |chunk|]
  {
    hide TextOfAll;
    hide Ready;
    assert Ready(parse, c.ps[0]);
    ReadyParts(parse, c.ps[0]);
    WaitingBuffer(c.ps, c.pos, chunk);
  }

  lemma BodyContinues(parse: PieceParser, st: State, p: Parcel, chunk: string, k: nat)
    requires Separable(p) && |st.buffer| + |chunk| <= st.bufferMax && st.waiting && st.contentLength == |p.body|
    requires k < |p.body| && st.buffer + chunk == p.body[..k]
    ensures Append(parse, st, chunk) == (st.(buffer := p.body[..k]), Returned)
  {
    NotInPrefix(p.body, k, END_MARKER);
    assert |st.buffer + chunk| == k;
  }

  lemma WaitGoesOn(parse: PieceParser, st: State, c: Cursor, chunk: string)
    requires Coming(parse, st, c, chunk) && c.waiting && |st.buffer| + |chunk| <= st.bufferMax
    requires c.ps != [] && c.pos + |chunk| < |TextOf(c.ps[0])|
    ensures CallFollows(parse, st, c, chunk, FirstPassed(c, c.pos + |chunk|))
  {
    hide CallFollows;
    hide TextOfAll;
    hide TextOf;
    hide Followed;
    hide Coming;
    hide Append;
    hide Separable;
    hide Understood;
    WaitingFacts(parse, st, c, chunk);
    BodyLonger(c.ps[0], c.pos + |chunk|);
    BodyContinues(parse, st, c.ps[0], chunk, c.pos + |chunk| - BodyAt(c.ps[0]));
    var st' := Append(parse, st, chunk).0;
    WaitFollowed(st, c, |chunk|, st');
    Follows(parse, st, c, chunk, st', FirstPassed(c, c.pos + |chunk|));
  }

  lemma WaitEnds(parse: PieceParser, st: State, c: Cursor, chunk: string)
    requires Coming(parse, st, c, chunk) && c.waiting && |st.buffer| + |chunk| <= st.bufferMax
    requires c.ps != [] && c.pos + |chunk| >= |TextOf(c.ps[0])|
    ensures CallFollows(parse, st, c, chunk, FirstPassed(c, c.pos + |chunk|))
  {
    hide CallFollows;
    hide TextOfAll;
    hide TextOf;
    hide Followed;
    hide Coming;
    hide Append;
    hide Separable;
    var p, pos := c.ps[0], c.pos + |chunk|;
    WaitingFacts(parse, st, c, chunk);
    StreamCons(c.ps, pos);
    BodyCompleted(parse, st, chunk, p.body, TextOfAll(c.ps[1..])[..pos - |TextOf(p)|]);
    assert p.request == st.current.(payload := p.body);
    var st' := Append(parse, st, chunk).0;
    FirstFollowed(st, c, |chunk|, st');
    Follows(parse, st, c, chunk, st', FirstPassed(c, c.pos + |chunk|));
  }

  lemma BodyLonger(p: Parcel, pos: nat)
    requires BodyAt(p) <= pos < |TextOf(p)|
    ensures pos - BodyAt(p) < |p.body| && p.body[..pos - BodyAt(p)] != p.body
  {
    assert |p.body[..pos - BodyAt(p)]| < |p.body|;
  }

  lemma WaitingBuffer(ps: seq<Parcel>, pos: nat, chunk: string)
    requires ps != [] && BodyAt(ps[0]) <= pos < |TextOf(ps[0])|
    requires pos + |chunk| <= |TextOfAll(ps)| && chunk == TextOfAll(ps)[pos..pos + |chunk|]
    ensures var b := ps[0].body[..pos - BodyAt(ps[0])] + chunk;
            && b == TextOfAll(ps)[BodyAt(ps[0])..pos + |chunk|]
            && (pos + |chunk| < |TextOf(ps[0])| ==> b == ps[0].body[..pos + |chunk| - BodyAt(ps[0])])
  {
    hide TextOfAll;
    hide TextOf;
    var p, more, k := ps[0], TextOfAll(ps[1..]), pos + |chunk|;
    var h := p.head + END_MARKER;
    StreamText(ps);
    SliceInSecond(h, p.body, more, pos);
    var text := TextOfAll(ps);
    assert text[|h|..pos] + text[pos..k] == text[|h|..k];
    if k < |TextOf(p)| {
      SliceInSecond(h, p.body, more, k);
    }
  }

  // ---------------------------------------------------------------- a call that scans

  /** A call that waits for nothing splits what has arrived of the stream. */
  lemma ScanSplits(parse: PieceParser, st: State, c: Cursor, chunk: string)
    requires Coming(parse, st, c, chunk) && !c.waiting
    ensures !st.waiting && |st.buffer| == c.pos && c.pos + |chunk| <= |TextOfAll(c.ps)|
    ensures var pos, b := c.pos + |chunk|, st.buffer + chunk;
            && b == TextOfAll(c.ps)[..pos]
            && Tokens(b, END_MARKER) == BatchPieces("", c.ps[..Heads(c.ps, pos)])
            && Rest(b, END_MARKER) == Tail("", c.ps, pos)
  {
    hide TextOfAll;
    hide Tokens;
    hide Rest;
    hide Tail;
    hide Ready;
    var pos, b, none: string := c.pos + |chunk|, st.buffer + chunk, "";
    var text := TextOfAll(c.ps);
    assert b == text[..pos];
    assert !Contains(none, END_MARKER);
    StreamSplits(parse, none, c.ps, pos);
    assert none + text[..pos] == text[..pos];
  }

  lemma NoPieces(parse: PieceParser, st: State, chunk: string)
    requires Tokens(st.buffer + chunk, END_MARKER) == [] && !st.waiting && |st.buffer| + |chunk| <= st.bufferMax
    ensures Append(parse, st, chunk) == (st.(buffer := st.buffer + chunk), Returned)
  {
  }

  lemma NothingFollowed(st: State, c: Cursor, n: nat, st': State)
    requires c.pos + n <= |TextOfAll(c.ps)| && !st.waiting && !c.waiting
    requires st' == st.(buffer := TextOfAll(c.ps)[..c.pos + n])
    ensures Followed(st, c, n, st', c.(pos := c.pos + n))
  {
    hide TextOfAll;
    assert c.ps[0..] == c.ps;
  }

  lemma NothingComplete(parse: PieceParser, st: State, c: Cursor, chunk: string)
    requires Coming(parse, st, c, chunk) && !c.waiting && |st.buffer| + |chunk| <= st.bufferMax
    requires Heads(c.ps, c.pos + |chunk|) == 0
    ensures CallFollows(parse, st, c, chunk, c.(pos := c.pos + |chunk|))
  {
    hide CallFollows;
    hide TextOfAll;
    hide Tail;
    hide Coming;
    hide Followed;
    hide Append;
    hide Tokens;
    hide Rest;
    ScanSplits(parse, st, c, chunk);
    assert c.ps[..0] == [];
    NoPieces(parse, st, chunk);
    var st' := Append(parse, st, chunk).0;
    NothingFollowed(st, c, |chunk|, st');
    Follows(parse, st, c, chunk, st', c.(pos := c.pos + |chunk|));
  }

  lemma TailOfOne(ps: seq<Parcel>, pos: nat)
    requires pos <= |TextOfAll(ps)| && Heads(ps, pos) == 1
    ensures BodyAt(ps[0]) <= pos
    ensures if pos < |TextOf(ps[0])| then Tail("", ps, pos) == ps[0].body[..pos - BodyAt(ps[0])]
            else Tail("", ps, pos) == TextOfAll(ps)[BodyAt(ps[0])..pos]
  {
    hide TextOfAll;
    StreamText(ps);
    if pos >= |TextOf(ps[0])| {
      StreamCons(ps, pos);
    }
  }

  lemma OnePiece(ps: seq<Parcel>)
    requires ps != []
    ensures BatchPieces("", ps[..1]) == [ps[0].head]
  {
    HeadPiece(ps[..1]);
    assert ps[..1][1..] == [];
  }

  lemma FirstUnderstood(parse: PieceParser, st: State, c: Cursor, chunk: string)
    requires Coming(parse, st, c, chunk) && c.ps != []
    ensures Understood(parse, c.ps[0])
  {
    assert Ready(parse, c.ps[0]);
  }

  /** A call that completes one header section runs the loop on it alone. */
  lemma OneCall(parse: PieceParser, st: State, c: Cursor, chunk: string)
    requires Coming(parse, st, c, chunk) && !c.waiting && |st.buffer| + |chunk| <= st.bufferMax
    requires Heads(c.ps, c.pos + |chunk|) == 1
    ensures var p, pos := c.ps[0], c.pos + |chunk|;
            && !st.waiting && Understood(parse, p) && BodyAt(p) <= pos <= |TextOfAll(c.ps)|
            && var rest := if pos < |TextOf(p)| then p.body[..pos - BodyAt(p)] else TextOfAll(c.ps)[BodyAt(p)..pos];
               Append(parse, st, chunk) == (ProcessAll(parse, st.(buffer := rest), [p.head], true).0, Returned)
  {
    hide TextOfAll;
    hide TextOf;
    hide Tokens;
    hide Rest;
    hide Tail;
    hide Append;
    hide ProcessAll;
    hide Coming;
    hide Understood;
    hide BatchPieces;
    hide Heads;
    var p, pos := c.ps[0], c.pos + |chunk|;
    FirstUnderstood(parse, st, c, chunk);
    ScanSplits(parse, st, c, chunk);
    OnePiece(c.ps);
    TailOfOne(c.ps, pos);
    var rest := Tail("", c.ps, pos);
    CallIsLoop(parse, st, chunk, [p.head], rest);
    SingleLoop(parse, st.(buffer := rest), p);
  }

  lemma OneWaits(parse: PieceParser, st: State, c: Cursor, chunk: string)
    requires Coming(parse, st, c, chunk) && !c.waiting && |st.buffer| + |chunk| <= st.bufferMax
    requires Heads(c.ps, c.pos + |chunk|) == 1 && c.pos + |chunk| < |TextOf(c.ps[0])|
    ensures CallFollows(parse, st, c, chunk, FirstPassed(c, c.pos + |chunk|))
  {
    hide CallFollows;
    hide TextOfAll;
    hide TextOf;
    hide Append;
    hide ProcessAll;
    hide Followed;
    hide Coming;
    var p, pos := c.ps[0], c.pos + |chunk|;
    OneCall(parse, st, c, chunk);
    BodyLonger(p, pos);
    SingleLoop(parse, st.(buffer := p.body[..pos - BodyAt(p)]), p);
    var st' := Append(parse, st, chunk).0;
    WaitFollowed(st, c, |chunk|, st');
    Follows(parse, st, c, chunk, st', FirstPassed(c, c.pos + |chunk|));
  }

  lemma OneDone(parse: PieceParser, st: State, c: Cursor, chunk: string)
    requires Coming(parse, st, c, chunk) && !c.waiting && |st.buffer| + |chunk| <= st.bufferMax
    requires Heads(c.ps, c.pos + |chunk|) == 1 && c.pos + |chunk| >= |TextOf(c.ps[0])|
    ensures CallFollows(parse, st, c, chunk, FirstPassed(c, c.pos + |chunk|))
  {
    hide CallFollows;
    hide TextOfAll;
    hide TextOf;
    hide Append;
    hide ProcessAll;
    hide Followed;
    hide Coming;
    hide Understood;
    var p, pos := c.ps[0], c.pos + |chunk|;
    OneCall(parse, st, c, chunk);
    StreamCons(c.ps, pos);
    var more := TextOfAll(c.ps[1..])[..pos - |TextOf(p)|];
    BodyCut(p.body, more);
    SingleLoop(parse, st.(buffer := p.body + more), p);
    var st' := Append(parse, st, chunk).0;
    FirstFollowed(st, c, |chunk|, st');
    Follows(parse, st, c, chunk, st', FirstPassed(c, c.pos + |chunk|));
  }

  /** A call that completes several header sections runs the loop on them as a batch. */
  lemma SeveralCall(parse: PieceParser, st: State, c: Cursor, chunk: string) returns (r: (State, Signal))
    requires Coming(parse, st, c, chunk) && !c.waiting && |st.buffer| + |chunk| <= st.bufferMax
    requires Heads(c.ps, c.pos + |chunk|) >= 2
    ensures var pos := c.pos + |chunk|;
            && !st.waiting && pos <= |TextOfAll(c.ps)|
            && BatchResult(st.(buffer := Tail("", c.ps, pos)), c.ps[..Heads(c.ps, pos)], r)
            && Append(parse, st, chunk) == (r.0, if r.1 == Thrown then Threw else Returned)
  {
    hide TextOfAll;
    hide Tokens;
    hide Rest;
    hide Tail;
    hide Append;
    hide ProcessAll;
    hide Heads;
    hide BatchPieces;
    hide BatchResult;
    hide Ready;
    var pos := c.pos + |chunk|;
    var h := Heads(c.ps, pos);
    assert AllReady(parse, c.ps[..h]);
    hide Coming;
    ScanSplits(parse, st, c, chunk);
    var pieces, rest := BatchPieces("", c.ps[..h]), Tail("", c.ps, pos);
    CallIsLoop(parse, st, chunk, pieces, rest);
    BatchLoop(parse, st.(buffer := rest), c.ps[..h], pieces);
    r := ProcessAll(parse, st.(buffer := rest), pieces, false);
  }

  lemma SeveralFollowed(st: State, c: Cursor, n: nat, h: nat, passed: nat, st': State)
    requires h <= |c.ps| && passed == |TextOfAll(c.ps[..h])| <= c.pos + n <= |TextOfAll(c.ps)|
    requires c.pos + n - passed <= |TextOfAll(c.ps[h..])|
    requires !st'.waiting && st'.bufferMax == st.bufferMax && st'.buffer == TextOfAll(c.ps[h..])[..c.pos + n - passed]
    requires st'.queue == st.queue + Requests(c.ps[..h])
    ensures Followed(st, c, n, st', Cursor(c.ps[h..], c.pos + n - passed, false))
  {
    hide TextOfAll;
    hide Requests;
    StreamParts(c.ps, h);
    var a, b, k := TextOfAll(c.ps[..h]), TextOfAll(c.ps[h..]), c.pos + n;
    assert (a + b)[k..] == b[k - |a|..];
  }

  lemma LastIsGet(parse: PieceParser, st: State, c: Cursor, chunk: string, h: nat)
    requires Coming(parse, st, c, chunk) && 0 < h <= |c.ps| && EndsInGet(c.ps[..h])
    ensures c.ps[h - 1].body == ""
  {
    assert Ready(parse, c.ps[h - 1]) && c.ps[..h][h - 1] == c.ps[h - 1];
  }

  lemma SeveralDone(parse: PieceParser, st: State, c: Cursor, chunk: string)
    requires Coming(parse, st, c, chunk) && !c.waiting && |st.buffer| + |chunk| <= st.bufferMax
    requires Heads(c.ps, c.pos + |chunk|) >= 2 && EndsInGet(c.ps[..Heads(c.ps, c.pos + |chunk|)])
    ensures CallFollows(parse, st, c, chunk, Moved(c, |chunk|))
  {
    hide CallFollows;
    hide TextOfAll;
    hide Tail;
    hide Append;
    hide Followed;
    hide Heads;
    hide Coming;
    hide Requests;
    var pos := c.pos + |chunk|;
    var h := Heads(c.ps, pos);
    var r := SeveralCall(parse, st, c, chunk);
    LastIsGet(parse, st, c, chunk, h);
    TailAfterGet("", c.ps, pos);
    SeveralFollowed(st, c, |chunk|, h, |TextOfAll(c.ps[..h])|, r.0);
    Follows(parse, st, c, chunk, r.0, Moved(c, |chunk|));
  }

  lemma SeveralThrows(parse: PieceParser, st: State, c: Cursor, chunk: string)
    requires Coming(parse, st, c, chunk) && !c.waiting && |st.buffer| + |chunk| <= st.bufferMax
    requires Heads(c.ps, c.pos + |chunk|) >= 2 && !EndsInGet(c.ps[..Heads(c.ps, c.pos + |chunk|)])
    ensures Append(parse, st, chunk).1 == Threw
  {
    hide TextOfAll;
    hide Tail;
    hide Append;
    hide Heads;
    hide Coming;
    var r := SeveralCall(parse, st, c, chunk);
  }

  // ---------------------------------------------------------------- the run

  lemma BufferedBytes(parse: PieceParser, st: State, c: Cursor, chunk: string)
    requires Coming(parse, st, c, chunk)
    ensures Buffered(c) == |st.buffer| && (c.waiting ==> c.ps != [])
  {
    if c.waiting {
      BodyLonger(c.ps[0], c.pos);
    }
  }

  lemma Refuses(parse: PieceParser, st: State, chunk: string)
    requires |st.buffer| + |chunk| > st.bufferMax
    ensures Append(parse, st, chunk).1 == Refused
  {
  }

  lemma FollowsReturns(parse: PieceParser, st: State, c: Cursor, chunk: string, c': Cursor)
    requires CallFollows(parse, st, c, chunk, c')
    ensures Append(parse, st, chunk).1 == Returned && Followed(st, c, |chunk|, Append(parse, st, chunk).0, c')
  {
  }

  /** A call copes with the next bytes exactly as the cursor says. */
  lemma CallMoves(parse: PieceParser, st: State, c: Cursor, chunk: string)
    requires Coming(parse, st, c, chunk)
    ensures c.waiting ==> c.ps != []
    ensures Append(parse, st, chunk).1 == Returned <==> Copes(c, |chunk|, st.bufferMax)
    ensures Copes(c, |chunk|, st.bufferMax) ==> CallFollows(parse, st, c, chunk, Moved(c, |chunk|))
  {
    hide CallFollows;
    hide TextOfAll;
    hide TextOf;
    hide Append;
    hide Followed;
    hide Heads;
    hide Coming;
    hide EndsInGet;
    BufferedBytes(parse, st, c, chunk);
    var pos, h := c.pos + |chunk|, Heads(c.ps, c.pos + |chunk|);
    if |st.buffer| + |chunk| > st.bufferMax {
      Refuses(parse, st, chunk);
    } else if !c.waiting && h >= 2 && !EndsInGet(c.ps[..h]) {
      SeveralThrows(parse, st, c, chunk);
    } else {
      if c.waiting {
        if pos < |TextOf(c.ps[0])| {
          WaitGoesOn(parse, st, c, chunk);
        } else {
          WaitEnds(parse, st, c, chunk);
        }
      } else if h == 0 {
        NothingComplete(parse, st, c, chunk);
      } else if h == 1 {
        if pos < |TextOf(c.ps[0])| {
          OneWaits(parse, st, c, chunk);
        } else {
          OneDone(parse, st, c, chunk);
        }
      } else {
        SeveralDone(parse, st, c, chunk);
      }
      FollowsReturns(parse, st, c, chunk, Moved(c, |chunk|));
    }
  }

  lemma EndOfStream(parse: PieceParser, st: State, c: Cursor)
    requires Reached(st, c) && TextOfAll(c.ps)[c.pos..] == ""
    ensures Idle(st) <==> c.ps == []
  {
    if c.ps != [] && !c.waiting {
      StreamText(c.ps);
      assert c.pos == |TextOfAll(c.ps)| > 0;
    }
  }

  lemma NextComing(parse: PieceParser, st: State, c: Cursor, chunks: seq<string>)
    requires chunks != [] && AllReady(parse, c.ps) && Reached(st, c) && Concat(chunks) == TextOfAll(c.ps)[c.pos..]
    ensures Coming(parse, st, c, chunks[0])
    ensures Concat(chunks[1..]) == TextOfAll(c.ps)[c.pos + |chunks[0]|..]
  {
    hide TextOfAll;
    hide Ready;
    var text, left := TextOfAll(c.ps), TextOfAll(c.ps)[c.pos..];
    assert left == chunks[0] + Concat(chunks[1..]);
    assert left[..|chunks[0]|] == chunks[0] && left[|chunks[0]|..] == Concat(chunks[1..]);
  }

  lemma StillReady(parse: PieceParser, c: Cursor, c': Cursor)
    requires AllReady(parse, c.ps) && |c'.ps| <= |c.ps| && c'.ps == c.ps[|c.ps| - |c'.ps|..]
    ensures AllReady(parse, c'.ps)
  {
    hide Ready;
    var k := |c.ps| - |c'.ps|;
    assert forall i :: 0 <= i < |c'.ps| ==> c'.ps[i] == c.ps[k + i];
  }

  /** The chunks of the rest of a stream, from wherever it has come to. */
  lemma {:induction false} StreamRun(parse: PieceParser, st: State, c: Cursor, chunks: seq<string>)
    requires AllReady(parse, c.ps) && Reached(st, c) && Concat(chunks) == TextOfAll(c.ps)[c.pos..]
    ensures c.waiting ==> c.ps != []
    ensures Smooth(c, chunks, st.bufferMax) <==> AllReturn(parse, st, chunks) && Idle(Run(parse, st, chunks))
    ensures Smooth(c, chunks, st.bufferMax) ==> Run(parse, st, chunks).queue == st.queue + Requests(c.ps)
    decreases |chunks|
  {
    hide TextOfAll;
    hide Append;
    hide Copes;
    hide Moved;
    hide AllReady;
    hide Coming;
    hide CallFollows;
    hide Requests;
    if chunks == [] {
      EndOfStream(parse, st, c);
      assert c.ps == [] ==> Requests(c.ps) == [];
    } else {
      NextComing(parse, st, c, chunks);
      CallMoves(parse, st, c, chunks[0]);
      if Copes(c, |chunks[0]|, st.bufferMax) {
        var st', c' := Append(parse, st, chunks[0]).0, Moved(c, |chunks[0]|);
        FollowsReturns(parse, st, c, chunks[0], c');
        hide Reached;
        StillReady(parse, c, c');
        StreamRun(parse, st', c', chunks[1..]);
      }
    }
  }

  // ---------------------------------------------------------------- chunks of one message each

  function Flatten(css: seq<seq<string>>): seq<string>
  {
    if css == [] then [] else css[0] + Flatten(css[1..])
  }

  lemma {:induction false} ConcatParts(cs: seq<string>, ds: seq<string>)
    ensures Concat(cs + ds) == Concat(cs) + Concat(ds)
    decreases |cs|
  {
    if cs == [] {
      assert cs + ds == ds;
    } else {
      assert (cs + ds)[1..] == cs[1..] + ds;
      ConcatParts(cs[1..], ds);
    }
  }

  /** A cursor inside the first message, or at the start of one. */
  predicate Inside(c: Cursor)
  {
    c.ps != [] && c.pos < |TextOf(c.ps[0])| && (c.waiting <==> c.pos >= BodyAt(c.ps[0]))
  }

  lemma InsideMoves(c: Cursor, n: nat, bufferMax: nat)
    requires Inside(c) && c.pos + n <= |TextOf(c.ps[0])| <= bufferMax
    ensures Copes(c, n, bufferMax)
    ensures c.pos + n < |TextOf(c.ps[0])| ==> Moved(c, n).ps == c.ps && Moved(c, n).pos == c.pos + n && Inside(Moved(c, n))
    ensures c.pos + n == |TextOf(c.ps[0])| ==> Moved(c, n) == Cursor(c.ps[1..], 0, false)
  {
    if c.pos + n == |TextOf(c.ps[0])| {
      assert Heads(c.ps[1..], 0) == 0;
    }
  }

  lemma NothingMoves(c: Cursor, bufferMax: nat)
    requires c.pos == 0 && !c.waiting
    ensures Copes(c, 0, bufferMax) && Moved(c, 0) == c
  {
    assert Heads(c.ps, 0) == 0;
  }

  /** Chunks that bring nothing change nothing. */
  lemma {:induction false} EmptyChunks(c: Cursor, cs: seq<string>, more: seq<string>, bufferMax: nat)
    requires c.pos == 0 && !c.waiting && Concat(cs) == "" && Smooth(c, more, bufferMax)
    ensures Smooth(c, cs + more, bufferMax)
    decreases |cs|
  {
    if cs == [] {
      assert cs + more == more;
    } else {
      assert (cs + more)[1..] == cs[1..] + more;
      assert cs[0] == "" && Concat(cs[1..]) == "";
      NothingMoves(c, bufferMax);
      EmptyChunks(c, cs[1..], more, bufferMax);
    }
  }

  /** The chunks that bring the rest of the first message are smooth if what follows is. */
  lemma {:induction false} SmoothInside(c: Cursor, cs: seq<string>, more: seq<string>, bufferMax: nat)
    requires Inside(c) && c.pos + |Concat(cs)| == |TextOf(c.ps[0])| <= bufferMax
    requires Smooth(Cursor(c.ps[1..], 0, false), more, bufferMax)
    ensures Smooth(c, cs + more, bufferMax)
    decreases |cs|
  {
    hide Copes;
    hide Moved;
    hide TextOf;
    assert Concat(cs) == cs[0] + Concat(cs[1..]);
    assert (cs + more)[1..] == cs[1..] + more;
    InsideMoves(c, |cs[0]|, bufferMax);
    if c.pos + |cs[0]| < |TextOf(c.ps[0])| {
      SmoothInside(Moved(c, |cs[0]|), cs[1..], more, bufferMax);
    } else {
      assert |Concat(cs[1..])| == 0;
      EmptyChunks(Cursor(c.ps[1..], 0, false), cs[1..], more, bufferMax);
    }
  }

  /** Chunks that carry one message after the other, none spanning two, are smooth. */
  lemma {:induction false} SeparateIsSmooth(ps: seq<Parcel>, css: seq<seq<string>>, bufferMax: nat)
    requires |css| == |ps|
    requires forall i :: 0 <= i < |ps| ==> Concat(css[i]) == TextOf(ps[i]) && |TextOf(ps[i])| <= bufferMax
    ensures Smooth(Cursor(ps, 0, false), Flatten(css), bufferMax)
    ensures Concat(Flatten(css)) == TextOfAll(ps)
    decreases |ps|
  {
    if ps != [] {
      hide Smooth;
      SeparateIsSmooth(ps[1..], css[1..], bufferMax);
      SmoothInside(Cursor(ps, 0, false), css[0], Flatten(css[1..]), bufferMax);
      ConcatParts(css[0], Flatten(css[1..]));
    }
  }
}
