/**
 Bad requests, told from the text that arrives: request lines that are not those of an HTTP/1.1 GET
 or POST, and POSTs without a length the parser can use.
 */
module HttpErrors {
  import opened Wrappers
  import opened Text
  import opened HttpMessage
  import opened HttpParser
  import opened HttpDialects
  import opened HttpParcels
  import opened HttpPrint
  import opened HttpRoundTrip
  import opened HttpRuns
  import opened HttpLengths

  // ---------------------------------------------------------------- the request line

  predicate Word(s: string)
  {
    CleanText(s) && ' ' !in s
  }

  /** A line of three words and, if anything follows, the CRLF it starts with. */
  predicate LineOf(piece: string, name: string, url: string, version: string)
  {
    var line := name + " " + url + " " + version;
    && Word(name) && Word(url) && Word(version)
    && (piece == line || line + CRLF <= piece)
  }

  lemma SliceOfPrefix(s: string, line: string, a: nat, b: nat)
    requires a <= b <= |line| <= |s| && s[..|line|] == line
    ensures s[a..b] == line[a..b]
  {
    assert forall k :: 0 <= k < b - a ==> s[a..b][k] == s[..|line|][a + k];
  }

  /** The words of a line at the start of a piece, and that there are no other spaces. */
  lemma WordsInPiece(piece: string, name: string, url: string, version: string, e: nat)
    requires Word(name) && Word(url) && Word(version)
    requires e == |name + " " + url + " " + version| <= |piece| && piece[..e] == name + " " + url + " " + version
    ensures var a := |name|;
            var b := a + 1 + |url|;
            && a < b < e && piece[a] == ' ' && piece[b] == ' '
            && piece[b + 1..e] == version && piece[a + 1..b] == url && piece[..a] == name
            && forall i :: 0 <= i < e && piece[i] == ' ' ==> i == a || i == b
  {
    var line, a := name + " " + url + " " + version, |name|;
    var b := a + 1 + |url|;
    WordsApart(name, url, version);
    hide Word;
    SliceOfPrefix(piece, line, b + 1, e);
    SliceOfPrefix(piece, line, a + 1, b);
    SliceOfPrefix(piece, line, 0, a);
    forall i | 0 <= i < e
      ensures piece[i] == line[i]
    {
      assert piece[..e][i] == line[i];
    }
  }

  lemma CleanLine(name: string, url: string, version: string)
    requires Word(name) && Word(url) && Word(version)
    ensures CleanText(name + " " + url + " " + version)
  {
    assert CleanText(" ");
  }

  lemma LineParts(piece: string, name: string, url: string, version: string)
    requires LineOf(piece, name, url, version)
    ensures RSplitResult(piece, LineEnd(piece), " ") == [version, url, name]
  {
    hide LineEnd;
    hide RSplitResult;
    hide Word;
    hide CleanText;
    var line := name + " " + url + " " + version;
    CleanLine(name, url, version);
    LineEnds(piece, line);
    WordsInPiece(piece, name, url, version, |line|);
    ThreeParts(piece, |name|, |name| + 1 + |url|, |line|);
  }

  lemma WordsApart(name: string, url: string, version: string)
    requires Word(name) && Word(url) && Word(version)
    ensures var line, a := name + " " + url + " " + version, |name|;
            var b := a + 1 + |url|;
            && line[a] == ' ' && line[b] == ' ' && line[..a] == name && line[a + 1..b] == url && line[b + 1..] == version
            && forall i :: 0 <= i < |line| && line[i] == ' ' ==> i == a || i == b
  {
    var line, a := name + " " + url + " " + version, |name|;
    var b := a + 1 + |url|;
    assert forall i :: 0 <= i < a ==> line[i] == name[i];
    assert forall i :: a < i < b ==> line[i] == url[i - a - 1];
    assert forall i :: b < i < |line| ==> line[i] == version[i - b - 1];
  }

  /**
   What a request line of three words is taken for: the URL is the word in the middle, and whether it
   is HTTP/1.1, a GET or a POST is told from the last and the first word.
   */
  lemma LineDecides(piece: string, name: string, url: string, version: string)
    requires LineOf(piece, name, url, version)
    ensures var (r, ok) := ParseBase(piece, UNPARSED);
            && ok && r.url == url
            && (r.version == Http11 <==> Contains(version, "HTTP/1.1"))
            && (r.httpMethod == Get <==> Contains(name, "GET"))
            && (r.httpMethod == Post <==> Contains(name, "POST") && !Contains(name, "GET"))
  {
    hide RSplitResult;
    hide LineEnd;
    hide LineOf;
    hide Contains;
    LineParts(piece, name, url, version);
  }

  // ---------------------------------------------------------------- the length of a POST

  /** The fields hold no Content-Length, one with a character that is no digit, or one that is too large. */
  predicate UnusableFields(fields: seq<Field>)
  {
    || (forall i :: 0 <= i < |fields| ==> fields[i].0 != CONTENT_LENGTH)
    || (exists i :: 0 <= i < |fields| && fields[i].0 == CONTENT_LENGTH && exists j ::
          0 <= j < |fields[i].1| && !('0' <= fields[i].1[j] <= '9'))
    || (exists n: nat :: DeclaresLength(fields, n) && n <= INT_MAX && n % UINT16_RANGE > POST_MAX_CONTENT_LENGTH)
  }

  /** The headers of a printed message hold, under a name without space, exactly the field printed. */
  lemma HeadHasField(dialect: Dialect, m: Message, name: string)
    requires CleanHead(dialect, m) && ' ' !in name
    ensures var h := Headers(dialect, Head(m));
            && (name in h <==> exists i :: 0 <= i < |m.fields| && m.fields[i].0 == name)
            && forall i :: 0 <= i < |m.fields| && m.fields[i].0 == name ==> name in h && h[name] == m.fields[i].1
  {
    hide Headers;
    hide Head;
    hide EmplaceAll;
    hide CleanField;
    HeadersOfHead(dialect, m);
    var start, es := Emplace(map[], PseudoField(m)), Somes(m.fields);
    assert name !in start by { NoPseudo(m, name); }
    EmplaceAllKeepsFirst(start, es, name);
    var h := EmplaceAll(start, es);
    if name in h {
      var k :| IsFirstOf(es, name, k) && h[name] == es[k].value.1;
      assert es[k] == Some(m.fields[k]);
    }
    forall i | 0 <= i < |m.fields| && m.fields[i].0 == name
      ensures name in h && h[name] == m.fields[i].1
    {
      assert es[i] == Some(m.fields[i]);
      var k :| IsFirstOf(es, name, k) && h[name] == es[k].value.1;
      assert es[k] == Some(m.fields[k]);
      assert k == i;
    }
  }

  lemma NoPseudo(m: Message, name: string)
    requires ' ' !in name
    ensures name !in Emplace(map[], PseudoField(m))
  {
    if PseudoField(m).Some? {
      var key := PseudoField(m).value.0;
      assert key[|MethodName(m)|] == ' ';
      assert ' ' in key;
    }
  }

  lemma UnusableHeaders(dialect: Dialect, m: Message)
    requires CleanHead(dialect, m) && UnusableFields(m.fields)
    ensures UnusableLength(Headers(dialect, Head(m)))
  {
    hide Headers;
    hide Head;
    hide Value;
    hide CleanField;
    HeadHasField(dialect, m, CONTENT_LENGTH);
    var h := Headers(dialect, Head(m));
    if CONTENT_LENGTH in h {
      if i :| 0 <= i < |m.fields| && m.fields[i].0 == CONTENT_LENGTH && exists j ::
          0 <= j < |m.fields[i].1| && !('0' <= m.fields[i].1[j] <= '9') {
        assert h[CONTENT_LENGTH] == m.fields[i].1;
      } else {
        var n: nat :| DeclaresLength(m.fields, n) && n <= INT_MAX && n % UINT16_RANGE > POST_MAX_CONTENT_LENGTH;
        var i :| 0 <= i < |m.fields| && m.fields[i].0 == CONTENT_LENGTH
          && IsDigits(m.fields[i].1) && Value(m.fields[i].1) == n;
        assert CleanField(dialect, m.fields[i]) && m.fields[i].1 != "" by { FieldNotEmpty(dialect, m, i); }
      }
    }
  }

  lemma FieldNotEmpty(dialect: Dialect, m: Message, i: nat)
    requires CleanHead(dialect, m) && i < |m.fields|
    ensures CleanField(dialect, m.fields[i]) && m.fields[i].1 != ""
  {
  }

  // ---------------------------------------------------------------- bad requests

  /**
   The text of a header section that is a bad request: an empty one, a first line without exactly two
   spaces, a line of three words of another version or method, or a POST without a usable length.
   */
  ghost predicate BadText(dialect: Dialect, piece: string)
  {
    || piece == ""
    || CountChar(piece[..LineEnd(piece)], ' ') != 2
    || (exists name, url, version :: LineOf(piece, name, url, version)
          && (!Contains(version, "HTTP/1.1") || (!Contains(name, "GET") && !Contains(name, "POST"))))
    || (exists m: Message :: m.PostMessage? && CleanHead(dialect, m) && UnusableFields(m.fields) && piece == Head(m))
  }

  lemma BadTextIsUnacceptable(dialect: Dialect, piece: string)
    requires BadText(dialect, piece)
    ensures Unacceptable(ParserOf(dialect), piece)
  {
    hide LineOf;
    hide LineEnd;
    hide UnusableFields;
    hide UnusableLength;
    hide Headers;
    hide Contains;
    if piece != "" {
      ParseBaseAccepts(piece, UNPARSED);
      if CountChar(piece[..LineEnd(piece)], ' ') == 2 {
        if m: Message :| m.PostMessage? && CleanHead(dialect, m) && UnusableFields(m.fields) && piece == Head(m) {
          BaseReadsBack(m);
          UnusableHeaders(dialect, m);
        } else {
          var name, url, version :| LineOf(piece, name, url, version)
            && (!Contains(version, "HTTP/1.1") || (!Contains(name, "GET") && !Contains(name, "POST")));
          LineDecides(piece, name, url, version);
        }
      }
    }
  }

  function HeadsOf(ms: seq<Message>): (hs: seq<string>)
    ensures |hs| == |ms|
  {
    seq(|ms|, i requires 0 <= i < |ms| => Head(ms[i]))
  }

  predicate AllGetMessages(ms: seq<Message>)
  {
    forall i :: 0 <= i < |ms| ==> ms[i].GetMessage?
  }

  lemma {:induction false} SplitAfterGets(dialect: Dialect, gets: seq<Message>, piece: string, got: string)
    requires AllWellFormed(dialect, gets) && AllGetMessages(gets) && CleanToken(piece, END_MARKER)
    ensures var text := PrintAll(gets) + piece + END_MARKER + got;
            && Tokens(text, END_MARKER) == HeadsOf(gets) + [piece] + Tokens(got, END_MARKER)
            && Rest(text, END_MARKER) == Rest(got, END_MARKER)
    decreases |gets|
  {
    hide Tokens;
    hide Rest;
    hide Head;
    hide CleanToken;
    var text := PrintAll(gets) + piece + END_MARKER + got;
    if gets == [] {
      assert text == piece + END_MARKER + got;
      FirstToken(piece, got, END_MARKER);
      assert HeadsOf(gets) + [piece] == [piece];
    } else {
      var rest := gets[1..];
      var more := PrintAll(rest) + piece + END_MARKER + got;
      SplitAfterGets(dialect, rest, piece, got);
      assert Print(gets[0]) == Head(gets[0]) + END_MARKER by { assert Body(gets[0]) == ""; }
      assert text == Head(gets[0]) + END_MARKER + more;
      PostIsOnePiece(dialect, gets[0]);
      FirstToken(Head(gets[0]), more, END_MARKER);
      assert HeadsOf(gets) == [Head(gets[0])] + HeadsOf(rest);
    }
  }

  lemma GetsParse(dialect: Dialect, gets: seq<Message>)
    requires AllWellFormed(dialect, gets) && AllGetMessages(gets)
    ensures AllGets(ParserOf(dialect), HeadsOf(gets))
    ensures ParseAll(ParserOf(dialect), HeadsOf(gets)) == ExpectedAll(gets)
  {
    hide Head;
    hide Separable;
    hide ParserOf;
    forall i | 0 <= i < |gets|
      ensures Head(gets[i]) != "" && ParserOf(dialect)(Head(gets[i])) == (Expected(gets[i]), true)
      ensures Expected(gets[i]).httpMethod == Get
    {
      WellFormedReadsBack(dialect, gets[i]);
    }
  }

  /**
   A bad request is an error, whatever it comes with: a call that completes it, after any number of
   well-formed GETs and before anything else, queues exactly those GETs, sets error 400, drops the
   rest of the batch and keeps the bytes after the last end marker.
   */
  lemma BadRequestCall(dialect: Dialect, st: State, chunk: string, gets: seq<Message>, piece: string, got: string)
    requires !st.waiting && |st.buffer| + |chunk| <= st.bufferMax
    requires AllWellFormed(dialect, gets) && AllGetMessages(gets)
    requires CleanToken(piece, END_MARKER) && BadText(dialect, piece)
    requires st.buffer + chunk == PrintAll(gets) + piece + END_MARKER + got
    ensures var (st', outcome) := Append(ParserOf(dialect), st, chunk);
            && outcome == Returned && st'.parseError == 400 && !st'.waiting
            && st'.queue == st.queue + ExpectedAll(gets) && st'.buffer == Rest(got, END_MARKER)
  {
    hide Append;
    hide Tokens;
    hide Rest;
    hide ParserOf;
    hide AllGets;
    hide Unacceptable;
    hide BadText;
    hide ParseAll;
    hide PrintAll;
    hide WellFormed;
    hide CleanToken;
    var b, k := st.buffer + chunk, |gets|;
    SplitAfterGets(dialect, gets, piece, got);
    GetsParse(dialect, gets);
    BadTextIsUnacceptable(dialect, piece);
    var pieces := Tokens(b, END_MARKER);
    assert pieces[..k] == HeadsOf(gets) && pieces[k] == piece;
    BadCall(ParserOf(dialect), st, chunk, k);
  }

  /** A clean POST without a usable length is such a request, whatever else is in it. */
  lemma UnusablePostIsBad(dialect: Dialect, m: Message)
    requires m.PostMessage? && CleanHead(dialect, m) && UnusableFields(m.fields)
    ensures BadText(dialect, Head(m)) && CleanToken(Head(m), END_MARKER)
  {
    PostIsOnePiece(dialect, m);
  }

  /** And so is a line of three words of another version or method, alone or with fields after it. */
  lemma ForeignLineIsBad(dialect: Dialect, piece: string, name: string, url: string, version: string)
    requires LineOf(piece, name, url, version)
    requires !Contains(version, "HTTP/1.1") || (!Contains(name, "GET") && !Contains(name, "POST"))
    ensures BadText(dialect, piece)
  {
  }
}
