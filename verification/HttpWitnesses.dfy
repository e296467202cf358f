/**
 Concrete inputs at which the parsers of lib/http do not do what one would expect.
 */
module HttpWitnesses {
  import opened Wrappers
  import opened Text
  import opened HttpMessage
  import opened HttpParser
  import opened HttpDialects
  import opened HttpParcels
  import opened HttpPrint
  import opened HttpRoundTrip
  import opened HttpBodies
  import opened HttpLengths
  import opened HttpErrors

  /** The C++23 parser reads a field in this line, the C++11 parser none. */
  lemma LinesDiffer()
    ensures Entry23("A: b: c") == Some(("A", "b: c")) && Entry11("A: b: c") == None
  {
    var line := "A: b: c";
    SepMatch(line, 0);
    SepMatch(line, 1);
    SepMatch(line, 4);
    assert Find(line, SEP) == 1;
    assert line[..1] == "A" && line[1 + 2..] == "b: c";
    assert IsLast(line, SEP, |line| - 2, 4) by { SepMatch(line, 5); }
    Entry11At(line, 4);
    assert MatchAt(line, SEP, 1);
    assert RFind(line, SEP, 2) != NPOS;
  }

  lemma PlainGetIsWellFormed(dialect: Dialect)
    ensures WellFormed(dialect, GetMessage("/", []))
  {
  }

  /** A GET of "/a:" without any field is queued with a header "GET /a". */
  lemma ColonBecomesHeader(dialect: Dialect)
    ensures Headers(dialect, "GET /a: HTTP/1.1") == map["GET /a" := "HTTP/1.1"]
  {
    hide Headers;
    var m := GetMessage("/a:", []);
    assert FieldText(m.fields) == "" && Head(m) == "GET /a: HTTP/1.1";
    HeadersOfHead(dialect, m);
    assert m.url[..2] == "/a";
    assert MethodName(m) + " " + "/a" == "GET /a";
    assert PseudoField(m) == Some(("GET /a", "HTTP/1.1"));
    assert Somes(m.fields) == [];
  }

  lemma ValueOf(n: nat)
    requires n < 10
    ensures IsDigits([('0' as int + n) as char]) && Value([('0' as int + n) as char]) == n
  {
    var s := [('0' as int + n) as char];
    assert s[..0] == "";
  }

  /** A GET and a POST of one byte in one call: the call throws, and the POST is not queued. */
  lemma FinalPostIsLost(dialect: Dialect)
    ensures var (get, post) := (GetMessage("/", []), PostMessage("/", [(CONTENT_LENGTH, "1")], "A"));
            var (st', outcome) := Append(ParserOf(dialect), Initial(1024), PrintAll([get, post]));
            outcome == Threw && st'.queue == [Expected(get)] && st'.buffer == "A"
  {
    hide Append;
    hide ParserOf;
    var get, post := GetMessage("/", []), PostMessage("/", [(CONTENT_LENGTH, "1")], "A");
    var ms, none: string := [get, post], "";
    PlainGetIsWellFormed(dialect);
    OneBytePost(dialect);
    assert AllWellFormed(dialect, ms);
    TwoFit();
    assert none + PrintAll(ms) == PrintAll(ms) + none;
    assert Body(ms[1]) + none == "A";
    assert !Contains("A", END_MARKER);
    BatchCall(dialect, Initial(1024), PrintAll(ms), ms, none);
    assert ExpectedAll(ms[..1]) == [Expected(get)];
  }

  lemma OneBytePost(dialect: Dialect)
    ensures WellFormed(dialect, PostMessage("/", [(CONTENT_LENGTH, "1")], "A"))
  {
    ValueOf(1);
    assert IsDigits("1") && Value("1") == 1;
    PlainPostIsClean(dialect, "1", "A");
    var m := PostMessage("/", [(CONTENT_LENGTH, "1")], "A");
    assert m.fields[0] == (CONTENT_LENGTH, "1");
    assert !Contains("A", END_MARKER);
  }

  lemma TwoFit()
    ensures |PrintAll([GetMessage("/", []), PostMessage("/", [(CONTENT_LENGTH, "1")], "A")])| <= 1024
  {
    hide Head;
    var get, post := GetMessage("/", []), PostMessage("/", [(CONTENT_LENGTH, "1")], "A");
    PlainPostText("1", "A");
    PlainGetText();
    assert [get, post][1..] == [post] && [post][1..] == [];
    assert |PrintAll([post])| == |Print(post)|;
  }

  lemma PlainGetText()
    ensures Head(GetMessage("/", [])) == "GET / HTTP/1.1"
  {
  }

  const BLOCK := "01234567890123456789"

  lemma ValueOf20()
    ensures IsDigits("20") && Value("20") == 20
  {
    ValueOf(2);
    assert "20"[..1] == "2" && IsDigits("2") && Value("2") == 2;
  }

  /** The parser waits for the 20 bytes a POST declares. */
  lemma WaitsForTwenty(dialect: Dialect, chunk: string) returns (st: State)
    requires chunk == Head(PostMessage("/", [(CONTENT_LENGTH, "20")], "")) + END_MARKER
    ensures st == Append(ParserOf(dialect), Initial(1024), chunk).0
    ensures st.waiting && st.contentLength == 20 && st.buffer == "" && st.queue == [] && st.bufferMax == 1024
    ensures st.current.httpMethod == Post
  {
    hide Append;
    hide ParserOf;
    hide Head;
    var m, none: string := PostMessage("/", [(CONTENT_LENGTH, "20")], ""), "";
    ValueOf20();
    PlainPostIsClean(dialect, "20", "");
    PlainPostText("20", "");
    assert none + chunk == Head(m) + END_MARKER + none;
    assert !Contains(none, END_MARKER);
    PostDecision(dialect, Initial(1024), chunk, m, 20, none);
    MethodOfPost(m);
    AppendKeepsSize(ParserOf(dialect), Initial(1024), chunk);
    st := Append(ParserOf(dialect), Initial(1024), chunk).0;
  }

  /**
   A POST that declares 20 bytes, a whole GET, and 20 bytes: the GET is queued twice, the second
   time with the 20 bytes as its payload, and the POST never.
   */
  lemma GetTakesTheBody(dialect: Dialect)
    ensures var (get, post) := (GetMessage("/", []), PostMessage("/", [(CONTENT_LENGTH, "20")], ""));
            var st := Run(ParserOf(dialect), Initial(1024), [Print(post), Print(get), BLOCK]);
            st.queue == [Expected(get), Expected(get).(payload := BLOCK)]
  {
    hide Append;
    hide ParserOf;
    hide Head;
    var get, post := GetMessage("/", []), PostMessage("/", [(CONTENT_LENGTH, "20")], "");
    var parse := ParserOf(dialect);
    assert Print(post) == Head(post) + END_MARKER;
    var st := WaitsForTwenty(dialect, Print(post));
    PlainGetIsWellFormed(dialect);
    WellFormedReadsBack(dialect, get);
    PrintIsText(get);
    PlainGetText();
    assert |TextOf(ParcelOf(get))| == 18;
    GetInsideBody(parse, st, ParcelOf(get), BLOCK);
    var chunks := [Print(post), Print(get), BLOCK];
    assert chunks[1..] == [Print(get), BLOCK];
    assert Run(parse, Initial(1024), chunks) == Run(parse, st, [Print(get), BLOCK]);
  }

  lemma TwoCalls(parse: PieceParser, st: State, a: string, b: string)
    ensures Run(parse, st, [a, b]) == Append(parse, Append(parse, st, a).0, b).0
  {
    hide Append;
    assert [a, b][1..] == [b] && [b][1..] == [];
    assert Run(parse, st, [a, b]) == Run(parse, Append(parse, st, a).0, [b]);
  }

  /** The bytes after the awaited 20, a whole GET, stay in the buffer until a call that brings nothing. */
  lemma GetIsLeftOver(dialect: Dialect)
    ensures var (get, post) := (GetMessage("/", []), PostMessage("/", [(CONTENT_LENGTH, "20")], ""));
            var parse := ParserOf(dialect);
            var st := Run(parse, Initial(1024), [Print(post), BLOCK + Print(get)]);
            var (st', outcome) := Append(parse, st, "");
            && |st.queue| == 1 && st.queue[0].httpMethod == Post && st.queue[0].payload == BLOCK
            && st.buffer == Print(get) && !st.waiting
            && outcome == Returned && st'.queue == st.queue + [Expected(get)] && st'.buffer == ""
  {
    hide Append;
    hide ParserOf;
    hide Head;
    hide Run;
    hide Expected;
    hide WellFormed;
    var get, post := GetMessage("/", []), PostMessage("/", [(CONTENT_LENGTH, "20")], "");
    var parse, none: string := ParserOf(dialect), "";
    assert Print(post) == Head(post) + END_MARKER;
    var st0 := WaitsForTwenty(dialect, Print(post));
    PlainGetIsWellFormed(dialect);
    PlainGetText();
    assert PrintAll([get]) == Print(get) by { assert [get][1..] == []; }
    assert none + (BLOCK + Print(get)) == BLOCK + Print(get) && Print(get) + none == PrintAll([get]) + none;
    assert Body(get) + none == none && !Contains(none, END_MARKER);
    LeftoverWaits(dialect, st0, BLOCK + Print(get), BLOCK, Print(get), none, [get], none);
    TwoCalls(parse, Initial(1024), Print(post), BLOCK + Print(get));
    assert ExpectedAll([get]) == [Expected(get)];
    var st := Deliver(st0, BLOCK).(buffer := Print(get), waiting := false);
    assert Run(parse, Initial(1024), [Print(post), BLOCK + Print(get)]) == st;
    assert st.queue == [st0.current.(payload := BLOCK)];
  }

  lemma OneSeparator()
    ensures Entry23("A: b\nC") == Entry11("A: b\nC") == Some(("A", "b\nC"))
  {
    var line := "A: b\nC";
    forall j
      ensures MatchAt(line, SEP, j) <==> j == 1
    {
      SepMatch(line, j);
    }
    assert MatchAt(line, SEP, 1) && !MatchAt(line, SEP, 0);
    assert Find(line, SEP) == 1;
    assert line[..1] == "A" && line[1 + 2..] == "b\nC";
    LineAgreement(line);
  }

  lemma ShortLines()
    ensures Entry23("A: b") == Some(("A", "b")) && Entry23("C") == None
  {
    var line := "A: b";
    SepMatch(line, 0);
    SepMatch(line, 1);
    assert Find(line, SEP) == 1;
    assert line[..1] == "A" && line[1 + 2..] == "b";
  }

  /** A bare LF ends a line for the C++23 parser, and is part of the value for the C++11 parser. */
  lemma BareLineFeed()
    ensures Headers(Cpp23, "A: b\nC") == map["A" := "b"]
    ensures Headers(Cpp11, "A: b\nC") == map["A" := "b\nC"]
  {
    var piece := "A: b\nC";
    hide Entry23;
    hide Entry11;
    OneSeparator();
    ShortLines();
    BareLines23();
    BareLines11();
    var e: Option<Field> := Some(("A", "b"));
    assert Entries23(["A: b", "C"]) == [e, None];
    var one: seq<Option<Field>> := [None];
    assert [e, None][1..] == one && one[1..] == [];
    var g: Option<Field> := Some(("A", "b\nC"));
    assert Entries11([piece]) == [g] && [g][1..] == [];
  }

  lemma BareLines23()
    ensures Lines23("A: b\nC") == ["A: b", "C"]
  {
    var piece := "A: b\nC";
    hide Lines23;
    forall j | 0 <= j < 4
      ensures !MatchAt(piece, "\n", j)
    {
      CharMatch(piece, LF, j);
    }
    CharMatch(piece, LF, 4);
    assert Find(piece, "\n") == 4;
    assert piece[..4] == "A: b" && piece[4 + 1..] == "C";
    Lines23Step(piece);
    CharContains("C", LF);
    Lines23Step("C");
  }

  lemma BareLines11()
    ensures Lines11("A: b\nC") == ["A: b\nC"]
  {
    var piece := "A: b\nC";
    forall j
      ensures !MatchAt(piece, CRLF, j)
    {
      if MatchAt(piece, CRLF, j) {
        MatchChar(piece, CRLF, j, 0);
      }
    }
    NothingToSplit(piece, CRLF);
  }

  /** A call that brings one bad request to a new parser, with anything after it. */
  lemma BadAlone(dialect: Dialect, piece: string, got: string)
    requires CleanToken(piece, END_MARKER) && BadText(dialect, piece)
    requires |piece| + |END_MARKER| + |got| <= 1024
    ensures var (st', outcome) := Append(ParserOf(dialect), Initial(1024), piece + END_MARKER + got);
            outcome == Returned && st'.parseError == ERROR_BAD_REQUEST && st'.queue == []
  {
    hide Append;
    hide ParserOf;
    hide BadText;
    hide CleanToken;
    var none: string := "";
    var chunk := piece + END_MARKER + got;
    assert PrintAll([]) == none;
    assert none + chunk == none + piece + END_MARKER + got;
    BadRequestCall(dialect, Initial(1024), chunk, [], piece, got);
  }

  /** Another method and another version are bad requests. */
  lemma ForeignRequestsAreBad(dialect: Dialect)
    ensures BadText(dialect, "DELETE /x HTTP/1.1") && BadText(dialect, "GET / HTTP/1.0")
  {
    hide BadText;
    assert LineOf("DELETE /x HTTP/1.1", "DELETE", "/x", "HTTP/1.1");
    NotIn("DELETE", "GET");
    NotIn("DELETE", "POST");
    ForeignLineIsBad(dialect, "DELETE /x HTTP/1.1", "DELETE", "/x", "HTTP/1.1");
    assert LineOf("GET / HTTP/1.0", "GET", "/", "HTTP/1.0");
    NotIn("HTTP/1.0", "HTTP/1.1");
    ForeignLineIsBad(dialect, "GET / HTTP/1.0", "GET", "/", "HTTP/1.0");
  }

  lemma NotIn(s: string, d: string)
    requires d != "" && forall j :: 0 <= j <= |s| - |d| ==> s[j] != d[0] || s[j + |d| - 1] != d[|d| - 1]
    ensures !Contains(s, d)
  {
    forall j
      ensures !MatchAt(s, d, j)
    {
      if MatchAt(s, d, j) {
        MatchChar(s, d, j, 0);
        MatchChar(s, d, j, |d| - 1);
      }
    }
  }

  /** A POST without Content-Length and a GET in one call: nothing is queued. */
  lemma PostWithoutLength(dialect: Dialect)
    ensures var post := PostMessage("/", [], "");
            var (st', outcome) := Append(ParserOf(dialect), Initial(1024),
                                         Head(post) + END_MARKER + Print(GetMessage("/", [])));
            outcome == Returned && st'.parseError == ERROR_BAD_REQUEST && st'.queue == []
  {
    hide Append;
    hide ParserOf;
    var post := PostMessage("/", [], "");
    UnusablePostIsBad(dialect, post);
    BadAlone(dialect, Head(post), Print(GetMessage("/", [])));
  }
}
