/**
 Requests as a client prints them, and what the message parser reads from one printed header
 section.
 */
module HttpPrint {
  import opened Wrappers
  import opened Text
  import opened HttpMessage
  import opened HttpParser
  import opened HttpDialects
  import opened HttpParcels

  datatype Message =
    | GetMessage(url: string, fields: seq<Field>)
    | PostMessage(url: string, fields: seq<Field>, body: string)

  // ---------------------------------------------------------------- printing

  function MethodName(m: Message): string
  {
    if m.GetMessage? then "GET" else "POST"
  }

  function RequestLine(m: Message): string
  {
    MethodName(m) + " " + m.url + " HTTP/1.1"
  }

  function FieldLine(f: Field): string
  {
    f.0 + ": " + f.1
  }

  function FieldText(fields: seq<Field>): string
  {
    if fields == [] then "" else CRLF + FieldLine(fields[0]) + FieldText(fields[1..])
  }

  function Head(m: Message): string
  {
    RequestLine(m) + FieldText(m.fields)
  }

  function Body(m: Message): string
  {
    if m.PostMessage? then m.body else ""
  }

  function Print(m: Message): string
  {
    Head(m) + END_MARKER + Body(m)
  }

  // ---------------------------------------------------------------- well-formed messages

  predicate CleanText(s: string)
  {
    CR !in s && LF !in s
  }

  predicate CleanField(dialect: Dialect, f: Field)
  {
    && CleanText(f.0) && CleanText(f.1)
    && f.0 != "" && f.1 != "" && !Contains(f.0, ": ")
    && (dialect == Cpp11 ==> !Contains(f.1, ": "))
  }

  predicate Distinct(fields: seq<Field>)
  {
    forall i, j :: 0 <= i < j < |fields| ==> fields[i].0 != fields[j].0
  }

  predicate EndsInColon(url: string)
  {
    url != "" && url[|url| - 1] == ':'
  }

  predicate CleanHead(dialect: Dialect, m: Message)
  {
    && CleanText(m.url) && ' ' !in m.url
    && (forall i :: 0 <= i < |m.fields| ==> CleanField(dialect, m.fields[i]))
    && Distinct(m.fields)
  }

  /** The declared length of a POST is that of its body and no more than the parser takes. */
  predicate CorrectLength(fields: seq<Field>, body: string)
  {
    && |body| <= POST_MAX_CONTENT_LENGTH
    && exists i :: 0 <= i < |fields| && fields[i].0 == CONTENT_LENGTH
         && IsDigits(fields[i].1) && Value(fields[i].1) == |body|
  }

  predicate WellFormed(dialect: Dialect, m: Message)
  {
    && CleanHead(dialect, m) && !EndsInColon(m.url)
    && (m.PostMessage? ==> CorrectLength(m.fields, m.body) && !Contains(m.body, END_MARKER))
  }

  /** The fields as a map. */
  function Dict(fields: seq<Field>): map<string, string>
  {
    if fields == [] then map[] else map[fields[0].0 := fields[0].1] + Dict(fields[1..])
  }

  lemma {:induction false} DictHolds(fields: seq<Field>)
    requires Distinct(fields)
    ensures forall i :: 0 <= i < |fields| ==> fields[i].0 in Dict(fields) && Dict(fields)[fields[i].0] == fields[i].1
    ensures forall k :: k in Dict(fields) ==> exists i :: 0 <= i < |fields| && fields[i].0 == k
    decreases |fields|
  {
    if fields != [] {
      var rest := fields[1..];
      DictHolds(rest);
      forall i | 0 <= i < |fields|
        ensures fields[i].0 in Dict(fields) && Dict(fields)[fields[i].0] == fields[i].1
      {
        if i > 0 {
          assert rest[i - 1] == fields[i];
        }
      }
      forall k | k in Dict(fields)
        ensures exists i :: 0 <= i < |fields| && fields[i].0 == k
      {
        if k in Dict(rest) {
          var j :| 0 <= j < |rest| && rest[j].0 == k;
          assert fields[j + 1].0 == k;
        } else {
          assert fields[0].0 == k;
        }
      }
    }
  }

  /** The request a message stands for. */
  function Expected(m: Message): Request
  {
    Request(Http11, if m.GetMessage? then Get else Post, Dict(m.fields), m.url, Body(m),
            if m.GetMessage? then Params(m.url) else map[])
  }

  // ---------------------------------------------------------------- header fields read back

  function Entry(dialect: Dialect, line: string): Option<Field>
  {
    if dialect == Cpp23 then Entry23(line) else Entry11(line)
  }

  function SectionEntries(dialect: Dialect, piece: string): seq<Option<Field>>
  {
    if dialect == Cpp23 then Entries23(Lines23(piece)) else Entries11(Lines11(piece))
  }

  function Somes(fields: seq<Field>): (es: seq<Option<Field>>)
    ensures |es| == |fields|
  {
    seq(|fields|, i requires 0 <= i < |fields| => Some(fields[i]))
  }

  /** The name and the value of a printed field are around its first ": ". */
  lemma FieldSplit(f: Field)
    requires f.0 != "" && f.1 != "" && !Contains(f.0, ": ")
    ensures Entry23(FieldLine(f)) == Some(f)
    ensures forall j :: 0 <= j < |f.0| + 2 && j != |f.0| ==> !MatchAt(FieldLine(f), ": ", j)
  {
    hide Contains;
    var line := FieldLine(f);
    assert line == f.0 + (": " + f.1);
    SepMatch(line, |f.0|);
    SepMatch(line, |f.0| + 1);
    forall j | 0 <= j < |f.0|
      ensures !MatchAt(line, ": ", j)
    {
      if j + 2 <= |f.0| {
        MatchInPrefix(f.0, ": " + f.1, ": ", j);
        NoMatch(f.0, ": ", j);
      } else {
        SepMatch(line, j);
      }
    }
    assert Find(line, ": ") == |f.0|;
    assert line[..|f.0|] == f.0 && line[|f.0| + 2..] == f.1;
  }

  lemma NoMatch(s: string, d: string, j: int)
    requires !Contains(s, d)
    ensures !MatchAt(s, d, j)
  {
  }

  /** A value without ": " leaves the line with one. */
  lemma FieldAgrees(f: Field)
    requires f.0 != "" && f.1 != "" && !Contains(f.0, ": ") && !Contains(f.1, ": ")
    ensures Entry11(FieldLine(f)) == Some(f)
  {
    hide Contains;
    hide Entry23;
    hide Entry11;
    var line := FieldLine(f);
    FieldSplit(f);
    forall j | MatchAt(line, ": ", j)
      ensures j == |f.0|
    {
      if j >= |f.0| + 2 {
        assert line == (f.0 + ": ") + f.1;
        MatchInSuffix(f.0 + ": ", f.1, ": ", j);
        NoMatch(f.1, ": ", j - |f.0| - 2);
      }
    }
    LineAgreement(line);
  }

  /**
   A line is a field exactly when it is one printed: a name and a value, neither empty, around the
   first ": ".
   */
  lemma EntryIsField(line: string, f: Field)
    ensures Entry23(line) == Some(f) <==> line == FieldLine(f) && f.0 != "" && f.1 != "" && !Contains(f.0, ": ")
  {
    if line == FieldLine(f) && f.0 != "" && f.1 != "" && !Contains(f.0, ": ") {
      FieldSplit(f);
    }
    if Entry23(line) == Some(f) {
      var p := Find(line, ": ");
      assert line == line[..p] + line[p..p + 2] + line[p + 2..];
      forall j | 0 <= j
        ensures !MatchAt(line[..p], ": ", j)
      {
        if j + 2 <= p {
          assert line == line[..p] + line[p..];
          MatchInPrefix(line[..p], line[p..], ": ", j);
        }
      }
    }
  }

  /** The C++11 parser wants the ": " to be the only one. */
  lemma EntryIsPlainField(line: string, f: Field)
    ensures Entry11(line) == Some(f) <==>
            line == FieldLine(f) && f.0 != "" && f.1 != "" && !Contains(f.0, ": ") && !Contains(f.1, ": ")
  {
    hide Entry11;
    hide Entry23;
    hide Contains;
    OnlyMore(line);
    EntryIsField(line, f);
    if line == FieldLine(f) && f.0 != "" && f.1 != "" && !Contains(f.0, ": ") && !Contains(f.1, ": ") {
      FieldAgrees(f);
    }
    if Entry11(line) == Some(f) {
      OneSepLeft(line, f);
    }
  }

  lemma OneSepLeft(line: string, f: Field)
    requires line == FieldLine(f) && f.0 != "" && AgreeableLine(line)
    requires !Contains(f.0, ": ") && f.1 != ""
    ensures !Contains(f.1, ": ")
  {
    hide Contains;
    FieldSplit(f);
    SepMatch(line, |f.0|);
    assert line == (f.0 + ": ") + f.1;
    var p := Find(f.1, ": ");
    if p != NPOS {
      MatchInSuffix(f.0 + ": ", f.1, ": ", |f.0| + 2 + p);
    }
    NotFound(f.1, ": ");
  }

  lemma NotFound(s: string, d: string)
    ensures Contains(s, d) <==> Find(s, d) != NPOS
  {
  }

  lemma FieldEntry(dialect: Dialect, f: Field)
    requires CleanField(dialect, f)
    ensures Entry(dialect, FieldLine(f)) == Some(f)
    ensures CleanText(FieldLine(f)) && FieldLine(f) != ""
  {
    hide Contains;
    hide Entry23;
    hide Entry11;
    if dialect == Cpp23 {
      FieldSplit(f);
    } else {
      FieldAgrees(f);
    }
  }

  lemma LengthFieldIsClean(dialect: Dialect, digits: string)
    requires digits != "" && IsDigits(digits)
    ensures CleanField(dialect, (CONTENT_LENGTH, digits))
  {
    forall i | 0 <= i < |digits|
      ensures digits[i] != CR && digits[i] != LF && digits[i] != ':'
    {
      assert IsDigit(digits[i]);
    }
    forall j
      ensures !MatchAt(CONTENT_LENGTH, ": ", j) && !MatchAt(digits, ": ", j)
    {
      SepMatch(CONTENT_LENGTH, j);
      SepMatch(digits, j);
    }
  }

  lemma SectionCons(dialect: Dialect, line: string, more: string)
    requires LF !in line
    ensures SectionEntries(dialect, line + CRLF + more) == [Entry(dialect, line)] + SectionEntries(dialect, more)
  {
    hide Lines23;
    hide Lines11;
    hide Entry23;
    hide Entry11;
    Lines23Cons(line, more);
    Lines11Cons(line, more);
    Entries11Step(line, Lines11(more));
  }

  lemma SectionLast(dialect: Dialect, line: string)
    requires CleanText(line) && line != ""
    ensures SectionEntries(dialect, line) == [Entry(dialect, line)]
  {
    hide Lines23;
    hide Lines11;
    hide Entry23;
    hide Entry11;
    Lines23Last(line);
    Lines11Last(line);
  }

  lemma SomesCons(f: Field, rest: seq<Field>)
    ensures Somes([f] + rest) == [Some(f)] + Somes(rest)
  {
  }

  /** A line followed by printed fields is read as that line's field and the fields. */
  lemma {:induction false} SectionReadsBack(dialect: Dialect, line: string, fields: seq<Field>)
    requires CleanText(line) && line != ""
    requires forall i :: 0 <= i < |fields| ==> CleanField(dialect, fields[i])
    ensures SectionEntries(dialect, line + FieldText(fields)) == [Entry(dialect, line)] + Somes(fields)
    decreases |fields|
  {
    hide SectionEntries;
    hide Entry;
    hide CleanField;
    hide Somes;
    hide FieldLine;
    if fields == [] {
      assert line + FieldText(fields) == line;
      SectionLast(dialect, line);
    } else {
      var f, rest := fields[0], fields[1..];
      var more := FieldLine(f) + FieldText(rest);
      assert line + FieldText(fields) == line + CRLF + more;
      FieldEntry(dialect, f);
      SectionReadsBack(dialect, FieldLine(f), rest);
      SectionCons(dialect, line, more);
      SomesCons(f, rest);
      assert fields == [f] + rest;
    }
  }

  // ---------------------------------------------------------------- the request line read back

  lemma SpacesOf(m: Message)
    requires ' ' !in m.url
    ensures var r := RequestLine(m);
            forall i :: 0 <= i < |r| && r[i] == ' ' ==> i == |MethodName(m)| || i == |MethodName(m)| + 1 + |m.url|
  {
    var r, a := RequestLine(m), |MethodName(m)|;
    assert forall i :: a < i < a + 1 + |m.url| ==> r[i] == m.url[i - a - 1];
  }

  /** The field the header parser sees in the request line: one when the URL ends in ':'. */
  function PseudoField(m: Message): Option<Field>
  {
    if EndsInColon(m.url) then Some((MethodName(m) + " " + m.url[..|m.url| - 1], "HTTP/1.1")) else None
  }

  lemma RequestLineEntry(dialect: Dialect, m: Message)
    requires ' ' !in m.url
    ensures Entry(dialect, RequestLine(m)) == PseudoField(m)
  {
    var r, b := RequestLine(m), |MethodName(m)| + 1 + |m.url|;
    SpacesOf(m);
    forall j | MatchAt(r, ": ", j)
      ensures j == b - 1 && EndsInColon(m.url)
    {
      SepMatch(r, j);
    }
    if EndsInColon(m.url) {
      assert r[b - 1] == ':' && r[b] == ' ';
      SepMatch(r, b - 1);
      assert Find(r, ": ") == b - 1;
      assert r[..b - 1] == MethodName(m) + " " + m.url[..|m.url| - 1];
      assert r[b + 1..] == "HTTP/1.1";
    }
    LineAgreement(r);
  }

  lemma LastSpace(s: string, from: nat, p: nat)
    requires p <= from < |s| && s[p] == ' '
    requires forall i :: p < i <= from ==> s[i] != ' '
    ensures RFind(s, " ", from) == p
  {
    forall i | p <= i <= from
      ensures MatchAt(s, " ", i) <==> s[i] == ' '
    {
      CharMatch(s, ' ', i);
    }
    assert MatchAt(s, " ", p);
  }

  lemma NoSpaceBefore(s: string, a: nat)
    requires a <= |s| && forall i :: 0 <= i < a ==> s[i] != ' '
    ensures RTokens(s, a, " ") == [s[..a]]
  {
    hide RTokens;
    RTokensStep(s, a, " ");
    var p := RFind(s, " ", a - 1);
    if p != NPOS {
      CharMatch(s, ' ', p);
    }
  }

  lemma ThreeParts(s: string, a: nat, b: nat, e: nat)
    requires a < b < e <= |s| && s[a] == ' ' && s[b] == ' '
    requires forall i :: 0 <= i < e && s[i] == ' ' ==> i == a || i == b
    ensures RSplitResult(s, e, " ") == [s[b + 1..e], s[a + 1..b], s[..a]]
  {
    hide RTokens;
    LastSpace(s, e - 1, b);
    LastSpace(s, b - 1, a);
    RTokensStep(s, e, " ");
    RTokensStep(s, b, " ");
    NoSpaceBefore(s, a);
  }

  lemma RequestLineParts(m: Message, tail: string)
    requires ' ' !in m.url
    ensures RSplitResult(RequestLine(m) + tail, |RequestLine(m)|, " ") == ["HTTP/1.1", m.url, MethodName(m)]
  {
    var r := RequestLine(m);
    var s := r + tail;
    var a := |MethodName(m)|;
    var b := a + 1 + |m.url|;
    SpacesOf(m);
    assert forall i :: 0 <= i < |r| ==> s[i] == r[i];
    LineSlices(MethodName(m), m.url, " HTTP/1.1", tail);
    assert s[a] == ' ' && s[b] == s[b..|r|][0] == ' ';
    ThreeParts(s, a, b, |r|);
    assert s[b + 1..|r|] == s[b..|r|][1..] == "HTTP/1.1";
  }

  lemma LineSlices(name: string, url: string, version: string, tail: string)
    ensures var s, a := name + " " + url + version + tail, |name|;
            var b := a + 1 + |url|;
            && s[..a] == name && s[a] == ' ' && s[a + 1..b] == url && s[b..b + |version|] == version
  {
  }

  /** The first line ends where a clean line does. */
  lemma LineEnds(piece: string, line: string)
    requires CleanText(line) && (piece == line || line + CRLF <= piece)
    ensures LineEnd(piece) == |line| && piece[..|line|] == line
  {
    if piece == line {
      NoCrlf(line);
    } else {
      var tail := piece[|line| + 2..];
      assert piece == (line + CRLF) + tail;
      assert MatchAt(piece, CRLF, |line|) by { assert piece[|line|..|line| + 2] == (line + CRLF)[|line|..] == CRLF; }
      forall j | 0 <= j < |line|
        ensures !MatchAt(piece, CRLF, j)
      {
        assert piece[j] == line[j];
        if MatchAt(piece, CRLF, j) {
          MatchChar(piece, CRLF, j, 0);
        }
      }
    }
  }

  lemma FirstCrlf(line: string, fields: seq<Field>)
    requires CleanText(line)
    ensures LineEnd(line + FieldText(fields)) == |line|
  {
    var s := line + FieldText(fields);
    if fields == [] {
      assert s == line;
    } else {
      assert s == (line + CRLF) + (FieldLine(fields[0]) + FieldText(fields[1..]));
    }
    LineEnds(s, line);
  }

  lemma MethodNames()
    ensures Contains("GET", "GET") && Contains("POST", "POST") && !Contains("POST", "GET")
    ensures Contains("HTTP/1.1", "HTTP/1.1")
  {
    assert MatchAt("GET", "GET", 0) && MatchAt("POST", "POST", 0) && MatchAt("HTTP/1.1", "HTTP/1.1", 0);
    forall j | 0 <= j <= 1
      ensures !MatchAt("POST", "GET", j)
    {
      if MatchAt("POST", "GET", j) {
        MatchChar("POST", "GET", j, 0);
      }
    }
  }

  lemma BaseReadsBack(m: Message)
    requires CleanText(m.url) && ' ' !in m.url
    ensures ParseBase(Head(m), UNPARSED) ==
            (UNPARSED.(version := Http11, httpMethod := if m.GetMessage? then Get else Post, url := m.url), true)
  {
    hide FieldText;
    hide LineEnd;
    hide RSplitResult;
    hide Contains;
    FirstCrlf(RequestLine(m), m.fields);
    RequestLineParts(m, FieldText(m.fields));
    MethodNames();
  }

  lemma HeadersOfHead(dialect: Dialect, m: Message)
    requires CleanHead(dialect, m)
    ensures Headers(dialect, Head(m)) == EmplaceAll(map[], [PseudoField(m)] + Somes(m.fields))
    ensures Headers(dialect, Head(m)) == EmplaceAll(Emplace(map[], PseudoField(m)), Somes(m.fields))
  {
    SectionReadsBack(dialect, RequestLine(m), m.fields);
    RequestLineEntry(dialect, m);
    assert ([PseudoField(m)] + Somes(m.fields))[1..] == Somes(m.fields);
  }

  lemma PlainFieldsReadBack(dialect: Dialect, m: Message)
    requires CleanHead(dialect, m) && !EndsInColon(m.url)
    ensures Headers(dialect, Head(m)) == Dict(m.fields)
  {
    HeadersOfHead(dialect, m);
    EmplaceKnown(map[], m.fields);
    assert map[] + Dict(m.fields) == Dict(m.fields);
  }

  lemma FirstFieldAbsorbed(f: Field, fields: seq<Field>)
    requires Distinct(fields)
    ensures EmplaceAll(map[f.0 := f.1], Somes(fields)) == Dict(fields) <==> f in fields
  {
    var m := map[f.0 := f.1];
    DictHolds(fields);
    if f in fields {
      EmplaceKnown(m, fields);
      assert m + Dict(fields) == Dict(fields);
    } else {
      EmplaceAllKeepsFirst(m, Somes(fields), f.0);
    }
  }

  /**
   The header fields of a printed message are read back exactly when its URL does not end in
   ':' or its fields hold the pseudo field such a request line is taken for.
   */
  lemma FieldsReadBack(dialect: Dialect, m: Message)
    requires CleanHead(dialect, m)
    ensures Headers(dialect, Head(m)) == Dict(m.fields) <==>
            (!EndsInColon(m.url) || PseudoField(m).value in m.fields)
  {
    if EndsInColon(m.url) {
      HeadersOfHead(dialect, m);
      FirstFieldAbsorbed(PseudoField(m).value, m.fields);
    } else {
      PlainFieldsReadBack(dialect, m);
    }
  }

  lemma EmplaceOne(m: map<string, string>, f: Field, rest: seq<Field>)
    requires f.0 in m ==> m[f.0] == f.1
    ensures EmplaceAll(m, Somes([f] + rest)) == EmplaceAll(m[f.0 := f.1], Somes(rest))
  {
    SomesCons(f, rest);
    assert Somes([f] + rest)[1..] == Somes(rest);
    assert Emplace(m, Some(f)) == m[f.0 := f.1];
  }

  lemma MergeOne(m: map<string, string>, f: Field, rest: seq<Field>)
    requires f.0 !in Dict(rest)
    ensures m[f.0 := f.1] + Dict(rest) == m + Dict([f] + rest)
  {
    assert ([f] + rest)[1..] == rest;
  }

  lemma {:induction false} EmplaceKnown(m: map<string, string>, fields: seq<Field>)
    requires Distinct(fields)
    requires forall i :: 0 <= i < |fields| && fields[i].0 in m ==> m[fields[i].0] == fields[i].1
    ensures EmplaceAll(m, Somes(fields)) == m + Dict(fields)
    decreases |fields|
  {
    hide EmplaceAll;
    hide Dict;
    hide Somes;
    if fields == [] {
      NothingToEmplace(m);
    } else {
      var f, rest := fields[0], fields[1..];
      assert fields == [f] + rest;
      forall i | 0 <= i < |rest|
        ensures rest[i] == fields[i + 1] && rest[i].0 != f.0
      {
      }
      DictHolds(rest);
      EmplaceOne(m, f, rest);
      EmplaceKnown(m[f.0 := f.1], rest);
      MergeOne(m, f, rest);
    }
  }

  lemma NothingToEmplace(m: map<string, string>)
    ensures EmplaceAll(m, Somes([])) == m + Dict([])
  {
    assert m + Dict([]) == m;
  }

  // ---------------------------------------------------------------- the end marker

  lemma MarkerChars(s: string, j: int)
    requires MatchAt(s, END_MARKER, j)
    ensures s[j] == CR && s[j + 1] == LF && s[j + 2] == CR && s[j + 3] == LF
  {
    MatchChar(s, END_MARKER, j, 0);
    MatchChar(s, END_MARKER, j, 1);
    MatchChar(s, END_MARKER, j, 2);
    MatchChar(s, END_MARKER, j, 3);
  }

  /** Every CR is followed, two places on and inside the text, by something else than CR. */
  predicate Tight(t: string)
  {
    forall j :: 0 <= j < |t| && t[j] == CR ==> j + 2 < |t| && t[j + 2] != CR
  }

  /** A marker-free body followed by a tight header section is one piece. */
  lemma TightIsClean(body: string, t: string)
    requires !Contains(body, END_MARKER)
    requires t != "" && t[0] != CR && t[0] != LF && Tight(t)
    ensures CleanToken(body + t, END_MARKER)
  {
    var s := body + t + END_MARKER;
    var n := |body| + |t|;
    assert MatchAt(s, END_MARKER, n) by { assert s[n..n + 4] == END_MARKER; }
    assert forall i :: 0 <= i < |t| ==> s[|body| + i] == t[i];
    forall j | 0 <= j < n
      ensures !MatchAt(s, END_MARKER, j)
    {
      if j + 4 <= |body| {
        assert s == body + (t + END_MARKER);
        MatchInPrefix(body, t + END_MARKER, END_MARKER, j);
      } else if MatchAt(s, END_MARKER, j) {
        MarkerChars(s, j);
        assert false;
      }
    }
  }

  lemma {:induction false} SectionIsTight(dialect: Dialect, line: string, fields: seq<Field>)
    requires CleanText(line) && line != ""
    requires forall i :: 0 <= i < |fields| ==> CleanField(dialect, fields[i])
    ensures Tight(line + FieldText(fields))
    decreases |fields|
  {
    if fields != [] {
      var f, rest := fields[0], fields[1..];
      FieldEntry(dialect, f);
      var more := FieldLine(f) + FieldText(rest);
      SectionIsTight(dialect, FieldLine(f), rest);
      var t := line + FieldText(fields);
      assert t == line + CRLF + more;
      forall j | 0 <= j < |t| && t[j] == CR
        ensures j + 2 < |t| && t[j + 2] != CR
      {
        if j >= |line| + 2 {
          assert t[j] == more[j - |line| - 2];
          assert t[j + 2] == more[j - |line|];
        } else {
          assert j == |line| && t[j + 2] == FieldLine(f)[0];
        }
      }
    }
  }

  lemma HeadIsClean(dialect: Dialect, body: string, m: Message)
    requires CleanHead(dialect, m) && !Contains(body, END_MARKER)
    ensures CleanToken(body + Head(m), END_MARKER)
  {
    assert CleanText(RequestLine(m)) by {
      assert CleanText(MethodName(m)) && CleanText(" ") && CleanText(" HTTP/1.1");
    }
    SectionIsTight(dialect, RequestLine(m), m.fields);
    TightIsClean(body, Head(m));
  }

  // ---------------------------------------------------------------- what the machine needs

  function ParcelOf(m: Message): Parcel
  {
    Parcel(Head(m), Body(m), Expected(m))
  }

  lemma DeclaredLength(dialect: Dialect, m: Message)
    requires WellFormed(dialect, m) && m.PostMessage?
    ensures Declares(Expected(m), |m.body|)
  {
    DictHolds(m.fields);
    var i :| 0 <= i < |m.fields| && m.fields[i].0 == CONTENT_LENGTH
      && IsDigits(m.fields[i].1) && Value(m.fields[i].1) == |m.body|;
    assert CleanField(dialect, m.fields[i]);
  }

  /** Every well-formed message is read back from its header section, and splits off cleanly. */
  lemma WellFormedReadsBack(dialect: Dialect, m: Message)
    requires WellFormed(dialect, m)
    ensures Ready(ParserOf(dialect), ParcelOf(m))
  {
    BaseReadsBack(m);
    PlainFieldsReadBack(dialect, m);
    if m.PostMessage? {
      DeclaredLength(dialect, m);
    }
    assert !Contains("", END_MARKER);
    forall body | !Contains(body, END_MARKER)
      ensures CleanToken(body + Head(m), END_MARKER)
    {
      HeadIsClean(dialect, body, m);
    }
  }

  lemma PrintIsText(m: Message)
    ensures Print(m) == TextOf(ParcelOf(m))
  {
  }
}
