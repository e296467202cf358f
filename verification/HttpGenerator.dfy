/**
 The response header text of lib/http/httpgenerator.cpp, and that the header parser of
 lib/http/httpparser.cpp reads it back.
 */
module HttpGenerator {
  import opened Wrappers
  import opened Text
  import opened HttpMessage
  import opened HttpDialects
  import opened HttpPrint

  const HEADER_BUFFER_SIZE := 254

  function StatusLine(code: nat, text: string): string
  {
    "HTTP/1.1 " + ToString(code) + " " + text
  }

  function HeaderLines(fields: seq<Field>): string
  {
    if fields == [] then "" else FieldLine(fields[0]) + CRLF + HeaderLines(fields[1..])
  }

  function ResponseText(code: nat, text: string, fields: seq<Field>, bodyLength: nat): string
  {
    StatusLine(code, text) + CRLF + HeaderLines(fields) + FieldLine((CONTENT_LENGTH, ToString(bodyLength))) + CRLF + CRLF
  }

  lemma HeaderLinesFrom(fields: seq<Field>, i: nat)
    requires i < |fields|
    ensures HeaderLines(fields[i..]) == FieldLine(fields[i]) + CRLF + HeaderLines(fields[i + 1..])
  {
    assert fields[i..][1..] == fields[i + 1..];
  }

  lemma HeaderLinesEnd(fields: seq<Field>)
    ensures HeaderLines(fields[|fields|..]) == ""
  {
  }

  /** The fields in the order the map is gone through. */
  function FieldsOf(headers: map<string, string>, order: seq<string>): (fields: seq<Field>)
    requires forall i :: 0 <= i < |order| ==> order[i] in headers
    ensures |fields| == |order|
  {
    seq(|order|, i requires 0 <= i < |order| => (order[i], headers[order[i]]))
  }

  /** `order` goes through the keys of the map, each once. */
  ghost predicate IsOrder(headers: map<string, string>, order: seq<string>)
  {
    && (forall i, j :: 0 <= i < j < |order| ==> order[i] != order[j])
    && (forall i :: 0 <= i < |order| ==> order[i] in headers)
    && (forall k :: k in headers ==> k in order)
  }

  class HTTPGenerator {
    var statusCode: nat
    var statusText: string
    var headers: map<string, string>
    var bodyLength: nat
    var headerLength: nat
    const headerBuffer: array<char>

    /** As in C++, the body and header lengths are not set until they are asked for. */
    constructor ()
      ensures statusCode == 200 && statusText == "OK" && headers == map[]
      ensures fresh(headerBuffer) && headerBuffer.Length == HEADER_BUFFER_SIZE
    {
      statusCode, statusText, headers := 200, "OK", map[];
      headerBuffer := new char[HEADER_BUFFER_SIZE](_ => '\0');
    }

    method MsgReset()
      modifies this
      ensures statusCode == 200 && statusText == "OK" && headers == map[] && bodyLength == 0 && headerLength == 0
    {
      statusCode, statusText := 200, "OK";
      headerLength, bodyLength := 0, 0;
      headers := map[];
    }

    method MsgSetStatus(code: nat, text: string)
      modifies this`statusCode, this`statusText
      ensures statusCode == code && statusText == text
    {
      statusCode, statusText := code, text;
    }

    /** `emplace`: a header already present keeps its value. */
    method MsgAddHeader(id: string, value: string)
      modifies this`headers
      ensures headers == Emplace(old(headers), Some((id, value)))
    {
      if id !in headers {
        headers := headers[id := value];
      }
    }

    method MsgSetBodyRef(length: nat)
      modifies this`bodyLength
      ensures bodyLength == length
    {
      bodyLength := length;
    }

    /**
     The text is copied into the header buffer without a check. `inBounds` says whether it fits;
     if not, the source writes past the buffer, and nothing is said of what is in it.
     */
    method MsgGenerate(order: seq<string>) returns (inBounds: bool)
      requires IsOrder(headers, order) && headerBuffer.Length == HEADER_BUFFER_SIZE
      modifies this`headerLength, headerBuffer
      ensures var text := ResponseText(statusCode, statusText, FieldsOf(headers, order), bodyLength);
              && headerLength == |text| && (inBounds <==> |text| <= 254)
              && (inBounds ==> headerBuffer[..headerLength] == text)
    {
      hide ToString;
      hide FieldsOf;
      hide IsOrder;
      hide HeaderLines;
      OrderInside(headers, order);
      var message := "HTTP/1.1 " + ToString(statusCode) + " " + statusText + "\r\n";
      ghost var fields := FieldsOf(headers, order);
      ghost var line := message;
      for i := 0 to |order|
        invariant message + HeaderLines(fields[i..]) == line + HeaderLines(fields)
      {
        FieldsAt(headers, order, i);
        HeaderLinesFrom(fields, i);
        message := message + FieldLine((order[i], headers[order[i]])) + "\r\n";
      }
      HeaderLinesEnd(fields);
      message := message + "Content-Length: " + ToString(bodyLength) + "\r\n";
      message := message + "\r\n";
      assert message == ResponseText(statusCode, statusText, fields, bodyLength);
      headerLength := |message|;
      inBounds := headerLength <= headerBuffer.Length;
      if inBounds {
        CopyToBuffer(message);
      }
    }

    /** `string::copy` into the header buffer. */
    method CopyToBuffer(message: string)
      requires |message| <= headerBuffer.Length
      modifies headerBuffer
      ensures headerBuffer[..|message|] == message
    {
      for i := 0 to |message|
        invariant headerBuffer[..i] == message[..i]
      {
        headerBuffer[i] := message[i];
      }
    }
  }

  lemma OrderInside(headers: map<string, string>, order: seq<string>)
    requires IsOrder(headers, order)
    ensures forall i :: 0 <= i < |order| ==> order[i] in headers
  {
  }

  lemma FieldsAt(headers: map<string, string>, order: seq<string>, i: nat)
    requires i < |order| && forall i :: 0 <= i < |order| ==> order[i] in headers
    ensures FieldsOf(headers, order)[i] == (order[i], headers[order[i]])
  {
  }

  // ---------------------------------------------------------------- reading it back

  lemma {:induction false} LinesAsText(fields: seq<Field>)
    ensures CRLF + HeaderLines(fields) == FieldText(fields) + CRLF
    decreases |fields|
  {
    if fields == [] {
      assert CRLF + HeaderLines(fields) == CRLF == FieldText(fields) + CRLF;
    } else {
      LinesAsText(fields[1..]);
      var l, rest, text := FieldLine(fields[0]), HeaderLines(fields[1..]), FieldText(fields[1..]);
      assert CRLF + (l + CRLF + rest) == CRLF + l + (CRLF + rest);
      assert CRLF + l + (text + CRLF) == (CRLF + l + text) + CRLF;
    }
  }

  lemma {:induction false} FieldTextMore(fields: seq<Field>, f: Field)
    ensures FieldText(fields + [f]) == FieldText(fields) + CRLF + FieldLine(f)
    decreases |fields|
  {
    if fields == [] {
      assert (fields + [f])[1..] == [];
    } else {
      assert (fields + [f])[1..] == fields[1..] + [f];
      FieldTextMore(fields[1..], f);
    }
  }

  function AllFields(fields: seq<Field>, bodyLength: nat): seq<Field>
  {
    fields + [(CONTENT_LENGTH, ToString(bodyLength))]
  }

  lemma ResponseAsSection(code: nat, text: string, fields: seq<Field>, bodyLength: nat)
    ensures ResponseText(code, text, fields, bodyLength)
         == StatusLine(code, text) + FieldText(AllFields(fields, bodyLength)) + CRLF + CRLF
  {
    hide HeaderLines;
    hide FieldText;
    hide FieldLine;
    hide StatusLine;
    var s, f := StatusLine(code, text), (CONTENT_LENGTH, ToString(bodyLength));
    LinesAsText(fields);
    FieldTextMore(fields, f);
    var l, lines, t := FieldLine(f), HeaderLines(fields), FieldText(fields);
    calc {
      s + CRLF + lines + l + CRLF + CRLF;
      s + (CRLF + lines) + l + CRLF + CRLF;
      s + (t + CRLF) + l + CRLF + CRLF;
      s + (t + CRLF + l) + CRLF + CRLF;
    }
  }

  /** A line, printed fields and the end of a header section, read line by line. */
  lemma {:induction false} TerminatedReadsBack(line: string, fields: seq<Field>)
    requires CleanText(line)
    requires forall i :: 0 <= i < |fields| ==> CleanField(Cpp23, fields[i])
    ensures Entries23(Lines23(line + FieldText(fields) + CRLF + CRLF)) == [Entry23(line)] + Somes(fields) + [None]
    decreases |fields|
  {
    hide Lines23;
    hide Entry23;
    hide CleanField;
    var s := line + FieldText(fields) + CRLF + CRLF;
    if fields == [] {
      assert s == line + CRLF + CRLF;
      Lines23Cons(line, CRLF);
      LastLineEmpty();
    } else {
      var f, rest := fields[0], fields[1..];
      var more := FieldLine(f) + FieldText(rest) + CRLF + CRLF;
      assert s == line + CRLF + more;
      FieldEntry(Cpp23, f);
      TerminatedReadsBack(FieldLine(f), rest);
      Lines23Cons(line, more);
      assert Somes(fields) == [Some(f)] + Somes(rest);
    }
  }

  lemma LastLineEmpty()
    ensures Entries23(Lines23(CRLF)) == [None]
  {
    var none: string := "";
    assert none + CRLF + none == CRLF;
    Lines23Cons(none, none);
    assert !Contains(none, "\n") && !Contains(none, ": ");
    NothingToSplit(none, "\n");
  }

  lemma StatusIsClean(code: nat, text: string)
    requires CleanText(text)
    ensures CleanText(StatusLine(code, text))
  {
    var digits := ToString(code);
    forall i | 0 <= i < |digits|
      ensures digits[i] != CR && digits[i] != LF
    {
      assert IsDigit(digits[i]);
    }
    assert CleanText(digits) && CleanText("HTTP/1.1 ") && CleanText(" ");
  }

  /** The field the header parser sees in the status line: one if text follows a ": " in the status text. */
  function StatusField(code: nat, text: string): Option<Field>
  {
    var p := Find(text, ": ");
    if p == NPOS || p + 2 == |text| then None
    else Some(("HTTP/1.1 " + ToString(code) + " " + text[..p], text[p + 2..]))
  }

  /**
   The generated text is read back as its header fields and the body length exactly when the
   status text has no ": " with text after it, or makes a field that is one of the fields.
   */
  lemma ResponseReadsBack(code: nat, text: string, fields: seq<Field>, bodyLength: nat)
    requires CleanText(text) && Distinct(AllFields(fields, bodyLength))
    requires forall i :: 0 <= i < |fields| ==> CleanField(Cpp23, fields[i])
    ensures var all, p := AllFields(fields, bodyLength), Find(text, ": ");
            && (Headers(Cpp23, ResponseText(code, text, fields, bodyLength)) == Dict(all)
                <==> p == NPOS || p + 2 == |text| || StatusField(code, text).value in all)
            && CONTENT_LENGTH in Dict(all) && IsDigits(Dict(all)[CONTENT_LENGTH])
            && Value(Dict(all)[CONTENT_LENGTH]) == bodyLength
  {
    hide Entry23;
    hide ToString;
    hide Headers;
    ResponseEntries(code, text, fields, bodyLength);
    var all := AllFields(fields, bodyLength);
    ReadWithStatus(StatusField(code, text), all);
    DictHolds(all);
    assert all[|fields|] == (CONTENT_LENGTH, ToString(bodyLength));
    ToStringValue(bodyLength);
  }

  lemma ResponseEntries(code: nat, text: string, fields: seq<Field>, bodyLength: nat)
    requires CleanText(text)
    requires forall i :: 0 <= i < |fields| ==> CleanField(Cpp23, fields[i])
    ensures Headers(Cpp23, ResponseText(code, text, fields, bodyLength))
         == EmplaceAll(map[], [StatusField(code, text)] + Somes(AllFields(fields, bodyLength)) + [None])
  {
    hide Entry23;
    hide StatusField;
    hide Lines23;
    hide EmplaceAll;
    hide Somes;
    hide CleanField;
    var all, line := AllFields(fields, bodyLength), StatusLine(code, text);
    LengthFieldIsClean(Cpp23, ToString(bodyLength));
    ResponseAsSection(code, text, fields, bodyLength);
    StatusIsClean(code, text);
    TerminatedReadsBack(line, all);
    StatusEntry(code, text);
  }

  lemma ReadWithStatus(status: Option<Field>, all: seq<Field>)
    requires Distinct(all)
    ensures EmplaceAll(map[], [status] + Somes(all) + [None]) == Dict(all) <==> status.None? || status.value in all
  {
    var es := [status] + Somes(all);
    EmplaceNone(map[], es);
    assert es[1..] == Somes(all);
    if status.None? {
      EmplaceKnown(map[], all);
      assert map[] + Dict(all) == Dict(all);
    } else {
      FirstFieldAbsorbed(status.value, all);
    }
  }

  lemma FindIs(s: string, d: string, q: int)
    requires q == NPOS || MatchAt(s, d, q)
    requires forall j :: 0 <= j && (q == NPOS || j < q) ==> !MatchAt(s, d, j)
    ensures Find(s, d) == q
  {
    var r := Find(s, d);
    if r != NPOS && q != NPOS {
      assert !(r < q) && !(q < r);
    }
  }

  /** What the header parser makes of a status line is decided by the status text. */
  lemma StatusEntry(code: nat, text: string)
    ensures Entry23(StatusLine(code, text)) == StatusField(code, text)
  {
    hide ToString;
    var digits, p := ToString(code), Find(text, ": ");
    var head := "HTTP/1.1 " + digits + " ";
    var s := StatusLine(code, text);
    assert s == head + text;
    forall j | 0 <= j < |head|
      ensures !MatchAt(s, ": ", j)
    {
      SepMatch(s, j);
      assert s[j] == head[j];
      assert 9 <= j < |head| - 1 ==> IsDigit(digits[j - 9]) && head[j] == digits[j - 9];
    }
    forall j | |head| <= j
      ensures MatchAt(s, ": ", j) <==> MatchAt(text, ": ", j - |head|)
    {
      MatchInSuffix(head, text, ": ", j);
    }
    if p != NPOS {
      MatchInSuffix(head, text, ": ", |head| + p);
    }
    var q := if p == NPOS then NPOS else |head| + p;
    FindIs(s, ": ", q);
    if p != NPOS {
      assert s[..q] == head + text[..p] && s[q + 2..] == text[p + 2..];
    }
  }

  /** Status 200 with the text "a: b" gives the reader a field that nobody set. */
  lemma StatusReadAsField()
    ensures Headers(Cpp23, ResponseText(200, "a: b", [], 0)) != Dict(AllFields([], 0))
  {
    var text := "a: b";
    SepMatch(text, 1);
    assert !MatchAt(text, ": ", 0) by { SepMatch(text, 0); }
    assert Find(text, ": ") == 1;
    assert text[1 + 2..] == "b" && StatusField(200, text).value.1 == text[1 + 2..];
    assert IsDigits(ToString(0));
    assert ToString(0)[0] != 'b' by { assert IsDigit(ToString(0)[0]); }
    ResponseReadsBack(200, text, [], 0);
  }

  /** The fields in any order of going through the map make up the map. */
  lemma OrderDoesNotMatter(headers: map<string, string>, order: seq<string>)
    requires IsOrder(headers, order)
    ensures Distinct(FieldsOf(headers, order)) && Dict(FieldsOf(headers, order)) == headers
  {
    hide Dict;
    var fields := FieldsOf(headers, order);
    DictHolds(fields);
    forall k | k in headers
      ensures k in Dict(fields) && Dict(fields)[k] == headers[k]
    {
      var i :| 0 <= i < |order| && order[i] == k;
      assert fields[i].0 == k;
    }
    assert forall k :: k in Dict(fields) ==> k in headers;
  }

  predicate CleanHeaders(headers: map<string, string>)
  {
    forall k :: k in headers ==> CleanField(Cpp23, (k, headers[k]))
  }

  /**
   The generator and the parser agree: for a clean status text, a map of clean headers without
   Content-Length, any order of going through it and any body length, the header parser recovers
   exactly the map and the Content-Length, whose digits read as the body length.
   */
  lemma GeneratorRoundTrip(code: nat, text: string, headers: map<string, string>, order: seq<string>, bodyLength: nat)
    requires CleanText(text) && !Contains(text, ": ")
    requires CleanHeaders(headers) && CONTENT_LENGTH !in headers && IsOrder(headers, order)
    ensures Headers(Cpp23, ResponseText(code, text, FieldsOf(headers, order), bodyLength))
         == headers[CONTENT_LENGTH := ToString(bodyLength)]
    ensures Value(ToString(bodyLength)) == bodyLength
  {
    var fields := FieldsOf(headers, order);
    OrderDoesNotMatter(headers, order);
    forall i | 0 <= i < |fields|
      ensures CleanField(Cpp23, fields[i]) && fields[i].0 != CONTENT_LENGTH
    {
      assert order[i] in headers;
    }
    ResponseReadsBack(code, text, fields, bodyLength);
    DictMore(fields, (CONTENT_LENGTH, ToString(bodyLength)));
    ToStringValue(bodyLength);
  }

  lemma {:induction false} DictMore(fields: seq<Field>, f: Field)
    ensures Dict(fields + [f]) == Dict(fields)[f.0 := f.1]
    decreases |fields|
  {
    if fields == [] {
      assert (fields + [f])[1..] == [];
    } else {
      assert (fields + [f])[1..] == fields[1..] + [f];
      DictMore(fields[1..], f);
    }
  }

  // ---------------------------------------------------------------- the status line and the end

  /**
   What a client reads of a response before its fields: everything up to the first CRLF is "HTTP/1.1",
   the digits of the code, and the status text; and the header section ends with the text, at its
   first end marker, so that the bytes after it are the body.
   */
  lemma StatusReadsBack(code: nat, text: string, fields: seq<Field>, bodyLength: nat, body: string)
    requires CleanText(text) && forall i :: 0 <= i < |fields| ==> CleanField(Cpp23, fields[i])
    ensures var s := ResponseText(code, text, fields, bodyLength);
            var digits := ToString(code);
            && s[..LineEnd(s)] == "HTTP/1.1 " + digits + " " + text && IsDigits(digits) && Value(digits) == code
            && Find(s + body, END_MARKER) == |s| - |END_MARKER|
            && (s + body)[|s|..] == body
  {
    hide ToString;
    hide FieldText;
    hide LineEnd;
    hide ResponseText;
    var s, all, line := ResponseText(code, text, fields, bodyLength), AllFields(fields, bodyLength), StatusLine(code, text);
    ToStringValue(code);
    LengthFieldIsClean(Cpp23, ToString(bodyLength));
    ResponseAsSection(code, text, fields, bodyLength);
    StatusIsClean(code, text);
    var head, none: string := line + FieldText(all), "";
    assert forall i :: 0 <= i < |all| ==> CleanField(Cpp23, all[i]);
    assert s == head + END_MARKER;
    LineInResponse(line, all, s);
    SectionIsTight(Cpp23, line, all);
    assert !Contains(none, END_MARKER) && none + head == head;
    TightIsClean(none, head);
    FirstToken(head, body, END_MARKER);
  }

  lemma StartsWith(a: string, b: string, c: string, d: string)
    ensures a + b <= a + (b + c) + d
  {
    assert a + (b + c) + d == (a + b) + (c + d);
  }

  lemma FieldsStart(fields: seq<Field>)
    requires fields != []
    ensures FieldText(fields) == CRLF + (FieldLine(fields[0]) + FieldText(fields[1..]))
  {
    hide FieldLine;
  }

  lemma LineInResponse(line: string, fields: seq<Field>, s: string)
    requires CleanText(line) && fields != [] && s == line + FieldText(fields) + END_MARKER
    ensures LineEnd(s) == |line| && s[..|line|] == line
  {
    hide FieldLine;
    hide FieldText;
    hide LineEnd;
    hide CleanText;
    FieldsStart(fields);
    StartsWith(line, CRLF, FieldLine(fields[0]) + FieldText(fields[1..]), END_MARKER);
    LineEnds(s, line);
  }
}
