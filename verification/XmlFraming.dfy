/**
 Framing of NLAP messages in a byte buffer, `splitMessages` of lib/xml/xmlparser.cpp, and the
 driver `XMLParser::parse` around it. The XML library is an oracle that gives each message an
 error code and, for code 0, a result.
 */
module XmlFraming {
  import opened Wrappers
  import opened Text

  const START := "<NLAP>"
  const END := "</NLAP>"
  const ERROR_INVALID_SYNTAX := 20
  const ERROR_INVALID_FRAMING := 30

  // ---------------------------------------------------------------- what is framed

  /** The messages framed, and whether framing stopped at a gap between two of them. */
  datatype Framed = Framed(messages: seq<string>, gap: bool)

  /** The frames of what is left of the buffer; `first` until a message has been framed. */
  function Frame(s: string, first: bool): Framed
    decreases |s|
  {
    var start := Find(s, START);
    if start == NPOS then Framed([], false)
    else if !first && start != 0 then Framed([], true)
    else
      var end := FindFrom(s, END, start);
      if end == NPOS then Framed([], false)
      else
        var rest := Frame(s[end + |END|..], false);
        Framed([s[start..end + |END|]] + rest.messages, rest.gap)
  }

  lemma FrameStep(s: string, first: bool)
    requires Find(s, START) != NPOS && (first || Find(s, START) == 0)
    requires FindFrom(s, END, Find(s, START)) != NPOS
    ensures var start := Find(s, START);
            var end := FindFrom(s, END, start) + |END|;
            var rest := Frame(s[end..], false);
            Frame(s, first) == Framed([s[start..end]] + rest.messages, rest.gap)
  {
  }

  lemma FrameStop(s: string, first: bool)
    ensures var start := Find(s, START);
            && (start == NPOS ==> Frame(s, first) == Framed([], false))
            && (start > 0 && !first ==> Frame(s, first) == Framed([], true))
            && (start != NPOS && (first || start == 0) && FindFrom(s, END, start) == NPOS ==>
                  Frame(s, first) == Framed([], false))
  {
  }

  // ---------------------------------------------------------------- round trip

  function Wrap(body: string): string
  {
    START + body + END
  }

  function WrapAll(bodies: seq<string>): (ms: seq<string>)
    ensures |ms| == |bodies|
  {
    seq(|bodies|, i requires 0 <= i < |bodies| => Wrap(bodies[i]))
  }

  /** The buffer does not hold a whole message: no start marker, or no end marker after it. */
  predicate NothingWhole(s: string)
  {
    Find(s, START) == NPOS || FindFrom(s, END, Find(s, START)) == NPOS
  }

  /** A delimiter whose first character occurs in it only once cannot overlap itself. */
  lemma NoOverlap(a: string, d: string)
    requires d != "" && (forall k :: 0 < k < |d| ==> d[k] != d[0]) && !Contains(a, d)
    ensures CleanToken(a, d)
  {
    var s := a + d;
    assert MatchAt(s, d, |a|) by { assert s[|a|..|a| + |d|] == d; }
    forall j | 0 <= j < |a|
      ensures !MatchAt(s, d, j)
    {
      if j + |d| <= |a| {
        MatchInPrefix(a, d, d, j);
      } else if MatchAt(s, d, j) {
        MatchChar(s, d, j, |a| - j);
        assert false;
      }
    }
  }

  /** The end of a message is its first end marker, wherever the message stands. */
  lemma MessageEnd(junk: string, body: string, more: string)
    requires !Contains(junk, START) && !Contains(body, END)
    ensures var s := junk + Wrap(body) + more;
            Find(s, START) == |junk| && FindFrom(s, END, |junk|) == |junk| + |START| + |body|
  {
    var s := junk + Wrap(body) + more;
    NoOverlap(junk, START);
    FindStable(junk + START, body + END + more, START);
    assert s == (junk + START) + (body + END + more);
    StartHasNoEnd(body);
    FindStable(START + body + END, more, END);
    assert s[|junk|..] == START + body + END + more;
    FindFromDrop(s, END, |junk|);
  }

  lemma StartHasNoEnd(body: string)
    requires !Contains(body, END)
    ensures Find(START + body + END, END) == |START| + |body|
  {
    NoOverlap(body, END);
    var s := START + body + END;
    assert s == START + (body + END);
    forall j | 0 <= j < |START| + |body|
      ensures !MatchAt(s, END, j)
    {
      if j >= |START| {
        MatchInSuffix(START, body + END, END, j);
      } else if MatchAt(s, END, j) {
        MatchChar(s, END, j, 0);
        MatchChar(s, END, j, 1);
        assert false;
      }
    }
    MatchInSuffix(START, body + END, END, |START| + |body|);
  }

  lemma {:induction false} FrameReadsBack(bodies: seq<string>, tail: string)
    requires forall i :: 0 <= i < |bodies| ==> !Contains(bodies[i], END)
    requires Find(tail, START) == 0 ==> NothingWhole(tail)
    ensures Frame(Concat(WrapAll(bodies)) + tail, false) == Framed(WrapAll(bodies), Find(tail, START) > 0)
    decreases |bodies|
  {
    if bodies == [] {
      assert Concat(WrapAll(bodies)) + tail == tail;
    } else {
      assert !Contains("", START);
      assert "" + Concat(WrapAll(bodies)) + tail == Concat(WrapAll(bodies)) + tail;
      FrameOne("", bodies, tail, false);
    }
  }

  lemma {:induction false} FrameOne(junk: string, bodies: seq<string>, tail: string, first: bool)
    requires bodies != [] && forall i :: 0 <= i < |bodies| ==> !Contains(bodies[i], END)
    requires (Find(tail, START) == 0 ==> NothingWhole(tail)) && !Contains(junk, START) && (junk == "" || first)
    ensures Frame(junk + Concat(WrapAll(bodies)) + tail, first) == Framed(WrapAll(bodies), Find(tail, START) > 0)
    decreases |bodies|, 1
  {
    hide Frame;
    var body, rest := bodies[0], bodies[1..];
    var more := Concat(WrapAll(rest)) + tail;
    var s := junk + Concat(WrapAll(bodies)) + tail;
    assert WrapAll(bodies)[1..] == WrapAll(rest);
    assert s == junk + Wrap(body) + more;
    MessageEnd(junk, body, more);
    FrameStep(s, first);
    var end := |junk| + |START| + |body| + |END|;
    assert s[|junk|..end] == Wrap(body);
    assert s[end..] == more;
    FrameReadsBack(rest, tail);
    assert WrapAll(bodies) == [Wrap(body)] + WrapAll(rest);
  }

  /**
   Framing undoes concatenation: any messages whose bodies are free of the end marker, after any
   bytes free of the start marker and before any that do not begin with a whole message, an
   unfinished one included, are framed exactly; and a framing error is found exactly when there
   is a message and the next start marker comes after a gap.
   */
  lemma FramingRoundTrip(junk: string, bodies: seq<string>, tail: string)
    requires forall i :: 0 <= i < |bodies| ==> !Contains(bodies[i], END)
    requires bodies != [] ==> !Contains(junk, START) && (Find(tail, START) == 0 ==> NothingWhole(tail))
    requires bodies == [] ==> NothingWhole(junk + tail)
    ensures Frame(junk + Concat(WrapAll(bodies)) + tail, true)
         == Framed(WrapAll(bodies), bodies != [] && Find(tail, START) > 0)
  {
    if bodies == [] {
      assert junk + Concat(WrapAll(bodies)) + tail == junk + tail;
    } else {
      FrameOne(junk, bodies, tail, true);
    }
  }

  /** One message, and one followed by a gap and the start of another. */
  lemma FramesOfText()
    ensures Frame("<NLAP>x</NLAP>", true) == Framed(["<NLAP>x</NLAP>"], false)
    ensures Frame("<NLAP>x</NLAP> <NLAP>", true) == Framed(["<NLAP>x</NLAP>"], true)
  {
    hide Frame;
    var none: string, gap := "", " <NLAP>";
    var bodies := ["x"];
    assert !Contains("x", END) && !Contains(none, START) && Find(none, START) == NPOS;
    assert MatchAt(gap, START, 1) && !MatchAt(gap, START, 0) by {
      assert gap[1..7] == START;
      if MatchAt(gap, START, 0) {
        MatchChar(gap, START, 0, 0);
      }
    }
    assert Find(gap, START) == 1;
    assert WrapAll(bodies) == ["<NLAP>x</NLAP>"] by { assert Wrap("x") == "<NLAP>x</NLAP>"; }
    assert WrapAll(bodies)[1..] == [];
    assert Concat(WrapAll(bodies)) == "<NLAP>x</NLAP>";
    FramingRoundTrip(none, bodies, none);
    FramingRoundTrip(none, bodies, gap);
    assert none + "<NLAP>x</NLAP>" + none == "<NLAP>x</NLAP>";
    assert none + "<NLAP>x</NLAP>" + gap == "<NLAP>x</NLAP> <NLAP>";
  }

  // ---------------------------------------------------------------- what every frame is

  /** A start marker, a body and the first end marker after it. */
  ghost predicate IsMessage(m: string)
  {
    exists body :: m == Wrap(body) && !Contains(START + body, END)
  }

  lemma CutMessage(s: string, start: nat, end: nat)
    requires MatchAt(s, START, start) && end == FindFrom(s, END, start)
    ensures IsMessage(s[start..end + |END|])
  {
    assert end != start by {
      MatchChar(s, START, start, 1);
      if end == start {
        MatchChar(s, END, start, 1);
      }
    }
    assert end >= start + |START| by {
      if end < start + |START| {
        MatchChar(s, START, start, end - start);
        MatchChar(s, END, end, 0);
      }
    }
    var m := s[start..end + |END|];
    var body := s[start + |START|..end];
    assert START + body == s[start..end];
    assert m == Wrap(body);
    NoMatchInside(s, start, end, END);
  }

  /**
   Every buffer is what precedes the first message, the framed messages end to end, and a rest;
   every framed message is a start marker, a body without end marker and an end marker. A framing
   error is reported exactly when the next start marker after a message comes after a gap, and
   without one framing goes as far as it can: the rest holds no whole message.
   */
  lemma {:induction false} FrameParts(s: string, first: bool) returns (junk: string, rest: string)
    ensures s == junk + Concat(Frame(s, first).messages) + rest
    ensures forall m :: m in Frame(s, first).messages ==> IsMessage(m)
    ensures if first && Frame(s, first).messages != [] then !Contains(junk, START) else junk == ""
    ensures Frame(s, first).gap <==> !(first && Frame(s, first).messages == []) && Find(rest, START) > 0
    ensures !Frame(s, first).gap ==> NothingWhole(rest)
    decreases |s|
  {
    hide Frame;
    hide IsMessage;
    var start := Find(s, START);
    junk, rest := "", s;
    FrameStop(s, first);
    if start != NPOS && (first || start == 0) && FindFrom(s, END, start) != NPOS {
      var e := FindFrom(s, END, start) + |END|;
      var j, r := FrameParts(s[e..], false);
      FrameStep(s, first);
      CutMessage(s, start, e - |END|);
      junk, rest := s[..start], r;
      NoStartBefore(s, start);
      CutText(s, start, e, Frame(s[e..], false).messages, r);
    } else {
      assert s == "" + Concat([]) + s;
    }
  }

  lemma NoStartBefore(s: string, start: nat)
    requires start == Find(s, START)
    ensures !Contains(s[..start], START)
  {
    assert s[..start] == s[0..start];
    NoMatchInside(s, 0, start, START);
  }

  lemma CutText(s: string, start: nat, e: nat, ms: seq<string>, rest: string)
    requires start <= e <= |s| && s[e..] == "" + Concat(ms) + rest
    ensures s == s[..start] + Concat([s[start..e]] + ms) + rest
  {
    var m := s[start..e];
    assert ([m] + ms)[1..] == ms;
    assert s == s[..start] + m + s[e..];
  }

  // ---------------------------------------------------------------- stability

  lemma FindFromStable(a: string, b: string, d: string, from: nat)
    requires from <= |a| && FindFrom(a, d, from) != NPOS
    ensures FindFrom(a + b, d, from) == FindFrom(a, d, from)
  {
    FindFromDrop(a, d, from);
    FindFromDrop(a + b, d, from);
    assert (a + b)[from..] == a[from..] + b;
    FindStable(a[from..], b, d);
  }

  /**
   More input changes nothing that has been decided: the messages framed from `a` stay the first
   messages framed from `a + b`, and a framing error found in `a` is found there too, with the
   same messages before it.
   */
  lemma {:induction false} FramingIsStable(a: string, b: string, first: bool)
    ensures Frame(a, first).messages <= Frame(a + b, first).messages
    ensures Frame(a, first).gap ==> Frame(a + b, first) == Frame(a, first)
    decreases |a|
  {
    hide Frame;
    var start := Find(a, START);
    FrameStop(a, first);
    if start != NPOS {
      FindStable(a, b, START);
      FrameStop(a + b, first);
      if first || start == 0 {
        var end := FindFrom(a, END, start);
        if end != NPOS {
          FindFromStable(a, b, END, start);
          var e := end + |END|;
          assert (a + b)[e..] == a[e..] + b;
          assert (a + b)[start..e] == a[start..e];
          FramingIsStable(a[e..], b, false);
          FrameStep(a, first);
          FrameStep(a + b, first);
        }
      }
    }
  }

  // ---------------------------------------------------------------- the driver

  datatype ParseResult<T> = ParseResult(results: seq<T>, errorCode: nat)

  /** The characters before the first NUL, as `string_view` takes them from a pointer. */
  function CString(buffer: string): (s: string)
    ensures '\0' !in s && (s == buffer || s + "\0" <= buffer)
  {
    CharContains(buffer, '\0');
    var p := Find(buffer, "\0");
    if p == NPOS then buffer
    else
      CharMatch(buffer, '\0', p);
      assert forall j :: 0 <= j < p ==> buffer[j] != '\0' by { NoNulBefore(buffer, p); }
      buffer[..p]
  }

  lemma NoNulBefore(buffer: string, p: nat)
    requires p == Find(buffer, "\0")
    ensures forall j :: 0 <= j < p ==> buffer[j] != '\0'
  {
    forall j | 0 <= j < p
      ensures buffer[j] != '\0'
    {
      CharMatch(buffer, '\0', j);
    }
  }

  /** A text without NUL is read whole, whether the buffer ends with it or a NUL and anything follow. */
  lemma CStringReadsText(s: string, more: string)
    requires '\0' !in s
    ensures CString(s) == s && CString(s + "\0" + more) == s
  {
    hide CString;
    SameText(s, s);
    SameText(s + "\0" + more, s);
  }

  lemma SameText(buffer: string, s: string)
    requires '\0' !in s && (buffer == s || s + "\0" <= buffer)
    ensures CString(buffer) == s
  {
    hide CString;
    var c := CString(buffer);
    assert c == buffer || buffer[|c|] == (c + "\0")[|c|] == '\0';
    assert s == buffer || buffer[|s|] == (s + "\0")[|s|] == '\0';
    assert c == buffer[..|c|] && s == buffer[..|s|];
    assert forall j :: 0 <= j < |c| ==> buffer[j] == c[j] != '\0';
    assert forall j :: 0 <= j < |s| ==> buffer[j] == s[j] != '\0';
    assert |c| == |s|;
  }

  /** The first message the oracle rejects. */
  ghost predicate FirstRejected<T>(parse: string -> (nat, T), ms: seq<string>, i: nat)
  {
    i < |ms| && parse(ms[i]).0 != 0 && forall j :: 0 <= j < i ==> parse(ms[j]).0 == 0
  }

  predicate AllAccepted<T>(parse: string -> (nat, T), ms: seq<string>)
  {
    forall i :: 0 <= i < |ms| ==> parse(ms[i]).0 == 0
  }

  function Trees<T>(parse: string -> (nat, T), ms: seq<string>): (ts: seq<T>)
    ensures |ts| == |ms|
  {
    seq(|ms|, i requires 0 <= i < |ms| => parse(ms[i]).1)
  }

  /**
   The result for framed messages: that of the first rejected message if there is one, else a
   framing error if there is a gap, else one tree per message.
   */
  ghost predicate EarliestFault<T>(parse: string -> (nat, T), f: Framed, r: ParseResult<T>)
  {
    && (forall i: nat :: FirstRejected(parse, f.messages, i) ==> r == ParseResult([], parse(f.messages[i]).0))
    && (AllAccepted(parse, f.messages) ==>
          r == if f.gap then ParseResult([], 30)
               else ParseResult(Trees(parse, f.messages), 0))
  }

  /** All or nothing: code 0 means one result per framed message, in order; any other code, none. */
  lemma AllOrNothing<T>(parse: string -> (nat, T), f: Framed, r: ParseResult<T>)
    requires EarliestFault(parse, f, r)
    ensures r.errorCode == 0 <==> AllAccepted(parse, f.messages) && !f.gap
    ensures r.results == if r.errorCode == 0 then Trees(parse, f.messages) else []
  {
    if !AllAccepted(parse, f.messages) {
      var i := RejectedExists(parse, f.messages);
    }
  }

  lemma {:induction false} RejectedExists<T>(parse: string -> (nat, T), ms: seq<string>) returns (i: nat)
    requires !AllAccepted(parse, ms)
    ensures FirstRejected(parse, ms, i)
    decreases |ms|
  {
    var n := |ms| - 1;
    if AllAccepted(parse, ms[..n]) {
      i := n;
      assert forall j :: 0 <= j < n ==> ms[..n][j] == ms[j];
    } else {
      i := RejectedExists(parse, ms[..n]);
      assert forall j :: 0 <= j < n ==> ms[..n][j] == ms[j];
    }
  }

  /**
   What `parse` returns for messages end to end, ended by a NUL with anything after it: one tree per
   message when the oracle accepts them all, and otherwise the code of the first it rejects.
   */
  lemma ParseReadsBack<T>(parse: string -> (nat, T), bodies: seq<string>, more: string, r: ParseResult<T>)
    requires forall i :: 0 <= i < |bodies| ==> !Contains(bodies[i], END) && '\0' !in bodies[i]
    requires EarliestFault(parse, Frame(CString(Concat(WrapAll(bodies)) + "\0" + more), true), r)
    ensures AllAccepted(parse, WrapAll(bodies)) ==> r == ParseResult(Trees(parse, WrapAll(bodies)), 0)
    ensures forall i: nat :: FirstRejected(parse, WrapAll(bodies), i) ==>
              r == ParseResult([], parse(Wrap(bodies[i])).0)
  {
    hide CString;
    hide Frame;
    var text, none: string := Concat(WrapAll(bodies)), "";
    NoNulInMessages(bodies);
    CStringReadsText(text, more);
    assert none + text + none == text;
    assert !Contains(none, START) && Find(none, START) == NPOS && none + none == none;
    FramingRoundTrip(none, bodies, none);
  }

  lemma {:induction false} NoNulInMessages(bodies: seq<string>)
    requires forall i :: 0 <= i < |bodies| ==> '\0' !in bodies[i]
    ensures '\0' !in Concat(WrapAll(bodies))
    decreases |bodies|
  {
    if bodies != [] {
      NoNulInMessages(bodies[1..]);
      assert WrapAll(bodies)[1..] == WrapAll(bodies[1..]);
    }
  }

  lemma RejectedDecides<T>(parse: string -> (nat, T), f: Framed, i: nat)
    requires FirstRejected(parse, f.messages, i)
    ensures EarliestFault(parse, f, ParseResult([], parse(f.messages[i]).0))
  {
    forall j: nat | FirstRejected(parse, f.messages, j)
      ensures j == i
    {
    }
  }

  lemma EndDecides<T>(parse: string -> (nat, T), f: Framed, results: seq<T>, gap: bool)
    requires Parsed(parse, f, results, Framed([], gap))
    ensures EarliestFault(parse, f, if gap then ParseResult([], ERROR_INVALID_FRAMING) else ParseResult(results, 0))
  {
    assert f.messages[..|results|] == f.messages;
  }

  /**
   `XMLParser::parse`: frames are produced one at a time and parsed as they come. The result is
   all or nothing, and the earliest fault decides: a rejected message comes before any gap.
   */
  method Parse<T>(parse: string -> (nat, T), parseBufferSize: nat, input: Option<string>) returns (r: ParseResult<T>)
    ensures input.None? ==> r == ParseResult([], 20)
    ensures input.Some? && |CString(input.value)| > parseBufferSize ==> r == ParseResult([], 30)
    ensures input.Some? && |CString(input.value)| <= parseBufferSize ==>
              EarliestFault(parse, Frame(CString(input.value), true), r)
  {
    hide Frame;
    hide EarliestFault;
    if input.None? {
      return ParseResult([], ERROR_INVALID_SYNTAX);
    }
    var view := CString(input.value);
    if |view| > parseBufferSize {
      return ParseResult([], ERROR_INVALID_FRAMING);
    }
    ghost var f := Frame(view, true);
    var results: seq<T> := [];
    var framingError := false;
    var cursor, lastEnd := 0, NPOS;
    assert view[0..] == view;
    while true
      invariant 0 <= cursor <= |view| && (lastEnd == NPOS || lastEnd == cursor) && !framingError
      invariant Parsed(parse, f, results, Frame(view[cursor..], lastEnd == NPOS))
      decreases |view| - cursor
    {
      var start, messageEnd, gap := NextFrame(view, cursor, lastEnd);
      if start == NPOS {
        EndDecides(parse, f, results, gap);
        framingError := gap;
        break;
      }
      var message := view[start..messageEnd];
      var (code, tree) := parse(message);
      ParsedMore(parse, f, results, message, Frame(view[messageEnd..], false));
      if code != 0 {
        RejectedDecides(parse, f, |results|);
        return ParseResult([], code);
      }
      results := results + [tree];
      cursor, lastEnd := messageEnd, messageEnd;
    }
    if framingError {
      return ParseResult([], ERROR_INVALID_FRAMING);
    }
    r := ParseResult(results, 0);
  }

  /** One resumption of the generator `splitMessages`: the next slice, or why there is none. */
  method NextFrame(view: string, cursor: nat, lastEnd: int) returns (start: int, messageEnd: int, gap: bool)
    requires cursor <= |view| && (lastEnd == NPOS || lastEnd == cursor)
    ensures start == NPOS ==> Frame(view[cursor..], lastEnd == NPOS) == Framed([], gap)
    ensures start != NPOS ==> cursor <= start < messageEnd <= |view|
    ensures start != NPOS ==>
              var rest := Frame(view[messageEnd..], false);
              Frame(view[cursor..], lastEnd == NPOS) == Framed([view[start..messageEnd]] + rest.messages, rest.gap)
  {
    hide Frame;
    ghost var left := view[cursor..];
    FrameStop(left, lastEnd == NPOS);
    FindFromDrop(view, START, cursor);
    messageEnd, gap := NPOS, false;
    start := FindFrom(view, START, cursor);
    if start == NPOS {
      return;
    }
    if lastEnd != NPOS && start != lastEnd {
      return NPOS, NPOS, true;
    }
    FindFromDrop(view, END, start);
    FindFromDrop(left, END, start - cursor);
    assert left[start - cursor..] == view[start..];
    var end := FindFrom(view, END, start);
    if end == NPOS {
      return NPOS, NPOS, false;
    }
    messageEnd := end + |END|;
    FrameStep(left, lastEnd == NPOS);
    assert view[start..messageEnd] == left[start - cursor..messageEnd - cursor];
    assert view[messageEnd..] == left[messageEnd - cursor..];
  }

  /** The first messages of `f` are accepted and give `results`; `left` is still to be parsed. */
  predicate Parsed<T(==)>(parse: string -> (nat, T), f: Framed, results: seq<T>, left: Framed)
  {
    && |results| <= |f.messages| && AllAccepted(parse, f.messages[..|results|])
    && results == Trees(parse, f.messages[..|results|])
    && left == Framed(f.messages[|results|..], f.gap)
  }

  lemma ParsedMore<T>(parse: string -> (nat, T), f: Framed, results: seq<T>, message: string, rest: Framed)
    requires Parsed(parse, f, results, Framed([message] + rest.messages, rest.gap))
    ensures parse(message).0 == 0 ==> Parsed(parse, f, results + [parse(message).1], rest)
    ensures parse(message).0 != 0 ==>
              FirstRejected(parse, f.messages, |results|) && f.messages[|results|] == message
  {
    var n := |results|;
    assert f.messages[n..][0] == message;
    assert f.messages[..n + 1] == f.messages[..n] + [message];
    assert f.messages[n + 1..] == f.messages[n..][1..] == rest.messages;
    forall j | 0 <= j < n
      ensures parse(f.messages[j]).0 == 0
    {
      assert f.messages[..n][j] == f.messages[j];
    }
  }
}
