/**
 The two header parsers side by side: when one line, one header section and a whole run give
 the same result in httpparser.cpp and in httpparser-cpp11.cpp.
 */
module HttpDialects {
  import opened Wrappers
  import opened Text
  import opened HttpMessage
  import opened HttpParser

  const SEP := ": "

  lemma SepMatch(line: string, i: int)
    ensures MatchAt(line, SEP, i) <==> 0 <= i < |line| - 1 && line[i] == ':' && line[i + 1] == ' '
  {
    if 0 <= i < |line| - 1 {
      assert line[i..i + 2] == [line[i], line[i + 1]];
    }
  }

  /** ": " occurs in the line at most once. */
  ghost predicate AtMostOneSep(line: string)
  {
    forall i, j :: MatchAt(line, SEP, i) && MatchAt(line, SEP, j) ==> i == j
  }

  /** A line on which the two header parsers agree. */
  ghost predicate AgreeableLine(line: string)
  {
    AtMostOneSep(line) || MatchAt(line, SEP, 0)
  }

  /** What the C++11 parser makes of a line with ": " last at `p`. */
  lemma Entry11At(line: string, p: nat)
    requires IsLast(line, SEP, |line| - 2, p)
    ensures Entry11(line) ==
            if RFind(line, SEP, p - 2) == NPOS && p > 0 && p + 2 < |line| then Some((line[..p], line[p + 2..]))
            else None
  {
    assert RFind(line, SEP, |line| - 2) == p;
    RTokensStep(line, |line|, SEP);
    RTokensStep(line, p, SEP);
    var parts := RSplitResult(line, |line|, SEP);
    assert parts[0] == line[p + 2..];
    if p < 2 || RFind(line, SEP, p - 2) == NPOS {
      assert parts == [line[p + 2..], line[..p]];
    } else {
      RTokensStep(line, RFind(line, SEP, p - 2), SEP);
      assert |parts| >= 3;
    }
  }

  /** The two parsers agree on a line exactly when ": " occurs at most once or starts the line. */
  lemma LineAgreement(line: string)
    ensures Entry23(line) == Entry11(line) <==> AgreeableLine(line)
  {
    var p := Find(line, SEP);
    if p == NPOS {
      RTokensStep(line, |line|, SEP);
      assert Entry11(line) == None;
    } else {
      var q := RFind(line, SEP, |line| - 2);
      assert q >= p;
      Entry11At(line, q);
      SepMatch(line, p);
      SepMatch(line, q);
      if p < q {
        assert MatchAt(line, SEP, p) && p <= q - 2;
        assert Entry11(line) == None;
        assert Entry23(line).None? <==> p == 0;
        assert !AtMostOneSep(line);
      } else {
        assert RFind(line, SEP, q - 2) == NPOS;
      }
    }
  }

  // ---------------------------------------------------------------- header sections

  /** Every LF follows a CR, and the section does not end in CR. */
  predicate ProperLineEnds(piece: string)
  {
    && (forall i :: 0 <= i < |piece| && piece[i] == LF ==> i > 0 && piece[i - 1] == CR)
    && (piece != "" ==> piece[|piece| - 1] != CR)
  }

  lemma Lines11Cons(line: string, more: string)
    requires LF !in line
    ensures Lines11(line + CRLF + more) == [line] + Lines11(more)
  {
    var h := line + CRLF;
    assert MatchAt(h, CRLF, |line|) by { assert h[|line|..|line| + 2] == CRLF; }
    forall j | j < |line|
      ensures !MatchAt(h, CRLF, j)
    {
      if MatchAt(h, CRLF, j) {
        MatchChar(h, CRLF, j, 1);
      }
    }
    assert CleanToken(line, CRLF);
    FirstToken(line, more, CRLF);
  }

  /** What the C++23 line parser makes of each of the lines. */
  function Fields23(lines: seq<string>): (es: seq<Option<Field>>)
    ensures |es| == |lines|
  {
    seq(|lines|, i requires 0 <= i < |lines| => Entry23(lines[i]))
  }

  lemma Fields23Step(line: string, lines: seq<string>)
    ensures Fields23([line] + lines) == [Entry23(line)] + Fields23(lines)
  {
  }

  /** On proper line ends both parsers read the same lines, up to one empty line at the end. */
  lemma {:induction false} LinesAgree(piece: string)
    requires ProperLineEnds(piece)
    ensures var es, fs := Entries23(Lines23(piece)), Fields23(Lines11(piece));
            fs == es || fs == es + [None]
    decreases |piece|
  {
    hide Lines23;
    hide Lines11;
    hide Entry23;
    hide Entries23;
    hide Fields23;
    var p := Find(piece, "\n");
    if p == NPOS {
      LastLines(piece);
    } else {
      CharMatch(piece, LF, p);
      var line, more := piece[..p - 1], piece[p + 1..];
      assert piece == line + CRLF + more;
      forall j | 0 <= j < p
        ensures piece[j] != LF
      {
        CharMatch(piece, LF, j);
      }
      Lines11Cons(line, more);
      Lines23Cons(line, more);
      Fields23Step(line, Lines11(more));
      MoreIsProper(piece, p);
      LinesAgree(more);
    }
  }

  lemma LastLines(piece: string)
    requires ProperLineEnds(piece) && Find(piece, "\n") == NPOS
    ensures var es, fs := Entries23(Lines23(piece)), Fields23(Lines11(piece));
            fs == es || fs == es + [None]
  {
    hide Lines11;
    CharContains(piece, LF);
    Lines11Last(piece);
    if piece != "" {
      hide Lines23;
      Lines23Last(piece);
    } else {
      assert Entry23("") == None;
    }
  }

  lemma NoCrlf(piece: string)
    requires LF !in piece
    ensures !Contains(piece, CRLF)
  {
    forall j | 0 <= j <= |piece| - 2
      ensures !MatchAt(piece, CRLF, j)
    {
      if MatchAt(piece, CRLF, j) {
        MatchChar(piece, CRLF, j, 1);
      }
    }
  }

  lemma Lines11Last(line: string)
    requires LF !in line
    ensures Lines11(line) == [line]
  {
    NoCrlf(line);
  }

  lemma Entries11Step(line: string, lines: seq<string>)
    ensures Entries11([line] + lines) == [Entry11(line)] + Entries11(lines)
  {
  }

  lemma MoreIsProper(piece: string, p: nat)
    requires ProperLineEnds(piece) && p < |piece| && piece[p] == LF
    ensures ProperLineEnds(piece[p + 1..])
  {
    var more := piece[p + 1..];
    forall i | 0 <= i < |more| && more[i] == LF
      ensures i > 0 && more[i - 1] == CR
    {
      assert piece[p + 1 + i] == LF;
    }
  }

  lemma {:induction false} EmplaceNone(m: map<string, string>, es: seq<Option<Field>>)
    ensures EmplaceAll(m, es + [None]) == EmplaceAll(m, es)
    decreases |es|
  {
    if es == [] {
      assert (es + [None])[1..] == [];
    } else {
      assert (es + [None])[1..] == es[1..] + [None];
      EmplaceNone(Emplace(m, es[0]), es[1..]);
    }
  }

  predicate Gives(entry: Option<Field>, name: string)
  {
    entry.Some? && entry.value.0 == name
  }

  /** An earlier line gives a field of that name to the C++23 parser. */
  ghost predicate HiddenBefore(lines: seq<string>, i: nat, name: string)
  {
    exists j :: 0 <= j < i <= |lines| && Gives(Entry23(lines[j]), name)
  }

  /** The first line to give the C++11 parser a field of that name comes later and gives this one. */
  ghost predicate GivenAfter(lines: seq<string>, i: nat, f: Field)
  {
    exists j :: i < j < |lines| && Entry11(lines[j]) == Some(f)
      && forall l :: 0 <= l < j ==> !Gives(Entry11(lines[l]), f.0)
  }

  /** What the C++23 parser reads in line `i`, and the C++11 parser does not, makes no difference. */
  ghost predicate Harmless(lines: seq<string>, i: nat)
    requires i < |lines|
  {
    Entry23(lines[i]).Some? ==>
      HiddenBefore(lines, i, Entry23(lines[i]).value.0) || GivenAfter(lines, i, Entry23(lines[i]).value)
  }

  /** The lines both parsers make the same map of. */
  ghost predicate AgreeableLines(lines: seq<string>)
  {
    forall i: nat :: i < |lines| && !AgreeableLine(lines[i]) ==> Harmless(lines, i)
  }

  /** What the C++11 parser reads in a line the C++23 parser reads too. */
  lemma OnlyMore(line: string)
    ensures Entry11(line) == Entry23(line) <==> AgreeableLine(line)
    ensures !AgreeableLine(line) ==> Entry11(line) == None && Entry23(line).Some?
  {
    LineAgreement(line);
    var p := Find(line, SEP);
    if !AgreeableLine(line) {
      var q := RFind(line, SEP, |line| - 2);
      Entry11At(line, q);
      SepMatch(line, p);
      SepMatch(line, q);
    }
  }

  /** The first of the entries with that name. */
  ghost predicate FirstGives(es: seq<Option<Field>>, f: Field, i: nat)
  {
    i < |es| && es[i] == Some(f) && forall l :: 0 <= l < i ==> !Gives(es[l], f.0)
  }

  /** The map holds a field exactly when it is the first of its name. */
  lemma MapHolds(es: seq<Option<Field>>, f: Field)
    ensures f.0 in EmplaceAll(map[], es) && EmplaceAll(map[], es)[f.0] == f.1 <==> exists i: nat :: FirstGives(es, f, i)
  {
    hide EmplaceAll;
    EmplaceAllKeepsFirst(map[], es, f.0);
    var m := EmplaceAll(map[], es);
    if f.0 in m {
      var i :| IsFirstOf(es, f.0, i) && m[f.0] == es[i].value.1;
      if m[f.0] == f.1 {
        assert FirstGives(es, f, i);
      }
      forall k: nat | FirstGives(es, f, k)
        ensures m[f.0] == f.1
      {
        assert !Gives(es[if i < k then i else k], f.0) || i == k;
      }
    }
  }

  lemma {:induction false} FirstGiver(es: seq<Option<Field>>, name: string, n: nat) returns (i: nat)
    requires n < |es| && Gives(es[n], name)
    ensures i <= n && Gives(es[i], name) && FirstGives(es, es[i].value, i)
    decreases n
  {
    if k :| 0 <= k < n && Gives(es[k], name) {
      i := FirstGiver(es, name, k);
    } else {
      i := n;
    }
  }

  /** The entry lists of the two parsers: what C++11 reads C++23 reads too. */
  ghost predicate Aligned(fs: seq<Option<Field>>, es: seq<Option<Field>>)
  {
    |fs| == |es| && forall i :: 0 <= i < |fs| ==> es[i] == fs[i] || (es[i] == None && fs[i].Some?)
  }

  /** `Harmless` on the entry lists. */
  ghost predicate Covered(fs: seq<Option<Field>>, es: seq<Option<Field>>, i: nat)
    requires Aligned(fs, es) && i < |fs| && fs[i].Some?
  {
    || (exists j :: 0 <= j < i && Gives(fs[j], fs[i].value.0))
    || (exists j: nat :: i < j && FirstGives(es, fs[i].value, j))
  }

  lemma FirstsMove(fs: seq<Option<Field>>, es: seq<Option<Field>>, f: Field, i: nat)
    requires Aligned(fs, es) && FirstGives(fs, f, i)
    requires es[i] != fs[i] ==> Covered(fs, es, i)
    ensures exists j: nat :: FirstGives(es, f, j)
  {
    if es[i] == fs[i] {
      assert FirstGives(es, f, i);
    }
  }

  lemma FirstsMoveBack(fs: seq<Option<Field>>, es: seq<Option<Field>>, f: Field, i: nat)
    requires Aligned(fs, es) && FirstGives(es, f, i)
    requires forall k: nat :: k < |fs| && es[k] != fs[k] ==> Covered(fs, es, k)
    ensures exists j: nat :: FirstGives(fs, f, j)
  {
    var j := FirstGiver(fs, f.0, i);
    var g := fs[j].value;
    FirstsMove(fs, es, g, j);
    var k: nat :| FirstGives(es, g, k);
    assert k == i by {
      assert !(k < i) && !(i < k);
    }
    assert FirstGives(fs, f, j);
  }

  /** Both maps are equal exactly when every entry only C++23 has is covered. */
  lemma MapsAgree(fs: seq<Option<Field>>, es: seq<Option<Field>>)
    requires Aligned(fs, es)
    ensures EmplaceAll(map[], fs) == EmplaceAll(map[], es) <==>
            forall i: nat :: i < |fs| && es[i] != fs[i] ==> Covered(fs, es, i)
  {
    hide EmplaceAll;
    var m, n := EmplaceAll(map[], fs), EmplaceAll(map[], es);
    if m == n {
      forall i: nat | i < |fs| && es[i] != fs[i]
        ensures Covered(fs, es, i)
      {
        MapGivesCover(fs, es, i);
      }
    } else if forall i: nat :: i < |fs| && es[i] != fs[i] ==> Covered(fs, es, i) {
      CoverGivesMap(fs, es);
      assert false;
    }
  }

  lemma MapGivesCover(fs: seq<Option<Field>>, es: seq<Option<Field>>, i: nat)
    requires Aligned(fs, es) && EmplaceAll(map[], fs) == EmplaceAll(map[], es)
    requires i < |fs| && es[i] != fs[i]
    ensures Covered(fs, es, i)
  {
    hide EmplaceAll;
    var f := fs[i].value;
    if !exists j :: 0 <= j < i && Gives(fs[j], f.0) {
      assert FirstGives(fs, f, i);
      MapHolds(fs, f);
      MapHolds(es, f);
      var j: nat :| FirstGives(es, f, j);
      assert Gives(fs[j], f.0);
      assert i < j;
    }
  }

  lemma CoverGivesMap(fs: seq<Option<Field>>, es: seq<Option<Field>>)
    requires Aligned(fs, es)
    requires forall i: nat :: i < |fs| && es[i] != fs[i] ==> Covered(fs, es, i)
    ensures EmplaceAll(map[], fs) == EmplaceAll(map[], es)
  {
    hide EmplaceAll;
    hide Covered;
    var m, n := EmplaceAll(map[], fs), EmplaceAll(map[], es);
    forall k | k in m
      ensures k in n && n[k] == m[k]
    {
      var f := (k, m[k]);
      MapHolds(fs, f);
      MapHolds(es, f);
      var i: nat :| FirstGives(fs, f, i);
      FirstsMove(fs, es, f, i);
    }
    forall k | k in n
      ensures k in m
    {
      var f := (k, n[k]);
      MapHolds(fs, f);
      MapHolds(es, f);
      var i: nat :| FirstGives(es, f, i);
      FirstsMoveBack(fs, es, f, i);
    }
  }

  lemma LinesAligned(lines: seq<string>)
    ensures Aligned(Fields23(lines), Entries11(lines))
    ensures forall i :: 0 <= i < |lines| ==> (Entries11(lines)[i] == Fields23(lines)[i] <==> AgreeableLine(lines[i]))
  {
    forall i | 0 <= i < |lines|
      ensures Entry11(lines[i]) == Entry23(lines[i]) <==> AgreeableLine(lines[i])
      ensures !AgreeableLine(lines[i]) ==> Entry11(lines[i]) == None && Entry23(lines[i]).Some?
    {
      OnlyMore(lines[i]);
    }
  }

  lemma SameBefore(lines: seq<string>, i: nat, name: string)
    requires i <= |lines|
    ensures HiddenBefore(lines, i, name) <==> exists j :: 0 <= j < i && Gives(Fields23(lines)[j], name)
  {
    hide Entry23;
    if HiddenBefore(lines, i, name) {
      var j :| 0 <= j < i && Gives(Entry23(lines[j]), name);
      assert Gives(Fields23(lines)[j], name);
    }
    if j :| 0 <= j < i && Gives(Fields23(lines)[j], name) {
      assert Gives(Entry23(lines[j]), name);
    }
  }

  lemma SameAfter(lines: seq<string>, i: nat, f: Field)
    ensures GivenAfter(lines, i, f) <==> exists j: nat :: i < j && FirstGives(Entries11(lines), f, j)
  {
    hide Entry11;
    var es := Entries11(lines);
    if GivenAfter(lines, i, f) {
      var j :| i < j < |lines| && Entry11(lines[j]) == Some(f) && forall l :: 0 <= l < j ==> !Gives(Entry11(lines[l]), f.0);
      assert FirstGives(es, f, j);
    }
    if j: nat :| i < j && FirstGives(es, f, j) {
      forall l | 0 <= l < j
        ensures !Gives(Entry11(lines[l]), f.0)
      {
        assert !Gives(es[l], f.0);
      }
      assert Entry11(lines[j]) == Some(f);
    }
  }

  lemma HarmlessIsCovered(lines: seq<string>, i: nat)
    requires Aligned(Fields23(lines), Entries11(lines)) && i < |lines| && Entry23(lines[i]).Some?
    ensures Harmless(lines, i) <==> Covered(Fields23(lines), Entries11(lines), i)
  {
    hide Entry23;
    hide Entry11;
    hide HiddenBefore;
    hide GivenAfter;
    hide FirstGives;
    hide Gives;
    var f := Entry23(lines[i]).value;
    assert Fields23(lines)[i] == Some(f);
    SameBefore(lines, i, f.0);
    SameAfter(lines, i, f);
  }

  /**
   On proper line ends the two parsers give equal header maps exactly when every field that only
   the C++23 parser reads has an earlier field of its name, or is given again by the first later
   line that gives the C++11 parser a field of its name.
   */
  lemma HeadersAgree(piece: string)
    requires ProperLineEnds(piece)
    ensures Headers(Cpp23, piece) == Headers(Cpp11, piece) <==> AgreeableLines(Lines11(piece))
  {
    hide EmplaceAll;
    hide Lines11;
    hide Lines23;
    hide Entry11;
    hide Entry23;
    hide Harmless;
    hide Covered;
    hide AgreeableLine;
    var lines := Lines11(piece);
    var fs, es := Fields23(lines), Entries11(lines);
    LinesAgree(piece);
    EmplaceNone(map[], Entries23(Lines23(piece)));
    LinesAligned(lines);
    MapsAgree(fs, es);
    forall i: nat | i < |lines| && !AgreeableLine(lines[i])
      ensures Harmless(lines, i) <==> Covered(fs, es, i)
    {
      HarmlessIsCovered(lines, i);
    }
  }

  /** A header section both parsers read alike. */
  ghost predicate AgreeablePiece(piece: string)
  {
    ProperLineEnds(piece) && AgreeableLines(Lines11(piece))
  }

  // ---------------------------------------------------------------- runs

  /** The request line is that of an HTTP/1.1 GET or POST, so the header parser is called. */
  predicate ReachesHeaders(piece: string)
  {
    var (r, ok) := ParseBase(piece, UNPARSED);
    ok && r.version == Http11 && r.httpMethod != MethodOther
  }

  lemma ParsersAgree(piece: string)
    requires ReachesHeaders(piece) ==> AgreeablePiece(piece)
    ensures ParsePiece(Cpp23, piece) == ParsePiece(Cpp11, piece)
  {
    if ReachesHeaders(piece) {
      HeadersAgree(piece);
    }
  }

  /** Every piece that reaches the header parser while `pieces` are processed is agreeable. */
  ghost predicate AgreeablePieces(st: State, pieces: seq<string>, single: bool)
    decreases |pieces|
  {
    pieces == [] ||
    (var s := ProcessPiece(ParserOf(Cpp23), st, pieces[0], NextPiece(pieces), single);
     && (ReachesHeaders(pieces[0]) ==> AgreeablePiece(pieces[0]))
     && (s.signal == Good ==> AgreeablePieces(s.st, Remaining(pieces, s.next), single)))
  }

  ghost predicate AgreeableCall(st: State, chunk: string)
  {
    var b := st.buffer + chunk;
    |b| <= st.bufferMax && !(st.waiting && |b| >= st.contentLength) ==>
      var pieces := Tokens(b, END_MARKER);
      AgreeablePieces(st.(buffer := Rest(b, END_MARKER)), pieces, |pieces| == 1)
  }

  ghost predicate AgreeableRun(st: State, chunks: seq<string>)
    decreases |chunks|
  {
    chunks == [] ||
    (AgreeableCall(st, chunks[0]) && AgreeableRun(Append(ParserOf(Cpp23), st, chunks[0]).0, chunks[1..]))
  }

  lemma {:induction false} PiecesInStep(st: State, pieces: seq<string>, single: bool)
    requires AgreeablePieces(st, pieces, single)
    ensures ProcessAll(ParserOf(Cpp11), st, pieces, single) == ProcessAll(ParserOf(Cpp23), st, pieces, single)
    decreases |pieces|
  {
    if pieces != [] {
      ParsersAgree(pieces[0]);
      var s := ProcessPiece(ParserOf(Cpp23), st, pieces[0], NextPiece(pieces), single);
      if s.signal == Good {
        PiecesInStep(s.st, Remaining(pieces, s.next), single);
      }
    }
  }

  lemma AppendInStep(st: State, chunk: string)
    requires AgreeableCall(st, chunk)
    ensures Append(ParserOf(Cpp11), st, chunk) == Append(ParserOf(Cpp23), st, chunk)
  {
    var b := st.buffer + chunk;
    if |b| <= st.bufferMax && !(st.waiting && |b| >= st.contentLength) && Contains(b, END_MARKER) {
      var pieces := Tokens(b, END_MARKER);
      PiecesInStep(st.(buffer := Rest(b, END_MARKER)), pieces, |pieces| == 1);
    }
  }

  /**
   The C++23 and the C++11 parser run in lock step: after any sequence of calls whose header
   sections are agreeable they have equal buffers, wait states, errors and request queues, and
   each call ends the same way.
   */
  lemma {:induction false} LockStep(st: State, chunks: seq<string>)
    requires AgreeableRun(st, chunks)
    ensures Run(ParserOf(Cpp11), st, chunks) == Run(ParserOf(Cpp23), st, chunks)
    ensures AllReturn(ParserOf(Cpp11), st, chunks) == AllReturn(ParserOf(Cpp23), st, chunks)
    decreases |chunks|
  {
    if chunks != [] {
      AppendInStep(st, chunks[0]);
      LockStep(Append(ParserOf(Cpp23), st, chunks[0]).0, chunks[1..]);
    }
  }
}
