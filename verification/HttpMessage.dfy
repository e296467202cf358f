/**
 One request as the parsers of lib/http see it: the request line, the header fields and the
 GET parameters. `Cpp23` is lib/http/httpparser.cpp, `Cpp11` is lib/http/httpparser-cpp11.cpp;
 the two differ only in how they take header fields from a header section.
 */
module HttpMessage {
  import opened Wrappers
  import opened Text

  const CR := '\r'
  const LF := '\n'
  const CRLF := "\r\n"
  const END_MARKER := "\r\n\r\n"
  const CONTENT_LENGTH := "Content-Length"
  const POST_MAX_CONTENT_LENGTH := 2048
  const ERROR_BAD_REQUEST := 400
  const INT_MAX := 0x7fff_ffff

  datatype Dialect = Cpp23 | Cpp11
  datatype Version = VersionUnknown | Http11
  datatype Method = MethodOther | Get | Post

  type Field = (string, string)

  datatype Request = Request(
    version: Version,
    httpMethod: Method,
    headers: map<string, string>,
    url: string,
    payload: string,
    params: map<string, string>)

  /** The properties a request starts with before its piece is parsed. */
  const UNPARSED := Request(VersionUnknown, MethodOther, map[], "/", "", map[])

  // ---------------------------------------------------------------- request line

  function LineEnd(piece: string): (e: nat)
    ensures e <= |piece|
  {
    var p := Find(piece, CRLF);
    if p == NPOS then |piece| else p
  }

  /** `_parseRequestProperties`: the new properties, and whether the line had three parts. */
  function ParseBase(piece: string, r: Request): (Request, bool)
  {
    var parts := RSplitResult(piece, LineEnd(piece), " ");
    if |parts| != 3 then (r, false)
    else
      var version := if Contains(parts[0], "HTTP/1.1") then Http11 else r.version;
      var m := if Contains(parts[2], "GET") then Get
               else if Contains(parts[2], "POST") then Post else r.httpMethod;
      (r.(version := version, httpMethod := m, url := parts[1]), true)
  }

  /** The base properties are found exactly when the first line has two spaces. */
  lemma ParseBaseAccepts(piece: string, r: Request)
    ensures ParseBase(piece, r).1 <==> CountChar(piece[..LineEnd(piece)], ' ') == 2
  {
    var e := LineEnd(piece);
    RTokensCount(piece, e, ' ');
    RSplitInvertsJoin(piece, e, " ");
    CharContains(piece[..e], ' ');
    CountCharZero(piece[..e], ' ');
    RTokensStep(piece, e, " ");
  }

  // ---------------------------------------------------------------- maps built by emplace

  /** `emplace` keeps the first value of a key. */
  function Emplace(m: map<string, string>, entry: Option<Field>): map<string, string>
  {
    if entry.Some? && entry.value.0 !in m then m[entry.value.0 := entry.value.1] else m
  }

  function EmplaceAll(m: map<string, string>, entries: seq<Option<Field>>): map<string, string>
    decreases |entries|
  {
    if entries == [] then m else EmplaceAll(Emplace(m, entries[0]), entries[1..])
  }

  ghost predicate IsFirstOf(entries: seq<Option<Field>>, k: string, i: int)
  {
    && 0 <= i < |entries| && entries[i].Some? && entries[i].value.0 == k
    && forall j :: 0 <= j < i && entries[j].Some? ==> entries[j].value.0 != k
  }

  /** A key already present keeps its value; any other key gets the first value given for it. */
  lemma {:induction false} EmplaceAllKeepsFirst(m: map<string, string>, entries: seq<Option<Field>>, k: string)
    ensures k in m ==> k in EmplaceAll(m, entries) && EmplaceAll(m, entries)[k] == m[k]
    ensures k !in m && k in EmplaceAll(m, entries) ==>
              exists i :: IsFirstOf(entries, k, i) && EmplaceAll(m, entries)[k] == entries[i].value.1
    ensures forall i :: 0 <= i < |entries| && entries[i].Some? && entries[i].value.0 == k ==>
              k in EmplaceAll(m, entries)
    decreases |entries|
  {
    if entries != [] {
      var e, rest := entries[0], entries[1..];
      var m' := Emplace(m, e);
      EmplaceAllKeepsFirst(m', rest, k);
      forall i | 0 <= i < |entries| && entries[i].Some? && entries[i].value.0 == k
        ensures k in EmplaceAll(m, entries)
      {
        if i > 0 {
          assert rest[i - 1] == entries[i];
        }
      }
      if k !in m && k in EmplaceAll(m, entries) {
        if e.Some? && e.value.0 == k {
          assert IsFirstOf(entries, k, 0);
        } else {
          var i :| IsFirstOf(rest, k, i) && EmplaceAll(m', rest)[k] == rest[i].value.1;
          assert entries[i + 1] == rest[i];
          forall j | 0 <= j < i + 1 && entries[j].Some?
            ensures entries[j].value.0 != k
          {
            if j > 0 {
              assert rest[j - 1] == entries[j];
            }
          }
          assert IsFirstOf(entries, k, i + 1);
        }
      }
    }
  }

  // ---------------------------------------------------------------- header fields, C++23

  function StripCr(line: string): string
  {
    if line != "" && line[|line| - 1] == CR then line[..|line| - 1] else line
  }

  /** One line of the C++23 parser: the first ": " separates name and value. */
  function Entry23(line: string): Option<Field>
  {
    var p := Find(line, ": ");
    if p > 0 && p + 2 < |line| then Some((line[..p], line[p + 2..])) else None
  }

  function Entries23(lines: seq<string>): (es: seq<Option<Field>>)
    ensures |es| == |lines|
  {
    seq(|lines|, i requires 0 <= i < |lines| => Entry23(StripCr(lines[i])))
  }

  /** The lines `getline` reads: separated by LF, an unterminated last line only if not empty. */
  function Lines23(piece: string): seq<string>
  {
    Slices(piece, "\n")
  }

  lemma Lines23Step(piece: string)
    requires piece != ""
    ensures var p := Find(piece, "\n");
            Lines23(piece) == if p == NPOS then [piece] else [piece[..p]] + Lines23(piece[p + 1..])
  {
    var p := Find(piece, "\n");
    if p != NPOS {
      SplitStep(piece, "\n", p, piece[p + 1..]);
    }
  }

  lemma Entries23Step(line: string, lines: seq<string>)
    ensures Entries23([line] + lines) == [Entry23(StripCr(line))] + Entries23(lines)
  {
  }

  /** A line without LF that ends in CRLF is read as itself, whatever follows. */
  lemma Lines23Cons(line: string, more: string)
    requires LF !in line
    ensures Entries23(Lines23(line + CRLF + more)) == [Entry23(line)] + Entries23(Lines23(more))
  {
    var piece := line + CRLF + more;
    var p := |line| + 1;
    assert piece[p] == LF;
    CharMatch(piece, LF, p);
    forall j | 0 <= j < p
      ensures !MatchAt(piece, "\n", j)
    {
      CharMatch(piece, LF, j);
    }
    assert Find(piece, "\n") == p;
    Lines23Step(piece);
    assert piece[..p] == line + [CR];
    assert piece[p + 1..] == more;
    Entries23Step(line + [CR], Lines23(more));
  }

  /** Any line is read up to its LF, without a CR before that. */
  lemma AnyLine(line: string, more: string)
    requires LF !in line
    ensures Entries23(Lines23(line + [LF] + more)) == [Entry23(StripCr(line))] + Entries23(Lines23(more))
    ensures StripCr(line + [CR]) == line && (line == "" || line[|line| - 1] != CR ==> StripCr(line) == line)
  {
    var piece, p := line + [LF] + more, |line|;
    CharMatch(piece, LF, p);
    forall j | 0 <= j < p
      ensures !MatchAt(piece, "\n", j)
    {
      CharMatch(piece, LF, j);
    }
    assert Find(piece, "\n") == p;
    Lines23Step(piece);
    assert piece[..p] == line && piece[p + 1..] == more;
    Entries23Step(line, Lines23(more));
  }

  lemma Lines23Last(line: string)
    requires LF !in line && line != "" && line[|line| - 1] != CR
    ensures Entries23(Lines23(line)) == [Entry23(line)]
  {
    CharContains(line, LF);
    Lines23Step(line);
  }

  // ---------------------------------------------------------------- header fields, C++11

  /** One line of the C++11 parser: exactly two non-empty parts around ": ". */
  function Entry11(line: string): Option<Field>
  {
    var parts := RSplitResult(line, |line|, ": ");
    if |parts| == 2 && parts[0] != "" && parts[1] != "" then Some((parts[1], parts[0])) else None
  }

  function Entries11(lines: seq<string>): (es: seq<Option<Field>>)
    ensures |es| == |lines|
  {
    seq(|lines|, i requires 0 <= i < |lines| => Entry11(lines[i]))
  }

  /** The lines of the destructive split on CRLF, and the remainder even when empty. */
  function Lines11(piece: string): seq<string>
  {
    Tokens(piece, CRLF) + [Rest(piece, CRLF)]
  }

  /** `_parseRequestHeaders` */
  function Headers(dialect: Dialect, piece: string): map<string, string>
  {
    match dialect
    case Cpp23 => EmplaceAll(map[], Entries23(Lines23(piece)))
    case Cpp11 => EmplaceAll(map[], Entries11(Lines11(piece)))
  }

  // ---------------------------------------------------------------- GET parameters

  function ParamEntry(pair: string): Option<Field>
  {
    var p := Find(pair, "=");
    if p > 0 then Some((pair[..p], pair[p + 1..])) else None
  }

  function ParamEntries(pairs: seq<string>): (es: seq<Option<Field>>)
    ensures |es| == |pairs|
  {
    seq(|pairs|, i requires 0 <= i < |pairs| => ParamEntry(pairs[i]))
  }

  /** `_parseGETParameter`, the same in both dialects. */
  function Params(url: string): map<string, string>
  {
    var q := Find(url, "?");
    if q == NPOS then map[] else EmplaceAll(map[], ParamEntries(Slices(url[q + 1..], "&")))
  }

  // ---------------------------------------------------------------- the loops

  function FirstLine(stream: string): string
  {
    var p := Find(stream, "\n");
    if p == NPOS then stream else stream[..p]
  }

  function AfterFirstLine(stream: string): string
  {
    var p := Find(stream, "\n");
    if p == NPOS then "" else stream[p + 1..]
  }

  lemma Headers23Step(m: map<string, string>, stream: string)
    requires stream != ""
    ensures EmplaceAll(m, Entries23(Lines23(stream)))
         == EmplaceAll(Emplace(m, Entry23(StripCr(FirstLine(stream)))), Entries23(Lines23(AfterFirstLine(stream))))
  {
    var line, next := FirstLine(stream), AfterFirstLine(stream);
    Lines23Step(stream);
    assert Lines23(stream) == [line] + Lines23(next);
    Entries23Step(line, Lines23(next));
    assert Entries23(Lines23(stream))[1..] == Entries23(Lines23(next));
  }

  /** The C++23 `_parseRequestHeaders`: read a line, strip its CR, emplace its field. */
  method ParseRequestHeaders23(piece: string) returns (m: map<string, string>)
    ensures m == Headers(Cpp23, piece)
  {
    m := map[];
    var stream := piece;
    while stream != ""
      invariant EmplaceAll(m, Entries23(Lines23(stream))) == Headers(Cpp23, piece)
      decreases |stream|
    {
      Headers23Step(m, stream);
      var line := FirstLine(stream);
      stream := AfterFirstLine(stream);
      if line != "" && line[|line| - 1] == CR {
        line := line[..|line| - 1];
      }
      var colonSpace := Find(line, ": ");
      if colonSpace != NPOS && colonSpace > 0 {
        var key, value := line[..colonSpace], line[colonSpace + 2..];
        if value != "" && key !in m {
          m := m[key := value];
        }
      }
    }
  }

  /** The C++11 `_parseRequestHeaders`: split into lines first, then split each from the right. */
  method ParseRequestHeaders11(piece: string) returns (m: map<string, string>)
    ensures m == Headers(Cpp11, piece)
  {
    m := map[];
    var lines, remainder := Split(piece, CRLF);
    lines := lines + [remainder];
    for i := 0 to |lines|
      invariant EmplaceAll(m, Entries11(lines)[i..]) == Headers(Cpp11, piece)
    {
      var es := Entries11(lines);
      assert es[i..][1..] == es[i + 1..];
      var pair := RSplit(lines[i], |lines[i]|, ": ");
      if |pair| == 2 && pair[0] != "" && pair[1] != "" && pair[1] !in m {
        m := m[pair[1] := pair[0]];
      }
    }
  }

  /** The loop of `_parseGETParameter` over the pairs. */
  method CollectParams(pairs: seq<string>) returns (m: map<string, string>)
    ensures m == EmplaceAll(map[], ParamEntries(pairs))
  {
    m := map[];
    assert ParamEntries(pairs)[0..] == ParamEntries(pairs);
    for i := 0 to |pairs|
      invariant EmplaceAll(m, ParamEntries(pairs)[i..]) == EmplaceAll(map[], ParamEntries(pairs))
    {
      var es := ParamEntries(pairs);
      assert es[i..][1..] == es[i + 1..];
      var p := Find(pairs[i], "=");
      if p != NPOS && p != 0 && |pairs[i]| > p && pairs[i][..p] !in m {
        m := m[pairs[i][..p] := pairs[i][p + 1..]];
      }
    }
  }

  /** `_parseGETParameter` */
  method ParseGetParameter(dialect: Dialect, url: string) returns (m: map<string, string>)
    ensures m == Params(url)
  {
    hide EmplaceAll;
    hide ParamEntries;
    m := map[];
    var q := Find(url, "?");
    if q != NPOS && |url| > q {
      var part := url[q + 1..];
      var pairs: seq<string>;
      if dialect == Cpp23 {
        pairs := SplitView(part, "&");
      } else {
        var remainder;
        pairs, remainder := Split(part, "&");
        if remainder != "" {
          pairs := pairs + [remainder];
        }
      }
      assert pairs == Slices(part, "&");
      m := CollectParams(pairs);
    }
  }
}
