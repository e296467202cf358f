/**
 The query of a GET request as a client prints it, and the parameters the parser reads from it.
 */
module HttpQuery {
  import opened Wrappers
  import opened Text
  import opened HttpMessage
  import opened HttpPrint

  function PairText(f: Field): string
  {
    f.0 + "=" + f.1
  }

  function QueryText(pairs: seq<Field>): string
  {
    if pairs == [] then ""
    else if |pairs| == 1 then PairText(pairs[0])
    else PairText(pairs[0]) + "&" + QueryText(pairs[1..])
  }

  predicate CleanPair(f: Field)
  {
    f.0 != "" && '=' !in f.0 && '&' !in f.0 && '&' !in f.1
  }

  lemma PairEntry(f: Field)
    requires CleanPair(f)
    ensures ParamEntry(PairText(f)) == Some(f)
    ensures '&' !in PairText(f) && PairText(f) != ""
  {
    var s := PairText(f);
    FirstChar(f.0, '=', f.1);
    assert s == f.0 + ['='] + f.1;
    assert s[..|f.0|] == f.0 && s[|f.0| + 1..] == f.1;
  }

  /** A pair is a parameter exactly when it has a name before its first "="; the value may be empty. */
  lemma EntryIsPair(pair: string, f: Field)
    ensures ParamEntry(pair) == Some(f) <==> pair == PairText(f) && f.0 != "" && '=' !in f.0
  {
    if pair == PairText(f) && f.0 != "" && '=' !in f.0 {
      FirstChar(f.0, '=', f.1);
      assert pair == f.0 + ['='] + f.1;
      assert pair[..|f.0|] == f.0 && pair[|f.0| + 1..] == f.1;
    }
    if ParamEntry(pair) == Some(f) {
      var p := Find(pair, "=");
      CharMatch(pair, '=', p);
      forall j | 0 <= j < p
        ensures pair[j] != '='
      {
        CharMatch(pair, '=', j);
      }
      assert pair == pair[..p] + "=" + pair[p + 1..];
    }
  }

  /** Without a "?" there are no parameters. */
  lemma NoQuery(url: string)
    requires '?' !in url
    ensures Params(url) == map[]
  {
    CharContains(url, '?');
  }

  lemma FirstChar(a: string, c: char, b: string)
    requires c !in a
    ensures Find(a + [c] + b, [c]) == |a|
  {
    var s := a + [c] + b;
    CharMatch(s, c, |a|);
    forall j | 0 <= j < |a|
      ensures !MatchAt(s, [c], j)
    {
      CharMatch(s, c, j);
    }
  }

  lemma SlicesCons(token: string, more: string)
    requires '&' !in token && more != ""
    ensures Slices(token + "&" + more, "&") == [token] + Slices(more, "&")
  {
    var s := token + ['&'] + more;
    FirstChar(token, '&', more);
    assert s[..|token|] == token && s[|token| + 1..] == more;
    SplitStep(s, "&", |token|, more);
  }

  lemma {:induction false} PairsReadBack(pairs: seq<Field>)
    requires forall i :: 0 <= i < |pairs| ==> CleanPair(pairs[i])
    ensures ParamEntries(Slices(QueryText(pairs), "&")) == Somes(pairs)
    ensures pairs != [] ==> QueryText(pairs) != ""
    decreases |pairs|
  {
    hide CleanPair;
    hide ParamEntry;
    hide PairText;
    if pairs != [] {
      var f, rest := pairs[0], pairs[1..];
      PairEntry(f);
      if rest == [] {
        CharContains(PairText(f), '&');
        assert Slices(PairText(f), "&") == [PairText(f)];
      } else {
        PairsReadBack(rest);
        SlicesCons(PairText(f), QueryText(rest));
        assert Somes(pairs) == [Some(f)] + Somes(rest);
      }
    }
  }

  lemma ParamsAfterPath(path: string, query: string)
    requires '?' !in path
    ensures Params(path + "?" + query) == EmplaceAll(map[], ParamEntries(Slices(query, "&")))
  {
    hide Slices;
    hide EmplaceAll;
    hide ParamEntry;
    var url := path + ['?'] + query;
    FirstChar(path, '?', query);
    assert url[|path| + 1..] == query;
  }

  /** The parameters of a printed query are read back. */
  lemma QueryReadsBack(path: string, pairs: seq<Field>)
    requires '?' !in path && Distinct(pairs)
    requires forall i :: 0 <= i < |pairs| ==> CleanPair(pairs[i])
    ensures Params(path + "?" + QueryText(pairs)) == Dict(pairs)
  {
    hide Params;
    hide Slices;
    hide QueryText;
    hide EmplaceAll;
    hide Distinct;
    hide CleanPair;
    hide Dict;
    hide Somes;
    hide ParamEntries;
    ParamsAfterPath(path, QueryText(pairs));
    PairsReadBack(pairs);
    EmplaceKnown(map[], pairs);
    MergeNothing(Dict(pairs));
  }

  lemma MergeNothing(m: map<string, string>)
    ensures map[] + m == m
  {
  }
}
