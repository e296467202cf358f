/**
 In-order release of pipelined results, test/eval/ResultOrder/test-result-order-class.cpp. The
 pending results of a client are a `std::map` from request numbers: a sequence of entries in
 strictly increasing order of their number.
 */
module ResultOrder {
  import opened Wrappers

  datatype Props = Props(httpType: nat, sendfileFD: nat, asIndex: nat)

  datatype Entry = Entry(nr: nat, props: Props)

  datatype Result = Result(sendfileFD: nat, asIndex: nat)

  type Pending = seq<Entry>

  predicate Sorted(p: Pending)
  {
    forall i, j :: 0 <= i < j < |p| ==> p[i].nr < p[j].nr
  }

  predicate HasNr(p: Pending, nr: nat)
  {
    exists i :: 0 <= i < |p| && p[i].nr == nr
  }

  function ResultOf(e: Entry): Result
  {
    Result(e.props.sendfileFD, e.props.asIndex)
  }

  /** The k-th result has the file descriptor and the index of the k-th entry. */
  predicate ResultsFor(p: Pending, rs: seq<Result>)
  {
    && |rs| == |p|
    && forall k :: 0 <= k < |p| ==> rs[k].sendfileFD == p[k].props.sendfileFD && rs[k].asIndex == p[k].props.asIndex
  }

  function ResultsOf(p: Pending): (rs: seq<Result>)
    ensures |rs| == |p|
  {
    seq(|p|, i requires 0 <= i < |p| => ResultOf(p[i]))
  }

  lemma ResultsAreThose(p: Pending)
    ensures ResultsFor(p, ResultsOf(p))
  {
  }

  // ---------------------------------------------------------------- append

  /** `map::emplace`: a number already present keeps its entry. */
  function Insert(p: Pending, e: Entry): Pending
    decreases |p|
  {
    if p == [] || e.nr < p[0].nr then [e] + p
    else if e.nr == p[0].nr then p
    else [p[0]] + Insert(p[1..], e)
  }

  lemma HasNrStep(p: Pending, nr: nat)
    requires Sorted(p) && p != []
    ensures nr == p[0].nr ==> HasNr(p, nr)
    ensures nr < p[0].nr ==> !HasNr(p, nr)
    ensures nr > p[0].nr ==> (HasNr(p, nr) <==> HasNr(p[1..], nr))
  {
    var rest := p[1..];
    assert forall i :: 0 < i < |p| ==> rest[i - 1] == p[i] && p[0].nr < p[i].nr;
    if nr > p[0].nr && HasNr(p, nr) {
      var i :| 0 <= i < |p| && p[i].nr == nr;
      assert rest[i - 1].nr == nr;
    }
    if nr > p[0].nr && HasNr(rest, nr) {
      var i :| 0 <= i < |rest| && rest[i].nr == nr;
      assert p[i + 1].nr == nr;
    }
  }

  lemma SortedCons(e: Entry, p: Pending)
    requires Sorted(p) && forall x :: x in p ==> e.nr < x.nr
    ensures Sorted([e] + p)
  {
    assert forall i :: 0 <= i < |p| ==> p[i] in p;
  }

  lemma {:induction false} InsertKeepsSorted(p: Pending, e: Entry)
    requires Sorted(p)
    ensures Sorted(Insert(p, e))
    ensures forall x :: x in Insert(p, e) <==> x in p || (x == e && !HasNr(p, e.nr))
    decreases |p|
  {
    hide Sorted;
    hide HasNr;
    if p == [] {
      assert Insert(p, e) == [e];
      OneIsSorted(e);
    } else {
      var rest := p[1..];
      assert p == [p[0]] + rest;
      HasNrStep(p, e.nr);
      TailSorted(p);
      if e.nr < p[0].nr {
        SortedCons(e, p);
      } else if e.nr > p[0].nr {
        InsertKeepsSorted(rest, e);
        SortedCons(p[0], Insert(rest, e));
      }
    }
  }

  lemma OneIsSorted(e: Entry)
    ensures Sorted([e]) && !HasNr([], e.nr)
  {
  }

  lemma TailSorted(p: Pending)
    requires Sorted(p) && p != []
    ensures Sorted(p[1..]) && forall x :: x in p[1..] ==> p[0].nr < x.nr
    ensures forall x :: x in p ==> p[0].nr <= x.nr
  {
    forall x | x in p[1..]
      ensures p[0].nr < x.nr
    {
      var i :| 0 <= i < |p[1..]| && p[1..][i] == x;
      assert p[i + 1] == x;
    }
    assert p == [p[0]] + p[1..];
  }

  function InsertAll(p: Pending, es: seq<Entry>): Pending
    decreases |es|
  {
    if es == [] then p else InsertAll(Insert(p, es[0]), es[1..])
  }

  predicate DistinctNrs(es: seq<Entry>)
  {
    forall i, j :: 0 <= i < j < |es| ==> es[i].nr != es[j].nr
  }

  lemma {:induction false} InsertAllHolds(p: Pending, es: seq<Entry>)
    requires Sorted(p) && DistinctNrs(es)
    requires forall i :: 0 <= i < |es| ==> !HasNr(p, es[i].nr)
    ensures Sorted(InsertAll(p, es))
    ensures forall x :: x in InsertAll(p, es) <==> x in p || x in es
    decreases |es|
  {
    if es != [] {
      var e, rest := es[0], es[1..];
      InsertKeepsSorted(p, e);
      var q := Insert(p, e);
      forall i | 0 <= i < |rest|
        ensures !HasNr(q, rest[i].nr)
      {
        assert rest[i] == es[i + 1];
        assert forall k :: 0 <= k < |q| ==> q[k] in q;
      }
      InsertAllHolds(q, rest);
      assert es == [e] + rest;
    }
  }

  lemma {:induction false} SortedIsUnique(p: Pending, q: Pending)
    requires Sorted(p) && Sorted(q) && forall x :: x in p <==> x in q
    ensures p == q
    decreases |p|
  {
    assert q != [] ==> q[0] in q;
    if p != [] {
      assert p[0] in q && q != [];
      assert q[0] in p;
      var i :| 0 <= i < |q| && q[i] == p[0];
      var j :| 0 <= j < |p| && p[j] == q[0];
      assert p[0] == q[0];
      SameTail(p, q);
      SortedIsUnique(p[1..], q[1..]);
      assert p == [p[0]] + p[1..] && q == [q[0]] + q[1..];
    }
  }

  lemma SameTail(p: Pending, q: Pending)
    requires Sorted(p) && Sorted(q) && p != [] && q != [] && p[0] == q[0] && forall x :: x in p <==> x in q
    ensures forall x :: x in p[1..] <==> x in q[1..]
  {
    forall x
      ensures x in p[1..] <==> x in p && x != p[0]
      ensures x in q[1..] <==> x in q && x != q[0]
    {
      TailElements(p, x);
      TailElements(q, x);
    }
  }

  lemma TailElements(p: Pending, x: Entry)
    requires Sorted(p) && p != []
    ensures x in p[1..] <==> x in p && x != p[0]
  {
    assert p == [p[0]] + p[1..];
    if x in p[1..] {
      var i :| 0 <= i < |p[1..]| && p[1..][i] == x;
      assert p[i + 1] == x;
    }
  }

  /** The order in which results with distinct numbers are appended does not matter. */
  lemma AppendOrderDoesNotMatter(p: Pending, es: seq<Entry>, fs: seq<Entry>)
    requires Sorted(p) && DistinctNrs(es) && DistinctNrs(fs) && forall x :: x in es <==> x in fs
    requires forall i :: 0 <= i < |es| ==> !HasNr(p, es[i].nr)
    ensures InsertAll(p, es) == InsertAll(p, fs)
  {
    InsertAllHolds(p, es);
    forall i | 0 <= i < |fs|
      ensures !HasNr(p, fs[i].nr)
    {
      assert fs[i] in es;
    }
    InsertAllHolds(p, fs);
    SortedIsUnique(InsertAll(p, es), InsertAll(p, fs));
  }

  // ---------------------------------------------------------------- release

  /** The HTTP/1.1 loop with its two 16-bit counters. */
  function Walk(p: Pending, check: nat, index: nat): seq<Result>
    decreases |p|
  {
    if p == [] || (p[0].props.httpType == 1 && index == 0 && p[0].nr != check) then []
    else
      (if p[0].props.httpType == 1 && p[0].nr == check then [ResultOf(p[0])] else [])
      + Walk(p[1..], (check + 1) % UINT16_RANGE, (index + 1) % UINT16_RANGE)
  }

  /** The entries numbered `nr`, `nr + 1` and so on at the front of `p`. */
  function Consecutive(p: Pending, nr: nat): (r: Pending)
    ensures r <= p
    ensures forall i :: 0 <= i < |r| ==> r[i].nr == nr + i
    ensures |r| < |p| ==> p[|r|].nr != nr + |r|
    decreases |p|
  {
    if p == [] || p[0].nr != nr then []
    else
      var r := Consecutive(p[1..], nr + 1);
      assert p[1..][..|r|] == r;
      [p[0]] + r
  }

  predicate Is11(e: Entry)
  {
    e.props.httpType == 1
  }

  /** The entries as the map holds them: sorted by their 16-bit numbers. */
  predicate Numbered(p: Pending)
  {
    Sorted(p) && forall i :: 0 <= i < |p| ==> p[i].nr < UINT16_RANGE
  }

  lemma {:induction false} NrsRise(p: Pending, i: nat)
    requires Sorted(p) && i < |p|
    ensures p[i].nr >= p[0].nr + i
    decreases i
  {
    if i > 0 {
      NrsRise(p, i - 1);
    }
  }

  lemma CountWithinRange(p: Pending)
    requires Numbered(p)
    ensures |p| <= UINT16_RANGE
  {
    if p != [] {
      NrsRise(p, |p| - 1);
    }
  }

  /** The HTTP/1.1 entries that stand as far from the front as their number is from `nr`. */
  function Matching(p: Pending, nr: nat): Pending
    decreases |p|
  {
    if p == [] then [] else (if Is11(p[0]) && p[0].nr == nr then [p[0]] else []) + Matching(p[1..], nr + 1)
  }

  /** A first entry that is HTTP/1.1 and not the expected one blocks the client. */
  predicate Blocked(p: Pending, expected: nat)
  {
    p != [] && Is11(p[0]) && p[0].nr != expected
  }

  /** The entries the loop releases. */
  function Released(p: Pending, expected: nat): Pending
  {
    if Blocked(p, expected) then [] else Matching(p, expected)
  }

  lemma ResultsOfConcat(p: Pending, q: Pending)
    ensures ResultsOf(p + q) == ResultsOf(p) + ResultsOf(q)
  {
  }

  lemma ResultsOfCons(e: Entry, p: Pending)
    ensures ResultsOf([e] + p) == [ResultOf(e)] + ResultsOf(p)
  {
  }

  lemma WalkStep(p: Pending, check: nat, index: nat)
    requires p != [] && (index > 0 || !Blocked(p, check))
    ensures Walk(p, check, index) == (if Is11(p[0]) && p[0].nr == check then [ResultOf(p[0])] else [])
                                     + Walk(p[1..], (check + 1) % UINT16_RANGE, (index + 1) % UINT16_RANGE)
  {
  }

  lemma WalkStops(p: Pending, check: nat)
    requires Blocked(p, check)
    ensures Walk(p, check, 0) == []
  {
  }

  lemma MatchingStep(p: Pending, nr: nat)
    requires p != []
    ensures ResultsOf(Matching(p, nr)) == (if Is11(p[0]) && p[0].nr == nr then [ResultOf(p[0])] else [])
                                          + ResultsOf(Matching(p[1..], nr + 1))
  {
    var first: Pending := if Is11(p[0]) && p[0].nr == nr then [p[0]] else [];
    ResultsOfConcat(first, Matching(p[1..], nr + 1));
    assert ResultsOf(first) == if first == [] then [] else [ResultOf(p[0])];
  }

  lemma NothingToWalk(check: nat, index: nat, nr: nat)
    ensures Walk([], check, index) == ResultsOf(Matching([], nr))
  {
  }

  /** The counters do not lead the loop astray: `nr` is the running number without wrap-around. */
  lemma {:induction false} WalkMatches(p: Pending, nr: nat, index: nat)
    requires Numbered(p) && nr < UINT16_RANGE + index && index + |p| <= UINT16_RANGE
    requires p != [] ==> p[0].nr >= index && (index > 0 || !Blocked(p, nr))
    ensures Walk(p, nr % UINT16_RANGE, index) == ResultsOf(Matching(p, nr))
    decreases |p|
  {
    hide Walk;
    hide Matching;
    hide ResultsOf;
    var check := nr % UINT16_RANGE;
    if p == [] {
      NothingToWalk(check, index, nr);
    } else {
      var rest := p[1..];
      assert p[0].nr == check <==> p[0].nr == nr;
      WalkStep(p, check, index);
      MatchingStep(p, nr);
      if rest == [] {
        NothingToWalk((check + 1) % UINT16_RANGE, (index + 1) % UINT16_RANGE, nr + 1);
      } else {
        assert rest[0] == p[1] && p[0].nr < p[1].nr;
        WalkMatches(rest, nr + 1, index + 1);
        assert (nr + 1) % UINT16_RANGE == (check + 1) % UINT16_RANGE;
      }
    }
  }

  /** The loop, for every client: its 16-bit counters release exactly these entries. */
  lemma WalkReleases(p: Pending, expected: nat)
    requires Numbered(p) && expected < UINT16_RANGE
    ensures Walk(p, expected, 0) == ResultsOf(Released(p, expected))
  {
    if !Blocked(p, expected) {
      CountWithinRange(p);
      WalkMatches(p, expected, 0);
    }
  }

  function Only11(p: Pending): Pending
  {
    if p == [] then [] else (if Is11(p[0]) then [p[0]] else []) + Only11(p[1..])
  }

  lemma {:induction false} NoMatchAbove(p: Pending, nr: nat)
    requires Sorted(p) && (p != [] ==> nr < p[0].nr)
    ensures Matching(p, nr) == []
    decreases |p|
  {
    if p != [] {
      NoMatchAbove(p[1..], nr + 1);
    }
  }

  lemma MatchingCons(e: Entry, rest: Pending)
    ensures Matching([e] + rest, e.nr) == (if Is11(e) then [e] else []) + Matching(rest, e.nr + 1)
    ensures Consecutive([e] + rest, e.nr) == [e] + Consecutive(rest, e.nr + 1)
  {
    assert ([e] + rest)[1..] == rest;
  }

  lemma Only11Cons(e: Entry, rest: Pending)
    ensures Only11([e] + rest) == (if Is11(e) then [e] else []) + Only11(rest)
  {
    assert ([e] + rest)[1..] == rest;
  }

  lemma NoRun(p: Pending, nr: nat)
    requires p == [] || p[0].nr != nr
    ensures Only11(Consecutive(p, nr)) == []
  {
  }

  lemma {:induction false} MatchingIsRun(p: Pending, nr: nat)
    requires Sorted(p) && (p != [] ==> nr <= p[0].nr)
    ensures Matching(p, nr) == Only11(Consecutive(p, nr))
    decreases |p|
  {
    hide Matching;
    hide Consecutive;
    hide Only11;
    if p == [] || p[0].nr != nr {
      NoMatchAbove(p, nr);
      NoRun(p, nr);
    } else {
      var rest := p[1..];
      assert p == [p[0]] + rest;
      MatchingIsRun(rest, nr + 1);
      MatchingCons(p[0], rest);
      Only11Cons(p[0], Consecutive(rest, nr + 1));
    }
  }

  /** The pending entries from number `nr` on. */
  function From(p: Pending, nr: nat): Pending
    decreases |p|
  {
    if p == [] || nr <= p[0].nr then p else From(p[1..], nr)
  }

  lemma {:induction false} FromHolds(p: Pending, nr: nat, n: nat)
    requires Sorted(p) && nr <= n
    ensures Sorted(From(p, nr)) && (From(p, nr) != [] ==> nr <= From(p, nr)[0].nr)
    ensures HasNr(From(p, nr), n) <==> HasNr(p, n)
    ensures forall x :: x in From(p, nr) ==> x in p
    decreases |p|
  {
    hide HasNr;
    if p != [] && p[0].nr < nr {
      HasNrStep(p, n);
      FromHolds(p[1..], nr, n);
    }
  }

  /** The run that should be released: the pending entries numbered `nr`, `nr + 1` and so on. */
  function MaximalRun(p: Pending, nr: nat): Pending
  {
    Consecutive(From(p, nr), nr)
  }

  /**
   The run is maximal: in increasing order and once each, the entries of the numbers from the
   expected one up to the first that is not pending.
   */
  lemma RunIsMaximal(p: Pending, expected: nat, k: nat)
    requires Sorted(p)
    ensures var r := MaximalRun(p, expected);
            && (forall i :: 0 <= i < |r| ==> r[i] in p && r[i].nr == expected + i)
            && (k < |r| <==> forall n :: expected <= n <= expected + k ==> HasNr(p, n))
  {
    hide Consecutive;
    hide From;
    hide HasNr;
    var q, r := From(p, expected), MaximalRun(p, expected);
    FromHolds(p, expected, expected);
    assert forall i :: 0 <= i < |r| ==> r[i] == q[i] && q[i] in q;
    forall n | expected <= n < expected + |r|
      ensures HasNr(p, n)
    {
      FromHolds(p, expected, n);
      IsPending(q, n - expected, n);
    }
    NotPending(q, expected, |r|);
    FromHolds(p, expected, expected + |r|);
    if k >= |r| {
      assert !HasNr(p, expected + |r|);
    }
  }

  lemma IsPending(p: Pending, i: nat, n: nat)
    requires i < |p| && p[i].nr == n
    ensures HasNr(p, n)
  {
  }

  /**
   In-order release: for every client without a result older than the expected one, the loop
   returns exactly the HTTP/1.1 results of the maximal run from the expected number on, in order.
   */
  lemma InOrderRelease(p: Pending, expected: nat)
    requires Numbered(p) && expected < UINT16_RANGE && (p != [] ==> expected <= p[0].nr)
    ensures Walk(p, expected, 0) == ResultsOf(Only11(MaximalRun(p, expected)))
    ensures Released(p, expected) == Only11(MaximalRun(p, expected))
  {
    WalkReleases(p, expected);
    MatchingIsRun(p, expected);
  }

  lemma {:induction false} MatchingHolds(p: Pending, nr: nat, x: Entry)
    ensures x in Matching(p, nr) <==> exists i :: 0 <= i < |p| && p[i] == x && Is11(x) && x.nr == nr + i
    decreases |p|
  {
    if p != [] {
      var rest := p[1..];
      MatchingHolds(rest, nr + 1, x);
      if x in Matching(rest, nr + 1) {
        var i :| 0 <= i < |rest| && rest[i] == x && Is11(x) && x.nr == nr + 1 + i;
        assert p[i + 1] == x;
      }
      if i :| 0 <= i < |p| && p[i] == x && Is11(x) && x.nr == nr + i && i > 0 {
        assert rest[i - 1] == x;
      }
      assert p[0] == x && Is11(x) && x.nr == nr ==> x in Matching(p, nr);
    }
  }

  /** An entry released behind an older one is released ahead of a number that is missing. */
  lemma {:induction false} AheadOfMissing(p: Pending, expected: nat, i: nat) returns (n: nat)
    requires Sorted(p) && i < |p| && p[0].nr < expected && p[i].nr >= expected + i
    ensures expected <= n < expected + i && !HasNr(p, n)
    decreases i
  {
    if p[i - 1].nr >= expected + i - 1 {
      n := AheadOfMissing(p, expected, i - 1);
    } else {
      n := expected + i - 1;
      forall k | 0 <= k < |p|
        ensures p[k].nr != n
      {
        assert k < i - 1 ==> p[k].nr < p[i - 1].nr;
        assert k > i ==> p[i].nr < p[k].nr;
      }
    }
  }

  /** With an older entry in front, nothing that is released belongs to the maximal run. */
  lemma OlderMakesDisorder(p: Pending, expected: nat, x: Entry) returns (n: nat)
    requires Sorted(p) && p != [] && p[0].nr < expected && x in Matching(p, expected)
    ensures expected <= n < x.nr && !HasNr(p, n)
    ensures x !in MaximalRun(p, expected)
  {
    hide Matching;
    hide MaximalRun;
    MatchingHolds(p, expected, x);
    var i :| 0 <= i < |p| && p[i] == x && Is11(x) && x.nr == expected + i;
    n := AheadOfMissing(p, expected, i);
    var r := MaximalRun(p, expected);
    if x in r {
      var k :| 0 <= k < |r| && r[k] == x;
      RunIsMaximal(p, expected, k);
    }
  }

  lemma {:induction false} Only11Holds(p: Pending, x: Entry)
    ensures x in Only11(p) <==> x in p && Is11(x)
    decreases |p|
  {
    if p != [] {
      Only11Holds(p[1..], x);
      assert p == [p[0]] + p[1..];
    }
  }

  /** No HTTP/1.1 entry stands as far from the front as its number is from the expected one. */
  predicate NothingMatches(p: Pending, expected: nat)
  {
    forall i :: 0 <= i < |p| ==> !(Is11(p[i]) && p[i].nr == expected + i)
  }

  lemma MatchingIsEmpty(p: Pending, expected: nat)
    ensures Matching(p, expected) == [] <==> NothingMatches(p, expected)
  {
    if Matching(p, expected) != [] {
      var x := Matching(p, expected)[0];
      MatchingHolds(p, expected, x);
    }
    if i :| 0 <= i < |p| && Is11(p[i]) && p[i].nr == expected + i {
      MatchingHolds(p, expected, p[i]);
    }
  }

  /**
   In-order release, exactly and for every client: the entries released are the HTTP/1.1 entries of
   the maximal run from the expected number on if and only if no older entry is pending, or the run
   has no HTTP/1.1 entry and either an HTTP/1.1 entry in front blocks the client or nothing matches
   the counter. An older HTTP/1.1 entry blocks the client; behind any other older entry, whatever
   is released is ahead of a number that is missing.
   */
  lemma ReleaseCondition(p: Pending, expected: nat)
    requires Numbered(p) && expected < UINT16_RANGE
    ensures Walk(p, expected, 0) == ResultsOf(Released(p, expected))
    ensures Released(p, expected) == Only11(MaximalRun(p, expected)) <==>
            || p == [] || expected <= p[0].nr
            || (Only11(MaximalRun(p, expected)) == [] && (Is11(p[0]) || NothingMatches(p, expected)))
  {
    hide Matching;
    hide Only11;
    hide MaximalRun;
    hide NothingMatches;
    WalkReleases(p, expected);
    if p == [] || expected <= p[0].nr {
      InOrderRelease(p, expected);
    } else {
      MatchingIsEmpty(p, expected);
      var released, run := Released(p, expected), Only11(MaximalRun(p, expected));
      if released == run && run != [] {
        var x := run[0];
        Only11Holds(MaximalRun(p, expected), x);
        var n := OlderMakesDisorder(p, expected, x);
      }
    }
  }

  /** All pending entries are HTTP/1.1 results with 16-bit numbers. */
  predicate Ordered11(p: Pending)
  {
    Numbered(p) && forall i :: 0 <= i < |p| ==> Is11(p[i])
  }

  /** For a client with HTTP/1.1 results only, an older one is what keeps the run from being released. */
  lemma PureRelease(p: Pending, expected: nat)
    requires Ordered11(p) && expected < UINT16_RANGE
    ensures Walk(p, expected, 0) == ResultsOf(Consecutive(p, expected))
    ensures Walk(p, expected, 0) == ResultsOf(MaximalRun(p, expected)) <==>
            p == [] || expected <= p[0].nr || !HasNr(p, expected)
  {
    if p == [] || expected <= p[0].nr {
      InOrderRelease(p, expected);
      AllAre11(MaximalRun(p, expected));
    } else {
      assert Consecutive(p, expected) == [];
      RunIsMaximal(p, expected, 0);
      assert |ResultsOf(MaximalRun(p, expected))| == 0 <==> !HasNr(p, expected);
    }
  }

  lemma {:induction false} AllAre11(p: Pending)
    requires forall i :: 0 <= i < |p| ==> Is11(p[i])
    ensures Only11(p) == p
    decreases |p|
  {
    if p != [] {
      AllAre11(p[1..]);
    }
  }

  /** With an HTTP/1.2 result 0 and an HTTP/1.1 result 2, result 2 is released while 1 is expected. */
  lemma MixedReleasesEarly(a: Props, b: Props)
    requires a.httpType == 2 && b.httpType == 1
    ensures var p := [Entry(0, a), Entry(2, b)];
            Numbered(p) && Walk(p, 1, 0) == [ResultOf(Entry(2, b))] && !HasNr(p, 1)
  {
    var p := [Entry(0, a), Entry(2, b)];
    assert p[1..] == [Entry(2, b)] && [Entry(2, b)][1..] == [];
    assert Walk([], 3, 2) == [];
    assert Walk(p[1..], 2, 1) == [ResultOf(Entry(2, b))] + Walk([], 3, 2);
  }

  /** A client with results 0 and 1 that expects number 1 is given nothing. */
  lemma OlderEntryBlocks(a: Props, b: Props)
    requires a.httpType == 1 && b.httpType == 1
    ensures var p := [Entry(0, a), Entry(1, b)];
            Ordered11(p) && Walk(p, 1, 0) == [] && MaximalRun(p, 1) == [Entry(1, b)]
  {
    var p := [Entry(0, a), Entry(1, b)];
    assert p[1..] == [Entry(1, b)] && [Entry(1, b)][1..] == [];
    assert From(p, 1) == [Entry(1, b)];
  }

  lemma NotPending(p: Pending, expected: nat, m: nat)
    requires Sorted(p) && (p != [] ==> expected <= p[0].nr) && m <= |p|
    requires (forall i :: 0 <= i < m ==> p[i].nr == expected + i) && (m < |p| ==> p[m].nr != expected + m)
    ensures !HasNr(p, expected + m)
  {
    if m < |p| {
      NrsRise(p, m);
    }
  }

  // ---------------------------------------------------------------- the class

  /** The HTTP/1.2 loop: every HTTP/1.2 result, in order of its number. */
  function Unordered(p: Pending): seq<Result>
    decreases |p|
  {
    if p == [] then [] else (if p[0].props.httpType == 2 then [ResultOf(p[0])] else []) + Unordered(p[1..])
  }

  function Only12(p: Pending): Pending
  {
    if p == [] then [] else (if p[0].props.httpType == 2 then [p[0]] else []) + Only12(p[1..])
  }

  /** These are the HTTP/1.2 entries, all of them, once each and in increasing order of their number. */
  lemma {:induction false} UnorderedIsFilter(p: Pending)
    requires Sorted(p)
    ensures Unordered(p) == ResultsOf(Only12(p)) && Sorted(Only12(p))
    ensures forall x :: x in Only12(p) <==> x in p && x.props.httpType == 2
    decreases |p|
  {
    if p != [] {
      hide Sorted;
      TailSorted(p);
      var q := Only12(p[1..]);
      UnorderedIsFilter(p[1..]);
      assert p == [p[0]] + p[1..];
      if p[0].props.httpType == 2 {
        SortedCons(p[0], q);
        ResultsOfCons(p[0], q);
      }
    }
  }

  /** What is released is released in increasing order of number, from the entries pending. */
  lemma ReleasedInOrder(p: Pending, expected: nat)
    requires Sorted(p)
    ensures Sorted(Released(p, expected))
    ensures forall x :: x in Released(p, expected) ==> x in p && Is11(x)
  {
    MatchingInOrder(p, expected);
  }

  lemma {:induction false} MatchingInOrder(p: Pending, nr: nat)
    requires Sorted(p)
    ensures Sorted(Matching(p, nr))
    ensures forall x :: x in Matching(p, nr) ==> x in p && Is11(x)
    decreases |p|
  {
    if p != [] {
      hide Sorted;
      TailSorted(p);
      MatchingInOrder(p[1..], nr + 1);
      assert p == [p[0]] + p[1..];
      if Is11(p[0]) && p[0].nr == nr {
        SortedCons(p[0], Matching(p[1..], nr + 1));
      }
    }
  }

  class ResultOrderQueue {
    var requests: map<nat, Pending>
    var lastRequest: map<nat, nat>

    ghost predicate Valid()
      reads this
    {
      forall c :: c in requests ==> Sorted(requests[c])
    }

    constructor ()
      ensures Valid() && requests == map[] && lastRequest == map[]
    {
      requests, lastRequest := map[], map[];
    }

    function PendingOf(client: nat): Pending
      reads this
    {
      if client in requests then requests[client] else []
    }

    method Append(client: nat, nr: nat, props: Props)
      requires Valid()
      modifies this`requests
      ensures Valid() && requests == old(requests)[client := Insert(old(PendingOf(client)), Entry(nr, props))]
    {
      InsertKeepsSorted(PendingOf(client), Entry(nr, props));
      if client in requests {
        requests := requests[client := Insert(requests[client], Entry(nr, props))];
      } else {
        requests := requests[client := Insert([], Entry(nr, props))];
      }
    }

    /** Every client with pending results and no counter yet expects number 1. */
    method ProcessClients()
      modifies this`lastRequest
      ensures lastRequest.Keys == old(lastRequest).Keys + requests.Keys
      ensures forall c :: c in lastRequest ==>
                lastRequest[c] == if c in old(lastRequest) then old(lastRequest)[c] else 1
    {
      var todo := requests.Keys;
      while todo != {}
        invariant todo <= requests.Keys
        invariant lastRequest.Keys == old(lastRequest).Keys + (requests.Keys - todo)
        invariant forall c :: c in lastRequest ==>
                    lastRequest[c] == if c in old(lastRequest) then old(lastRequest)[c] else 1
        decreases todo
      {
        var c :| c in todo;
        if c !in lastRequest {
          lastRequest := lastRequest[c := 1];
        }
        todo := todo - {c};
      }
    }

    /** `None` is the exception of `at` on a client that is not there. */
    method GetNextRequests(client: nat, httpType: nat) returns (r: Option<seq<Result>>)
      requires Valid()
      ensures r.None? <==> (httpType == 2 && client !in requests)
                           || (httpType == 1 && (client !in lastRequest || client !in requests))
      ensures httpType == 2 && r.Some? ==>
                r.value == Unordered(requests[client]) && ResultsFor(Only12(requests[client]), r.value)
      ensures httpType == 1 && r.Some? ==> r.value == Walk(requests[client], lastRequest[client], 0)
      ensures httpType == 1 && r.Some? && Numbered(requests[client]) && lastRequest[client] < UINT16_RANGE ==>
                ResultsFor(Released(requests[client], lastRequest[client]), r.value)
      ensures httpType == 1 && r.Some? && Ordered11(requests[client]) && lastRequest[client] < UINT16_RANGE ==>
                ResultsFor(Consecutive(requests[client], lastRequest[client]), r.value)
      ensures httpType != 1 && httpType != 2 ==> r == Some([])
    {
      hide ResultsFor;
      hide Walk;
      hide Unordered;
      var data: seq<Result> := [];
      if httpType == 2 {
        if client !in requests { return None; }
        data := CollectUnordered(requests[client]);
        UnorderedIsFilter(requests[client]);
        ResultsAreThose(Only12(requests[client]));
        return Some(data);
      }
      if httpType == 1 {
        if client !in lastRequest || client !in requests { return None; }
        data := CollectOrdered(requests[client], lastRequest[client]);
        if Numbered(requests[client]) && lastRequest[client] < UINT16_RANGE {
          WalkReleases(requests[client], lastRequest[client]);
          ResultsAreThose(Released(requests[client], lastRequest[client]));
        }
        if Ordered11(requests[client]) && lastRequest[client] < UINT16_RANGE {
          PureRelease(requests[client], lastRequest[client]);
          ResultsAreThose(Consecutive(requests[client], lastRequest[client]));
        }
      }
      return Some(data);
    }
  }

  /** The loop of `getNextRequests` for HTTP/1.2. */
  method CollectUnordered(p: Pending) returns (data: seq<Result>)
    ensures data == Unordered(p)
  {
    data := [];
    for i := 0 to |p|
      invariant data + Unordered(p[i..]) == Unordered(p)
    {
      assert p[i..][1..] == p[i + 1..];
      if p[i].props.httpType == 2 {
        data := data + [ResultOf(p[i])];
      }
    }
  }

  /** The loop of `getNextRequests` for HTTP/1.1. */
  method CollectOrdered(p: Pending, last: nat) returns (data: seq<Result>)
    ensures data == Walk(p, last, 0)
  {
    hide Walk;
    data := [];
    var check: nat, reqIndex: nat := last, 0;
    assert p[0..] == p;
    for i := 0 to |p|
      invariant data + Walk(p[i..], check, reqIndex) == Walk(p, last, 0)
    {
      assert p[i..][1..] == p[i + 1..];
      if p[i].props.httpType == 1 && reqIndex == 0 && p[i].nr != check {
        WalkStops(p[i..], check);
        return;
      }
      WalkStep(p[i..], check, reqIndex);
      if p[i].props.httpType == 1 && p[i].nr == check {
        data := data + [ResultOf(p[i])];
      }
      check := (check + 1) % UINT16_RANGE;
      reqIndex := (reqIndex + 1) % UINT16_RANGE;
    }
    NothingToWalk(check, reqIndex, 0);
    assert p[|p|..] == [];
  }
}
