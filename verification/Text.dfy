/**
 Searching and splitting of byte strings, as the C++ `string` operations `find`, `rfind` and
 `substr` and the `StringHelper` class of lib/http do it. A byte is a `char`; the C++ value
 `npos` is `NPOS`.
 */
module Text {

  const NPOS := -1

  /** `d` occurs in `s` at position `i`. */
  predicate MatchAt(s: string, d: string, i: int)
  {
    0 <= i <= |s| - |d| && s[i..i + |d|] == d
  }

  /** `r` is the first position at or after `from` where `d` occurs in `s`. */
  predicate IsFirst(s: string, d: string, from: nat, r: int)
  {
    from <= r <= |s| && MatchAt(s, d, r) && forall j :: from <= j < r ==> !MatchAt(s, d, j)
  }

  lemma FirstExists(s: string, d: string, from: nat, i: int)
    requires from <= i && MatchAt(s, d, i)
    ensures exists r :: IsFirst(s, d, from, r)
    decreases i - from
  {
    if MatchAt(s, d, from) {
      assert IsFirst(s, d, from, from);
    } else {
      FirstExists(s, d, from + 1, i);
      var r :| IsFirst(s, d, from + 1, r);
      assert IsFirst(s, d, from, r);
    }
  }

  /** `s.find(d, from)`: the first occurrence of `d` at or after `from`. */
  function FindFrom(s: string, d: string, from: nat): (r: int)
    ensures r == NPOS || (from <= r && MatchAt(s, d, r))
    ensures forall j :: from <= j && (r == NPOS || j < r) ==> !MatchAt(s, d, j)
  {
    if exists i :: from <= i <= |s| && MatchAt(s, d, i) then
      assert exists r :: IsFirst(s, d, from, r) by {
        var i :| from <= i <= |s| && MatchAt(s, d, i);
        FirstExists(s, d, from, i);
      }
      var r :| from <= r <= |s| && IsFirst(s, d, from, r);
      r
    else
      NPOS
  }

  /** `s.find(d)` */
  function Find(s: string, d: string): (r: int)
    ensures r == NPOS || MatchAt(s, d, r)
    ensures forall j :: (r == NPOS || j < r) ==> !MatchAt(s, d, j)
  {
    FindFrom(s, d, 0)
  }

  predicate Contains(s: string, d: string)
  {
    Find(s, d) != NPOS
  }

  /** `r` is the last position at or before `from` where `d` occurs in `s`. */
  predicate IsLast(s: string, d: string, from: int, r: int)
  {
    r <= from && MatchAt(s, d, r) && forall j :: r < j <= from ==> !MatchAt(s, d, j)
  }

  lemma LastExists(s: string, d: string, from: int, i: int)
    requires i <= from && MatchAt(s, d, i)
    ensures exists r :: IsLast(s, d, from, r)
    decreases from - i
  {
    if MatchAt(s, d, from) {
      assert IsLast(s, d, from, from);
    } else {
      LastExists(s, d, from - 1, i);
      var r :| IsLast(s, d, from - 1, r);
      assert IsLast(s, d, from, r);
    }
  }

  /** `s.rfind(d, from)`: the last occurrence of `d` at or before `from`. */
  function RFind(s: string, d: string, from: int): (r: int)
    ensures r == NPOS || (r <= from && MatchAt(s, d, r))
    ensures forall j :: r < j <= from ==> !MatchAt(s, d, j)
  {
    if exists i :: 0 <= i <= |s| && i <= from && MatchAt(s, d, i) then
      assert exists r :: IsLast(s, d, from, r) by {
        var i :| 0 <= i <= |s| && i <= from && MatchAt(s, d, i);
        LastExists(s, d, from, i);
      }
      var r :| 0 <= r <= |s| && IsLast(s, d, from, r);
      r
    else
      NPOS
  }

  // ---------------------------------------------------------------- occurrences

  lemma MatchInPrefix(a: string, b: string, d: string, i: int)
    requires i + |d| <= |a|
    ensures MatchAt(a + b, d, i) <==> MatchAt(a, d, i)
  {
    if 0 <= i {
      assert (a + b)[i..i + |d|] == a[i..i + |d|];
    }
  }

  lemma MatchInSuffix(a: string, b: string, d: string, i: int)
    requires |a| <= i
    ensures MatchAt(a + b, d, i) <==> MatchAt(b, d, i - |a|)
  {
    if i + |d| <= |a| + |b| {
      assert (a + b)[i..i + |d|] == b[i - |a|..i - |a| + |d|];
    }
  }

  lemma MatchChar(s: string, d: string, i: int, k: int)
    requires MatchAt(s, d, i) && 0 <= k < |d|
    ensures s[i + k] == d[k]
  {
    assert s[i..i + |d|][k] == s[i + k];
  }

  /** An occurrence found in a prefix is the one found in the whole. */
  lemma FindStable(a: string, b: string, d: string)
    requires Find(a, d) != NPOS
    ensures Find(a + b, d) == Find(a, d)
  {
    var p := Find(a, d);
    MatchInPrefix(a, b, d, p);
    forall j | j < p
      ensures !MatchAt(a + b, d, j)
    {
      MatchInPrefix(a, b, d, j);
    }
  }

  /** `find` with an offset is `find` on the remaining string. */
  lemma FindFromDrop(s: string, d: string, from: nat)
    requires from <= |s|
    ensures FindFrom(s, d, from) == if Find(s[from..], d) == NPOS then NPOS else from + Find(s[from..], d)
  {
    var t := s[from..];
    assert s == s[..from] + t;
    forall j | from <= j
      ensures MatchAt(s, d, j) <==> MatchAt(t, d, j - from)
    {
      MatchInSuffix(s[..from], t, d, j);
    }
    var p, q := FindFrom(s, d, from), Find(t, d);
    assert p != NPOS ==> MatchAt(t, d, p - from);
    assert q != NPOS ==> MatchAt(s, d, q + from);
  }

  lemma NotInPart(a: string, b: string, c: string, d: string)
    requires !Contains(a + b + c, d)
    ensures !Contains(b, d)
  {
    assert a + b + c == a + (b + c);
    forall j | 0 <= j <= |b| - |d|
      ensures !MatchAt(b, d, j)
    {
      MatchInSuffix(a, b + c, d, |a| + j);
      MatchInPrefix(b, c, d, j);
    }
  }

  lemma NotInPrefix(s: string, k: nat, d: string)
    requires k <= |s| && !Contains(s, d)
    ensures !Contains(s[..k], d)
  {
    assert s == "" + s[..k] + s[k..];
    NotInPart("", s[..k], s[k..], d);
  }

  // ---------------------------------------------------------------- splitting

  /** The pieces the destructive `StringHelper::split` pushes ... */
  function Tokens(s: string, d: string): seq<string>
    requires d != ""
    decreases |s|
  {
    var p := Find(s, d);
    if p == NPOS then [] else [s[..p]] + Tokens(s[p + |d|..], d)
  }

  /** ... and what it leaves in the string it erases from. */
  function Rest(s: string, d: string): string
    requires d != ""
    decreases |s|
  {
    var p := Find(s, d);
    if p == NPOS then s else Rest(s[p + |d|..], d)
  }

  /** The text whose pieces are `ts`, each followed by `d`, and whose remainder is `rest`. */
  function Unsplit(ts: seq<string>, rest: string, d: string): string
  {
    if ts == [] then rest else ts[0] + d + Unsplit(ts[1..], rest, d)
  }

  /** `t` can be a piece: the first `d` in `t + d` is the one at its end. */
  predicate CleanToken(t: string, d: string)
  {
    Find(t + d, d) == |t|
  }

  lemma NothingToSplit(s: string, d: string)
    requires d != "" && !Contains(s, d)
    ensures Tokens(s, d) == [] && Rest(s, d) == s
  {
  }

  lemma SplitStep(s: string, d: string, p: int, more: string)
    requires d != "" && p == Find(s, d) != NPOS && more == s[p + |d|..]
    ensures Tokens(s, d) == [s[..p]] + Tokens(more, d)
    ensures Rest(s, d) == Rest(more, d)
    ensures s == s[..p] + d + more
  {
  }

  lemma UnsplitStep(t: string, ts: seq<string>, rest: string, d: string)
    ensures Unsplit([t] + ts, rest, d) == t + d + Unsplit(ts, rest, d)
  {
    assert ([t] + ts)[1..] == ts;
  }

  /** Splitting loses nothing: the text is its pieces, delimiters and remainder. */
  lemma {:induction false} SplitIsInverse(s: string, d: string)
    requires d != ""
    ensures Unsplit(Tokens(s, d), Rest(s, d), d) == s
    ensures forall t :: t in Tokens(s, d) ==> CleanToken(t, d)
    ensures !Contains(Rest(s, d), d)
    decreases |s|
  {
    var p := Find(s, d);
    if p != NPOS {
      var more := s[p + |d|..];
      SplitIsInverse(more, d);
      FirstIsClean(s, d);
      SplitStep(s, d, p, more);
      UnsplitStep(s[..p], Tokens(more, d), Rest(more, d), d);
    }
  }

  lemma FirstIsClean(s: string, d: string)
    requires Find(s, d) != NPOS
    ensures CleanToken(s[..Find(s, d)], d)
  {
    var p := Find(s, d);
    var h := s[..p] + d;
    var more := s[p + |d|..];
    assert s == h + more;
    MatchInPrefix(h, more, d, p);
    forall j | j < p
      ensures !MatchAt(h, d, j)
    {
      MatchInPrefix(h, more, d, j);
    }
  }

  /** The only way to split: pieces that are clean and a remainder without `d` are found again. */
  lemma {:induction false} SplitIsUnique(ts: seq<string>, rest: string, d: string)
    requires d != "" && !Contains(rest, d)
    requires forall t :: t in ts ==> CleanToken(t, d)
    ensures Tokens(Unsplit(ts, rest, d), d) == ts
    ensures Rest(Unsplit(ts, rest, d), d) == rest
    decreases |ts|
  {
    if ts != [] {
      assert ts[0] in ts;
      var more := Unsplit(ts[1..], rest, d);
      FirstToken(ts[0], more, d);
      SplitIsUnique(ts[1..], rest, d);
    }
  }

  lemma FirstToken(t: string, more: string, d: string)
    requires d != "" && CleanToken(t, d)
    ensures Find(t + d + more, d) == |t|
    ensures Tokens(t + d + more, d) == [t] + Tokens(more, d)
    ensures Rest(t + d + more, d) == Rest(more, d)
  {
    var s := t + d + more;
    FindStable(t + d, more, d);
    assert s[..|t|] == t;
    assert s[|t| + |d|..] == more;
  }

  /**
   Splitting is incremental: splitting `a` first and then its remainder followed by `b` gives
   the pieces and the remainder of `a + b`, for every delimiter, self-overlapping or not.
   */
  lemma {:induction false} SplitIsIncremental(a: string, b: string, d: string)
    requires d != ""
    ensures Tokens(a + b, d) == Tokens(a, d) + Tokens(Rest(a, d) + b, d)
    ensures Rest(a + b, d) == Rest(Rest(a, d) + b, d)
    decreases |a|
  {
    var p := Find(a, d);
    if p != NPOS {
      FindStable(a, b, d);
      var more := a[p + |d|..];
      assert (a + b)[p + |d|..] == more + b;
      assert (a + b)[..p] == a[..p];
      SplitStep(a, d, p, more);
      SplitStep(a + b, d, p, more + b);
      SplitIsIncremental(more, b, d);
    }
  }

  /** The destructive `StringHelper::split`: the loop erases each piece from the front. */
  method Split(s: string, d: string) returns (ts: seq<string>, rest: string)
    requires d != ""
    ensures ts == Tokens(s, d) && rest == Rest(s, d)
  {
    ts, rest := [], s;
    var pos := Find(rest, d);
    while pos != NPOS
      invariant pos == Find(rest, d)
      invariant ts + Tokens(rest, d) == Tokens(s, d)
      invariant Rest(rest, d) == Rest(s, d)
      decreases |rest|
    {
      ts := ts + [rest[..pos]];
      rest := rest[pos + |d|..];
      pos := Find(rest, d);
    }
  }

  /** The slices of the non-destructive `split`: as above, plus the remainder unless empty. */
  function Slices(s: string, d: string): seq<string>
    requires d != ""
  {
    Tokens(s, d) + (if Rest(s, d) == "" then [] else [Rest(s, d)])
  }

  /** The non-destructive `StringHelper::split`: the loop shrinks a view from the front. */
  method SplitView(s: string, d: string) returns (out: seq<string>)
    requires d != ""
    ensures out == Slices(s, d)
  {
    out := [];
    var view := s;
    var pos := Find(view, d);
    while pos != NPOS
      invariant pos == Find(view, d)
      invariant out + Tokens(view, d) == Tokens(s, d)
      invariant Rest(view, d) == Rest(s, d)
      decreases |view|
    {
      out := out + [view[..pos]];
      view := view[pos + |d|..];
      pos := Find(view, d);
    }
    if view != "" {
      out := out + [view];
    }
  }

  // ---------------------------------------------------------------- splitting from the right

  /** Tokens put together again, and a rest, are found again; the rest is a slice if it is not empty. */
  lemma SlicesAreUnique(ts: seq<string>, rest: string, d: string)
    requires d != "" && !Contains(rest, d)
    requires forall t :: t in ts ==> CleanToken(t, d)
    ensures Slices(Unsplit(ts, rest, d), d) == if rest == "" then ts else ts + [rest]
  {
    hide Tokens;
    hide Rest;
    hide Unsplit;
    SplitIsUnique(ts, rest, d);
  }

  function Min(a: int, b: int): int
  {
    if a < b then a else b
  }

  /** The pieces of `s[..e]` from the right, the leftmost piece last. */
  function RTokens(s: string, e: nat, d: string): seq<string>
    requires d != ""
    decreases e
  {
    var p := if e < |d| then NPOS else RFind(s, d, e - |d|);
    if p == NPOS then [s[..Min(e, |s|)]]
    else [s[p + |d|..Min(e, |s|)]] + RTokens(s, p, d)
  }

  /** What `StringHelper::rsplit` pushes: one empty piece when a long enough prefix has no `d`. */
  function RSplitResult(s: string, start: nat, d: string): seq<string>
    requires d != ""
  {
    if start >= |d| && RFind(s, d, start - |d|) == NPOS then [""] else RTokens(s, start, d)
  }

  lemma RTokensStep(s: string, e: nat, d: string)
    requires d != ""
    ensures e < |d| || RFind(s, d, e - |d|) == NPOS ==> RTokens(s, e, d) == [s[..Min(e, |s|)]]
    ensures e >= |d| && RFind(s, d, e - |d|) != NPOS ==>
              var p := RFind(s, d, e - |d|);
              RTokens(s, e, d) == [s[p + |d|..Min(e, |s|)]] + RTokens(s, p, d)
  {
  }

  /** `StringHelper::rsplit`. An empty delimiter would never leave the loop. */
  method RSplit(s: string, start: nat, d: string) returns (out: seq<string>)
    requires d != ""
    ensures out == RSplitResult(s, start, d)
  {
    hide RTokens;
    out := [];
    if start < |d| {
      RTokensStep(s, start, d);
      out := out + [s[..Min(start, |s|)]];
      return;
    }
    var startPos, findPosLast := start - |d|, 0;
    var findPos := RFind(s, d, startPos);
    while findPos != NPOS
      invariant 0 <= startPos && findPos == RFind(s, d, startPos)
      invariant out == [] ==> startPos + |d| == start && findPosLast == 0
      invariant out != [] ==> startPos + |d| == findPosLast <= |s|
      invariant out != [] ==> out + RTokens(s, findPosLast, d) == RSplitResult(s, start, d)
      decreases startPos
    {
      RTokensStep(s, startPos + |d|, d);
      out := out + [s[findPos + |d|..Min(startPos + |d|, |s|)]];
      assert out + RTokens(s, findPos, d) == RSplitResult(s, start, d);
      if findPos < |d| {
        findPosLast := findPos;
        break;
      }
      startPos := findPos - |d|;
      findPosLast := findPos;
      findPos := RFind(s, d, startPos);
    }
    RTokensStep(s, findPosLast, d);
    out := out + [s[..findPosLast]];
  }

  function Concat(ss: seq<string>): string
  {
    if ss == [] then "" else ss[0] + Concat(ss[1..])
  }

  function Reverse<T>(ts: seq<T>): (r: seq<T>)
    ensures |r| == |ts|
  {
    if ts == [] then [] else Reverse(ts[1..]) + [ts[0]]
  }

  function Join(ts: seq<string>, d: string): string
    requires ts != []
  {
    if |ts| == 1 then ts[0] else Join(ts[..|ts| - 1], d) + d + ts[|ts| - 1]
  }

  lemma JoinOne(t: string, d: string)
    ensures Reverse([t]) == [t] && Join([t], d) == t
  {
    assert [t][1..] == [];
  }

  lemma JoinMore(t: string, ts: seq<string>, d: string)
    requires ts != []
    ensures Join(Reverse([t] + ts), d) == Join(Reverse(ts), d) + d + t
  {
    assert ([t] + ts)[1..] == ts;
    var r := Reverse([t] + ts);
    assert r == Reverse(ts) + [t] && r[..|r| - 1] == Reverse(ts);
  }

  lemma {:induction false} RTokensInvertJoin(s: string, e: nat, d: string)
    requires d != "" && e <= |s|
    ensures RTokens(s, e, d) != [] && Join(Reverse(RTokens(s, e, d)), d) == s[..e]
    ensures forall t :: t in RTokens(s, e, d) ==> !Contains(t, d)
    decreases e
  {
    hide RTokens;
    hide Contains;
    hide Join;
    hide Reverse;
    var p := if e < |d| then NPOS else RFind(s, d, e - |d|);
    RTokensStep(s, e, d);
    if p == NPOS {
      JoinOne(s[..e], d);
      assert s[..e] == s[0..e];
      NoMatchInside(s, 0, e, d);
    } else {
      var t := s[p + |d|..e];
      RTokensInvertJoin(s, p, d);
      JoinMore(t, RTokens(s, p, d), d);
      assert s[..e] == s[..p] + d + t;
      NoMatchInside(s, p + |d|, e, d);
    }
  }

  lemma NoMatchInside(s: string, lo: nat, e: nat, d: string)
    requires lo <= e <= |s|
    requires forall j :: lo <= j <= e - |d| ==> !MatchAt(s, d, j)
    ensures !Contains(s[lo..e], d)
  {
    var t := s[lo..e];
    assert s == s[..lo] + (t + s[e..]);
    forall j | 0 <= j <= |t| - |d|
      ensures !MatchAt(t, d, j)
    {
      MatchInPrefix(t, s[e..], d, j);
      MatchInSuffix(s[..lo], t + s[e..], d, lo + j);
    }
  }

  /**
   `rsplit` inverts join: whenever the delimiter occurs in the prefix, joining the reversed
   pieces with it gives the prefix back and no piece contains it. When it does not occur, a
   prefix at least as long as the delimiter is lost: the result is one empty piece.
   */
  lemma RSplitInvertsJoin(s: string, start: nat, d: string)
    requires d != "" && start <= |s|
    ensures RSplitResult(s, start, d) != []
    ensures Contains(s[..start], d) ==>
              && Join(Reverse(RSplitResult(s, start, d)), d) == s[..start]
              && (forall t :: t in RSplitResult(s, start, d) ==> !Contains(t, d))
    ensures !Contains(s[..start], d) ==>
              RSplitResult(s, start, d) == [if start < |d| then s[..start] else ""]
  {
    RTokensInvertJoin(s, start, d);
    var t := s[..start];
    assert s == t + s[start..];
    if Contains(t, d) {
      var q := Find(t, d);
      MatchInPrefix(t, s[start..], d, q);
    } else if start >= |d| && RFind(s, d, start - |d|) != NPOS {
      MatchInPrefix(t, s[start..], d, RFind(s, d, start - |d|));
      assert false;
    }
  }

  /** The number of positions of `s` that hold `c`. */
  function CountChar(s: string, c: char): nat
  {
    if s == "" then 0 else CountChar(s[..|s| - 1], c) + (if s[|s| - 1] == c then 1 else 0)
  }

  lemma {:induction false} CountCharSplit(a: string, c: char, b: string)
    ensures CountChar(a + [c] + b, c) == CountChar(a, c) + 1 + CountChar(b, c)
    decreases |b|
  {
    var s := a + [c] + b;
    if b == "" {
      assert s[..|s| - 1] == a;
    } else {
      assert s[..|s| - 1] == a + [c] + b[..|b| - 1];
      CountCharSplit(a, c, b[..|b| - 1]);
    }
  }

  lemma {:induction false} CountCharZero(s: string, c: char)
    ensures CountChar(s, c) == 0 <==> c !in s
    decreases |s|
  {
    if s != "" {
      CountCharZero(s[..|s| - 1], c);
      assert s == s[..|s| - 1] + [s[|s| - 1]];
    }
  }

  lemma CharMatch(s: string, c: char, i: int)
    ensures MatchAt(s, [c], i) <==> 0 <= i < |s| && s[i] == c
  {
    if 0 <= i < |s| {
      assert s[i..i + 1] == [s[i]];
    }
  }

  lemma CharContains(s: string, c: char)
    ensures Contains(s, [c]) <==> c in s
  {
    if c in s {
      var i :| 0 <= i < |s| && s[i] == c;
      CharMatch(s, c, i);
    }
    if Contains(s, [c]) {
      CharMatch(s, c, Find(s, [c]));
    }
  }

  lemma {:induction false} RTokensCount(s: string, e: nat, c: char)
    requires e <= |s|
    ensures |RTokens(s, e, [c])| == CountChar(s[..e], c) + 1
    decreases e
  {
    hide RTokens;
    hide CountChar;
    RTokensStep(s, e, [c]);
    var p := if e < 1 then NPOS else RFind(s, [c], e - 1);
    if p == NPOS {
      forall i | 0 <= i < e
        ensures s[i] != c
      {
        CharMatch(s, c, i);
      }
      CountCharZero(s[..e], c);
    } else {
      CharMatch(s, c, p);
      RTokensCount(s, p, c);
      var b := s[p + 1..e];
      assert s[..e] == s[..p] + [c] + b;
      CountCharSplit(s[..p], c, b);
      forall i | p < i < e
        ensures s[i] != c
      {
        CharMatch(s, c, i);
      }
      CountCharZero(b, c);
    }
  }

  // ---------------------------------------------------------------- decimal numbers

  predicate IsDigit(c: char)
  {
    '0' <= c <= '9'
  }

  /** `StringHelper::is_digits` */
  predicate IsDigits(s: string)
  {
    forall i :: 0 <= i < |s| ==> IsDigit(s[i])
  }

  /** The value `stoi` reads from a string of digits, before any range check. */
  function Value(s: string): nat
    requires IsDigits(s)
  {
    if s == "" then 0 else Value(s[..|s| - 1]) * 10 + (s[|s| - 1] as int - '0' as int)
  }

  /** `to_string` on an unsigned number. */
  function ToString(n: nat): (s: string)
    ensures s != "" && IsDigits(s)
  {
    var digit := ['0' + (n % 10) as char];
    if n < 10 then digit else ToString(n / 10) + digit
  }

  /** The printed digits read back as the number. */
  lemma {:induction false} ToStringValue(n: nat)
    ensures Value(ToString(n)) == n
    decreases n
  {
    var s := ToString(n);
    if n < 10 {
      assert s[..|s| - 1] == "";
    } else {
      ToStringValue(n / 10);
      assert s[..|s| - 1] == ToString(n / 10);
    }
  }
}
