/**
 The zero-copy result tree of lib/xml/xmlparser.cpp: `populateTree` walks the elements of a parsed
 message in document order and points each leaf at the next occurrence of its text in the raw
 bytes, falling back to the first occurrence anywhere.
 */
module XmlTree {
  import opened Wrappers
  import opened Text

  /** An element as the XML library gives it: `text` is its own text and CDATA content. */
  datatype Element = Element(name: string, text: string, children: seq<Element>)

  /** Where a node's text is in the raw message. */
  datatype Slice = Slice(at: nat, length: nat)

  datatype Node = Node(children: map<string, Node>, slice: Option<Slice>)

  const EMPTY := Node(map[], None)

  type Path = seq<string>

  // ---------------------------------------------------------------- trimming

  predicate IsSpace(c: char)
  {
    c == ' ' || c == '\t' || c == '\n' || c == '\r'
  }

  predicate AllSpace(s: string)
  {
    forall i :: 0 <= i < |s| ==> IsSpace(s[i])
  }

  function SkipLeft(s: string): (k: nat)
    ensures k <= |s| && AllSpace(s[..k]) && (k < |s| ==> !IsSpace(s[k]))
  {
    if s == "" || !IsSpace(s[0]) then 0
    else
      var k := SkipLeft(s[1..]);
      assert s[..k + 1] == [s[0]] + s[1..][..k];
      k + 1
  }

  function KeepRight(s: string): (k: nat)
    ensures k <= |s| && AllSpace(s[k..]) && (k > 0 ==> !IsSpace(s[k - 1]))
  {
    if s == "" || !IsSpace(s[|s| - 1]) then |s|
    else
      var k := KeepRight(s[..|s| - 1]);
      assert s[k..] == s[..|s| - 1][k..] + [s[|s| - 1]];
      k
  }

  /** `trimCopy` */
  function Trim(s: string): string
  {
    var t := s[SkipLeft(s)..];
    t[..KeepRight(t)]
  }

  /** Trimming takes exactly the white space off both ends. */
  lemma TrimParts(s: string) returns (a: string, b: string)
    ensures s == a + Trim(s) + b
    ensures forall c :: c in a || c in b ==> c in " \t\n\r"
    ensures Trim(s) != "" ==> Trim(s)[0] !in " \t\n\r" && Trim(s)[|Trim(s)| - 1] !in " \t\n\r"
  {
    hide SkipLeft;
    hide KeepRight;
    var t := s[SkipLeft(s)..];
    a, b := s[..SkipLeft(s)], t[KeepRight(t)..];
    assert t == t[..KeepRight(t)] + b;
    assert Trim(s) != "" ==> Trim(s)[0] == s[SkipLeft(s)];
  }

  lemma TrimHasText(s: string)
    requires Trim(s) != ""
    ensures exists c :: c in s && c !in " \t\n\r"
  {
    var a, b := TrimParts(s);
    assert s[|a|] == Trim(s)[0];
  }

  // ---------------------------------------------------------------- the walk

  /** Where the search for a leaf text ends up: from the offset on, or else anywhere. */
  function Locate(raw: string, value: string, offset: nat): (f: int)
    ensures f == NPOS || MatchAt(raw, value, f)
    ensures f == NPOS <==> !Contains(raw, value)
  {
    var f := FindFrom(raw, value, offset);
    if f != NPOS then f else Find(raw, value)
  }

  /** From the offset on the first occurrence counts; without any there, the first in the message. */
  lemma LocateIsFirst(raw: string, value: string, offset: nat)
    ensures var f := Locate(raw, value, offset);
            && ((exists j :: offset <= j && MatchAt(raw, value, j)) ==>
                  offset <= f && forall j :: offset <= j < f ==> !MatchAt(raw, value, j))
            && ((forall j :: offset <= j ==> !MatchAt(raw, value, j)) ==>
                  forall j :: 0 <= j < f ==> !MatchAt(raw, value, j))
  {
  }

  function Child(node: Node, name: string): Node
  {
    if name in node.children then node.children[name] else EMPTY
  }

  /** `populateTree`: the node and the search offset after an element. */
  function Populate(e: Element, node: Node, raw: string, offset: nat): (Node, nat)
    decreases e, 1, 0
  {
    if e.children != [] then PopulateAll(e.children, node, raw, offset)
    else
      var value := Trim(e.text);
      var f := Locate(raw, value, offset);
      if value == "" || f == NPOS then (node, offset)
      else (node.(slice := Some(Slice(f, |value|))), f + |value|)
  }

  function PopulateAll(es: seq<Element>, node: Node, raw: string, offset: nat): (Node, nat)
    decreases es, 0, |es|
  {
    if es == [] then (node, offset)
    else
      var (child, next) := Populate(es[0], Child(node, es[0].name), raw, offset);
      PopulateAll(es[1..], node.(children := node.children[es[0].name := child]), raw, next)
  }

  /** `populateTree` as written: a loop over the children that calls itself. */
  method PopulateTree(e: Element, node: Node, raw: string, searchOffset: nat) returns (node': Node, offset': nat)
    ensures (node', offset') == Populate(e, node, raw, searchOffset)
    decreases e
  {
    node', offset' := node, searchOffset;
    var hasElementChildren := false;
    for i := 0 to |e.children|
      invariant hasElementChildren == (i > 0)
      invariant PopulateAll(e.children[i..], node', raw, offset') == PopulateAll(e.children, node, raw, searchOffset)
    {
      hasElementChildren := true;
      assert e.children[i..][1..] == e.children[i + 1..];
      var child := Child(node', e.children[i].name);
      child, offset' := PopulateTree(e.children[i], child, raw, offset');
      node' := node'.(children := node'.children[e.children[i].name := child]);
    }
    if hasElementChildren {
      return;
    }
    var value := Trim(e.text);
    if value == "" {
      return;
    }
    var found := FindFrom(raw, value, searchOffset);
    if found == NPOS {
      found := Find(raw, value);
    }
    if found == NPOS {
      return;
    }
    node' := node'.(slice := Some(Slice(found, |value|)));
    offset' := found + |value|;
  }

  /** The tail of `parseMessage`: the children of the root, from offset 0. */
  method BuildTree(root: Element, raw: string) returns (node: Node)
    ensures node == PopulateAll(root.children, EMPTY, raw, 0).0
  {
    node := EMPTY;
    var offset := 0;
    for i := 0 to |root.children|
      invariant PopulateAll(root.children[i..], node, raw, offset) == PopulateAll(root.children, EMPTY, raw, 0)
    {
      assert root.children[i..][1..] == root.children[i + 1..];
      var child := Child(node, root.children[i].name);
      child, offset := PopulateTree(root.children[i], child, raw, offset);
      node := node.(children := node.children[root.children[i].name := child]);
    }
  }

  // ---------------------------------------------------------------- leaves and the search

  /** The leaves with text, in document order: tag names from the top, and trimmed text. */
  datatype Leaf = Leaf(path: Path, value: string)

  function Under(name: string, leaves: seq<Leaf>): (r: seq<Leaf>)
    ensures |r| == |leaves|
  {
    seq(|leaves|, i requires 0 <= i < |leaves| => Leaf([name] + leaves[i].path, leaves[i].value))
  }

  function Leaves(e: Element): seq<Leaf>
    decreases e, 1, 0
  {
    if e.children != [] then LeavesAll(e.children)
    else if Trim(e.text) == "" then [] else [Leaf([], Trim(e.text))]
  }

  function LeavesAll(es: seq<Element>): seq<Leaf>
    decreases es, 0, |es|
  {
    if es == [] then [] else Under(es[0].name, Leaves(es[0])) + LeavesAll(es[1..])
  }

  /** Where each leaf text is found when the search goes through them in order. */
  function Search(leaves: seq<Leaf>, raw: string, offset: nat): (r: seq<int>)
    ensures |r| == |leaves|
    decreases |leaves|
  {
    if leaves == [] then []
    else
      var f := Locate(raw, leaves[0].value, offset);
      [f] + Search(leaves[1..], raw, if f == NPOS then offset else f + |leaves[0].value|)
  }

  /** The offset after the search. */
  function SearchEnd(leaves: seq<Leaf>, raw: string, offset: nat): nat
    decreases |leaves|
  {
    if leaves == [] then offset
    else
      var f := Locate(raw, leaves[0].value, offset);
      SearchEnd(leaves[1..], raw, if f == NPOS then offset else f + |leaves[0].value|)
  }

  lemma {:induction false} SearchConcat(a: seq<Leaf>, b: seq<Leaf>, raw: string, offset: nat)
    ensures Search(a + b, raw, offset) == Search(a, raw, offset) + Search(b, raw, SearchEnd(a, raw, offset))
    ensures SearchEnd(a + b, raw, offset) == SearchEnd(b, raw, SearchEnd(a, raw, offset))
    decreases |a|
  {
    hide Locate;
    if a == [] {
      assert a + b == b;
    } else {
      assert (a + b)[1..] == a[1..] + b;
      var f := Locate(raw, a[0].value, offset);
      SearchConcat(a[1..], b, raw, if f == NPOS then offset else f + |a[0].value|);
    }
  }

  lemma {:induction false} SearchUnder(name: string, a: seq<Leaf>, raw: string, offset: nat)
    ensures Search(Under(name, a), raw, offset) == Search(a, raw, offset)
    ensures SearchEnd(Under(name, a), raw, offset) == SearchEnd(a, raw, offset)
    decreases |a|
  {
    hide Locate;
    if a != [] {
      assert Under(name, a)[1..] == Under(name, a[1..]);
      var f := Locate(raw, a[0].value, offset);
      SearchUnder(name, a[1..], raw, if f == NPOS then offset else f + |a[0].value|);
    }
  }

  /** Where the search for leaf `i` starts: after the last leaf found before it, or at the offset. */
  function StartOf(leaves: seq<Leaf>, at: seq<int>, offset: nat, i: nat): int
    requires |at| == |leaves| && i <= |leaves|
    decreases i
  {
    if i == 0 then offset
    else if at[i - 1] != NPOS then at[i - 1] + |leaves[i - 1].value|
    else StartOf(leaves, at, offset, i - 1)
  }

  lemma {:induction false} StartOfTail(leaves: seq<Leaf>, at: seq<int>, offset: nat, next: nat, i: nat)
    requires |at| == |leaves| && 0 < i <= |leaves|
    requires next == if at[0] == NPOS then offset else at[0] + |leaves[0].value|
    ensures StartOf(leaves, at, offset, i) == StartOf(leaves[1..], at[1..], next, i - 1)
    decreases i
  {
    if i > 1 {
      StartOfTail(leaves, at, offset, next, i - 1);
    }
  }

  /**
   Each leaf text is looked for from the end of the last one found on, wherever that was found: its
   place is the first occurrence from there, or else the first in the message, or it has none.
   */
  lemma {:induction false} SearchGoesOn(leaves: seq<Leaf>, raw: string, offset: nat, i: nat)
    requires i < |leaves|
    ensures var at := Search(leaves, raw, offset);
            var start := StartOf(leaves, at, offset, i);
            start >= 0 && at[i] == Locate(raw, leaves[i].value, start)
    decreases |leaves|
  {
    hide Locate;
    var f := Locate(raw, leaves[0].value, offset);
    var next := if f == NPOS then offset else f + |leaves[0].value|;
    var at := Search(leaves, raw, offset);
    assert at == [f] + Search(leaves[1..], raw, next);
    if i > 0 {
      SearchGoesOn(leaves[1..], raw, next, i - 1);
      assert at[1..] == Search(leaves[1..], raw, next);
      StartOfTail(leaves, at, offset, next, i);
    }
  }

  // ---------------------------------------------------------------- what the tree holds

  function SliceAt(node: Node, path: Path): Option<Slice>
    decreases |path|
  {
    if path == [] then node.slice
    else if path[0] in node.children then SliceAt(node.children[path[0]], path[1..]) else None
  }

  /** The slice of the last leaf at `path` that was found, or else `before`. */
  function LastAt(leaves: seq<Leaf>, at: seq<int>, path: Path, before: Option<Slice>): Option<Slice>
    requires |at| == |leaves|
    decreases |leaves|
  {
    if leaves == [] then before
    else
      var now := if leaves[0].path == path && at[0] >= 0 then Some(Slice(at[0], |leaves[0].value|)) else before;
      LastAt(leaves[1..], at[1..], path, now)
  }

  lemma {:induction false} LastAtConcat(a: seq<Leaf>, b: seq<Leaf>, ats: seq<int>, bts: seq<int>, path: Path, before: Option<Slice>)
    requires |ats| == |a| && |bts| == |b|
    ensures LastAt(a + b, ats + bts, path, before) == LastAt(b, bts, path, LastAt(a, ats, path, before))
    decreases |a|
  {
    if a == [] {
      assert a + b == b && ats + bts == bts;
    } else {
      assert (a + b)[1..] == a[1..] + b && (ats + bts)[1..] == ats[1..] + bts;
      var now := if a[0].path == path && ats[0] >= 0 then Some(Slice(ats[0], |a[0].value|)) else before;
      LastAtConcat(a[1..], b, ats[1..], bts, path, now);
    }
  }

  lemma {:induction false} LastAtUnder(name: string, a: seq<Leaf>, ats: seq<int>, path: Path, before: Option<Slice>)
    requires |ats| == |a|
    ensures LastAt(Under(name, a), ats, path, before) ==
            if path != [] && path[0] == name then LastAt(a, ats, path[1..], before) else before
    decreases |a|
  {
    if a != [] {
      var u := Under(name, a);
      assert u[1..] == Under(name, a[1..]);
      assert u[0].path[1..] == a[0].path;
      assert path != [] && path[0] == name ==> path == [name] + path[1..];
      var now := if u[0].path == path && ats[0] >= 0 then Some(Slice(ats[0], |a[0].value|)) else before;
      LastAtUnder(name, a[1..], ats[1..], path, now);
    }
  }

  /**
   The tree is exactly what the search finds: the offset moves as the search over the leaves does,
   and every path holds the slice of the last leaf with that path that was found, or what it
   held before.
   */
  lemma {:induction false} PopulateIsSearch(e: Element, node: Node, raw: string, offset: nat, path: Path)
    ensures Populate(e, node, raw, offset).1 == SearchEnd(Leaves(e), raw, offset)
    ensures SliceAt(Populate(e, node, raw, offset).0, path)
         == LastAt(Leaves(e), Search(Leaves(e), raw, offset), path, SliceAt(node, path))
    decreases e, 1, 0
  {
    if e.children != [] {
      PopulateAllIsSearch(e.children, node, raw, offset, path);
    } else {
      LeafIsSearch(e, node, raw, offset, path);
    }
  }

  lemma LeafIsSearch(e: Element, node: Node, raw: string, offset: nat, path: Path)
    requires e.children == []
    ensures Populate(e, node, raw, offset).1 == SearchEnd(Leaves(e), raw, offset)
    ensures SliceAt(Populate(e, node, raw, offset).0, path)
         == LastAt(Leaves(e), Search(Leaves(e), raw, offset), path, SliceAt(node, path))
  {
    hide Trim;
    hide FindFrom;
    hide Find;
    var value := Trim(e.text);
    if value != "" {
      var leaf := Leaf([], value);
      var f := Locate(raw, value, offset);
      assert Leaves(e) == [leaf] && [leaf][1..] == [];
      assert Search([leaf], raw, offset) == [f];
      assert [f][1..] == [];
      assert f == NPOS || f >= 0;
    }
  }

  lemma {:induction false} PopulateAllIsSearch(es: seq<Element>, node: Node, raw: string, offset: nat, path: Path)
    ensures PopulateAll(es, node, raw, offset).1 == SearchEnd(LeavesAll(es), raw, offset)
    ensures SliceAt(PopulateAll(es, node, raw, offset).0, path)
         == LastAt(LeavesAll(es), Search(LeavesAll(es), raw, offset), path, SliceAt(node, path))
    decreases es, 0, |es|
  {
    hide Populate;
    hide Search;
    hide SearchEnd;
    hide Leaves;
    hide Under;
    if es == [] {
      assert LeavesAll(es) == [];
      NothingToSearch(raw, offset);
    } else {
      var name, ls, more := es[0].name, Leaves(es[0]), LeavesAll(es[1..]);
      var (child, next) := Populate(es[0], Child(node, name), raw, offset);
      var node1 := node.(children := node.children[name := child]);
      var ats, bts := Search(ls, raw, offset), Search(more, raw, next);
      PopulateIsSearch(es[0], Child(node, name), raw, offset, if path == [] then [] else path[1..]);
      PopulateAllIsSearch(es[1..], node1, raw, next, path);
      SearchUnder(name, ls, raw, offset);
      SearchConcat(Under(name, ls), more, raw, offset);
      LastAtConcat(Under(name, ls), more, ats, bts, path, SliceAt(node, path));
      LastAtUnder(name, ls, ats, path, SliceAt(node, path));
      ChildSlice(node, name, child, path);
    }
  }

  lemma NothingToSearch(raw: string, offset: nat)
    ensures Search([], raw, offset) == [] && SearchEnd([], raw, offset) == offset
  {
  }

  lemma ChildSlice(node: Node, name: string, child: Node, path: Path)
    ensures var node1 := node.(children := node.children[name := child]);
            SliceAt(node1, path) == if path != [] && path[0] == name then SliceAt(child, path[1..]) else SliceAt(node, path)
    ensures path != [] && path[0] == name ==> SliceAt(Child(node, name), path[1..]) == SliceAt(node, path)
  {
    if path != [] && path[0] == name && name !in node.children {
      EmptyHoldsNothing(path[1..]);
    }
  }

  lemma EmptyHoldsNothing(path: Path)
    ensures SliceAt(EMPTY, path) == None
  {
  }

  /** An element with children has no text of its own, and one whose text is white space has none. */
  lemma NoTextNoSlice(e: Element, node: Node, raw: string, offset: nat)
    ensures e.children != [] ==> Populate(e, node, raw, offset).0.slice == node.slice
    ensures e.children == [] && (forall c :: c in e.text ==> c in " \t\n\r") ==>
              Populate(e, node, raw, offset) == (node, offset)
  {
    if e.children != [] {
      hide PopulateAll;
      InnerKeepsSlice(e.children, node, raw, offset);
    } else if Trim(e.text) != "" {
      TrimHasText(e.text);
    }
  }

  lemma {:induction false} InnerKeepsSlice(es: seq<Element>, node: Node, raw: string, offset: nat)
    ensures PopulateAll(es, node, raw, offset).0.slice == node.slice
    decreases |es|
  {
    if es != [] {
      hide Populate;
      var (child, next) := Populate(es[0], Child(node, es[0].name), raw, offset);
      InnerKeepsSlice(es[1..], node.(children := node.children[es[0].name := child]), raw, next);
    }
  }

  // ---------------------------------------------------------------- the search does not fall back

  function Texts(leaves: seq<Leaf>): (vs: seq<string>)
    ensures |vs| == |leaves|
  {
    seq(|leaves|, i requires 0 <= i < |leaves| => leaves[i].value)
  }

  /** The texts occur in `raw` at the positions `at`, in order, from `offset` on, without overlap. */
  predicate Occur(vs: seq<string>, raw: string, offset: nat, at: seq<int>)
  {
    && |at| == |vs|
    && (forall i :: 0 <= i < |vs| ==> offset <= at[i] && MatchAt(raw, vs[i], at[i]))
    && (forall i, j :: 0 <= i < j < |vs| ==> at[i] + |vs[i]| <= at[j])
  }

  /** Every leaf is found from the offset on; the search over the whole message is never tried. */
  predicate NeverFallsBack(leaves: seq<Leaf>, raw: string, offset: nat)
    decreases |leaves|
  {
    leaves == [] ||
    (var f := FindFrom(raw, leaves[0].value, offset);
     f != NPOS && NeverFallsBack(leaves[1..], raw, f + |leaves[0].value|))
  }

  lemma OccurTail(vs: seq<string>, raw: string, offset: nat, at: seq<int>)
    requires vs != [] && Occur(vs, raw, offset, at)
    ensures Occur(vs[1..], raw, at[0] + |vs[0]|, at[1..])
  {
  }

  lemma OccurEarlier(vs: seq<string>, raw: string, offset: nat, offset': nat, at: seq<int>)
    requires Occur(vs, raw, offset, at) && offset' <= offset
    ensures Occur(vs, raw, offset', at)
  {
  }

  /** If the texts occur in document order, the greedy search finds each without falling back. */
  lemma {:induction false} GreedyFinds(leaves: seq<Leaf>, raw: string, offset: nat, at: seq<int>)
    requires Occur(Texts(leaves), raw, offset, at)
    ensures NeverFallsBack(leaves, raw, offset)
    decreases |leaves|
  {
    hide FindFrom;
    if leaves != [] {
      var v := leaves[0].value;
      assert MatchAt(raw, Texts(leaves)[0], at[0]);
      var f := FindFrom(raw, v, offset);
      assert f <= at[0];
      OccurTail(Texts(leaves), raw, offset, at);
      assert Texts(leaves)[1..] == Texts(leaves[1..]);
      OccurEarlier(Texts(leaves[1..]), raw, at[0] + |v|, f + |v|, at[1..]);
      GreedyFinds(leaves[1..], raw, f + |v|, at[1..]);
    }
  }

  /** Without fall-back, the search finds the texts in document order and without overlap. */
  lemma {:induction false} GreedyInOrder(leaves: seq<Leaf>, raw: string, offset: nat)
    requires NeverFallsBack(leaves, raw, offset)
    ensures Occur(Texts(leaves), raw, offset, Search(leaves, raw, offset))
    decreases |leaves|
  {
    hide FindFrom;
    hide Find;
    if leaves != [] {
      hide Occur;
      hide MatchAt;
      var v := leaves[0].value;
      var f := FindFrom(raw, v, offset);
      var rest := Search(leaves[1..], raw, f + |v|);
      GreedyInOrder(leaves[1..], raw, f + |v|);
      assert Search(leaves, raw, offset) == [f] + rest;
      OccurCons(v, Texts(leaves[1..]), raw, offset, f, rest);
      assert Texts(leaves) == [v] + Texts(leaves[1..]);
    }
  }

  lemma OccurCons(v: string, vs: seq<string>, raw: string, offset: nat, f: nat, at: seq<int>)
    requires offset <= f && MatchAt(raw, v, f) && Occur(vs, raw, f + |v|, at)
    ensures Occur([v] + vs, raw, offset, [f] + at)
  {
  }

  /**
   The greedy search never falls back exactly when the leaf texts occur in the raw message, in
   document order and without overlap; and then the slices it assigns are such occurrences: in
   bounds, in document order, disjoint, each spelling its leaf's trimmed text.
   */
  lemma GreedySearch(root: Element, raw: string)
    ensures var leaves := LeavesAll(root.children);
            && (NeverFallsBack(leaves, raw, 0) <==> exists at: seq<int> :: Occur(Texts(leaves), raw, 0, at))
            && (NeverFallsBack(leaves, raw, 0) ==> Occur(Texts(leaves), raw, 0, Search(leaves, raw, 0)))
  {
    var leaves := LeavesAll(root.children);
    if at: seq<int> :| Occur(Texts(leaves), raw, 0, at) {
      GreedyFinds(leaves, raw, 0, at);
    }
    if NeverFallsBack(leaves, raw, 0) {
      GreedyInOrder(leaves, raw, 0);
    }
  }

  /** The last leaf found at a path is the one the path holds. */
  lemma {:induction false} LastAtLast(leaves: seq<Leaf>, at: seq<int>, i: nat, before: Option<Slice>)
    requires |at| == |leaves| && i < |leaves| && at[i] >= 0
    requires forall j :: i < j < |leaves| ==> leaves[j].path != leaves[i].path
    ensures LastAt(leaves, at, leaves[i].path, before) == Some(Slice(at[i], |leaves[i].value|))
    decreases |leaves|
  {
    var path := leaves[i].path;
    var now := if leaves[0].path == path && at[0] >= 0 then Some(Slice(at[0], |leaves[0].value|)) else before;
    if i == 0 {
      LastAtNone(leaves[1..], at[1..], path, now);
    } else {
      assert leaves[1..][i - 1] == leaves[i] && at[1..][i - 1] == at[i];
      LastAtLast(leaves[1..], at[1..], i - 1, now);
    }
  }

  lemma {:induction false} LastAtNone(leaves: seq<Leaf>, at: seq<int>, path: Path, before: Option<Slice>)
    requires |at| == |leaves| && forall j :: 0 <= j < |leaves| ==> leaves[j].path != path
    ensures LastAt(leaves, at, path, before) == before
    decreases |leaves|
  {
    if leaves != [] {
      LastAtNone(leaves[1..], at[1..], path, before);
    }
  }

  /**
   The finished tree spells the message: when the leaf texts occur in document order, the path of
   every leaf that no later leaf shares holds the slice found for it, which is within the raw
   message and spells the leaf's trimmed text.
   */
  lemma TreeSpellsLeaves(root: Element, raw: string, i: nat)
    requires NeverFallsBack(LeavesAll(root.children), raw, 0) && i < |LeavesAll(root.children)|
    requires var leaves := LeavesAll(root.children);
             forall j :: i < j < |leaves| ==> leaves[j].path != leaves[i].path
    ensures var leaves := LeavesAll(root.children);
            var slice := SliceAt(PopulateAll(root.children, EMPTY, raw, 0).0, leaves[i].path);
            && slice.Some? && slice.value.at == Search(leaves, raw, 0)[i] && Spells(raw, slice.value, leaves[i].value)
  {
    hide LeavesAll;
    hide PopulateAll;
    hide NeverFallsBack;
    hide Search;
    hide SearchEnd;
    hide LastAt;
    hide SliceAt;
    hide Occur;
    hide Spells;
    var leaves := LeavesAll(root.children);
    var at := Search(leaves, raw, 0);
    GreedyInOrder(leaves, raw, 0);
    OccurSpells(leaves, raw, at, i);
    PopulateAllIsSearch(root.children, EMPTY, raw, 0, leaves[i].path);
    LastAtLast(leaves, at, i, SliceAt(EMPTY, leaves[i].path));
  }

  predicate Spells(raw: string, slice: Slice, value: string)
  {
    && slice.at + slice.length <= |raw|
    && raw[slice.at..slice.at + slice.length] == value
  }

  lemma OccurSpells(leaves: seq<Leaf>, raw: string, at: seq<int>, i: nat)
    requires Occur(Texts(leaves), raw, 0, at) && i < |leaves|
    ensures at[i] >= 0 && Spells(raw, Slice(at[i], |leaves[i].value|), leaves[i].value)
  {
    assert MatchAt(raw, Texts(leaves)[i], at[i]);
  }
}
