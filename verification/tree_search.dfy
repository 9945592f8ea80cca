/**
 * The viewer's search: every key span and scalar value span whose
 * lower-cased text contains the lower-cased term is highlighted and counted,
 * and the node owning it and all of that node's ancestors are expanded.
 * Spans are named by the path of their node and their kind; the collapsed
 * nodes are a set of paths.
 */
module TreeSearch {
  import opened Options
  import opened Text
  import opened Numerals
  import opened Json
  import opened RenderTree

  datatype SpanKind = KeySpan | ValueSpan

  /** A span is identified by the path of the node showing it and by which span it is. */
  datatype SpanId = SpanId(path: Path, kind: SpanKind)

  datatype Span = Span(id: SpanId, text: string)

  /** The spans of `n` itself: its key span, then (scalars only) its value span. */
  function OwnSpans(n: Node, at: Path): seq<Span> {
    (match n.keySpan
     case Some(t) => [Span(SpanId(at, KeySpan), t)]
     case None => [])
    + (match n
       case Leaf(_, _, t, _) => [Span(SpanId(at, ValueSpan), t)]
       case Branch(_, _, _, _) => [])
  }

  function Flatten<T>(blocks: seq<seq<T>>): seq<T> {
    if |blocks| == 0 then [] else blocks[0] + Flatten(blocks[1..])
  }

  lemma {:induction false} FlattenMember<T>(blocks: seq<seq<T>>, x: T)
    ensures x in Flatten(blocks) <==> exists i :: 0 <= i < |blocks| && x in blocks[i]
  {
    if |blocks| > 0 {
      FlattenMember(blocks[1..], x);
      if x in Flatten(blocks[1..]) {
        var i :| 0 <= i < |blocks[1..]| && x in blocks[1..][i];
        assert x in blocks[i + 1];
      }
      if exists i :: 0 <= i < |blocks| && x in blocks[i] {
        var i :| 0 <= i < |blocks| && x in blocks[i];
        if i > 0 {
          assert x in blocks[1..][i - 1];
        }
      }
    }
  }

  /**
   * The spans of the tree rooted at `n`, whose root sits at path `at`, in
   * document order (the order `querySelectorAll` returns them).
   */
  function Spans(n: Node, at: Path): seq<Span> {
    match n
    case Leaf(_, _, _, _) => OwnSpans(n, at)
    case Branch(_, _, cs, _) =>
      OwnSpans(n, at) + Flatten(seq(|cs|, i requires 0 <= i < |cs| => Spans(cs[i], at + [i])))
  }

  /** The text of span `id` found by following its path: the reference the enumeration is checked against. */
  function SpanText(n: Node, id: SpanId): Option<string> {
    match Subtree(n, id.path)
    case None => None
    case Some(m) =>
      if id.kind == KeySpan then m.keySpan
      else match m
        case Leaf(_, _, t, _) => Some(t)
        case Branch(_, _, _, _) => None
  }

  predicate IsPrefix(a: Path, b: Path) {
    |a| <= |b| && b[..|a|] == a
  }

  /** Following a non-empty path descends into the child its first index names. */
  lemma SpanTextStep(n: Node, rel: Path, kind: SpanKind)
    requires n.Branch? && |rel| > 0 && rel[0] < |n.children|
    ensures SpanText(n, SpanId(rel, kind)) == SpanText(n.children[rel[0]], SpanId(rel[1..], kind))
  {
  }

  /** A span found below child `i` of `n` (at `at + [i]`) is found below `n` (at `at`), with the same text. */
  lemma ChildSpanText(n: Node, at: Path, i: nat, id: SpanId)
    requires n.Branch? && i < |n.children| && IsPrefix(at + [i], id.path)
    ensures IsPrefix(at, id.path)
    ensures SpanText(n, SpanId(id.path[|at|..], id.kind)) == SpanText(n.children[i], SpanId(id.path[|at| + 1..], id.kind))
  {
    var p := id.path;
    assert p[..|at|] == (at + [i])[..|at|];
    assert p[|at|] == (at + [i])[|at|] == i;
    var rel := p[|at|..];
    assert rel[0] == i;
    assert rel[1..] == p[|at| + 1..];
    SpanTextStep(n, rel, id.kind);
  }

  /** The spans of a node itself are found at its own path, with their texts. */
  lemma OwnSpansShown(n: Node, at: Path, sp: Span)
    requires sp in OwnSpans(n, at)
    ensures sp.id.path == at && SpanText(n, SpanId([], sp.id.kind)) == Some(sp.text)
  {
  }

  /** Every listed span lies below `at` and shows, at its path, the text it is listed with. */
  lemma {:induction false} SpansListedAreShown(n: Node, at: Path, sp: Span)
    requires sp in Spans(n, at)
    ensures IsPrefix(at, sp.id.path) && SpanText(n, SpanId(sp.id.path[|at|..], sp.id.kind)) == Some(sp.text)
    decreases n, 1
  {
    if sp in OwnSpans(n, at) {
      OwnSpansShown(n, at, sp);
      assert sp.id.path[|at|..] == [];
    } else {
      assert n.Branch? && sp in Flatten(ChildBlocks(n.children, at));
      ChildSpansListedAreShown(n, at, sp);
    }
  }

  lemma {:induction false} ChildSpansListedAreShown(n: Node, at: Path, sp: Span)
    requires n.Branch? && sp in Flatten(ChildBlocks(n.children, at))
    ensures |sp.id.path| > |at|
    ensures IsPrefix(at, sp.id.path) && SpanText(n, SpanId(sp.id.path[|at|..], sp.id.kind)) == Some(sp.text)
    decreases n, 0
  {
    var blocks := ChildBlocks(n.children, at);
    FlattenMember(blocks, sp);
    var i :| 0 <= i < |blocks| && sp in blocks[i];
    SpansListedAreShown(n.children[i], at + [i], sp);
    ChildSpanText(n, at, i, sp.id);
  }

  /** Every span shown at a path below `at` is listed, with that text. */
  lemma {:induction false} SpansShownAreListed(n: Node, at: Path, sp: Span)
    requires IsPrefix(at, sp.id.path)
    requires SpanText(n, SpanId(sp.id.path[|at|..], sp.id.kind)) == Some(sp.text)
    ensures sp in Spans(n, at)
    decreases n, 1
  {
    var p := sp.id.path;
    if |p| == |at| {
      assert p == at && p[|at|..] == [];
      assert sp in OwnSpans(n, at);
    } else {
      assert n.Branch?;
      ChildSpansShownAreListed(n, at, sp);
      assert Spans(n, at) == OwnSpans(n, at) + Flatten(ChildBlocks(n.children, at));
    }
  }

  lemma {:induction false} ChildSpansShownAreListed(n: Node, at: Path, sp: Span)
    requires n.Branch? && IsPrefix(at, sp.id.path) && |sp.id.path| > |at|
    requires SpanText(n, SpanId(sp.id.path[|at|..], sp.id.kind)) == Some(sp.text)
    ensures sp in Flatten(ChildBlocks(n.children, at))
    decreases n, 0
  {
    var p := sp.id.path;
    var blocks := ChildBlocks(n.children, at);
    var rel := p[|at|..];
    var i := rel[0];
    assert rel[1..] == p[|at| + 1..];
    SpanTextStep(n, rel, sp.id.kind);
    assert p[..|at| + 1] == at + [i];
    SpansShownAreListed(n.children[i], at + [i], sp);
    FlattenMember(blocks, sp);
  }

  /**
   * The enumeration is exact: a span is listed iff its path lies below `at`
   * and following the rest of the path leads to a node showing that text.
   */
  lemma SpansExact(n: Node, at: Path, sp: Span)
    ensures sp in Spans(n, at) <==>
            IsPrefix(at, sp.id.path) && SpanText(n, SpanId(sp.id.path[|at|..], sp.id.kind)) == Some(sp.text)
  {
    if sp in Spans(n, at) {
      SpansListedAreShown(n, at, sp);
    }
    if IsPrefix(at, sp.id.path) && SpanText(n, SpanId(sp.id.path[|at|..], sp.id.kind)) == Some(sp.text) {
      SpansShownAreListed(n, at, sp);
    }
  }

  /** Ids of the listed spans. */
  function Ids(spans: seq<Span>): set<SpanId> {
    if |spans| == 0 then {} else Ids(spans[..|spans| - 1]) + {spans[|spans| - 1].id}
  }

  lemma {:induction false} IdsMember(spans: seq<Span>, id: SpanId)
    ensures id in Ids(spans) <==> exists s :: s in spans && s.id == id
  {
    if |spans| > 0 {
      var init := spans[..|spans| - 1];
      IdsMember(init, id);
      assert spans == init + [spans[|spans| - 1]];
    }
  }

  predicate DistinctIds(s: seq<Span>) {
    forall i, j :: 0 <= i < j < |s| ==> s[i].id != s[j].id
  }

  lemma DistinctConcat(a: seq<Span>, b: seq<Span>)
    requires DistinctIds(a) && DistinctIds(b)
    requires forall x, y :: x in a && y in b ==> x.id != y.id
    ensures DistinctIds(a + b)
  {
    forall i, j | 0 <= i < j < |a + b| ensures (a + b)[i].id != (a + b)[j].id {
      if j < |a| {
        assert (a + b)[i] == a[i] && (a + b)[j] == a[j];
      } else if i >= |a| {
        assert (a + b)[i] == b[i - |a|] && (a + b)[j] == b[j - |a|];
      } else {
        assert (a + b)[i] == a[i] && (a + b)[j] == b[j - |a|];
      }
    }
  }

  lemma {:induction false} FlattenDistinct(blocks: seq<seq<Span>>)
    requires forall i :: 0 <= i < |blocks| ==> DistinctIds(blocks[i])
    requires forall i, j, x, y :: 0 <= i < j < |blocks| && x in blocks[i] && y in blocks[j] ==> x.id != y.id
    ensures DistinctIds(Flatten(blocks))
  {
    if |blocks| > 0 {
      FlattenDistinct(blocks[1..]);
      forall x, y | x in blocks[0] && y in Flatten(blocks[1..]) ensures x.id != y.id {
        FlattenMember(blocks[1..], y);
        var j :| 0 <= j < |blocks[1..]| && y in blocks[1..][j];
        assert y in blocks[j + 1];
      }
      DistinctConcat(blocks[0], Flatten(blocks[1..]));
    }
  }

  /** No span is listed twice: a path and a kind name at most one span. */
  lemma {:induction false} SpansDistinct(n: Node, at: Path)
    ensures DistinctIds(Spans(n, at))
    decreases n, 1
  {
    match n
    case Leaf(_, _, _, _) =>
    case Branch(_, _, cs, _) =>
      var blocks := ChildBlocks(cs, at);
      assert Spans(n, at) == OwnSpans(n, at) + Flatten(blocks);
      ChildSpansDistinct(n, at);
      forall x: Span, y: Span | x in OwnSpans(n, at) && y in Flatten(blocks) ensures x.id != y.id {
        OwnSpansShown(n, at, x);
        ChildSpansListedAreShown(n, at, y);
      }
      assert DistinctIds(OwnSpans(n, at));
      DistinctConcat(OwnSpans(n, at), Flatten(blocks));
  }

  lemma {:induction false} ChildSpansDistinct(n: Node, at: Path)
    requires n.Branch?
    ensures DistinctIds(Flatten(ChildBlocks(n.children, at)))
    decreases n, 0
  {
    var cs := n.children;
    var blocks := ChildBlocks(cs, at);
    forall i | 0 <= i < |blocks| ensures DistinctIds(blocks[i]) {
      SpansDistinct(cs[i], at + [i]);
    }
    ChildBlocksDisjoint(cs, at);
    FlattenDistinct(blocks);
  }

  function ChildBlocks(cs: seq<Node>, at: Path): (blocks: seq<seq<Span>>)
    ensures |blocks| == |cs|
    ensures forall i :: 0 <= i < |cs| ==> blocks[i] == Spans(cs[i], at + [i])
  {
    seq(|cs|, i requires 0 <= i < |cs| => Spans(cs[i], at + [i]))
  }

  /** Spans of different children lie below different paths. */
  lemma ChildBlocksDisjoint(cs: seq<Node>, at: Path)
    ensures forall i, j, x, y :: 0 <= i < j < |cs| && x in ChildBlocks(cs, at)[i] && y in ChildBlocks(cs, at)[j] ==> x.id != y.id
  {
    var blocks := ChildBlocks(cs, at);
    forall i, j, x: Span, y: Span | 0 <= i < j < |blocks| && x in blocks[i] && y in blocks[j] ensures x.id != y.id {
      SpansExact(cs[i], at + [i], x);
      SpansExact(cs[j], at + [j], y);
      assert x.id.path[|at|] == (at + [i])[|at|];
      assert y.id.path[|at|] == (at + [j])[|at|];
    }
  }

  /** The spans of the tree container: none when it is empty. */
  function TreeSpans(tree: Option<Node>): seq<Span> {
    match tree
    case None => []
    case Some(n) => Spans(n, [])
  }

  /** Span `id` of the shown tree has text `t`. */
  predicate ShowsSpan(tree: Option<Node>, id: SpanId, t: string) {
    tree.Some? && SpanText(tree.value, id) == Some(t)
  }

  lemma TreeSpansExact(tree: Option<Node>, sp: Span)
    ensures sp in TreeSpans(tree) <==> ShowsSpan(tree, sp.id, sp.text)
  {
    if tree.Some? {
      SpansExact(tree.value, [], sp);
      assert sp.id.path[0..] == sp.id.path;
    }
  }

  /** A span text matches: the lower-cased term is non-empty and occurs in the lower-cased text. */
  predicate Hit(text: string, input: string) {
    Lower(input) != "" && Contains(Lower(text), Lower(input))
  }

  /** Ids of the listed spans whose text matches. */
  function HitIds(spans: seq<Span>, input: string): set<SpanId> {
    if |spans| == 0 then {}
    else
      var last := spans[|spans| - 1];
      HitIds(spans[..|spans| - 1], input) + (if Hit(last.text, input) then {last.id} else {})
  }

  lemma {:induction false} HitIdsMember(spans: seq<Span>, input: string, id: SpanId)
    ensures id in HitIds(spans, input) <==> exists s :: s in spans && s.id == id && Hit(s.text, input)
  {
    if |spans| > 0 {
      var init := spans[..|spans| - 1];
      HitIdsMember(init, input, id);
      assert spans == init + [spans[|spans| - 1]];
    }
  }

  /** The paths of a node and of all its ancestors. */
  function Chain(p: Path): set<Path> {
    set k | 0 <= k <= |p| :: p[..k]
  }

  /** Every node on the chain of some span in `ids`. */
  function Disclosed(ids: set<SpanId>): set<Path> {
    set id, k | id in ids && 0 <= k <= |id.path| :: id.path[..k]
  }

  /** The match counter's text. */
  function Label(input: string, count: nat): string {
    if Lower(input) != "" then ToRadixString(count, 10) + " matches" else "0 matches"
  }

  datatype Outcome = Outcome(count: nat, highlighted: set<SpanId>, collapsed: set<Path>, countText: string)

  /**
   * What a search leaves behind, stated over sets: the matching spans replace
   * any earlier highlight of the tree's spans, are counted, and disclose
   * their chains.
   */
  function Search(tree: Option<Node>, input: string, collapsed: set<Path>, highlighted: set<SpanId>): Outcome {
    var spans := TreeSpans(tree);
    var hits := HitIds(spans, input);
    Outcome(|hits|, highlighted - Ids(spans) + hits, collapsed - Disclosed(hits), Label(input, |hits|))
  }

  /** Span `id` is shown in the tree and its text matches the term. */
  predicate HitAt(tree: Option<Node>, id: SpanId, input: string) {
    tree.Some? && SpanText(tree.value, id).Some? && Hit(SpanText(tree.value, id).value, input)
  }

  /** The node at `p` is itself a hit's owner or an ancestor of one. */
  ghost predicate OnHitChain(tree: Option<Node>, p: Path, input: string) {
    exists id :: HitAt(tree, id, input) && IsPrefix(p, id.path)
  }

  /** Neither the node at `p` nor any of its ancestors is collapsed. */
  predicate Revealed(collapsed: set<Path>, p: Path) {
    forall k :: 0 <= k <= |p| ==> p[..k] !in collapsed
  }

  lemma TreeIdsExact(tree: Option<Node>, id: SpanId)
    ensures id in Ids(TreeSpans(tree)) <==> tree.Some? && SpanText(tree.value, id).Some?
  {
    IdsMember(TreeSpans(tree), id);
    if tree.Some? && SpanText(tree.value, id).Some? {
      TreeSpansExact(tree, Span(id, SpanText(tree.value, id).value));
    }
    if id in Ids(TreeSpans(tree)) {
      var s :| s in TreeSpans(tree) && s.id == id;
      TreeSpansExact(tree, s);
    }
  }

  lemma TreeHitIdsExact(tree: Option<Node>, input: string, id: SpanId)
    ensures id in HitIds(TreeSpans(tree), input) <==> HitAt(tree, id, input)
  {
    HitIdsMember(TreeSpans(tree), input, id);
    if HitAt(tree, id, input) {
      TreeSpansExact(tree, Span(id, SpanText(tree.value, id).value));
    }
    if id in HitIds(TreeSpans(tree), input) {
      var s :| s in TreeSpans(tree) && s.id == id && Hit(s.text, input);
      TreeSpansExact(tree, s);
    }
  }

  /**
   * After a search exactly the matching key and value spans of the tree are
   * highlighted (earlier highlights of its spans are dropped), and the count
   * is their number: a keyed scalar can count twice, a composite only
   * through its key span.
   */
  lemma SearchHighlightsExactly(tree: Option<Node>, input: string, collapsed: set<Path>, highlighted: set<SpanId>)
    requires forall id :: id in highlighted ==> tree.Some? && SpanText(tree.value, id).Some?
    ensures forall id :: id in Search(tree, input, collapsed, highlighted).highlighted <==> HitAt(tree, id, input)
    ensures Search(tree, input, collapsed, highlighted).count == |Search(tree, input, collapsed, highlighted).highlighted|
  {
    var spans := TreeSpans(tree);
    var hits := HitIds(spans, input);
    forall id | id in highlighted ensures id in Ids(spans) {
      TreeIdsExact(tree, id);
    }
    assert highlighted - Ids(spans) == {};
    assert Search(tree, input, collapsed, highlighted).highlighted == hits;
    forall id ensures id in hits <==> HitAt(tree, id, input) {
      TreeHitIdsExact(tree, input, id);
    }
  }

  /**
   * Disclosure: a search only ever removes collapsed flags; the owner of
   * every hit and all its ancestors end up expanded; every other node keeps
   * its flag.
   */
  lemma SearchDisclosesHits(tree: Option<Node>, input: string, collapsed: set<Path>, highlighted: set<SpanId>)
    ensures Search(tree, input, collapsed, highlighted).collapsed <= collapsed
    ensures forall id :: HitAt(tree, id, input) ==> Revealed(Search(tree, input, collapsed, highlighted).collapsed, id.path)
    ensures forall p :: p in collapsed && !OnHitChain(tree, p, input) ==> p in Search(tree, input, collapsed, highlighted).collapsed
  {
    var hits := HitIds(TreeSpans(tree), input);
    var r := Search(tree, input, collapsed, highlighted);
    forall id | HitAt(tree, id, input) ensures Revealed(r.collapsed, id.path) {
      TreeHitIdsExact(tree, input, id);
      forall k | 0 <= k <= |id.path| ensures id.path[..k] in Disclosed(hits) {
      }
    }
    forall p | p in collapsed && !OnHitChain(tree, p, input) ensures p in r.collapsed {
      if p in Disclosed(hits) {
        var id, k :| id in hits && 0 <= k <= |id.path| && p == id.path[..k];
        TreeHitIdsExact(tree, input, id);
      }
    }
  }

  /**
   * The counter always shows the number of matches, which is zero for an
   * empty term; an empty term also leaves every collapsed flag alone.
   */
  lemma SearchCountText(tree: Option<Node>, input: string, collapsed: set<Path>, highlighted: set<SpanId>)
    ensures Search(tree, input, collapsed, highlighted).countText
            == ToRadixString(Search(tree, input, collapsed, highlighted).count, 10) + " matches"
    ensures Lower(input) == "" ==> Search(tree, input, collapsed, highlighted).count == 0
    ensures Lower(input) == "" ==> Search(tree, input, collapsed, highlighted).collapsed == collapsed
  {
    var spans := TreeSpans(tree);
    var hits := HitIds(spans, input);
    var o := Search(tree, input, collapsed, highlighted);
    assert o.count == |hits| && o.collapsed == collapsed - Disclosed(hits);
    if Lower(input) == "" {
      NoHitsForEmptyTerm(spans, input);
      assert hits == {};
      assert o.countText == Label(input, 0) == "0 matches";
      assert ToRadixString(0, 10) + " matches" == "0" + " matches" == "0 matches";
      DisclosedNone();
    } else {
      assert o.countText == ToRadixString(|hits|, 10) + " matches";
    }
  }

  lemma DisclosedNone()
    ensures Disclosed({}) == {}
  {
  }

  lemma {:induction false} NoHitsForEmptyTerm(spans: seq<Span>, input: string)
    requires Lower(input) == ""
    ensures HitIds(spans, input) == {}
  {
    if |spans| > 0 {
      NoHitsForEmptyTerm(spans[..|spans| - 1], input);
    }
  }

  /**
   * A keyed scalar counts twice when the term occurs both in its key span
   * and in its value span: the document `{"k": "t"}` then has two matches.
   */
  lemma KeyedScalarCountsTwice(k: string, t: string, input: string)
    requires Hit(KeyText(k), input) && Hit("\"" + t + "\"", input)
    ensures Search(Some(Render(Obj([(k, Str(t))]))), input, {}, {}).count == 2
  {
    var root := Render(Obj([(k, Str(t))]));
    var leaf := root.children[0];
    var keyId, valueId := SpanId([0], KeySpan), SpanId([0], ValueSpan);
    var blocks := seq(1, i requires 0 <= i < 1 => Spans(root.children[i], [] + [i]));
    assert [] + [0] == [0];
    assert blocks == [Spans(leaf, [0])];
    assert Spans(leaf, [0]) == [Span(keyId, KeyText(k)), Span(valueId, "\"" + t + "\"")];
    assert Flatten(blocks) == Spans(leaf, [0]);
    assert TreeSpans(Some(root)) == [Span(keyId, KeyText(k)), Span(valueId, "\"" + t + "\"")];
    var spans := TreeSpans(Some(root));
    assert spans[..1] == [spans[0]] && spans[..1][..0] == [];
    assert HitIds(spans[..1], input) == {keyId};
    assert HitIds(spans, input) == {keyId} + {valueId};
  }

  /** The node at `p` carries a disclosure toggle. */
  predicate HasToggle(tree: Option<Node>, p: Path) {
    tree.Some? && IsBranchAt(tree.value, p)
  }

  /** A click on the toggle of the composite at `p` flips that node's collapsed flag and no other. */
  function Toggle(tree: Option<Node>, collapsed: set<Path>, p: Path): (c: set<Path>)
    ensures HasToggle(tree, p) ==> (p in c <==> p !in collapsed)
    ensures !HasToggle(tree, p) ==> c == collapsed
    ensures forall q :: q != p ==> (q in c <==> q in collapsed)
  {
    if !HasToggle(tree, p) then collapsed
    else if p in collapsed then collapsed - {p}
    else collapsed + {p}
  }

  /** Two clicks on the same toggle restore the flags. */
  lemma ToggleTwice(tree: Option<Node>, collapsed: set<Path>, p: Path)
    ensures Toggle(tree, Toggle(tree, collapsed, p), p) == collapsed
  {
  }

  /** The ancestor walk: from the node owning a hit up to the root, each node loses its collapsed flag. */
  method ExpandChain(collapsed: set<Path>, p: Path) returns (c: set<Path>)
    ensures c == collapsed - Chain(p)
  {
    c := collapsed;
    var k: int := |p|;
    while k >= 0
      invariant -1 <= k <= |p|
      invariant c == collapsed - (set j | k < j <= |p| :: p[..j])
    {
      assert (set j | k - 1 < j <= |p| :: p[..j]) == (set j | k < j <= |p| :: p[..j]) + {p[..k]};
      c := c - {p[..k]};
      k := k - 1;
    }
  }

  /** What one more span adds to the sets a pass has built so far. */
  lemma PrefixStep(spans: seq<Span>, i: nat, input: string)
    requires i < |spans| && DistinctIds(spans)
    ensures spans[i].id !in Ids(spans[..i])
    ensures HitIds(spans[..i], input) <= Ids(spans[..i])
    ensures Ids(spans[..i + 1]) == Ids(spans[..i]) + {spans[i].id}
    ensures Hit(spans[i].text, input) ==> HitIds(spans[..i + 1], input) == HitIds(spans[..i], input) + {spans[i].id}
    ensures !Hit(spans[i].text, input) ==> HitIds(spans[..i + 1], input) == HitIds(spans[..i], input)
  {
    assert spans[..i + 1][..i] == spans[..i];
    IdsMember(spans[..i], spans[i].id);
    HitIdsWithinIds(spans[..i], input);
  }

  lemma {:induction false} HitIdsWithinIds(spans: seq<Span>, input: string)
    ensures HitIds(spans, input) <= Ids(spans)
  {
    if |spans| > 0 {
      HitIdsWithinIds(spans[..|spans| - 1], input);
    }
  }

  lemma HighlightStep(h: set<SpanId>, seen: set<SpanId>, hits: set<SpanId>, id: SpanId)
    requires id !in hits
    ensures (h - seen + hits) - {id} + {id} == h - (seen + {id}) + (hits + {id})
    ensures (h - seen + hits) - {id} == h - (seen + {id}) + hits
  {
  }

  lemma DisclosedAdd(ids: set<SpanId>, id: SpanId)
    ensures Disclosed(ids + {id}) == Disclosed(ids) + Chain(id.path)
  {
    forall q | q in Disclosed(ids + {id}) ensures q in Disclosed(ids) + Chain(id.path) {
      var id', k :| id' in ids + {id} && 0 <= k <= |id'.path| && q == id'.path[..k];
      if id' != id {
        assert q in Disclosed(ids);
      }
    }
  }

  /**
   * The search handler as written: one pass over the spans in document
   * order, clearing each span's highlight, testing it, and on a hit
   * highlighting it, counting it and expanding its chain.
   */
  method PerformSearch(tree: Option<Node>, input: string, collapsed: set<Path>, highlighted: set<SpanId>)
    returns (r: Outcome)
    ensures r == Search(tree, input, collapsed, highlighted)
  {
    var spans := TreeSpans(tree);
    if tree.Some? {
      SpansDistinct(tree.value, []);
    }
    var matches, hl, col := ScanSpans(spans, input, collapsed, highlighted);
    var countText := if Lower(input) != "" then ToRadixString(matches, 10) + " matches" else "0 matches";
    r := Outcome(matches, hl, col, countText);
  }

  /** What the `forEach` has built after its first `i` spans. */
  predicate Scanned(spans: seq<Span>, i: nat, input: string, collapsed: set<Path>, highlighted: set<SpanId>,
                    matches: nat, hl: set<SpanId>, col: set<Path>)
    requires i <= |spans|
  {
    && hl == highlighted - Ids(spans[..i]) + HitIds(spans[..i], input)
    && matches == |HitIds(spans[..i], input)|
    && col == collapsed - Disclosed(HitIds(spans[..i], input))
  }

  /** One iteration of the `forEach`: a hit is highlighted, counted and disclosed; any other span only loses its highlight. */
  lemma ScanStep(spans: seq<Span>, i: nat, input: string, collapsed: set<Path>, highlighted: set<SpanId>,
                 matches: nat, hl: set<SpanId>, col: set<Path>)
    requires i < |spans| && DistinctIds(spans)
    requires Scanned(spans, i, input, collapsed, highlighted, matches, hl, col)
    ensures Hit(spans[i].text, input) ==>
              Scanned(spans, i + 1, input, collapsed, highlighted, matches + 1,
                      hl - {spans[i].id} + {spans[i].id}, col - Chain(spans[i].id.path))
    ensures !Hit(spans[i].text, input) ==>
              Scanned(spans, i + 1, input, collapsed, highlighted, matches, hl - {spans[i].id}, col)
  {
    var id := spans[i].id;
    PrefixStep(spans, i, input);
    var seen, hits := Ids(spans[..i]), HitIds(spans[..i], input);
    HighlightStep(highlighted, seen, hits, id);
    if Hit(spans[i].text, input) {
      assert HitIds(spans[..i + 1], input) == hits + {id};
      assert |hits + {id}| == |hits| + 1;
      DisclosedAdd(hits, id);
    }
  }

  /** The `forEach` over the spans. */
  method ScanSpans(spans: seq<Span>, input: string, collapsed: set<Path>, highlighted: set<SpanId>)
    returns (matches: nat, hl: set<SpanId>, col: set<Path>)
    requires DistinctIds(spans)
    ensures matches == |HitIds(spans, input)|
    ensures hl == highlighted - Ids(spans) + HitIds(spans, input)
    ensures col == collapsed - Disclosed(HitIds(spans, input))
  {
    var term := Lower(input);
    matches := 0;
    hl := highlighted;
    col := collapsed;
    var i := 0;
    assert spans[..0] == [];
    assert Ids([]) == {} && HitIds([], input) == {} && Disclosed({}) == {};
    while i < |spans|
      invariant 0 <= i <= |spans|
      invariant Scanned(spans, i, input, collapsed, highlighted, matches, hl, col)
    {
      var span := spans[i];
      ScanStep(spans, i, input, collapsed, highlighted, matches, hl, col);
      hl := hl - {span.id};
      var text := Lower(span.text);
      var found := Includes(text, term);
      if term != "" && found {
        hl := hl + {span.id};
        matches := matches + 1;
        col := ExpandChain(col, span.id.path);
      }
      i := i + 1;
    }
    assert spans[..|spans|] == spans;
  }
}
