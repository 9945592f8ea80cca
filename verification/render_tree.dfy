/**
 * The display tree the JSON viewer builds from a parsed value: one node per
 * JSON value, each with its key span, its value span (scalars) or braces and
 * children (objects and arrays), and its trailing comma.
 */
module RenderTree {
  import opened Options
  import opened Json

  /** Which kind of scalar a value span shows (its json-string/number/boolean/null style). */
  datatype ScalarKind = StringKind | NumberKind | BooleanKind | NullKind

  /**
   * A node of the display tree. A `Leaf` shows an optional key span, the
   * value span and an optional comma; a `Branch` shows an optional key span,
   * the open brace, its children and a footer (close brace and optional comma).
   */
  datatype Node =
    | Leaf(keySpan: Option<string>, kind: ScalarKind, valueSpan: string, comma: string)
    | Branch(keySpan: Option<string>, open: string, children: seq<Node>, footer: string)

  /** The key span's text: the key in double quotes, then a colon and a space. */
  function KeyText(key: string): string {
    "\"" + key + "\": "
  }

  function KeySpanOf(key: Option<string>): Option<string> {
    match key
    case None => None
    case Some(k) => Some(KeyText(k))
  }

  function Comma(isLast: bool): string {
    if isLast then "" else ","
  }

  function CloseOf(open: string): string {
    if open == "[" then "]" else "}"
  }

  /** A node is shown as the last of its siblings when no comma follows it. */
  predicate MarkedLast(n: Node) {
    match n
    case Leaf(_, _, _, comma) => comma == ""
    case Branch(_, open, _, footer) => footer == CloseOf(open)
  }

  /** Value span text of a scalar: strings quoted without escaping, the rest as literals. */
  function ScalarText(v: JsonValue): string
    requires !v.IsComposite()
  {
    match v
    case Str(s) => "\"" + s + "\""
    case Num(t) => t
    case Bool(b) => if b then "true" else "false"
    case Null => "null"
  }

  function KindOf(v: JsonValue): ScalarKind
    requires !v.IsComposite()
  {
    match v
    case Str(_) => StringKind
    case Num(_) => NumberKind
    case Bool(_) => BooleanKind
    case Null => NullKind
  }

  /**
   * The tree builder: the node for `v`, shown under `key` (absent for array
   * elements and the root) and as the last sibling when `isLast` holds.
   */
  function Build(key: Option<string>, v: JsonValue, isLast: bool): (n: Node)
    ensures n.Branch? <==> v.IsComposite()
    ensures n.keySpan.Some? <==> key.Some?
    ensures key.Some? ==> n.keySpan == Some(KeyText(key.value))
    ensures MarkedLast(n) <==> isLast
    ensures v.Str? ==> n.valueSpan == "\"" + v.s + "\""
    ensures v.Num? ==> n.valueSpan == v.text
    ensures v.Bool? ==> n.valueSpan == (if v.b then "true" else "false")
    ensures v.Null? ==> n.valueSpan == "null"
    ensures v.Arr? ==> n.open == "[" && |n.footer| > 0 && n.footer[0] == ']' && |n.children| == |v.items|
    ensures v.Obj? ==> n.open == "{" && |n.footer| > 0 && n.footer[0] == '}' && |n.children| == |v.members|
    ensures v.Arr? ==> forall i :: 0 <= i < |n.children| ==>
              n.children[i].keySpan.None? && (MarkedLast(n.children[i]) <==> i == |n.children| - 1)
    ensures v.Obj? ==> forall i :: 0 <= i < |n.children| ==>
              n.children[i].keySpan == Some(KeyText(v.members[i].0)) && (MarkedLast(n.children[i]) <==> i == |n.children| - 1)
    decreases v
  {
    match v
    case Arr(items) =>
      Branch(KeySpanOf(key), "[",
             seq(|items|, i requires 0 <= i < |items| => Build(None, items[i], i == |items| - 1)),
             "]" + Comma(isLast))
    case Obj(ms) =>
      Branch(KeySpanOf(key), "{",
             seq(|ms|, i requires 0 <= i < |ms| => Build(Some(ms[i].0), ms[i].1, i == |ms| - 1)),
             "}" + Comma(isLast))
    case _ =>
      Leaf(KeySpanOf(key), KindOf(v), ScalarText(v), Comma(isLast))
  }

  /** The tree the viewer shows for a document: built with no key and as the last node. */
  function Render(v: JsonValue): (n: Node)
    ensures n.keySpan.None? && MarkedLast(n)
  {
    Build(None, v, true)
  }

  /**
   * Punctuation and labelling hold throughout a tree: braces match, exactly
   * the final child of each composite is shown without a comma, and
   * children carry key spans exactly inside objects.
   */
  predicate WellFormed(n: Node) {
    match n
    case Leaf(_, _, _, comma) => comma == "" || comma == ","
    case Branch(_, open, cs, footer) =>
      && (open == "[" || open == "{")
      && (footer == CloseOf(open) || footer == CloseOf(open) + ",")
      && (forall i :: 0 <= i < |cs| ==> (MarkedLast(cs[i]) <==> i == |cs| - 1))
      && (forall i :: 0 <= i < |cs| ==> (cs[i].keySpan.Some? <==> open == "{"))
      && (forall i :: 0 <= i < |cs| ==> WellFormed(cs[i]))
  }

  lemma {:induction false} BuildWellFormed(key: Option<string>, v: JsonValue, isLast: bool)
    ensures WellFormed(Build(key, v, isLast))
    decreases v
  {
    match v
    case Arr(items) =>
      forall i | 0 <= i < |items| ensures WellFormed(Build(key, v, isLast).children[i]) {
        BuildWellFormed(None, items[i], i == |items| - 1);
      }
    case Obj(ms) =>
      forall i | 0 <= i < |ms| ensures WellFormed(Build(key, v, isLast).children[i]) {
        BuildWellFormed(Some(ms[i].0), ms[i].1, i == |ms| - 1);
      }
    case _ =>
  }

  /** Recovers a string from its quoted display text. */
  function Unquote(t: string): string {
    if |t| >= 2 then t[1..|t| - 1] else t
  }

  /** Recovers a key from its key span text. */
  function KeyOf(span: Option<string>): string {
    match span
    case Some(t) => if |t| >= 4 then t[1..|t| - 3] else ""
    case None => ""
  }

  /** Reads the JSON value a display tree shows. */
  function Unbuild(n: Node): JsonValue {
    match n
    case Leaf(_, kind, text, _) =>
      (match kind
       case StringKind => Str(Unquote(text))
       case NumberKind => Num(text)
       case BooleanKind => Bool(text == "true")
       case NullKind => Null)
    case Branch(_, open, cs, _) =>
      if open == "[" then Arr(seq(|cs|, i requires 0 <= i < |cs| => Unbuild(cs[i])))
      else Obj(seq(|cs|, i requires 0 <= i < |cs| => (KeyOf(cs[i].keySpan), Unbuild(cs[i]))))
  }

  /** The display tree loses nothing: the value can be read back from it. */
  lemma {:induction false} UnbuildBuild(key: Option<string>, v: JsonValue, isLast: bool)
    ensures Unbuild(Build(key, v, isLast)) == v
    decreases v
  {
    var n := Build(key, v, isLast);
    match v
    case Arr(items) =>
      forall i | 0 <= i < |items| ensures Unbuild(n.children[i]) == items[i] {
        UnbuildBuild(None, items[i], i == |items| - 1);
      }
    case Obj(ms) =>
      forall i | 0 <= i < |ms| ensures (KeyOf(n.children[i].keySpan), Unbuild(n.children[i])) == ms[i] {
        UnbuildBuild(Some(ms[i].0), ms[i].1, i == |ms| - 1);
        var t := KeyText(ms[i].0);
        assert t[1..|t| - 3] == ms[i].0;
      }
    case Str(s) =>
      var t := "\"" + s + "\"";
      assert t[1..|t| - 1] == s;
    case _ =>
  }

  /** Equal values get equal trees and different values different trees. */
  lemma BuildInjective(key: Option<string>, v: JsonValue, w: JsonValue, isLast: bool)
    ensures Build(key, v, isLast) == Build(key, w, isLast) <==> v == w
  {
    UnbuildBuild(key, v, isLast);
    UnbuildBuild(key, w, isLast);
  }

  function NodeCount(n: Node): nat {
    match n
    case Leaf(_, _, _, _) => 1
    case Branch(_, _, cs, _) => 1 + Sum(seq(|cs|, i requires 0 <= i < |cs| => NodeCount(cs[i])))
  }

  /** The builder makes exactly one node per JSON value. */
  lemma {:induction false} BuildNodeCount(key: Option<string>, v: JsonValue, isLast: bool)
    ensures NodeCount(Build(key, v, isLast)) == ValueCount(v)
    decreases v
  {
    var n := Build(key, v, isLast);
    match v
    case Arr(items) =>
      forall i | 0 <= i < |items| ensures NodeCount(n.children[i]) == ValueCount(items[i]) {
        BuildNodeCount(None, items[i], i == |items| - 1);
      }
      assert seq(|n.children|, i requires 0 <= i < |n.children| => NodeCount(n.children[i]))
          == seq(|items|, i requires 0 <= i < |items| => ValueCount(items[i]));
    case Obj(ms) =>
      forall i | 0 <= i < |ms| ensures NodeCount(n.children[i]) == ValueCount(ms[i].1) {
        BuildNodeCount(Some(ms[i].0), ms[i].1, i == |ms| - 1);
      }
      assert seq(|n.children|, i requires 0 <= i < |n.children| => NodeCount(n.children[i]))
          == seq(|ms|, i requires 0 <= i < |ms| => ValueCount(ms[i].1));
    case _ =>
  }

  /** A child-index path from the root of a display tree. */
  type Path = seq<nat>

  /** The node at path `p`, if there is one. */
  function Subtree(n: Node, p: Path): Option<Node>
    decreases |p|
  {
    if |p| == 0 then Some(n)
    else match n
      case Leaf(_, _, _, _) => None
      case Branch(_, _, cs, _) => if p[0] < |cs| then Subtree(cs[p[0]], p[1..]) else None
  }

  /** Path `p` names an object or array node (one with a disclosure toggle). */
  predicate IsBranchAt(n: Node, p: Path) {
    Subtree(n, p).Some? && Subtree(n, p).value.Branch?
  }

  /** Every proper prefix of an existing node's path names a composite: its ancestors. */
  lemma {:induction false} AncestorsAreBranches(n: Node, p: Path, k: nat)
    requires Subtree(n, p).Some?
    requires k < |p|
    ensures IsBranchAt(n, p[..k])
    decreases |p|
  {
    if k > 0 {
      var cs := n.children;
      assert p[..k][1..] == p[1..][..k - 1];
      AncestorsAreBranches(cs[p[0]], p[1..], k - 1);
    }
  }
}
