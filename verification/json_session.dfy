/**
 * The JSON page as a state machine: the text box, the document parsed from
 * it, the tree container, the disclosure and highlight state of the shown
 * tree, the error line, the search box and the match counter. Each handler
 * of the page is one step.
 */
module JsonSession {
  import opened Options
  import opened Text
  import opened Numerals
  import opened Json
  import opened RenderTree
  import opened TreeSearch

  /**
   * The page state. `data` is the held document; JavaScript's `null` stands
   * both for "no document" and for a document that is `null`, so both are
   * `Null` here. `tree` is the container's content, `None` when it is empty.
   */
  datatype Session = Session(
    text: string,
    data: JsonValue,
    tree: Option<Node>,
    collapsed: set<Path>,
    highlighted: set<SpanId>,
    error: string,
    term: string,
    countText: string)

  /** The events the page reacts to; format and minify receive the host's serialiser. */
  datatype Event =
    | EditJson(newText: string, parsed: Result<JsonValue>)
    | EditTerm(newTerm: string)
    | ClickToggle(path: Path)
    | ClickFormat(pretty: JsonValue -> string)
    | ClickMinify(compact: JsonValue -> string)
    | ClickClear

  /** Every highlighted span is a span of the shown tree. */
  predicate HighlightsShown(s: Session) {
    forall id :: id in s.highlighted ==> s.tree.Some? && SpanText(s.tree.value, id).Some?
  }

  /**
   * The search handler run against the page's current tree and term. When
   * the old highlights all sit on the shown tree (as they do between events),
   * exactly the matching spans end up highlighted.
   */
  function RunSearch(s: Session): (r: Session)
    ensures r.text == s.text && r.data == s.data && r.tree == s.tree && r.error == s.error && r.term == s.term
    ensures r.collapsed <= s.collapsed
    ensures forall id :: HitAt(s.tree, id, s.term) ==> Revealed(r.collapsed, id.path)
    ensures HighlightsShown(s) ==>
              (forall id :: id in r.highlighted <==> HitAt(s.tree, id, s.term))
              && r.countText == ToRadixString(|r.highlighted|, 10) + " matches"
    ensures Lower(s.term) == "" ==> r.collapsed == s.collapsed && r.countText == "0 matches"
  {
    SearchDisclosesHits(s.tree, s.term, s.collapsed, s.highlighted);
    SearchCountText(s.tree, s.term, s.collapsed, s.highlighted);
    if HighlightsShown(s) then
      SearchHighlightsExactly(s.tree, s.term, s.collapsed, s.highlighted);
      SearchResult(s)
    else
      SearchResult(s)
  }

  function SearchResult(s: Session): Session {
    var o := Search(s.tree, s.term, s.collapsed, s.highlighted);
    s.(collapsed := o.collapsed, highlighted := o.highlighted, countText := o.countText)
  }

  /**
   * Replaces the container's content with freshly built nodes for the held
   * document (all expanded, none highlighted) and searches them; a `null`
   * document leaves the container empty and the counter untouched.
   */
  function UpdateTreeView(s: Session): (r: Session)
    ensures r.text == s.text && r.data == s.data && r.error == s.error && r.term == s.term
    ensures s.data == Null ==> r.tree.None? && r.countText == s.countText && r.collapsed == {} && r.highlighted == {}
    ensures s.data != Null ==> r.tree == Some(Render(s.data)) && r.collapsed == {}
    ensures s.data != Null ==>
              (forall id :: id in r.highlighted <==> HitAt(r.tree, id, s.term))
              && r.countText == ToRadixString(|r.highlighted|, 10) + " matches"
  {
    if s.data == Null then s.(tree := None, collapsed := {}, highlighted := {})
    else RunSearch(s.(tree := Some(Render(s.data)), collapsed := {}, highlighted := {}))
  }

  /**
   * The text box's input handler. `parsed` is what `JSON.parse` yields for
   * the trimmed text (it is not consulted when that text is empty).
   */
  function OnJsonInput(s: Session, newText: string, parsed: Result<JsonValue>): (r: Session)
    ensures r.text == newText && r.term == s.term
    ensures Trim(newText) == "" ==>
              r.data == Null && r.tree.None? && r.error == "" && r.countText == "0 matches"
              && r.collapsed == {} && r.highlighted == {}
    ensures Trim(newText) != "" && parsed.Err? ==>
              r == s.(text := newText, error := "Invalid JSON: " + parsed.message)
    ensures Trim(newText) != "" && parsed.Ok? ==>
              r.data == parsed.value && r.error == "" && r.collapsed == {}
              && (parsed.value == Null ==> r.tree.None? && r.countText == s.countText)
              && (parsed.value != Null ==> r.tree == Some(Render(parsed.value)))
              && (parsed.value != Null ==>
                    (forall id :: id in r.highlighted <==> HitAt(r.tree, id, s.term))
                    && r.countText == ToRadixString(|r.highlighted|, 10) + " matches")
  {
    if Trim(newText) == "" then
      s.(text := newText, error := "", data := Null, tree := None, collapsed := {}, highlighted := {},
         countText := "0 matches")
    else
      match parsed
      case Ok(v) => UpdateTreeView(s.(text := newText, data := v)).(error := "")
      case Err(m) => s.(text := newText, error := "Invalid JSON: " + m)
  }

  /** The search box's input handler. */
  function OnTermInput(s: Session, newTerm: string): (r: Session)
    ensures r.term == newTerm && r.tree == s.tree && r.data == s.data && r.text == s.text && r.error == s.error
    ensures r.collapsed <= s.collapsed
    ensures forall id :: HitAt(s.tree, id, newTerm) ==> Revealed(r.collapsed, id.path)
    ensures HighlightsShown(s) ==>
              (forall id :: id in r.highlighted <==> HitAt(s.tree, id, newTerm))
              && r.countText == ToRadixString(|r.highlighted|, 10) + " matches"
    ensures Lower(newTerm) == "" ==> r.collapsed == s.collapsed && r.countText == "0 matches"
  {
    RunSearch(s.(term := newTerm))
  }

  /**
   * The format and minify handlers: with a truthy document the text box
   * receives its serialisation (`stringify` is the host's `JSON.stringify`,
   * indented by four for format, compact for minify); otherwise nothing
   * happens. The new text is not parsed again.
   */
  function Reprint(s: Session, stringify: JsonValue -> string): (r: Session)
    ensures Truthy(s.data) ==> r == s.(text := stringify(s.data))
    ensures !Truthy(s.data) ==> r == s
  {
    if Truthy(s.data) then s.(text := stringify(s.data)) else s
  }

  /** The clear handler: everything emptied and the counter reset. */
  function OnClear(s: Session): (r: Session)
    ensures r.text == "" && r.error == "" && r.data == Null && r.tree.None? && r.term == ""
    ensures r.countText == "0 matches" && r.collapsed == {} && r.highlighted == {}
  {
    Session("", Null, None, {}, {}, "", "", "0 matches")
  }

  /**
   * The page's event wiring. Only the text box and clear change the
   * document, the tree and the error line; only the search box and clear
   * change the term; a toggle click changes one collapsed flag and nothing
   * else; format and minify change only the text box.
   */
  function Step(s: Session, e: Event): (r: Session)
    ensures !e.EditJson? && !e.ClickClear? ==> r.data == s.data && r.tree == s.tree && r.error == s.error
    ensures !e.EditTerm? && !e.ClickClear? ==> r.term == s.term
    ensures e.EditTerm? || e.ClickToggle? ==> r.text == s.text
    ensures e.ClickToggle? ==> r.(collapsed := s.collapsed) == s
                               && forall q :: q != e.path ==> (q in r.collapsed <==> q in s.collapsed)
    ensures e.ClickFormat? || e.ClickMinify? ==> r.(text := s.text) == s
  {
    match e
    case EditJson(t, p) => OnJsonInput(s, t, p)
    case EditTerm(t) => OnTermInput(s, t)
    case ClickToggle(p) => s.(collapsed := Toggle(s.tree, s.collapsed, p))
    case ClickFormat(pretty) => Reprint(s, pretty)
    case ClickMinify(compact) => Reprint(s, compact)
    case ClickClear => OnClear(s)
  }

  /**
   * What the page keeps true between events: the container shows exactly
   * the held document's tree, only composites are collapsed, exactly the
   * spans matching the term are highlighted, and the counter shows their
   * number whenever a tree is shown.
   */
  ghost predicate Consistent(s: Session) {
    && s.tree == (if s.data == Null then None else Some(Render(s.data)))
    && (forall p :: p in s.collapsed ==> HasToggle(s.tree, p))
    && (s.tree.None? ==> s.highlighted == {})
    && (forall id :: id in s.highlighted <==> HitAt(s.tree, id, s.term))
    && (s.tree.Some? ==> s.countText == ToRadixString(|s.highlighted|, 10) + " matches")
  }

  /** A cleared page is consistent, whatever it held before. */
  lemma ClearConsistent(s: Session)
    ensures Consistent(OnClear(s))
  {
  }

  /**
   * Typing into the text box leaves a consistent page whenever the text is
   * blank or parses, whatever the page held before: the tree, the flags,
   * the highlights and the counter are all rebuilt.
   */
  lemma JsonInputConsistent(s: Session, newText: string, v: JsonValue)
    ensures Consistent(OnJsonInput(s, newText, Ok(v)))
  {
    var r := OnJsonInput(s, newText, Ok(v));
    if Trim(newText) != "" && v != Null {
      assert r.tree == Some(Render(v));
    }
  }

  /** A search over a consistent tree restores the highlight and counter parts of consistency. */
  lemma RunSearchConsistent(s: Session)
    requires s.tree == (if s.data == Null then None else Some(Render(s.data)))
    requires forall p :: p in s.collapsed ==> HasToggle(s.tree, p)
    requires HighlightsShown(s)
    ensures Consistent(RunSearch(s))
  {
    SearchHighlightsExactly(s.tree, s.term, s.collapsed, s.highlighted);
    var r := RunSearch(s);
    if s.tree.None? {
      forall id ensures id !in r.highlighted {
      }
    }
  }

  lemma ShownHighlights(s: Session)
    requires Consistent(s)
    ensures HighlightsShown(s)
  {
  }

  /** Every handler keeps the page consistent. */
  lemma StepConsistent(s: Session, e: Event)
    requires Consistent(s)
    ensures Consistent(Step(s, e))
  {
    ShownHighlights(s);
    match e
    case EditJson(t, p) =>
      if Trim(t) != "" && p.Ok? {
        var s1 := s.(text := t, data := p.value);
        if p.value != Null {
          RunSearchConsistent(s1.(tree := Some(Render(p.value)), collapsed := {}, highlighted := {}));
        }
      }
    case EditTerm(t) =>
      RunSearchConsistent(s.(term := t));
    case ClickToggle(p) =>
    case ClickFormat(_) =>
    case ClickMinify(_) =>
    case ClickClear =>
  }
}
