/** The State block of the scripting language:

      <state>         ::= ['Auto'] 'State' <identifier> <state content>* 'EndState'
      <state content> ::= <event> | <function>

    The Event and Function rules are not part of this model: they are passed in
    as rule values (SubRules), with their value types as type parameters. */
module StateAst {
  import opened Lexer
  import opened Combinators
  import opened Identifiers
  import opened Cursor

  datatype StateContent<E, F> = Function(func: F) | Event(event: E)

  datatype State<E, F> = State(
    isAuto: bool,
    name: Node<Identifier>,
    contents: Option<seq<Node<StateContent<E, F>>>>)

  /** State::new. */
  function New<E, F>(isAuto: bool, name: Node<Identifier>, contents: Option<seq<Node<StateContent<E, F>>>>): (s: State<E, F>)
    ensures s.isAuto == isAuto && s.name == name && s.contents == contents
  {
    State.State(isAuto, name, contents)
  }

  /** The two rules a state's contents are chosen from. */
  datatype SubRules<E, F> = SubRules(event: Rule<E>, func: Rule<F>)

  ghost predicate ValidSubRules<E, F>(g: SubRules<E, F>) {
    ValidRule(g.event) && ValidRule(g.func)
  }

  /** How the choice between the alternatives is named when neither matches. */
  const StateContentsLabel: string := "State Contents"

  /** StateContent::parse: Event is tried first, then Function; the first that
      matches wins, and when neither does the choice fails where it started. */
  function StateContentAt<E, F>(g: SubRules<E, F>, toks: seq<Token>, p: nat): (r: RuleResult<StateContent<E, F>>)
    ensures ValidSubRules(g) && p <= |toks| ==> Within(r, p, |toks|)
    ensures r.Failed? <==> g.event(toks, p).Failed? && g.func(toks, p).Failed?
    ensures r.Failed? ==> r == Failed(ParseError(ExpectedOneOf(StateContentsLabel), PeekAt(toks, p)), p)
  {
    match OptionalAt(g.event, toks, p)
    case (Some(e), q) => Matched(Event(e), q)
    case (None, _) =>
      match OptionalAt(g.func, toks, p)
      case (Some(f), q) => Matched(Function(f), q)
      case (None, _) => Failed(ParseError(ExpectedOneOf(StateContentsLabel), PeekAt(toks, p)), p)
  }

  /** StateContent::parse as a rule value, the form in which the repetition
      receives it. */
  function ContentRule<E, F>(g: SubRules<E, F>): (rule: Rule<StateContent<E, F>>)
    ensures forall toks: seq<Token>, p: nat :: rule(toks, p) == StateContentAt(g, toks, p)
    ensures ValidSubRules(g) ==> ValidRule(rule)
  {
    (toks: seq<Token>, p: nat) => StateContentAt(g, toks, p)
  }

  /** parse_node_optional_repeated over StateContent: the contents matched one
      after another from p, each with its span, and the position where the
      first attempt failed. */
  function ContentsFrom<E, F>(g: SubRules<E, F>, toks: seq<Token>, p: nat): (r: (seq<Node<StateContent<E, F>>>, nat))
    requires ValidSubRules(g) && p <= |toks|
    ensures p <= r.1 <= |toks|
    ensures |r.0| <= r.1 - p
    ensures StateContentAt(g, toks, r.1).Failed?
    decreases |toks| - p
  {
    match StateContentAt(g, toks, p)
    case Failed(_, _) => ([], p)
    case Matched(c, q) =>
      var (rest, stop) := ContentsFrom(g, toks, q);
      ([Node(c, SpanBetween(toks, p, q))] + rest, stop)
  }

  /** State::parse. */
  function StateAt<E, F>(g: SubRules<E, F>, toks: seq<Token>, p: nat): (r: RuleResult<State<E, F>>)
    requires ValidSubRules(g) && p <= |toks|
    ensures Within(r, p, |toks|)
  {
    var (auto, p1) := OptionalAt(KeywordRule(KeywordKind.Auto), toks, p);
    match KeywordAt(toks, p1, KeywordKind.State)
    case Failed(e, s) => Failed(e, s)
    case Matched(_, p2) =>
      match NodeAt(IdentifierRule(), toks, p2)
      case Failed(e, s) => Failed(e, s)
      case Matched(name, p3) =>
        var (items, p4) := ContentsFrom(g, toks, p3);
        match KeywordAt(toks, p4, KeywordKind.EndState)
        case Failed(e, s) => Failed(e, s)
        case Matched(_, p5) => Matched(New(auto.Some?, name, if |items| == 0 then None else Some(items)), p5)
  }

  /** StateContent::parse on the parser. */
  method ParseStateContent<E, F>(parser: Parser, g: SubRules<E, F>) returns (r: Result<StateContent<E, F>>)
    requires parser.Valid() && ValidSubRules(g)
    modifies parser
    ensures parser.Valid()
    ensures Agrees(r, parser.pos, StateContentAt(g, parser.tokens, old(parser.pos)))
  {
    var event := parser.Optional(g.event);
    if event.Some? {
      return Ok(Event(event.value));
    }
    var func := parser.Optional(g.func);
    if func.Some? {
      return Ok(Function(func.value));
    }
    var found := parser.Peek();
    return Err(ParseError(ExpectedOneOf(StateContentsLabel), found));
  }

  /** parse_node_optional_repeated::<StateContent>: the cursor's optional,
      applied to parse_node of the content choice, until it gives no value.
      No value when nothing matched, otherwise the contents in source order. */
  method ParseStateContents<E, F>(parser: Parser, g: SubRules<E, F>) returns (r: Option<seq<Node<StateContent<E, F>>>>)
    requires parser.Valid() && ValidSubRules(g)
    modifies parser
    ensures parser.Valid()
    ensures var (items, stop) := ContentsFrom(g, parser.tokens, old(parser.pos));
            parser.pos == stop && r == (if |items| == 0 then None else Some(items))
  {
    var items := [];
    ghost var start := parser.pos;
    var rule := NodeRule(ContentRule(g));
    while true
      invariant parser.Valid() && start <= parser.pos
      invariant ContentsFrom(g, parser.tokens, start).0 == items + ContentsFrom(g, parser.tokens, parser.pos).0
      invariant ContentsFrom(g, parser.tokens, start).1 == ContentsFrom(g, parser.tokens, parser.pos).1
      decreases |parser.tokens| - parser.pos
    {
      ghost var before := parser.pos;
      var node := parser.Optional(rule);
      if node.None? {
        assert ContentsFrom(g, parser.tokens, parser.pos) == ([], parser.pos);
        break;
      }
      assert ContentsFrom(g, parser.tokens, before).0 == [node.value] + ContentsFrom(g, parser.tokens, parser.pos).0;
      items := items + [node.value];
    }
    assert items + [] == items;
    assert ContentsFrom(g, parser.tokens, start) == (items, parser.pos);
    r := if |items| == 0 then None else Some(items);
  }

  /** State::parse on the parser. */
  method ParseState<E, F>(parser: Parser, g: SubRules<E, F>) returns (r: Result<State<E, F>>)
    requires parser.Valid() && ValidSubRules(g)
    modifies parser
    ensures parser.Valid()
    ensures Agrees(r, parser.pos, StateAt(g, parser.tokens, old(parser.pos)))
  {
    var auto := parser.Optional(KeywordRule(KeywordKind.Auto));
    var isAuto := auto.Some?;
    var open := parser.ExpectKeyword(KeywordKind.State);
    if open.Err? {
      return Err(open.error);
    }
    var name := parser.ParseNode(IdentifierRule());
    if name.Err? {
      return Err(name.error);
    }
    var contents := ParseStateContents(parser, g);
    var close := parser.ExpectKeyword(KeywordKind.EndState);
    if close.Err? {
      return Err(close.error);
    }
    return Ok(New(isAuto, name.value, contents));
  }

  /** How an Event and a Function are written out; not part of this model. */
  datatype Renderers<-E, -F> = Renderers(event: E -> seq<TokenKind>, func: F -> seq<TokenKind>)

  /** Display for StateContent. */
  function RenderContent<E, F>(c: StateContent<E, F>, rs: Renderers<E, F>): (r: seq<TokenKind>)
    ensures c.Event? ==> r == rs.event(c.event)
    ensures c.Function? ==> r == rs.func(c.func)
  {
    match c
    case Function(f) => rs.func(f)
    case Event(e) => rs.event(e)
  }

  /** The contents written one after the other, in order. */
  function RenderContents<E, F>(cs: seq<Node<StateContent<E, F>>>, rs: Renderers<E, F>): (r: seq<TokenKind>)
    ensures |cs| == 0 ==> r == []
  {
    if |cs| == 0 then [] else RenderContent(cs[0].value, rs) + RenderContents(cs[1..], rs)
  }

  /** Contents are written in list order: the rendering of two lists one
      after the other is their renderings one after the other. */
  lemma {:induction false} RenderContentsAppend<E, F>(a: seq<Node<StateContent<E, F>>>, b: seq<Node<StateContent<E, F>>>, rs: Renderers<E, F>)
    ensures RenderContents(a + b, rs) == RenderContents(a, rs) + RenderContents(b, rs)
    decreases |a|
  {
    if |a| > 0 {
      assert (a + b)[1..] == a[1..] + b;
      RenderContentsAppend(a[1..], b, rs);
    } else {
      assert a + b == b;
    }
  }

  /** Display for State, as the sequence of tokens it writes. */
  function RenderState<E, F>(s: State<E, F>, rs: Renderers<E, F>): (r: seq<TokenKind>)
    ensures |r| >= 3 && r[|r| - 1] == KeywordToken(KeywordKind.EndState)
    ensures r[0] == KeywordToken(KeywordKind.Auto) <==> s.isAuto
    ensures var at := if s.isAuto then 1 else 0;
            r[at] == KeywordToken(KeywordKind.State) && r[at + 1] == IdentifierToken(s.name.value.name)
  {
    (if s.isAuto then [KeywordToken(KeywordKind.Auto)] else [])
    + [KeywordToken(KeywordKind.State), IdentifierToken(s.name.value.name)]
    + (match s.contents case None => [] case Some(cs) => RenderContents(cs, rs))
    + [KeywordToken(KeywordKind.EndState)]
  }
}
