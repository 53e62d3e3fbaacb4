/** Concrete inputs: the unit test of parser/src/ast/state.rs and the failure
    cases of the State rule, on token streams with the byte spans the lexer
    would give them. */
module StateScenarios {
  import opened Lexer
  import opened Combinators
  import opened Identifiers
  import opened Cursor
  import opened StateAst
  import opened StateProperties

  /** "Auto State MyState EndState" */
  function AutoStateTokens(): seq<Token> {
    [ Token(KeywordToken(KeywordKind.Auto), Span(0, 4)),
      Token(KeywordToken(KeywordKind.State), Span(5, 10)),
      Token(IdentifierToken("MyState"), Span(11, 18)),
      Token(KeywordToken(KeywordKind.EndState), Span(19, 27)) ]
  }

  /** "State MyState EndState" */
  function PlainStateTokens(): seq<Token> {
    [ Token(KeywordToken(KeywordKind.State), Span(0, 5)),
      Token(IdentifierToken("MyState"), Span(6, 13)),
      Token(KeywordToken(KeywordKind.EndState), Span(14, 22)) ]
  }

  /** The test of the source: an Auto state with no contents, whose name
      carries the span 11..18. */
  lemma AutoStateWithoutContents<E, F>(g: SubRules<E, F>)
    requires ValidSubRules(g) && StopsAtEndState(g)
    ensures StateAt(g, AutoStateTokens(), 0)
            == Matched(State.State(true, Node(Identifier("MyState"), Span(11, 18)), None), 4)
  {
    assert KindAt(AutoStateTokens(), 3, KeywordToken(KeywordKind.EndState));
    assert ContentsFrom(g, AutoStateTokens(), 3) == ([], 3);
  }

  /** Without Auto the flag is off and nothing else changes. */
  lemma PlainStateWithoutContents<E, F>(g: SubRules<E, F>)
    requires ValidSubRules(g) && StopsAtEndState(g)
    ensures StateAt(g, PlainStateTokens(), 0)
            == Matched(State.State(false, Node(Identifier("MyState"), Span(6, 13)), None), 3)
  {
    assert KindAt(PlainStateTokens(), 2, KeywordToken(KeywordKind.EndState));
    assert ContentsFrom(g, PlainStateTokens(), 2) == ([], 2);
  }

  /** "State MyState": EndState is missing, and the failure names it at the
      end of input. */
  lemma MissingEndStateAtEndOfInput<E, F>(g: SubRules<E, F>)
    requires ValidSubRules(g)
    ensures StateAt(g, PlainStateTokens()[..2], 0)
            == Failed(ParseError(ExpectedKeyword(KeywordKind.EndState), EndOfInput), 2)
  {
    var toks := PlainStateTokens()[..2];
    assert Within(g.event(toks, 2), 2, 2) && Within(g.func(toks, 2), 2, 2);
    assert ContentsFrom(g, toks, 2) == ([], 2);
  }

  /** "Foo": no State keyword, and the failure names it at Foo. */
  lemma MissingStateAtFoo<E, F>(g: SubRules<E, F>)
    requires ValidSubRules(g)
    ensures var foo := Token(IdentifierToken("Foo"), Span(0, 3));
            StateAt(g, [foo], 0) == Failed(ParseError(ExpectedKeyword(KeywordKind.State), FoundToken(foo)), 0)
  {
  }

  /** Two alternatives that both accept the token OtherToken(0). */
  function AmbiguousRules(): (g: SubRules<string, string>)
    ensures ValidSubRules(g) && StopsAtEndState(g)
  {
    var accept := (tag: string) =>
      (toks: seq<Token>, p: nat) =>
        if KindAt(toks, p, OtherToken(0)) then Matched(tag, p + 1)
        else Failed(ParseError(ExpectedOther(tag), PeekAt(toks, p)), p);
    SubRules(accept("Event"), accept("Function"))
  }

  /** When both alternatives match the same tokens, the content is an Event. */
  lemma AmbiguousContentIsEvent()
    ensures var toks := [Token(OtherToken(0), Span(0, 1))];
            StateContentAt(AmbiguousRules(), toks, 0) == Matched(Event("Event"), 1)
  {
  }

  /** "State S x x EndState" where both alternatives accept x: two contents,
      both Events, in source order with their own spans. */
  lemma AmbiguousContentsInState()
    ensures var x1 := Token(OtherToken(0), Span(8, 9));
            var x2 := Token(OtherToken(0), Span(10, 11));
            var toks := [ Token(KeywordToken(KeywordKind.State), Span(0, 5)),
                          Token(IdentifierToken("S"), Span(6, 7)), x1, x2,
                          Token(KeywordToken(KeywordKind.EndState), Span(12, 20)) ];
            StateAt(AmbiguousRules(), toks, 0)
            == Matched(State.State(false, Node(Identifier("S"), Span(6, 7)),
                                   Some([Node(Event("Event"), Span(8, 9)), Node(Event("Event"), Span(10, 11))])), 5)
  {
    var x1 := Token(OtherToken(0), Span(8, 9));
    var x2 := Token(OtherToken(0), Span(10, 11));
    var toks := [ Token(KeywordToken(KeywordKind.State), Span(0, 5)),
                  Token(IdentifierToken("S"), Span(6, 7)), x1, x2,
                  Token(KeywordToken(KeywordKind.EndState), Span(12, 20)) ];
    var g := AmbiguousRules();
    assert ContentsFrom(g, toks, 4) == ([], 4);
    assert g.event(toks, 3) == Matched("Event", 4) && g.event(toks, 2) == Matched("Event", 3);
    assert StateContentAt(g, toks, 3) == Matched(Event("Event"), 4);
    assert StateContentAt(g, toks, 2) == Matched(Event("Event"), 3);
    assert SpanBetween(toks, 3, 4) == Span(10, 11) && SpanBetween(toks, 2, 3) == Span(8, 9);
    var n2 := Node(Event("Event"), Span(10, 11));
    assert ContentsFrom(g, toks, 3) == ([n2] + [], 4);
    assert [n2] + [] == [n2];
    assert ContentsFrom(g, toks, 3) == ([Node(Event("Event"), Span(10, 11))], 4);
    var n1 := Node(Event("Event"), Span(8, 9));
    assert [n1] + [n2] == [n1, n2];
    assert ContentsFrom(g, toks, 2) == ([Node(Event("Event"), Span(8, 9)), Node(Event("Event"), Span(10, 11))], 4);
  }

  /** When neither matches, the choice fails, labelled "State Contents", at
      the token it could not read. */
  lemma NeitherContentMatches()
    ensures var foo := Token(IdentifierToken("Foo"), Span(0, 3));
            StateContentAt(AmbiguousRules(), [foo], 0)
            == Failed(ParseError(ExpectedOneOf("State Contents"), FoundToken(foo)), 0)
  {
  }

  /** The source's test run on the parser itself: the result and the cursor
      after EndState. */
  method ParseAutoState() returns (r: Result<State<string, string>>, pos: nat)
    ensures r == Ok(State.State(true, Node(Identifier("MyState"), Span(11, 18)), None))
    ensures pos == 4
  {
    var parser := new Parser(AutoStateTokens());
    var g := AmbiguousRules();
    r := ParseState(parser, g);
    AutoStateWithoutContents(g);
    pos := parser.pos;
  }
}
