/** What State::parse and StateContent::parse promise, stated over the pure
    grammar functions that the parser methods are proved to agree with. */
module StateProperties {
  import opened Lexer
  import opened Combinators
  import opened Identifiers
  import opened StateAst

  /** Where the State keyword is expected: after a leading Auto, if any. */
  function AfterAuto(toks: seq<Token>, p: nat): nat {
    if KindAt(toks, p, KeywordToken(KeywordKind.Auto)) then p + 1 else p
  }

  /** Where the contents begin once the header 'Auto'? 'State' <name> matched. */
  function ContentsStart(toks: seq<Token>, p: nat): nat {
    AfterAuto(toks, p) + 2
  }

  /** The header ['Auto'] 'State' <identifier> is present at p. */
  predicate HeaderAt(toks: seq<Token>, p: nat) {
    var q := AfterAuto(toks, p);
    KindAt(toks, q, KeywordToken(KeywordKind.State)) && q + 1 < |toks| && toks[q + 1].kind.IdentifierToken?
  }

  // ---------------------------------------------------------------------------
  // The optional Auto modifier

  /** is_auto is set exactly when the block starts with Auto. */
  lemma IsAutoIffLeadingAuto<E, F>(g: SubRules<E, F>, toks: seq<Token>, p: nat)
    requires ValidSubRules(g) && p <= |toks|
    requires StateAt(g, toks, p).Matched?
    ensures StateAt(g, toks, p).value.isAuto <==> KindAt(toks, p, KeywordToken(KeywordKind.Auto))
  {
  }

  /** A failed attempt at Auto leaves the cursor where it was, so the State
      keyword is then looked for at p itself. */
  lemma AbsentAutoLeavesCursor(toks: seq<Token>, p: nat)
    requires !KindAt(toks, p, KeywordToken(KeywordKind.Auto))
    ensures OptionalAt(KeywordRule(KeywordKind.Auto), toks, p) == (None, p)
  {
  }

  // ---------------------------------------------------------------------------
  // The mandatory State keyword and name

  /** Parsing fails naming the State keyword, at the token that is not State,
      exactly when the token after the optional Auto is not State. */
  lemma MissingStateKeyword<E, F>(g: SubRules<E, F>, toks: seq<Token>, p: nat)
    requires ValidSubRules(g) && p <= |toks|
    ensures var q := AfterAuto(toks, p);
            !KindAt(toks, q, KeywordToken(KeywordKind.State))
            <==>
            StateAt(g, toks, p) == Failed(ParseError(ExpectedKeyword(KeywordKind.State), PeekAt(toks, q)), q)
  {
    var q := AfterAuto(toks, p);
    if KindAt(toks, q, KeywordToken(KeywordKind.State)) {
      var r := StateAt(g, toks, p);
      if r.Failed? {
        assert r.error.expected != ExpectedKeyword(KeywordKind.State);
      }
    }
  }

  /** After State, a missing identifier aborts the whole block, naming the
      identifier as expected. */
  lemma MissingName<E, F>(g: SubRules<E, F>, toks: seq<Token>, p: nat)
    requires ValidSubRules(g) && p <= |toks|
    requires KindAt(toks, AfterAuto(toks, p), KeywordToken(KeywordKind.State))
    requires !HeaderAt(toks, p)
    ensures var q := AfterAuto(toks, p) + 1;
            StateAt(g, toks, p) == Failed(ParseError(ExpectedIdentifier, PeekAt(toks, q)), q)
  {
  }

  /** A parsed block's name is the identifier token after State, with that
      token's span. */
  lemma NameIsIdentifierToken<E, F>(g: SubRules<E, F>, toks: seq<Token>, p: nat)
    requires ValidSubRules(g) && p <= |toks|
    requires StateAt(g, toks, p).Matched?
    ensures HeaderAt(toks, p)
    ensures var at := AfterAuto(toks, p) + 1;
            var s := StateAt(g, toks, p).value;
            toks[at].kind == IdentifierToken(s.name.value.name) && s.name.span == toks[at].span
  {
  }

  // ---------------------------------------------------------------------------
  // The contents and the closing EndState

  /** The contents of a parsed block are what the repetition matched after the
      name; no contents at all is None, never an empty list; and the cursor
      ends just past the EndState that follows them. */
  lemma ContentsAndClose<E, F>(g: SubRules<E, F>, toks: seq<Token>, p: nat)
    requires ValidSubRules(g) && p <= |toks|
    requires StateAt(g, toks, p).Matched?
    ensures var s := StateAt(g, toks, p).value;
            var start := ContentsStart(toks, p);
            start <= |toks| &&
            var (items, stop) := ContentsFrom(g, toks, start);
            && (s.contents.None? <==> StateContentAt(g, toks, start).Failed?)
            && (s.contents.None? ==> items == [])
            && (s.contents.Some? ==> s.contents.value == items && |items| > 0)
            && KindAt(toks, stop, KeywordToken(KeywordKind.EndState))
            && StateAt(g, toks, p).next == stop + 1
  {
    var start := ContentsStart(toks, p);
    var (items, stop) := ContentsFrom(g, toks, start);
    if StateContentAt(g, toks, start).Failed? {
      assert ContentsFrom(g, toks, start) == ([], start);
    } else {
      assert |items| > 0;
    }
  }

  /** With the header in place, a missing EndState after the contents is a
      hard failure naming EndState at the token found there. */
  lemma MissingEndState<E, F>(g: SubRules<E, F>, toks: seq<Token>, p: nat)
    requires ValidSubRules(g) && p <= |toks|
    requires HeaderAt(toks, p)
    ensures ContentsStart(toks, p) <= |toks|
    ensures var stop := ContentsFrom(g, toks, ContentsStart(toks, p)).1;
            !KindAt(toks, stop, KeywordToken(KeywordKind.EndState))
            <==>
            StateAt(g, toks, p) == Failed(ParseError(ExpectedKeyword(KeywordKind.EndState), PeekAt(toks, stop)), stop)
  {
  }

  /** The block parses exactly when the header is present and EndState
      follows the contents. */
  lemma StateParsesIff<E, F>(g: SubRules<E, F>, toks: seq<Token>, p: nat)
    requires ValidSubRules(g) && p <= |toks|
    ensures StateAt(g, toks, p).Matched?
            <==>
            HeaderAt(toks, p) &&
            KindAt(toks, ContentsFrom(g, toks, ContentsStart(toks, p)).1, KeywordToken(KeywordKind.EndState))
  {
  }

  // ---------------------------------------------------------------------------
  // StateContent: ordered choice

  /** Event is tried before Function: when Event matches it wins whatever
      Function would do; Function is taken only when Event fails; when both
      fail the choice fails at p, labelled "State Contents". */
  lemma FirstAlternativeWins<E, F>(g: SubRules<E, F>, toks: seq<Token>, p: nat)
    ensures g.event(toks, p).Matched? ==>
              StateContentAt(g, toks, p) == Matched(Event(g.event(toks, p).value), g.event(toks, p).next)
    ensures g.event(toks, p).Failed? && g.func(toks, p).Matched? ==>
              StateContentAt(g, toks, p) == Matched(Function(g.func(toks, p).value), g.func(toks, p).next)
    ensures StateContentAt(g, toks, p).Failed? <==> g.event(toks, p).Failed? && g.func(toks, p).Failed?
    ensures StateContentAt(g, toks, p).Failed? ==>
              StateContentAt(g, toks, p) == Failed(ParseError(ExpectedOneOf("State Contents"), PeekAt(toks, p)), p)
  {
  }

  // ---------------------------------------------------------------------------
  // The repetition: source order, maximality, uniqueness

  /** The i-th content was matched at ps[i], ended at ps[i + 1], and its node
      carries the span of the tokens in between. */
  ghost predicate Link<E, F>(g: SubRules<E, F>, toks: seq<Token>, cs: seq<Node<StateContent<E, F>>>, ps: seq<nat>, i: nat) {
    && i < |cs| && i + 1 < |ps|
    && ps[i] < ps[i + 1] <= |toks|
    && StateContentAt(g, toks, ps[i]) == Matched(cs[i].value, ps[i + 1])
    && cs[i].span == SpanBetween(toks, ps[i], ps[i + 1])
  }

  /** cs were matched one after another at the positions ps. */
  ghost predicate ContentChain<E, F>(g: SubRules<E, F>, toks: seq<Token>, cs: seq<Node<StateContent<E, F>>>, ps: seq<nat>) {
    && |ps| == |cs| + 1
    && forall i: nat :: i < |cs| ==> Link(g, toks, cs, ps, i)
  }

  /** The repetition returns a chain of matches in source order from p that
      ends at a position where neither alternative matches. */
  lemma {:induction false} ContentsAreMaximalChain<E, F>(g: SubRules<E, F>, toks: seq<Token>, p: nat)
    requires ValidSubRules(g) && p <= |toks|
    ensures exists ps :: ContentChain(g, toks, ContentsFrom(g, toks, p).0, ps)
                         && ps[0] == p && ps[|ps| - 1] == ContentsFrom(g, toks, p).1
    decreases |toks| - p
  {
    var (cs, stop) := ContentsFrom(g, toks, p);
    match StateContentAt(g, toks, p)
    case Failed(_, _) =>
      assert ContentChain(g, toks, cs, [p]);
    case Matched(c, q) =>
      ContentsAreMaximalChain(g, toks, q);
      var rest := ContentsFrom(g, toks, q).0;
      var ps' :| ContentChain(g, toks, rest, ps') && ps'[0] == q && ps'[|ps'| - 1] == stop;
      var ps := [p] + ps';
      assert cs == [Node(c, SpanBetween(toks, p, q))] + rest;
      forall i: nat | i < |cs| ensures Link(g, toks, cs, ps, i) {
        if i > 0 {
          assert Link(g, toks, rest, ps', i - 1);
          assert cs[i] == rest[i - 1] && ps[i] == ps'[i - 1] && ps[i + 1] == ps'[i];
        }
      }
      assert ContentChain(g, toks, cs, ps);
  }

  /** Conversely, any chain of matches from p that stops where neither
      alternative matches is exactly what the repetition returns. */
  lemma {:induction false} MaximalChainIsContents<E, F>(g: SubRules<E, F>, toks: seq<Token>, cs: seq<Node<StateContent<E, F>>>, ps: seq<nat>)
    requires ValidSubRules(g)
    requires ContentChain(g, toks, cs, ps) && ps[0] <= |toks|
    requires StateContentAt(g, toks, ps[|cs|]).Failed?
    ensures ContentsFrom(g, toks, ps[0]) == (cs, ps[|cs|])
    decreases |cs|
  {
    if |cs| > 0 {
      assert Link(g, toks, cs, ps, 0);
      assert ContentChain(g, toks, cs[1..], ps[1..]) by {
        forall i: nat | i < |cs[1..]| ensures Link(g, toks, cs[1..], ps[1..], i) {
          assert Link(g, toks, cs, ps, i + 1);
          assert cs[1..][i] == cs[i + 1] && ps[1..][i] == ps[i + 1] && ps[1..][i + 1] == ps[i + 2];
        }
      }
      MaximalChainIsContents(g, toks, cs[1..], ps[1..]);
      assert cs[0] == Node(cs[0].value, SpanBetween(toks, ps[0], ps[1]));
      assert cs == [cs[0]] + cs[1..];
    }
  }

  // ---------------------------------------------------------------------------
  // Rendering then parsing

  /** The values of a list of nodes, spans dropped. */
  function Values<T>(ns: seq<Node<T>>): (vs: seq<T>)
    ensures |vs| == |ns|
  {
    if |ns| == 0 then [] else [ns[0].value] + Values(ns[1..])
  }

  /** Two blocks equal once spans, which depend on layout, are ignored. */
  ghost predicate SameModuloSpans<E, F>(a: State<E, F>, b: State<E, F>) {
    && a.isAuto == b.isAuto
    && a.name.value == b.name.value
    && a.contents.Some? == b.contents.Some?
    && (a.contents.Some? ==> Values(a.contents.value) == Values(b.contents.value))
  }

  /** Neither alternative starts with EndState. */
  ghost predicate StopsAtEndState<E, F>(g: SubRules<E, F>) {
    forall toks: seq<Token>, p: nat :: KindAt(toks, p, KeywordToken(KeywordKind.EndState)) ==>
      g.event(toks, p).Failed? && g.func(toks, p).Failed?
  }

  /** What the Event and Function rules must do with their own renderings for
      a rendered block to read back: a rendered Event parses back as itself; a
      rendered Function is not taken for an Event and parses back as itself;
      and neither rule starts with EndState. */
  ghost predicate RendersReadBack<E(!new), F(!new)>(g: SubRules<E, F>, rs: Renderers<E, F>) {
    && (forall toks: seq<Token>, p: nat, e: E :: RendersAt(toks, p, rs.event(e)) ==>
          g.event(toks, p) == Matched(e, p + |rs.event(e)|))
    && (forall toks: seq<Token>, p: nat, f: F :: RendersAt(toks, p, rs.func(f)) ==>
          g.event(toks, p).Failed? && g.func(toks, p) == Matched(f, p + |rs.func(f)|))
    && StopsAtEndState(g)
  }

  /** A rendered content, wherever it stands in a stream, is read back by the
      choice as itself, and the choice stops right after it. */
  lemma ContentReadBack<E(!new), F(!new)>(g: SubRules<E, F>, rs: Renderers<E, F>, c: StateContent<E, F>, toks: seq<Token>, p: nat)
    requires RendersReadBack(g, rs)
    requires RendersAt(toks, p, RenderContent(c, rs))
    ensures StateContentAt(g, toks, p) == Matched(c, p + |RenderContent(c, rs)|)
  {
    match c
    case Event(e) =>
    case Function(f) =>
  }

  /** Rendered contents followed by EndState read back as the same contents,
      stopping at the EndState. */
  lemma {:induction false} ContentsRoundTrip<E(!new), F(!new)>(g: SubRules<E, F>, rs: Renderers<E, F>, cs: seq<Node<StateContent<E, F>>>, toks: seq<Token>, p: nat)
    requires ValidSubRules(g) && RendersReadBack(g, rs)
    requires RendersAt(toks, p, RenderContents(cs, rs) + [KeywordToken(KeywordKind.EndState)])
    ensures p <= |toks|
    ensures ContentsFrom(g, toks, p).1 == p + |RenderContents(cs, rs)|
    ensures Values(ContentsFrom(g, toks, p).0) == Values(cs)
    decreases |cs|
  {
    var end := [KeywordToken(KeywordKind.EndState)];
    var body := RenderContents(cs, rs);
    RendersAtAppend(toks, p, body, end);
    if |cs| == 0 {
      assert toks[p + |body| + 0].kind == end[0];
      assert KindAt(toks, p, KeywordToken(KeywordKind.EndState));
      assert StateContentAt(g, toks, p).Failed?;
    } else {
      var head := RenderContent(cs[0].value, rs);
      var tail := RenderContents(cs[1..], rs);
      assert body + end == head + (tail + end);
      RendersAtAppend(toks, p, head, tail + end);
      ContentReadBack(g, rs, cs[0].value, toks, p);
      ContentsRoundTrip(g, rs, cs[1..], toks, p + |head|);
      var rest := ContentsFrom(g, toks, p + |head|).0;
      assert ContentsFrom(g, toks, p).0 == [Node(cs[0].value, SpanBetween(toks, p, p + |head|))] + rest;
      assert Values(cs) == [cs[0].value] + Values(cs[1..]);
    }
  }

  /** The contents a block renders, an absent list rendering as nothing. */
  function ContentsOf<E, F>(s: State<E, F>): seq<Node<StateContent<E, F>>> {
    match s.contents
    case None => []
    case Some(cs) => cs
  }

  /** Where a rendered block stands in a stream, its header is in place and
      its contents, then EndState, follow the name. */
  lemma RenderedHeader<E, F>(s: State<E, F>, rs: Renderers<E, F>, toks: seq<Token>, p: nat)
    requires RendersAt(toks, p, RenderState(s, rs))
    ensures HeaderAt(toks, p)
    ensures AfterAuto(toks, p) == p + (if s.isAuto then 1 else 0)
    ensures toks[AfterAuto(toks, p) + 1].kind == IdentifierToken(s.name.value.name)
    ensures RendersAt(toks, ContentsStart(toks, p), RenderContents(ContentsOf(s), rs) + [KeywordToken(KeywordKind.EndState)])
    ensures ContentsStart(toks, p) + |RenderContents(ContentsOf(s), rs)| + 1 == p + |RenderState(s, rs)|
  {
    var auto: seq<TokenKind> := if s.isAuto then [KeywordToken(KeywordKind.Auto)] else [];
    var header := [KeywordToken(KeywordKind.State), IdentifierToken(s.name.value.name)];
    var rest := RenderContents(ContentsOf(s), rs) + [KeywordToken(KeywordKind.EndState)];
    assert RenderState(s, rs) == auto + (header + rest);
    RendersAtAppend(toks, p, auto, header + rest);
    var q := p + |auto|;
    RendersAtAppend(toks, q, header, rest);
    assert toks[q + 0].kind == header[0] && toks[q + 1].kind == header[1];
    if s.isAuto {
      assert toks[p + 0].kind == auto[0];
    }
  }

  /** A rendered block, wherever it stands in a token stream, parses back to
      the same block up to spans, and the parser stops right after it. A block
      whose contents are an empty list is excluded: it renders like one with
      no contents, and the parser always gives no contents for that. */
  lemma {:induction false} RenderThenParse<E(!new), F(!new)>(s: State<E, F>, g: SubRules<E, F>, rs: Renderers<E, F>, toks: seq<Token>, p: nat)
    requires ValidSubRules(g) && RendersReadBack(g, rs)
    requires s.contents.Some? ==> |s.contents.value| > 0
    requires RendersAt(toks, p, RenderState(s, rs))
    ensures p <= |toks|
    ensures StateAt(g, toks, p).Matched?
    ensures StateAt(g, toks, p).next == p + |RenderState(s, rs)|
    ensures SameModuloSpans(StateAt(g, toks, p).value, s)
  {
    RenderedHeader(s, rs, toks, p);
    var start := ContentsStart(toks, p);
    var body := RenderContents(ContentsOf(s), rs);
    var end := [KeywordToken(KeywordKind.EndState)];
    ContentsRoundTrip(g, rs, ContentsOf(s), toks, start);
    RendersAtAppend(toks, start, body, end);
    assert toks[start + |body| + 0].kind == end[0];
    StateParsesIff(g, toks, p);
    IsAutoIffLeadingAuto(g, toks, p);
    NameIsIdentifierToken(g, toks, p);
    ContentsAndClose(g, toks, p);
  }
}
