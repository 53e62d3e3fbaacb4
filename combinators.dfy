/** The parsing primitives the State rule is built on, as pure functions of a
    token stream and a cursor position. A rule applied at position p either
    matches, giving a value and the position after it, or fails, giving the
    error and the position where it left the cursor. */
module Combinators {
  import opened Lexer

  datatype Option<+T> = None | Some(value: T)

  /** What a failed parse expected. */
  datatype Expected =
    | ExpectedKeyword(keyword: KeywordKind)
    | ExpectedIdentifier
    | ExpectedOneOf(alternatives: string)
    | ExpectedOther(description: string)

  /** What a failed parse found instead: a token, or the end of the stream. */
  datatype Found = FoundToken(token: Token) | EndOfInput

  datatype ParseError = ParseError(expected: Expected, found: Found)

  /** The outcome of a parse as the grammar rules return it. */
  datatype Result<+T> = Ok(value: T) | Err(error: ParseError)

  datatype RuleResult<+T> = Matched(value: T, next: nat) | Failed(error: ParseError, stoppedAt: nat)

  /** A grammar rule: what it does when started at a position of a stream. */
  type Rule<T> = (seq<Token>, nat) -> RuleResult<T>

  /** A parsed value with the byte range it was parsed from. */
  datatype Node<+T> = Node(value: T, span: Span)

  /** A rule started at p in a stream of n tokens that, on success, consumed at
      least one token and, either way, left the cursor between p and n. */
  predicate Within<T>(r: RuleResult<T>, p: nat, n: nat) {
    match r
    case Matched(_, q) => p < q <= n
    case Failed(_, s) => p <= s <= n
  }

  /** Every rule used under a repetition must make progress on success. */
  ghost predicate ValidRule<T>(rule: Rule<T>) {
    forall toks: seq<Token>, p: nat :: p <= |toks| ==> Within(rule(toks, p), p, |toks|)
  }

  /** The result a parser method returned, with the cursor it left, is the one
      the rule describes. */
  ghost predicate Agrees<T>(r: Result<T>, pos: nat, rr: RuleResult<T>) {
    match rr
    case Matched(v, q) => r == Ok(v) && pos == q
    case Failed(e, s) => r == Err(e) && pos == s
  }

  /** Lookahead: the token at p, or end of input past the last token. */
  function PeekAt(toks: seq<Token>, p: nat): (f: Found)
    ensures f.FoundToken? <==> p < |toks|
    ensures f.FoundToken? ==> f.token == toks[p]
  {
    if p < |toks| then FoundToken(toks[p]) else EndOfInput
  }

  /** The byte range covered by the tokens [a, b). */
  function SpanBetween(toks: seq<Token>, a: nat, b: nat): Span
    requires a < b <= |toks|
  {
    Span(toks[a].span.start, toks[b - 1].span.end)
  }

  /** expect_keyword: consume the keyword k, or fail without consuming. */
  function KeywordAt(toks: seq<Token>, p: nat, k: KeywordKind): (r: RuleResult<()>)
    ensures r.Matched? <==> KindAt(toks, p, KeywordToken(k))
    ensures r.Matched? ==> r.next == p + 1
    ensures r.Failed? ==> r.stoppedAt == p && r.error == ParseError(ExpectedKeyword(k), PeekAt(toks, p))
  {
    if KindAt(toks, p, KeywordToken(k)) then Matched((), p + 1)
    else Failed(ParseError(ExpectedKeyword(k), PeekAt(toks, p)), p)
  }

  /** expect_keyword as a rule value, for use under optional. */
  function KeywordRule(k: KeywordKind): (rule: Rule<()>)
    ensures ValidRule(rule)
  {
    (toks: seq<Token>, p: nat) => KeywordAt(toks, p, k)
  }

  /** optional: on success the value and the position after it; on failure no
      value and the cursor back where it started. */
  function OptionalAt<T>(rule: Rule<T>, toks: seq<Token>, p: nat): (r: (Option<T>, nat))
    ensures r.0.Some? <==> rule(toks, p).Matched?
    ensures r.0.Some? ==> r.0.value == rule(toks, p).value && r.1 == rule(toks, p).next
    ensures r.0.None? ==> r.1 == p
  {
    match rule(toks, p)
    case Matched(v, q) => (Some(v), q)
    case Failed(_, _) => (None, p)
  }

  /** parse_node: run the rule and wrap its value with the span of the tokens
      it consumed. */
  function NodeAt<T>(rule: Rule<T>, toks: seq<Token>, p: nat): (r: RuleResult<Node<T>>)
    requires p <= |toks| && Within(rule(toks, p), p, |toks|)
    ensures r.Matched? <==> rule(toks, p).Matched?
    ensures r.Matched? ==> r.value.value == rule(toks, p).value && r.next == rule(toks, p).next
    ensures r.Matched? ==> r.value.span == Span(toks[p].span.start, toks[r.next - 1].span.end)
    ensures r.Failed? ==> r == Failed(rule(toks, p).error, rule(toks, p).stoppedAt)
  {
    match rule(toks, p)
    case Matched(v, q) => Matched(Node(v, SpanBetween(toks, p, q)), q)
    case Failed(e, s) => Failed(e, s)
  }

  /** parse_node as a rule value, so that optional can be applied to it. A
      cursor never stands past the end of the stream; such a start fails. */
  function NodeRule<T>(rule: Rule<T>): (r: Rule<Node<T>>)
    requires ValidRule(rule)
    ensures ValidRule(r)
    ensures forall toks: seq<Token>, p: nat :: p <= |toks| ==> r(toks, p) == NodeAt(rule, toks, p)
  {
    (toks: seq<Token>, p: nat) =>
      if p <= |toks| then NodeAt(rule, toks, p)
      else Failed(ParseError(ExpectedOther("a position in the stream"), EndOfInput), p)
  }
}
