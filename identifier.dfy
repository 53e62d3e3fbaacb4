/** The identifier rule, reduced to what the State rule relies on: one
    identifier token, whose text becomes the name. */
module Identifiers {
  import opened Lexer
  import opened Combinators

  datatype Identifier = Identifier(name: string)

  function IdentifierAt(toks: seq<Token>, p: nat): (r: RuleResult<Identifier>)
    ensures r.Matched? <==> p < |toks| && toks[p].kind.IdentifierToken?
    ensures r.Matched? ==> r == Matched(Identifier(toks[p].kind.text), p + 1)
    ensures r.Failed? ==> r == Failed(ParseError(ExpectedIdentifier, PeekAt(toks, p)), p)
  {
    if p < |toks| && toks[p].kind.IdentifierToken? then Matched(Identifier(toks[p].kind.text), p + 1)
    else Failed(ParseError(ExpectedIdentifier, PeekAt(toks, p)), p)
  }

  function IdentifierRule(): (rule: Rule<Identifier>)
    ensures ValidRule(rule)
  {
    (toks: seq<Token>, p: nat) => IdentifierAt(toks, p)
  }
}
