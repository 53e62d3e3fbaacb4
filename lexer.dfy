/** The token stream the parser reads: what the lexer hands over, reduced to
    the three keywords the State rule uses. */
module Lexer {

  /** Half-open byte range [start, end) into the source text. */
  datatype Span = Span(start: nat, end: nat)

  /** Keyword kinds. Only Auto, State and EndState matter to the State rule;
      every other keyword of the language is some OtherKeyword. */
  datatype KeywordKind = Auto | State | EndState | OtherKeyword(code: nat)

  datatype TokenKind =
    | KeywordToken(keyword: KeywordKind)
    | IdentifierToken(text: string)
    | OtherToken(code: nat)

  /** A token as lexed: its kind and the bytes it was read from. */
  datatype Token = Token(kind: TokenKind, span: Span)

  /** The token at position p has kind k. */
  predicate KindAt(toks: seq<Token>, p: nat, k: TokenKind) {
    p < |toks| && toks[p].kind == k
  }

  /** The tokens from position p on begin with the kinds ks (spans are free). */
  predicate RendersAt(toks: seq<Token>, p: nat, ks: seq<TokenKind>) {
    p + |ks| <= |toks| && forall i :: 0 <= i < |ks| ==> toks[p + i].kind == ks[i]
  }

  /** A run of kinds at p splits into its two halves. */
  lemma RendersAtAppend(toks: seq<Token>, p: nat, a: seq<TokenKind>, b: seq<TokenKind>)
    ensures RendersAt(toks, p, a + b) <==> RendersAt(toks, p, a) && RendersAt(toks, p + |a|, b)
  {
    if RendersAt(toks, p, a) && RendersAt(toks, p + |a|, b) {
      forall i | 0 <= i < |a + b| ensures toks[p + i].kind == (a + b)[i] {
        if i >= |a| {
          assert toks[(p + |a|) + (i - |a|)].kind == b[i - |a|];
        }
      }
    }
    if RendersAt(toks, p, a + b) {
      forall i | 0 <= i < |a| ensures toks[p + i].kind == a[i] {
        assert (a + b)[i] == a[i];
      }
      forall i | 0 <= i < |b| ensures toks[p + |a| + i].kind == b[i] {
        assert toks[p + (|a| + i)].kind == (a + b)[|a| + i];
      }
    }
  }
}
