/** The parser: a cursor over an immutable token stream. The position is the
    only thing any parse changes; checkpoint and restore give backtracking. */
module Cursor {
  import opened Lexer
  import opened Combinators

  class Parser {
    const tokens: seq<Token>
    var pos: nat

    ghost predicate Valid()
      reads this
    {
      pos <= |tokens|
    }

    constructor (tokens: seq<Token>)
      ensures Valid() && this.tokens == tokens && pos == 0
    {
      this.tokens := tokens;
      pos := 0;
    }

    /** Look at the current token without consuming it. */
    method Peek() returns (f: Found)
      requires Valid()
      ensures f.FoundToken? <==> pos < |tokens|
      ensures f.FoundToken? ==> f.token == tokens[pos]
    {
      f := if pos < |tokens| then FoundToken(tokens[pos]) else EndOfInput;
    }

    method Checkpoint() returns (c: nat)
      requires Valid()
      ensures c == pos
    {
      c := pos;
    }

    /** Move back to an earlier checkpoint; never forward. */
    method Restore(c: nat)
      requires Valid() && c <= pos
      modifies this`pos
      ensures Valid() && pos == c
    {
      pos := c;
    }

    /** expect_keyword: consume k if it is the current token; otherwise fail
        naming k and the token found, without consuming anything. */
    method ExpectKeyword(k: KeywordKind) returns (r: Result<()>)
      requires Valid()
      modifies this`pos
      ensures Valid()
      ensures Agrees(r, pos, KeywordAt(tokens, old(pos), k))
      ensures r.Err? ==> pos == old(pos)
    {
      if pos < |tokens| && tokens[pos].kind == KeywordToken(k) {
        pos := pos + 1;
        r := Ok(());
      } else {
        var found := Peek();
        r := Err(ParseError(ExpectedKeyword(k), found));
      }
    }

    /** Run a rule from the current position, leaving the cursor where the
        rule leaves it. */
    method Invoke<T>(rule: Rule<T>) returns (r: Result<T>)
      requires Valid() && ValidRule(rule)
      modifies this`pos
      ensures Valid() && old(pos) <= pos
      ensures Agrees(r, pos, rule(tokens, old(pos)))
    {
      assert Within(rule(tokens, pos), pos, |tokens|);
      match rule(tokens, pos)
      case Matched(v, q) =>
        pos := q;
        r := Ok(v);
      case Failed(e, s) =>
        pos := s;
        r := Err(e);
    }

    /** optional: try the rule; on failure restore the cursor and report no
        value, which is not an error. */
    method Optional<T>(rule: Rule<T>) returns (r: Option<T>)
      requires Valid() && ValidRule(rule)
      modifies this`pos
      ensures Valid()
      ensures (r, pos) == OptionalAt(rule, tokens, old(pos))
      ensures r.None? ==> pos == old(pos)
      ensures r.Some? ==> old(pos) < pos
    {
      var checkpoint := Checkpoint();
      var attempt := Invoke(rule);
      if attempt.Ok? {
        r := Some(attempt.value);
      } else {
        Restore(checkpoint);
        r := None;
      }
    }

    /** parse_node: run the rule and record the span of what it consumed. */
    method ParseNode<T>(rule: Rule<T>) returns (r: Result<Node<T>>)
      requires Valid() && ValidRule(rule)
      modifies this`pos
      ensures Valid()
      ensures Agrees(r, pos, NodeAt(rule, tokens, old(pos)))
    {
      var start := Checkpoint();
      var parsed := Invoke(rule);
      if parsed.Err? {
        return Err(parsed.error);
      }
      r := Ok(Node(parsed.value, SpanBetween(tokens, start, pos)));
    }
  }
}
