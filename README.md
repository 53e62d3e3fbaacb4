# The `State` block parser of a Papyrus compiler, in Dafny

This project models the recursive-descent rule for a Papyrus `State` block,

    <state>         ::= ['Auto'] 'State' <identifier> <state content>* 'EndState'
    <state content> ::= <event> | <function>

together with the parser primitives the rule is built from, and the renderer
(`Display`) that writes a block back out. It proves what the rule promises about
results, errors and the cursor.

The model has two layers:

- **Pure grammar functions** over a token stream and a position. A rule at
  position `p` either matches (`Matched(value, next)`) or fails
  (`Failed(error, stoppedAt)`). The functions are `KeywordAt` (expect_keyword),
  `OptionalAt` (optional), `NodeAt` (parse_node), `StateContentAt`
  (`StateContent::parse`, an ordered choice), `ContentsFrom`
  (parse_node_optional_repeated over contents) and `StateAt` (`State::parse`).
- **An imperative parser**: class `Cursor.Parser` holds an immutable token
  sequence and a mutable `pos`. Its methods are `Peek`, `Checkpoint`,
  `Restore`, `ExpectKeyword`, `Invoke`, `Optional` and `ParseNode`. The grammar
  methods `ParseStateContent`, `ParseStateContents` (a loop) and `ParseState`
  take the parser, as the Rust associated functions take `&mut Parser`. The
  repetition loop receives the content choice as a rule value, wraps it with
  parse_node (`NodeRule`) and calls the cursor's own `Optional` on that until
  it gives no value, as parse_node_optional_repeated does. Every method is proved against a pure
  function. `ExpectKeyword`, `Invoke`, `ParseNode`, `ParseStateContent` and
  `ParseState` return the result, and leave the cursor, that their function
  describes (predicate `Agrees`). `Optional` and `ParseStateContents` equal
  `OptionalAt` and `ContentsFrom` on the value and the cursor. `Peek`,
  `Checkpoint` and `Restore` state the token, position or move they make.

The properties are lemmas about the pure functions. Each is listed below.

`Event`, `Function` and `Identifier` live in files that are not part of this
model. `Event` and `Function` are abstract here: a `SubRules` value supplies
their rules as functions, and their value types are type parameters. A valid
rule (`ValidRule`) consumes at least one token when it succeeds and stays
inside the stream. `Identifier` is a single identifier token, and its node
span is that token's span. `State::new` is the plain constructor
`StateAst.New`. Rendering yields token kinds rather than bytes, through
`RenderContent`, `RenderContents` and `RenderState`.

Files: `lexer.dfy` (tokens and spans), `combinators.dfy` (primitives as
functions), `identifier.dfy`, `parser.dfy` (the cursor class), `state.dfy`
(the `State` rule, its methods and the renderer), `state_properties.dfy` (the
lemmas), `state_scenarios.dfy` (concrete inputs, including the source's unit
test).

The grammar comment above `StateContent::parse` writes the alternatives as
`(<function> | <event>)` (parser/src/ast/state.rs:62-64), and the enum declares
`Function` first. The code tries `Event` before `Function`
(parser/src/ast/state.rs:70-73). The model follows the code: `Event` is tried
first and wins when both could match.

## Model

| member | source | states |
|---|---|---|
| `Cursor.Parser.ExpectKeyword` | parser/src/ast/state.rs:87 | consumes the keyword when it is the current token; otherwise fails naming the keyword and the token found (or end of input), leaving the cursor unmoved |
| `Cursor.Parser.Optional` | parser/src/ast/state.rs:83-85 | gives a value exactly when the rule matched, with the cursor strictly advanced; otherwise gives none and restores the cursor to where it was |
| `Cursor.Parser.ParseNode` | parser/src/ast/state.rs:89 | wraps the rule's value with the span from the first consumed token's start to the last consumed token's end; failures propagate unchanged |
| `Combinators.KeywordAt` | parser/src/ast/state.rs:87 | expect_keyword matches exactly when the current token is the keyword, and then moves one token on; otherwise it fails at the same position, naming the keyword and the token found or end of input |
| `Combinators.OptionalAt` | parser/src/ast/state.rs:83-85 | optional gives a value exactly when the rule matched, with the rule's value and end position; otherwise no value, with the cursor back at the start |
| `Combinators.NodeAt` | parser/src/ast/state.rs:89 | parse_node matches exactly when the rule does, with the rule's value and end position, and a span from the first consumed token's start to the last consumed token's end; a failure is the rule's own failure |
| `Combinators.NodeRule` | parser/src/ast/state.rs:91 | parse_node as a rule value gives NodeAt's result at every position in the stream, and keeps a valid rule valid |
| `StateAst.New` | parser/src/ast/state.rs:18-28 | the block carries exactly the is_auto flag, name and contents it was given |
| `StateAst.StateContentAt` | parser/src/ast/state.rs:65-76 | a content match consumes at least one token and stays in the stream; the choice fails exactly when both Event and Function fail, and then fails labelled "State Contents" at the token found, with the cursor where it started |
| `StateAst.ContentRule` | parser/src/ast/state.rs:65-76 | StateContent::parse as a rule value gives StateContentAt's result everywhere, and is valid when Event and Function are |
| `StateAst.ContentsFrom` | parser/src/ast/state.rs:91 | the repetition stops at a position where neither alternative matches; it never matches more contents than tokens it consumed, so it terminates |
| `StateAst.StateAt` | parser/src/ast/state.rs:81-96 | a parsed block consumes at least one token and stays in the stream; a failure leaves the cursor in bounds |
| `StateAst.ParseStateContent` | parser/src/ast/state.rs:65-76 | the parser method returns the result, and leaves the cursor, that StateContentAt gives |
| `StateAst.ParseStateContents` | parser/src/ast/state.rs:91 | the loop returns no value when nothing matched, otherwise the matched contents in order, and leaves the cursor where the repetition stopped |
| `StateAst.ParseState` | parser/src/ast/state.rs:81-96 | the parser method returns the result, and leaves the cursor, that StateAt gives |
| `StateAst.RenderContent` | parser/src/ast/state.rs:53-60 | a Function content writes exactly what the Function writes, and an Event content exactly what the Event writes |
| `StateAst.RenderContents` | parser/src/ast/state.rs:39 | no contents write nothing |
| `StateAst.RenderContentsAppend` | parser/src/ast/state.rs:39 | contents are written in list order: two lists one after the other render as their renderings one after the other |
| `StateAst.RenderState` | parser/src/ast/state.rs:31-45 | the rendering starts with Auto exactly when is_auto; State and the name come next; EndState comes last |
| `StateProperties.IsAutoIffLeadingAuto` | parser/src/ast/state.rs:83-85 | a parsed block has is_auto set exactly when its first token is Auto |
| `StateProperties.AbsentAutoLeavesCursor` | parser/src/ast/state.rs:83-85 | when Auto is absent, the optional attempt gives none and leaves the cursor where it was |
| `StateProperties.MissingStateKeyword` | parser/src/ast/state.rs:87 | parsing fails naming State, at the token after the optional Auto, if and only if that token is not State |
| `StateProperties.MissingName` | parser/src/ast/state.rs:89 | after State, a token that is not an identifier aborts the block, naming the identifier as expected at that token |
| `StateProperties.NameIsIdentifierToken` | parser/src/ast/state.rs:89 | a parsed block's name is the text of the identifier token after State, with that token's span |
| `StateProperties.ContentsAndClose` | parser/src/ast/state.rs:91-95 | contents are None exactly when no alternative matches after the name; otherwise they are the non-empty list the repetition matched; EndState follows them, and the cursor ends just past it |
| `StateProperties.MissingEndState` | parser/src/ast/state.rs:93 | with the header in place, parsing fails naming EndState at the token after the contents if and only if that token is not EndState |
| `StateProperties.StateParsesIff` | parser/src/ast/state.rs:81-96 | a block parses if and only if the header is present and EndState follows the contents |
| `StateProperties.FirstAlternativeWins` | parser/src/ast/state.rs:67-74 | Event wins whenever it matches; Function is taken only when Event fails; the choice fails, labelled "State Contents" at the current token, exactly when both fail |
| `StateProperties.ContentsAreMaximalChain` | parser/src/ast/state.rs:91 | the contents are consecutive matches in source order, each spanning its own tokens, ending where neither alternative matches |
| `StateProperties.MaximalChainIsContents` | parser/src/ast/state.rs:91 | any such chain of consecutive matches that ends where neither alternative matches is exactly what the repetition returns |
| `StateProperties.RenderedHeader` | parser/src/ast/state.rs:33-37 | where a rendered block stands, its header tokens are in place (Auto iff is_auto, then State and the name), and the rendered contents and EndState follow them |
| `StateProperties.ContentReadBack` | parser/src/ast/state.rs:53-76 | a rendered content, wherever it stands, is read back by the choice as the same content, which stops right after it, given sub-rules that read their own renderings back |
| `StateProperties.ContentsRoundTrip` | parser/src/ast/state.rs:39-41 | rendered contents followed by EndState parse back to the same content values, and the repetition stops at the EndState |
| `StateProperties.RenderThenParse` | parser/src/ast/state.rs:31-45 | a rendered block parses back to an equal block up to spans, anywhere in a stream, with the cursor just past it, given sub-rules that read their own renderings back |
| `StateScenarios.AutoStateWithoutContents` | parser/src/ast/state.rs:105-111 | "Auto State MyState EndState" parses to is_auto true, the name MyState with span 11..18, no contents, and the cursor after EndState |
| `StateScenarios.PlainStateWithoutContents` | parser/src/ast/state.rs:83-85 | "State MyState EndState" parses to is_auto false, the name MyState, and no contents |
| `StateScenarios.MissingEndStateAtEndOfInput` | parser/src/ast/state.rs:93 | "State MyState" fails naming EndState, with end of input found |
| `StateScenarios.MissingStateAtFoo` | parser/src/ast/state.rs:87 | "Foo" fails naming State, with the token Foo found |
| `StateScenarios.AmbiguousContentIsEvent` | parser/src/ast/state.rs:70-73 | when both alternatives accept the same token, the content is an Event |
| `StateScenarios.AmbiguousContentsInState` | parser/src/ast/state.rs:91 | two ambiguous contents in a block become two Events in source order, each with its own span |
| `StateScenarios.NeitherContentMatches` | parser/src/ast/state.rs:67-74 | when neither alternative matches, the choice fails labelled "State Contents" at the token found |
| `StateScenarios.ParseAutoState` | parser/src/ast/state.rs:105-111 | the source's unit test, run through the parser methods, gives the expected block and leaves the cursor after EndState |

## Left out

- The lexer. Tokens are given as a sequence with kinds and byte spans. Only the keywords Auto, State and EndState are distinguished.
- Identifier, Event and Function: their files are not part of this model. Identifier is one identifier token. Event and Function are abstract rules that consume at least one token when they succeed.
- `display_optional_nodes` is not part of this model. Contents render one after the other. The separators it writes are whitespace, which the model drops.
- Display's bytes, whitespace and `Formatter` errors. Rendering gives token kinds.
- Diagnostic text. An error records what was expected (a keyword, an identifier, or the "State Contents" choice) and what was found. The list of alternatives that `choose_optional!` may print is not modelled.
- The parser's internal state beyond the token position. Sub-rules can change only the cursor.
- StateAst.StateAt: its own contract states only progress and bounds. Its full behaviour is stated by the StateProperties lemmas.
- StateProperties.RenderThenParse: the Event and Function values are span-free abstractions of the real ones. The read-back hypotheses ask a sub-rule to give back exactly the value it rendered. A real Event or Function holds nested nodes with spans, so it meets this only once those spans are dropped. Comparison of nested values up to spans is not modelled.
- StateProperties.RenderThenParse: equality holds up to spans, because rendering changes layout and so byte offsets. It assumes that Event and Function read their own renderings back, that a rendered Function is not taken for an Event, and that neither rule starts with EndState. It excludes contents given as `Some` of an empty list: `State::new` accepts that value, it renders like no contents, and the parser always returns None for it.
