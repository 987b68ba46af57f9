# Style expressions, modelled in Dafny

JLine's style expressions turn a string of literal text mixed with
`@{<spec> <value>}` directives into attributed text. Every displayed character
is paired with a style. `StyleExpression.evaluate` does the scanning. The
`StyleResolver` it is built with turns a spec into a style. A spec is a
comma-separated list of attribute names, `fg:`/`bg:` colours and `.name` or
`.name:-default` references into a named-style registry. The resolver is bound
to one group of that registry, `"test"` in the test's set-up.

The project models that evaluator and resolver as pure functions. It proves each
assertion of `StyleExpressionTest` over the model, and it proves general
properties those assertions are instances of.

- `optional.dfy`, `strings.dfy`: an option type and the string scanning helpers
  (first index of a character, of whitespace, of a two-character pair; decimal
  numerals).
- `styles.dfy` (`Styles`): attributes, colours and `Style`. `Compose` lays an
  inner directive's style over the ambient one: attributes accumulate, and a
  colour the inner style sets wins.
- `style_resolver.dfy` (`StyleResolver`): the resolver as a read-only registry
  map plus a group. The spec is folded token by token, left to right, from the
  default style. Unknown tokens change nothing.
- `style_expression.dfy` (`StyleExpression`): the evaluator.
  - `Match` finds the `}` that closes a directive. It counts nested `@{` and
    skips `\}`.
  - `SplitBody` splits a body at its first whitespace.
  - `Eval` and `Directive` evaluate the input, recursing into a directive's value
    with the composed style. Inside a value, `\}` is displayed as `}`.
  - A directive with no value is displayed as written, in the ambient style.
- `templates.dfy` (`Templates`): an independent reference semantics.
  - A template is a tree of literal text and styled pieces. Well-formed literal
    text holds no `@{` and does not end in `@` or `\`, so that nothing after it
    can complete an opening `@{` or an escape `\}`. Inside it, `@` and `\` are
    otherwise free; inside a value, `}` is written escaped as `\}`. The rule
    holds for the last piece too, so inputs such as `foo@` or
    `@{bold user@}` are not rendered templates and the main theorem says
    nothing about them. `foo@` is covered by `PlainInput` instead.
  - `Render` prints it in the directive syntax. `Denote` says directly which
    style each character gets.
  - The main theorem, `EvaluateRendered`: evaluating a rendered template yields
    exactly its denotation.
- `expression_tests.dfy` (`ExpressionTests`): the eleven test cases. Nine of
  the test inputs are rendered templates, and those tests follow from the main
  theorem and from what their specs resolve to. `EvaluateMissingValue` follows
  from `NoValueIsLiteral`, and `EvaluateMissingTokens` from `PlainInput`.

Outputs are compared as flat sequences of `(char, Style)` pairs, which is how
`AttributedString` equality behaves.

## Model

| member | source | states |
|---|---|---|
| ExpressionTests.EvaluateWithPrefixAndSuffix | style/src/test/java/org/jline/style/StyleExpressionTest.java:33-36 | `foo @{bold bar} baz` displays `foo ` in the default style, `bar` in bold, then ` baz` in the default style, for every registry |
| ExpressionTests.EvaluateWithPrefix | style/src/test/java/org/jline/style/StyleExpressionTest.java:40-43 | a directive at the end of the input: `foo ` default, then `bar` bold, nothing after |
| ExpressionTests.EvaluateWithSuffix | style/src/test/java/org/jline/style/StyleExpressionTest.java:47-50 | a directive at the start of the input: `foo` bold, then ` bar` default |
| ExpressionTests.EvaluateSingle | style/src/test/java/org/jline/style/StyleExpressionTest.java:54-57 | `@{bold foo}` is `foo` in bold and nothing else |
| ExpressionTests.EvaluateWithDefault | style/src/test/java/org/jline/style/StyleExpressionTest.java:61-66 | with `foo` not registered in group `test`, `.foo:-bold` falls back to its default and `foo` is bold |
| ExpressionTests.EvaluateMultipleReplacements | style/src/test/java/org/jline/style/StyleExpressionTest.java:70-73 | three sibling directives each get only their own style (bold, red foreground, underline); the two spaces between them stay default |
| ExpressionTests.EvaluateRecursiveReplacements | style/src/test/java/org/jline/style/StyleExpressionTest.java:77-80 | in a nested directive the outer text is underline only, and the inner value keeps the underline and adds a cyan foreground |
| ExpressionTests.EvaluateMissingValue | style/src/test/java/org/jline/style/StyleExpressionTest.java:84-87 | `@{bold}` has no value, so it is displayed literally as `@{bold}` in the default style |
| ExpressionTests.EvaluateMissingTokens | style/src/test/java/org/jline/style/StyleExpressionTest.java:91-94 | `foo` has no directive, so it is displayed as written in the default style |
| ExpressionTests.EvaluatePlaceholderValue | style/src/test/java/org/jline/style/StyleExpressionTest.java:98-101 | `\}` inside a value does not close the directive and is displayed as `}`: `${foo}` comes out bold with a cyan foreground |
| ExpressionTests.EvaluateWithStyleReference | style/src/test/java/org/jline/style/StyleExpressionTest.java:105-108 | with `very-red` registered in group `test` as `bold,fg:red`, `.very-red` applies that spec; the value `foo bar` keeps its inner space |
| ExpressionTests.ResolvesEmptyNameOrBold | style/src/test/java/org/jline/style/StyleExpressionTest.java:64-66 | the empty reference name is looked up like any other, so with it unregistered `.:-bold` falls back to bold |
| ExpressionTests.ResolvesVeryRed | style/src/test/java/org/jline/style/StyleExpressionTest.java:106-107 | a registered reference resolves to the style of its registered spec, here bold with a red foreground |
| ExpressionTests.ResolvesFooOrBold | style/src/test/java/org/jline/style/StyleExpressionTest.java:64-66 | an unregistered reference with a default resolves to the default spec's style, here bold |
| Templates.EvaluateRendered | style/src/test/java/org/jline/style/StyleExpressionTest.java:32-109 | for every registry and every well-formed template, evaluating the rendered template gives each character the ambient style composed with the specs of every directive around it, outermost first |
| Templates.EvaluatedText | style/src/test/java/org/jline/style/StyleExpressionTest.java:32-109 | no character is lost or duplicated: the displayed characters are the template's text with the markup removed and the escapes resolved |
| Templates.EvaluateSiblings | style/src/test/java/org/jline/style/StyleExpressionTest.java:70-73 | input that follows a complete directive is evaluated as if it stood alone, so sibling directives do not affect each other |
| Templates.EvalRendered | style/src/test/java/org/jline/style/StyleExpressionTest.java:77-80 | in any ambient style, and at the top level or inside a value, a rendered template followed by any input evaluates to its denotation followed by that input's evaluation |
| Templates.MatchSkipsRendered | style/src/test/java/org/jline/style/StyleExpressionTest.java:77-80 | the search for a closing brace passes over a whole rendered value: its nested directives all close again and its escaped braces are skipped |
| Templates.EvalEscaped | style/src/test/java/org/jline/style/StyleExpressionTest.java:98-101 | escaped literal text inside a value is displayed unescaped, every character in the ambient style |
| Templates.DenoteChars | style/src/test/java/org/jline/style/StyleExpressionTest.java:77-80 | the characters of a template's meaning are its plain text, whatever the styles |
| StyleExpression.PlainInput | style/src/test/java/org/jline/style/StyleExpressionTest.java:91-94 | any input without `@{` is displayed exactly as written, every character in the ambient style |
| StyleExpression.NoValueIsLiteral | style/src/test/java/org/jline/style/StyleExpressionTest.java:84-87 | a closed directive whose body has no value (no whitespace, or nothing before the first whitespace) is displayed as written in the ambient style, and scanning resumes after its `}` |
| StyleExpression.NoCloseNoMatch | style/src/test/java/org/jline/style/StyleExpressionTest.java:84-87 | at any nesting depth, the search for a directive's closing brace finds none when no `}` follows |
| StyleExpression.NoCloseIsLiteral | style/src/test/java/org/jline/style/StyleExpressionTest.java:91-94 | input with no `}` at all, at the top level or inside a value, is displayed exactly as written in the ambient style: every `@{` in it is unclosed and stays literal text |
| StyleExpression.EvalExtends | style/src/test/java/org/jline/style/StyleExpressionTest.java:77-80 | every displayed character keeps the ambient style's attributes, and keeps a colour the ambient style sets: nesting only adds |
| StyleExpression.DirectiveExtends | style/src/test/java/org/jline/style/StyleExpressionTest.java:77-80 | the same for the characters one directive displays |
| StyleExpression.TextIgnoresStyles | style/src/test/java/org/jline/style/StyleExpressionTest.java:29 | which characters are displayed depends neither on the registry and group the resolver is built with nor on the ambient style |
| StyleExpression.MatchIgnoresSuffix | style/src/test/java/org/jline/style/StyleExpressionTest.java:70-73 | a directive's closing brace is found from the text up to it alone: appending more input never moves it |
| StyleExpression.SplitBody | style/src/test/java/org/jline/style/StyleExpressionTest.java:105-108 | a body splits at its first whitespace into a non-empty spec without whitespace and the whole rest as value; there is no split exactly when the body has no whitespace or starts with one |
| StyleResolver.ResolveReference | style/src/test/java/org/jline/style/StyleExpressionTest.java:105-108 | a registered reference resolves to its registered spec (resolved with that name withdrawn); an unregistered one resolves to its default spec when it has one and to the default style when it has none; this holds for every name without a comma or `:-`, the empty name included, and for a default without a comma |
| StyleResolver.ReferenceDefaultEndsAtComma | style/src/test/java/org/jline/style/StyleExpressionTest.java:61-66 | a reference's default spec ends at the next comma: the tokens after it resolve as the rest of the enclosing spec, composed after the reference, whether or not the name is registered |
| StyleResolver.ResolveConcat | style/src/test/java/org/jline/style/StyleExpressionTest.java:98-101 | a comma-joined spec resolves to the composition of its two parts: later tokens add attributes and override colours |
| StyleResolver.ApplyIsCompose | style/src/test/java/org/jline/style/StyleExpressionTest.java:98-101 | folding a spec into an accumulated style equals composing the accumulated style with the spec resolved on its own |
| StyleResolver.ResolveAttribute | style/src/test/java/org/jline/style/StyleExpressionTest.java:54-57 | an attribute name on its own switches on exactly that attribute |
| StyleResolver.ResolveColor | style/src/test/java/org/jline/style/StyleExpressionTest.java:70-73 | `fg:<colour>` and `bg:<colour>` on their own set exactly that colour and nothing else |
| StyleResolver.ResolveUnknownAttribute | style/src/test/java/org/jline/style/StyleExpressionTest.java:54-57 | a token that is no attribute name, no colour and no reference resolves to the default style: it is ignored |
| StyleResolver.ResolveUnknownColor | style/src/test/java/org/jline/style/StyleExpressionTest.java:70-73 | a `<mode>:<colour>` token whose mode is neither `fg` nor `bg`, or whose colour is not one the resolver knows, resolves to the default style |
| StyleResolver.IgnoredTokenKeepsRest | style/src/test/java/org/jline/style/StyleExpressionTest.java:98-101 | a token that resolves to the default style, placed before or after the rest of a comma-separated spec, leaves the rest's style unchanged |
| Styles.ComposeAssociative | style/src/test/java/org/jline/style/StyleExpressionTest.java:77-80 | composing directive styles is associative, so a chain of nested directives has one composed style |
| Styles.ComposeDefault | style/src/test/java/org/jline/style/StyleExpressionTest.java:54-57 | the default style is neutral on both sides of composition, so a top-level directive shows exactly its resolved style |
| Styles.ParseAttr | style/src/test/java/org/jline/style/StyleExpressionTest.java:54-57 | a token is read as an attribute exactly when it is that attribute's name |
| Styles.ColorNameRoundTrip | style/src/test/java/org/jline/style/StyleExpressionTest.java:70-73 | every colour, named or a palette index below 256, is read back from its own spelling |

## Left out

- The implementation classes `StyleExpression`, `StyleResolver`, `StyleSource`,
  `AttributedString` and `AttributedStyle` are not part of this model. The model
  satisfies every assertion of the test. Where the test leaves behaviour open,
  it makes these choices:
  - at the top level, `\}` is copied as the two characters it is;
  - an `@{` that is never closed is displayed literally, and scanning continues
    right after it (`NoCloseIsLiteral`);
  - a body that starts with whitespace (an empty spec) is displayed as written,
    like a body with no value;
  - a directive with no value is displayed as written in the style around it:
    the default style at the top level, and the style of the enclosing value
    when it is nested, rather than always the default style;
  - attribute and colour names are matched exactly, with no case folding and no
    trimming of spaces around tokens;
  - a spec is split at its commas before any reference in it is read, so the
    default of `.name:-<default>` ends at the next comma. In
    `.foo:-bold,fg:red` the default is `bold` alone, and `fg:red` applies
    whether or not `foo` is registered (`ReferenceDefaultEndsAtComma`);
  - whitespace, where a body splits into spec and value, is exactly space, tab,
    line feed and carriage return. Form feed, vertical tab and other Unicode
    spaces do not split a body.
- `toAnsi()` and the `println` calls (line 35 and the like): rendering to terminal
  escape codes and console output are not part of evaluation.
- `source.set` (line 106) and the set-up inherited from `StyleTestSupport`
  (line 28): the registry is a given read-only map, and each test states what it
  needs of it.
- The colour tables and terminal capabilities: colours are the eight named ones
  plus a 256-entry palette index. Bright colours, RGB colours and other colour
  modes are not modelled.
- Further spec tokens the real resolver may accept (such as a `default` token)
  are not modelled. Any unrecognised token changes nothing.
- The segment structure built by `AttributedStringBuilder`: results are flat
  `(char, Style)` sequences.
- Reference cycles: while a registered name's spec is resolved, that name is
  withdrawn from the registry. A cycle therefore ends as an unregistered name
  instead of looping.
- A cap on nesting depth: evaluation here is total and terminates for every
  input, so no depth error is modelled.
- Resolving the same spec twice with the same registry gives the same style.
  This is immediate for pure functions, so no lemma states it.
