/** The style-expression evaluator: literal text interleaved with directives
    `@{<spec> <value>}` becomes a run of characters, each paired with the style
    it is displayed in. */
module StyleExpression {
  import opened Optional
  import opened Strings
  import opened Styles
  import opened StyleResolver

  /** Attributed text, compared character by character: how the text was cut
      into segments does not matter. */
  type StyledText = seq<(char, Style)>

  /** `text`, every character in `style`. */
  function Paint(text: string, style: Style): (r: StyledText)
    ensures |r| == |text|
    ensures forall k :: 0 <= k < |r| ==> r[k] == (text[k], style)
  {
    seq(|text|, k requires 0 <= k < |text| => (text[k], style))
  }

  /** The characters of attributed text, without their styles. */
  function Chars(t: StyledText): (r: string)
    ensures |r| == |t|
    ensures forall k :: 0 <= k < |r| ==> r[k] == t[k].0
  {
    seq(|t|, k requires 0 <= k < |t| => t[k].0)
  }

  /** `@{` starts a directive. */
  predicate OpensDirective(s: string) {
    PairAt(s, 0, '@', '{')
  }

  /** `\}` is a closing brace that neither closes a directive nor is read as markup. */
  predicate IsEscapedClose(s: string) {
    PairAt(s, 0, '\\', '}')
  }

  /** Finds the `}` that closes a directive whose body starts at `t`, while
      `depth` directives are open: a nested `@{` opens one more, a `}` closes
      one, and `\}` is skipped. None when the directive is never closed. */
  function Match(t: string, depth: nat): (r: Option<nat>)
    requires depth >= 1
    ensures r.Some? ==> r.value < |t| && t[r.value] == '}'
    decreases |t|
  {
    if |t| == 0 then None
    else if IsEscapedClose(t) then Shift(Match(t[2..], depth), 2)
    else if OpensDirective(t) then Shift(Match(t[2..], depth + 1), 2)
    else if t[0] == '}' then
      if depth == 1 then Some(0) else Shift(Match(t[1..], depth - 1), 1)
    else Shift(Match(t[1..], depth), 1)
  }

  function Shift(r: Option<nat>, n: nat): (q: Option<nat>)
    ensures q.None? <==> r.None?
    ensures r.Some? ==> q.value == r.value + n
  {
    match r
    case None => None
    case Some(i) => Some(i + n)
  }

  /** One step of the scan for a closing brace: `\}` and `@{` take two
      characters, anything else one. */
  lemma MatchTwoStep(t: string, depth: nat)
    requires depth >= 1 && (IsEscapedClose(t) || OpensDirective(t))
    ensures Match(t, depth) == Shift(Match(t[2..], if IsEscapedClose(t) then depth else depth + 1), 2)
  {
  }

  lemma MatchOneStep(t: string, depth: nat)
    requires depth >= 1 && |t| > 0 && !IsEscapedClose(t) && !OpensDirective(t)
    requires t[0] != '}' || depth > 1
    ensures Match(t, depth) == Shift(Match(t[1..], if t[0] == '}' then depth - 1 else depth), 1)
  {
  }

  lemma ShiftShift(r: Option<nat>, a: nat, b: nat)
    ensures Shift(Shift(r, a), b) == Shift(r, a + b)
    ensures Shift(r, 0) == r
  {
  }

  /** Splits a directive body at its first whitespace into spec and value. None
      when there is no whitespace or the spec before it is empty: such a
      directive has no spec or no value and is not evaluated. */
  function SplitBody(body: string): (r: Option<(string, string)>)
    ensures r.Some? ==> |r.value.0| > 0 && |r.value.0| < |body| && IsWhitespace(body[|r.value.0|])
                        && body == r.value.0 + [body[|r.value.0|]] + r.value.1
                        && forall k :: 0 <= k < |r.value.0| ==> !IsWhitespace(r.value.0[k])
    ensures r.None? <==> (forall k :: 0 <= k < |body| ==> !IsWhitespace(body[k]))
                         || (|body| > 0 && IsWhitespace(body[0]))
  {
    match IndexOfWhitespace(body)
    case None => None
    case Some(i) =>
      if i == 0 then None
      else
        assert body == body[..i] + [body[i]] + body[i + 1..];
        Some((body[..i], body[i + 1..]))
  }

  /** Evaluates `s` in the ambient style. `nested` is true inside a directive's
      value, where `\}` stands for `}`; at the top level text is copied as is. */
  function Eval(res: Resolver, s: string, ambient: Style, nested: bool): (r: StyledText)
    ensures |r| <= |s|
    decreases |s|, 0
  {
    if |s| == 0 then []
    else if nested && IsEscapedClose(s) then [('}', ambient)] + Eval(res, s[2..], ambient, nested)
    else if OpensDirective(s) then
      match Match(s[2..], 1)
      case None => Paint("@{", ambient) + Eval(res, s[2..], ambient, nested)
      case Some(j) =>
        Directive(res, s[2..2 + j], ambient) + Eval(res, s[3 + j..], ambient, nested)
    else [(s[0], ambient)] + Eval(res, s[1..], ambient, nested)
  }

  /** One directive with body `body`: its value is evaluated in the ambient
      style composed with the resolved spec; a directive with no spec or no
      value is emitted as written. */
  function Directive(res: Resolver, body: string, ambient: Style): (r: StyledText)
    ensures |r| <= |body| + 3
    decreases |body|, 1
  {
    match SplitBody(body)
    case None => Paint("@{" + body + "}", ambient)
    case Some((spec, value)) => Eval(res, value, Compose(ambient, Resolve(res, spec)), true)
  }

  /** `StyleExpression.evaluate`: the whole input, starting from the default style. */
  function Evaluate(res: Resolver, s: string): StyledText {
    Eval(res, s, Default, false)
  }

  /** One step of the scan over an ordinary character. */
  lemma EvalCharStep(res: Resolver, s: string, ambient: Style, nested: bool)
    requires |s| > 0 && !(nested && IsEscapedClose(s)) && !OpensDirective(s)
    ensures Eval(res, s, ambient, nested) == [(s[0], ambient)] + Eval(res, s[1..], ambient, nested)
  {
  }

  /** One step of the scan over `\}` inside a value. */
  lemma EvalEscapeStep(res: Resolver, s: string, ambient: Style)
    requires IsEscapedClose(s)
    ensures Eval(res, s, ambient, true) == [('}', ambient)] + Eval(res, s[2..], ambient, true)
  {
  }

  /** One step of the scan over a closed directive. */
  lemma EvalDirectiveStep(res: Resolver, s: string, ambient: Style, nested: bool, j: nat)
    requires OpensDirective(s) && !(nested && IsEscapedClose(s)) && Match(s[2..], 1) == Some(j)
    ensures 3 + j <= |s|
    ensures Eval(res, s, ambient, nested)
            == Directive(res, s[2..2 + j], ambient) + Eval(res, s[3 + j..], ambient, nested)
  {
  }

  /** One step of the scan over an `@{` that is never closed. */
  lemma EvalUnclosedStep(res: Resolver, s: string, ambient: Style, nested: bool)
    requires OpensDirective(s) && Match(s[2..], 1).None?
    ensures Eval(res, s, ambient, nested) == Paint("@{", ambient) + Eval(res, s[2..], ambient, nested)
  {
  }

  /** A directive with a spec and a value is its value, evaluated in the composed style. */
  lemma DirectiveValueStep(res: Resolver, body: string, spec: string, value: string, ambient: Style)
    requires SplitBody(body) == Some((spec, value))
    ensures Directive(res, body, ambient) == Eval(res, value, Compose(ambient, Resolve(res, spec)), true)
  {
  }

  lemma PaintCons(text: string, style: Style)
    requires |text| > 0
    ensures Paint(text, style) == [(text[0], style)] + Paint(text[1..], style)
  {
  }

  lemma CharsConcat(x: StyledText, y: StyledText)
    ensures Chars(x + y) == Chars(x) + Chars(y)
  {
  }

  /** Input without `@{` is displayed as written, every character in the
      ambient style (the default style at the top level). */
  lemma {:induction false} PlainInput(res: Resolver, s: string, ambient: Style)
    requires forall k :: 0 <= k < |s| ==> !PairAt(s, k, '@', '{')
    ensures Eval(res, s, ambient, false) == Paint(s, ambient)
    decreases |s|
  {
    if |s| > 0 {
      assert !PairAt(s, 0, '@', '{');
      EvalCharStep(res, s, ambient, false);
      assert forall k :: 0 <= k < |s| - 1 ==> (PairAt(s[1..], k, '@', '{') ==> PairAt(s, k + 1, '@', '{'));
      PlainInput(res, s[1..], ambient);
      assert Paint(s, ambient) == [(s[0], ambient)] + Paint(s[1..], ambient);
    }
  }

  /** Without any `}` in what follows, the scan for a closing brace finds none:
      this is `Match`'s own postcondition, that a found index holds a `}`, read
      the other way round. */
  lemma NoCloseNoMatch(t: string, depth: nat)
    requires depth >= 1 && forall k :: 0 <= k < |t| ==> t[k] != '}'
    ensures Match(t, depth).None?
  {
  }

  /** Input without any `}` is displayed as written, every character in the
      ambient style: each `@{` in it is unclosed and stays literal text. */
  lemma {:induction false} NoCloseIsLiteral(res: Resolver, s: string, ambient: Style, nested: bool)
    requires forall k :: 0 <= k < |s| ==> s[k] != '}'
    ensures Eval(res, s, ambient, nested) == Paint(s, ambient)
    decreases |s|
  {
    if |s| > 0 {
      if OpensDirective(s) {
        NoCloseNoMatch(s[2..], 1);
        EvalUnclosedStep(res, s, ambient, nested);
        NoCloseIsLiteral(res, s[2..], ambient, nested);
        assert Paint(s, ambient) == Paint("@{", ambient) + Paint(s[2..], ambient);
      } else {
        EvalCharStep(res, s, ambient, nested);
        NoCloseIsLiteral(res, s[1..], ambient, nested);
        assert Paint(s, ambient) == [(s[0], ambient)] + Paint(s[1..], ambient);
      }
    }
  }

  /** Every character of `t` carries at least the attributes and colours of `ambient`. */
  predicate AllExtend(t: StyledText, ambient: Style) {
    forall k :: 0 <= k < |t| ==> Extends(t[k].1, ambient)
  }

  lemma AllExtendConcat(x: StyledText, y: StyledText, ambient: Style)
    requires AllExtend(x, ambient) && AllExtend(y, ambient)
    ensures AllExtend(x + y, ambient)
  {
    assert forall k :: 0 <= k < |x + y| ==> (x + y)[k] == if k < |x| then x[k] else y[k - |x|];
  }

  lemma PaintExtends(text: string, ambient: Style)
    ensures AllExtend(Paint(text, ambient), ambient)
  {
  }

  lemma AllExtendTransitive(t: StyledText, inner: Style, ambient: Style)
    requires AllExtend(t, inner) && Extends(inner, ambient)
    ensures AllExtend(t, ambient)
  {
    forall k | 0 <= k < |t|
      ensures Extends(t[k].1, ambient)
    {
      ExtendsTransitive(t[k].1, inner, ambient);
    }
  }

  /** Nesting only ever adds to the ambient style: every character of the
      result keeps the ambient attributes, and a colour once set stays set. */
  lemma {:induction false} EvalExtends(res: Resolver, s: string, ambient: Style, nested: bool)
    ensures AllExtend(Eval(res, s, ambient, nested), ambient)
    decreases |s|, 0
  {
    if |s| == 0 {
    } else if nested && IsEscapedClose(s) {
      EvalEscapeStep(res, s, ambient);
      EvalExtends(res, s[2..], ambient, nested);
      AllExtendConcat([('}', ambient)], Eval(res, s[2..], ambient, nested), ambient);
    } else if OpensDirective(s) {
      match Match(s[2..], 1)
      case None =>
        EvalUnclosedStep(res, s, ambient, nested);
        PaintExtends("@{", ambient);
        EvalExtends(res, s[2..], ambient, nested);
        AllExtendConcat(Paint("@{", ambient), Eval(res, s[2..], ambient, nested), ambient);
      case Some(j) =>
        EvalDirectiveStep(res, s, ambient, nested, j);
        DirectiveExtends(res, s[2..2 + j], ambient);
        EvalExtends(res, s[3 + j..], ambient, nested);
        AllExtendConcat(Directive(res, s[2..2 + j], ambient), Eval(res, s[3 + j..], ambient, nested), ambient);
    } else {
      EvalCharStep(res, s, ambient, nested);
      EvalExtends(res, s[1..], ambient, nested);
      AllExtendConcat([(s[0], ambient)], Eval(res, s[1..], ambient, nested), ambient);
    }
  }

  lemma {:induction false} DirectiveExtends(res: Resolver, body: string, ambient: Style)
    ensures AllExtend(Directive(res, body, ambient), ambient)
    decreases |body|, 1
  {
    match SplitBody(body)
    case None =>
      PaintExtends("@{" + body + "}", ambient);
    case Some((spec, value)) =>
      var style := Compose(ambient, Resolve(res, spec));
      EvalExtends(res, value, style, true);
      ComposeExtends(ambient, Resolve(res, spec));
      AllExtendTransitive(Eval(res, value, style, true), style, ambient);
  }

  /** Styles never change which characters are displayed: the text of the
      result depends neither on the registry nor on the ambient style. */
  lemma {:induction false} TextIgnoresStyles(res1: Resolver, res2: Resolver, s: string,
                                             a1: Style, a2: Style, nested: bool)
    ensures Chars(Eval(res1, s, a1, nested)) == Chars(Eval(res2, s, a2, nested))
    decreases |s|, 0
  {
    if |s| == 0 {
    } else if nested && IsEscapedClose(s) {
      EvalEscapeStep(res1, s, a1);
      EvalEscapeStep(res2, s, a2);
      CharsConcat([('}', a1)], Eval(res1, s[2..], a1, nested));
      CharsConcat([('}', a2)], Eval(res2, s[2..], a2, nested));
      TextIgnoresStyles(res1, res2, s[2..], a1, a2, nested);
    } else if OpensDirective(s) {
      match Match(s[2..], 1)
      case None =>
        EvalUnclosedStep(res1, s, a1, nested);
        EvalUnclosedStep(res2, s, a2, nested);
        CharsConcat(Paint("@{", a1), Eval(res1, s[2..], a1, nested));
        CharsConcat(Paint("@{", a2), Eval(res2, s[2..], a2, nested));
        TextIgnoresStyles(res1, res2, s[2..], a1, a2, nested);
      case Some(j) =>
        EvalDirectiveStep(res1, s, a1, nested, j);
        EvalDirectiveStep(res2, s, a2, nested, j);
        CharsConcat(Directive(res1, s[2..2 + j], a1), Eval(res1, s[3 + j..], a1, nested));
        CharsConcat(Directive(res2, s[2..2 + j], a2), Eval(res2, s[3 + j..], a2, nested));
        DirectiveTextIgnoresStyles(res1, res2, s[2..2 + j], a1, a2);
        TextIgnoresStyles(res1, res2, s[3 + j..], a1, a2, nested);
    } else {
      EvalCharStep(res1, s, a1, nested);
      EvalCharStep(res2, s, a2, nested);
      CharsConcat([(s[0], a1)], Eval(res1, s[1..], a1, nested));
      CharsConcat([(s[0], a2)], Eval(res2, s[1..], a2, nested));
      TextIgnoresStyles(res1, res2, s[1..], a1, a2, nested);
    }
  }

  lemma {:induction false} DirectiveTextIgnoresStyles(res1: Resolver, res2: Resolver, body: string,
                                                      a1: Style, a2: Style)
    ensures Chars(Directive(res1, body, a1)) == Chars(Directive(res2, body, a2))
    decreases |body|, 1
  {
    match SplitBody(body)
    case None =>
    case Some((spec, value)) =>
      TextIgnoresStyles(res1, res2, value, Compose(a1, Resolve(res1, spec)),
                        Compose(a2, Resolve(res2, spec)), true);
  }

  /** The closing brace is found from the text up to it alone: whatever
      follows cannot move it. */
  lemma {:induction false} MatchIgnoresSuffix(t: string, depth: nat, j: nat, tail: string)
    requires depth >= 1 && Match(t, depth) == Some(j)
    ensures j < |t| && Match(t[..j + 1] + tail, depth) == Some(j)
    decreases |t|, 1
  {
    if IsEscapedClose(t) || OpensDirective(t) {
      SuffixAfterPair(t, depth, j, tail);
    } else if t[0] == '}' && depth == 1 {
      var u := t[..j + 1] + tail;
      assert u[0] == t[0];
      assert j == 0 && !IsEscapedClose(u) && !OpensDirective(u);
    } else {
      SuffixAfterChar(t, depth, j, tail);
    }
  }

  lemma {:induction false} SuffixAfterPair(t: string, depth: nat, j: nat, tail: string)
    requires depth >= 1 && Match(t, depth) == Some(j)
    requires IsEscapedClose(t) || OpensDirective(t)
    ensures j < |t| && Match(t[..j + 1] + tail, depth) == Some(j)
    decreases |t|, 0
  {
    var u := t[..j + 1] + tail;
    var d := if IsEscapedClose(t) then depth else depth + 1;
    MatchTwoStep(t, depth);
    var j' := Match(t[2..], d).value;
    MatchIgnoresSuffix(t[2..], d, j', tail);
    assert u[0] == t[0] && u[1] == t[1] && u[2..] == t[2..][..j' + 1] + tail;
    MatchTwoStep(u, depth);
  }

  lemma {:induction false} SuffixAfterChar(t: string, depth: nat, j: nat, tail: string)
    requires depth >= 1 && Match(t, depth) == Some(j)
    requires !IsEscapedClose(t) && !OpensDirective(t) && (t[0] != '}' || depth > 1)
    ensures j < |t| && Match(t[..j + 1] + tail, depth) == Some(j)
    decreases |t|, 0
  {
    var u := t[..j + 1] + tail;
    var d := if t[0] == '}' then depth - 1 else depth;
    MatchOneStep(t, depth);
    var j' := Match(t[1..], d).value;
    MatchIgnoresSuffix(t[1..], d, j', tail);
    assert u[0] == t[0] && u[1..] == t[1..][..j' + 1] + tail;
    assert !IsEscapedClose(u) by {
      if t[0] == '\\' { assert t[1] == u[1]; }
    }
    assert !OpensDirective(u) by {
      if t[0] == '@' { assert t[1] == u[1]; }
    }
    MatchOneStep(u, depth);
  }

  /** A directive with no whitespace in its body, or with nothing before the
      first whitespace, is displayed exactly as written, in the ambient style. */
  lemma NoValueIsLiteral(res: Resolver, body: string, rest: string, ambient: Style, nested: bool)
    requires SplitBody(body).None?
    requires Match(body + "}", 1) == Some(|body|)
    ensures Eval(res, "@{" + body + "}" + rest, ambient, nested)
            == Paint("@{" + body + "}", ambient) + Eval(res, rest, ambient, nested)
  {
    var s := NoValueInput(body, rest);
    EvalDirectiveStep(res, s, ambient, nested, |body|);
  }

  /** Where the body of such a directive and what follows it sit in the input. */
  lemma NoValueInput(body: string, rest: string) returns (s: string)
    requires Match(body + "}", 1) == Some(|body|)
    ensures s == "@{" + body + "}" + rest
    ensures OpensDirective(s) && !IsEscapedClose(s) && Match(s[2..], 1) == Some(|body|)
    ensures 3 + |body| <= |s| && s[2..2 + |body|] == body && s[3 + |body|..] == rest
  {
    s := "@{" + body + "}" + rest;
    MatchIgnoresSuffix(body + "}", 1, |body|, rest);
    assert (body + "}")[..|body| + 1] == body + "}";
    assert s[2..] == body + "}" + rest;
    assert s[2..2 + |body|] == body && s[3 + |body|..] == rest;
  }
}
