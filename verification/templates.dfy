/** A reference semantics for style expressions. A template is a tree of literal
    text and styled pieces; Render prints it in the `@{spec value}` syntax and
    Denote says directly which style each character should get. The main
    theorem is that the evaluator, run on a rendered template, yields exactly
    its denotation. */
module Templates {
  import opened Optional
  import opened Strings
  import opened Styles
  import opened StyleResolver
  import opened StyleExpression

  datatype Piece = Text(text: string) | Styled(spec: string, value: seq<Piece>)

  /** Characters that never start markup. */
  predicate TextChar(c: char) {
    c != '@' && c != '\\'
  }

  /** Characters of a spec: in addition, no whitespace and no closing brace. */
  predicate SpecChar(c: char) {
    TextChar(c) && c != '}' && !IsWhitespace(c)
  }

  /** Literal text: it holds no `@{`, and it does not end in `@` or `\\`, so
      that what follows it can complete neither `@{` nor `\\}`. */
  predicate IsText(t: string) {
    (forall k :: 0 <= k < |t| ==> !PairAt(t, k, '@', '{'))
    && (|t| > 0 ==> TextChar(t[|t| - 1]))
  }

  predicate IsSpec(spec: string) {
    |spec| > 0 && forall k :: 0 <= k < |spec| ==> SpecChar(spec[k])
  }

  predicate WellFormed(ps: seq<Piece>)
    decreases ps
  {
    |ps| > 0 ==> WellFormedPiece(ps[0]) && WellFormed(ps[1..])
  }

  predicate WellFormedPiece(p: Piece)
    decreases p
  {
    match p
    case Text(t) => IsText(t)
    case Styled(spec, value) => IsSpec(spec) && WellFormed(value)
  }

  /** Literal text inside a directive value, with `}` written as `\}`. */
  function Escape(t: string): (r: string)
    ensures |r| >= |t|
  {
    if |t| == 0 then []
    else (if t[0] == '}' then "\\}" else [t[0]]) + Escape(t[1..])
  }

  function Render(ps: seq<Piece>, nested: bool): string
    decreases ps
  {
    if |ps| == 0 then [] else RenderPiece(ps[0], nested) + Render(ps[1..], nested)
  }

  function RenderPiece(p: Piece, nested: bool): string
    decreases p
  {
    match p
    case Text(t) => if nested then Escape(t) else t
    case Styled(spec, value) => "@{" + spec + " " + Render(value, true) + "}"
  }

  /** The intended meaning: each piece's text in the ambient style composed
      with the specs of every piece around it, outermost first. */
  function Denote(res: Resolver, ps: seq<Piece>, ambient: Style): StyledText
    decreases ps
  {
    if |ps| == 0 then [] else DenotePiece(res, ps[0], ambient) + Denote(res, ps[1..], ambient)
  }

  function DenotePiece(res: Resolver, p: Piece, ambient: Style): StyledText
    decreases p
  {
    match p
    case Text(t) => Paint(t, ambient)
    case Styled(spec, value) => Denote(res, value, Compose(ambient, Resolve(res, spec)))
  }

  /** The template's text with all markup removed. */
  function PlainText(ps: seq<Piece>): string
    decreases ps
  {
    if |ps| == 0 then [] else PiecePlainText(ps[0]) + PlainText(ps[1..])
  }

  function PiecePlainText(p: Piece): string
    decreases p
  {
    match p
    case Text(t) => t
    case Styled(_, value) => PlainText(value)
  }

  /** What literal text promises about its first character, and that the
      rest of it is literal text too. */
  lemma TextHead(t: string)
    requires IsText(t) && |t| > 0
    ensures IsText(t[1..])
    ensures !TextChar(t[0]) ==> |t| > 1
    ensures t[0] == '@' ==> t[1] != '{'
  {
    assert !PairAt(t, 0, '@', '{');
    assert forall k :: 0 <= k < |t| - 1 ==> (PairAt(t[1..], k, '@', '{') ==> PairAt(t, k + 1, '@', '{'));
  }

  /** The first character of escaped text: a `}` is written `\\}`. */
  lemma EscapeHead(t: string)
    requires |t| > 0
    ensures |Escape(t)| > 0 && Escape(t)[0] == if t[0] == '}' then '\\' else t[0]
  {
    var head := if t[0] == '}' then "\\}" else [t[0]];
    assert Escape(t) == head + Escape(t[1..]);
  }

  /** Literal text placed before anything at the top level does not start a directive. */
  lemma TopStartsPlain(t: string, rest: string)
    requires IsText(t) && |t| > 0
    ensures !OpensDirective(t + rest)
  {
    TextHead(t);
    if t[0] == '@' {
      assert (t + rest)[1] == t[1];
    }
  }

  /** Inside a value, the first character of escaped literal text other than
      `}` starts neither `@{` nor `\\}`, whatever follows the text. */
  lemma EscapedStartsPlain(t: string, rest: string)
    requires IsText(t) && |t| > 0 && t[0] != '}'
    ensures var s := [t[0]] + (Escape(t[1..]) + rest);
            !IsEscapedClose(s) && !OpensDirective(s)
  {
    var s := [t[0]] + (Escape(t[1..]) + rest);
    TextHead(t);
    if !TextChar(t[0]) {
      EscapeHead(t[1..]);
      assert s[1] == Escape(t[1..])[0];
    }
  }

  /** Scanning for the closing brace passes over text without markup characters. */
  lemma {:induction false} MatchSkipsOrdinary(o: string, rest: string, depth: nat)
    requires depth >= 1
    requires forall k :: 0 <= k < |o| ==> TextChar(o[k]) && o[k] != '}'
    ensures Match(o + rest, depth) == Shift(Match(rest, depth), |o|)
  {
    if |o| > 0 {
      var s := o + rest;
      assert s[0] == o[0] && s[1..] == o[1..] + rest;
      MatchOneStep(s, depth);
      MatchSkipsOrdinary(o[1..], rest, depth);
      ShiftShift(Match(rest, depth), |o| - 1, 1);
    } else {
      assert o + rest == rest;
      ShiftShift(Match(rest, depth), 0, 0);
    }
  }

  /** ... and over escaped literal text. */
  lemma {:induction false} MatchSkipsEscaped(t: string, rest: string, depth: nat)
    requires depth >= 1 && IsText(t)
    ensures Match(Escape(t) + rest, depth) == Shift(Match(rest, depth), |Escape(t)|)
  {
    if |t| > 0 {
      TextHead(t);
      MatchSkipsEscaped(t[1..], rest, depth);
      MatchSkipsEscapedHead(t, rest, depth);
      ShiftShift(Match(rest, depth), |Escape(t[1..])|, |Escape(t)| - |Escape(t[1..])|);
    } else {
      assert Escape(t) == [];
      assert Escape(t) + rest == rest;
      ShiftShift(Match(rest, depth), 0, 0);
    }
  }

  lemma MatchSkipsEscapedHead(t: string, rest: string, depth: nat)
    requires depth >= 1 && |t| > 0 && IsText(t)
    ensures Match(Escape(t) + rest, depth)
            == Shift(Match(Escape(t[1..]) + rest, depth), |Escape(t)| - |Escape(t[1..])|)
  {
    var tail := Escape(t[1..]) + rest;
    var head := if t[0] == '}' then "\\}" else [t[0]];
    assert Escape(t) == head + Escape(t[1..]);
    Associative(head, Escape(t[1..]), rest);
    DropPrefix(head, tail);
    var s := head + tail;
    if t[0] == '}' {
      MatchTwoStep(s, depth);
    } else {
      EscapedStartsPlain(t, rest);
      MatchOneStep(s, depth);
    }
  }

  /** ... and over a whole rendered value, whose directives all close again. */
  lemma {:induction false} MatchSkipsRendered(ps: seq<Piece>, rest: string, depth: nat)
    requires depth >= 1 && WellFormed(ps)
    ensures Match(Render(ps, true) + rest, depth) == Shift(Match(rest, depth), |Render(ps, true)|)
    decreases ps
  {
    if |ps| > 0 {
      var head := RenderPiece(ps[0], true);
      var tail := Render(ps[1..], true);
      assert Render(ps, true) == head + tail;
      MatchSkipsRendered(ps[1..], rest, depth);
      MatchSkipsRenderedPiece(ps[0], tail + rest, depth);
      ShiftConcat(head, tail, rest, depth);
    } else {
      assert Render(ps, true) == [];
      assert Render(ps, true) + rest == rest;
      ShiftShift(Match(rest, depth), 0, 0);
    }
  }

  lemma {:induction false} MatchSkipsRenderedPiece(p: Piece, rest: string, depth: nat)
    requires depth >= 1 && WellFormedPiece(p)
    ensures Match(RenderPiece(p, true) + rest, depth) == Shift(Match(rest, depth), |RenderPiece(p, true)|)
    decreases p
  {
    match p
    case Text(t) =>
      MatchSkipsText(t, rest, depth);
    case Styled(spec, value) =>
      var rv := Render(value, true);
      var closing := Closing(rest);
      MatchSkipsRendered(value, closing, depth + 1);
      MatchSkipsStyled(spec, value, rv, closing, rest, depth);
  }

  lemma MatchSkipsText(t: string, rest: string, depth: nat)
    requires depth >= 1 && IsText(t)
    ensures Match(RenderPiece(Text(t), true) + rest, depth)
            == Shift(Match(rest, depth), |RenderPiece(Text(t), true)|)
  {
    assert RenderPiece(Text(t), true) == Escape(t);
    MatchSkipsEscaped(t, rest, depth);
  }

  /** Scanning past two strings, one after the other. */
  lemma ShiftConcat(head: string, tail: string, rest: string, depth: nat)
    requires depth >= 1
    requires Match(tail + rest, depth) == Shift(Match(rest, depth), |tail|)
    requires Match(head + (tail + rest), depth) == Shift(Match(tail + rest, depth), |head|)
    ensures Match(head + tail + rest, depth) == Shift(Match(rest, depth), |head + tail|)
  {
    Associative(head, tail, rest);
    ShiftShift(Match(rest, depth), |tail|, |head|);
  }

  lemma MatchSkipsStyled(spec: string, value: seq<Piece>, rv: string, closing: string, rest: string, depth: nat)
    requires depth >= 1 && IsSpec(spec) && rv == Render(value, true) && ClosesWith(closing, rest)
    requires Match(rv + closing, depth + 1) == Shift(Match(closing, depth + 1), |rv|)
    ensures Match(RenderPiece(Styled(spec, value), true) + rest, depth)
            == Shift(Match(rest, depth), |RenderPiece(Styled(spec, value), true)|)
  {
    assert RenderPiece(Styled(spec, value), true) == "@{" + spec + " " + rv + "}";
    DirectiveShape(spec, rv, closing, rest);
    MatchSkipsDirective(spec, rv, closing, rest, depth);
  }

  /** `closing` is a closing brace followed by `rest`. Lemmas about the scan
      take it as a string of its own rather than as a concatenation. */
  predicate ClosesWith(closing: string, rest: string) {
    |closing| > 0 && closing[0] == '}' && closing[1..] == rest
  }

  lemma Closing(rest: string) returns (closing: string)
    ensures ClosesWith(closing, rest)
  {
    closing := "}" + rest;
  }

  lemma DirectiveShape(spec: string, rv: string, closing: string, rest: string)
    requires ClosesWith(closing, rest)
    ensures "@{" + spec + " " + rv + "}" + rest == "@{" + (spec + " " + (rv + closing))
    ensures |"@{" + spec + " " + rv + "}"| == |spec| + |rv| + 4
  {
    assert closing == "}" + rest;
  }

  /** One directive: its opening `@{` is closed by its own `}` and the depth is
      back where it started. */
  lemma MatchSkipsDirective(spec: string, rv: string, closing: string, rest: string, depth: nat)
    requires depth >= 1 && IsSpec(spec) && ClosesWith(closing, rest)
    requires Match(rv + closing, depth + 1) == Shift(Match(closing, depth + 1), |rv|)
    ensures Match("@{" + (spec + " " + (rv + closing)), depth)
            == Shift(Match(rest, depth), |spec| + |rv| + 4)
  {
    var o := spec + " ";
    var y := rv + closing;
    MatchOpening(o + y, depth);
    SpecIsOrdinary(spec, o);
    MatchSkipsOrdinary(o, y, depth + 1);
    MatchClosing(closing, rest, depth);
    ShiftChain(Match("@{" + (o + y), depth), Match(o + y, depth + 1), Match(y, depth + 1),
               Match(closing, depth + 1), Match(rest, depth), 2, |o|, |rv|, 1);
  }

  lemma ShiftChain(x0: Option<nat>, x1: Option<nat>, x2: Option<nat>, x3: Option<nat>, x4: Option<nat>,
                   n1: nat, n2: nat, n3: nat, n4: nat)
    requires x0 == Shift(x1, n1) && x1 == Shift(x2, n2) && x2 == Shift(x3, n3) && x3 == Shift(x4, n4)
    ensures x0 == Shift(x4, n1 + n2 + n3 + n4)
  {
  }

  /** The opening `@{` of a nested directive takes the depth up. */
  lemma MatchOpening(body: string, depth: nat)
    requires depth >= 1
    ensures Match("@{" + body, depth) == Shift(Match(body, depth + 1), 2)
  {
    var s := "@{" + body;
    assert s[2..] == body && OpensDirective(s);
    MatchTwoStep(s, depth);
  }

  /** A spec and the space after it hold no markup characters. */
  lemma SpecIsOrdinary(spec: string, o: string)
    requires IsSpec(spec) && o == spec + " "
    ensures forall k :: 0 <= k < |o| ==> TextChar(o[k]) && o[k] != '}'
  {
    forall k | 0 <= k < |o|
      ensures TextChar(o[k]) && o[k] != '}'
    {
      if k < |spec| {
        assert o[k] == spec[k];
      }
    }
  }

  /** The closing brace of a nested directive takes the depth back down. */
  lemma MatchClosing(closing: string, rest: string, depth: nat)
    requires depth >= 1 && ClosesWith(closing, rest)
    ensures Match(closing, depth + 1) == Shift(Match(rest, depth), 1)
  {
    MatchOneStep(closing, depth + 1);
  }

  /** Literal text at the top level is copied in the ambient style. */
  lemma {:induction false} EvalTopText(res: Resolver, t: string, rest: string, ambient: Style)
    requires IsText(t)
    ensures Eval(res, t + rest, ambient, false) == Paint(t, ambient) + Eval(res, rest, ambient, false)
  {
    if |t| > 0 {
      var s := t + rest;
      ConsSplit(t, rest);
      TopStartsPlain(t, rest);
      EvalCharStep(res, s, ambient, false);
      TextHead(t);
      EvalTopText(res, t[1..], rest, ambient);
      PaintCons(t, ambient);
    } else {
      assert t + rest == rest;
    }
  }

  /** Escaped literal text inside a value is unescaped, in the ambient style. */
  lemma {:induction false} EvalEscaped(res: Resolver, t: string, rest: string, ambient: Style)
    requires IsText(t)
    ensures Eval(res, Escape(t) + rest, ambient, true) == Paint(t, ambient) + Eval(res, rest, ambient, true)
  {
    if |t| > 0 {
      var x := Eval(res, Escape(t[1..]) + rest, ambient, true);
      var y := Eval(res, rest, ambient, true);
      EvalEscapedHead(res, t, rest, ambient);
      TextHead(t);
      EvalEscaped(res, t[1..], rest, ambient);
      PaintOnto(res, t, rest, ambient, x, y);
    } else {
      assert Escape(t) == [];
      assert Escape(t) + rest == rest;
    }
  }

  lemma PaintOnto(res: Resolver, t: string, rest: string, ambient: Style, x: StyledText, y: StyledText)
    requires |t| > 0
    requires Eval(res, Escape(t) + rest, ambient, true) == [(t[0], ambient)] + x
    requires x == Paint(t[1..], ambient) + y
    ensures Eval(res, Escape(t) + rest, ambient, true) == Paint(t, ambient) + y
  {
    PaintCons(t, ambient);
  }

  /** The first character of escaped text, written as one or two characters. */
  lemma EvalEscapedHead(res: Resolver, t: string, rest: string, ambient: Style)
    requires |t| > 0 && IsText(t)
    ensures Eval(res, Escape(t) + rest, ambient, true)
            == [(t[0], ambient)] + Eval(res, Escape(t[1..]) + rest, ambient, true)
  {
    var tail := Escape(t[1..]) + rest;
    var head := if t[0] == '}' then "\\}" else [t[0]];
    assert Escape(t) == head + Escape(t[1..]);
    Associative(head, Escape(t[1..]), rest);
    DropPrefix(head, tail);
    var s := head + tail;
    if t[0] == '}' {
      EvalEscapeStep(res, s, ambient);
    } else {
      EscapedStartsPlain(t, rest);
      EvalCharStep(res, s, ambient, true);
    }
  }

  /** The evaluator computes the denotation of every well-formed template,
      followed by whatever comes after it. */
  lemma {:induction false} EvalRendered(res: Resolver, ps: seq<Piece>, rest: string, ambient: Style, nested: bool)
    requires WellFormed(ps)
    ensures Eval(res, Render(ps, nested) + rest, ambient, nested)
            == Denote(res, ps, ambient) + Eval(res, rest, ambient, nested)
    decreases ps
  {
    if |ps| > 0 {
      assert Render(ps, nested) + rest == RenderPiece(ps[0], nested) + (Render(ps[1..], nested) + rest);
      EvalRenderedPiece(res, ps[0], Render(ps[1..], nested) + rest, ambient, nested);
      EvalRendered(res, ps[1..], rest, ambient, nested);
    } else {
      assert Render(ps, nested) + rest == rest;
    }
  }

  lemma {:induction false} EvalRenderedPiece(res: Resolver, p: Piece, rest: string, ambient: Style, nested: bool)
    requires WellFormedPiece(p)
    ensures Eval(res, RenderPiece(p, nested) + rest, ambient, nested)
            == DenotePiece(res, p, ambient) + Eval(res, rest, ambient, nested)
    decreases p
  {
    match p
    case Text(t) =>
      if nested {
        EvalEscaped(res, t, rest, ambient);
      } else {
        EvalTopText(res, t, rest, ambient);
      }
    case Styled(spec, value) =>
      var rv := Render(value, true);
      var style := Compose(ambient, Resolve(res, spec));
      EvalRendered(res, value, [], style, true);
      assert rv + [] == rv;
      var closing := Closing(rest);
      MatchSkipsRendered(value, closing, 1);
      var s, j := DirectiveInput(spec, rv, closing, rest);
      EvalDirectiveAt(res, s, spec, rv, rest, j, ambient, nested, Denote(res, value, style));
      DirectiveShape(spec, rv, closing, rest);
  }

  /** The rendered directive, with where its body ends: the scan from just after
      `@{` stops at the directive's own `}`. */
  lemma DirectiveInput(spec: string, rv: string, closing: string, rest: string)
    returns (s: string, j: nat)
    requires IsSpec(spec) && ClosesWith(closing, rest)
    requires Match(rv + closing, 1) == Shift(Match(closing, 1), |rv|)
    ensures s == "@{" + (spec + " " + (rv + closing))
    ensures OpensDirective(s) && !IsEscapedClose(s) && Match(s[2..], 1) == Some(j)
    ensures 3 + j <= |s| && s[2..2 + j] == spec + [' '] + rv && s[3 + j..] == rest
  {
    s := "@{" + (spec + " " + (rv + closing));
    j := |spec| + 1 + |rv|;
    var o := spec + " ";
    DirectiveCloses(spec, o, rv, closing, rest);
    DirectiveSlices(spec, rv, closing, rest);
  }

  /** The same step, stated over where the body and the remainder sit in `s`. */
  lemma EvalDirectiveAt(res: Resolver, s: string, spec: string, rv: string, rest: string, j: nat,
                        ambient: Style, nested: bool, inner: StyledText)
    requires IsSpec(spec) && OpensDirective(s) && !IsEscapedClose(s) && Match(s[2..], 1) == Some(j)
    requires 3 + j <= |s| && s[2..2 + j] == spec + [' '] + rv && s[3 + j..] == rest
    requires Eval(res, rv, Compose(ambient, Resolve(res, spec)), true) == inner
    ensures Eval(res, s, ambient, nested) == inner + Eval(res, rest, ambient, nested)
  {
    EvalDirectiveStep(res, s, ambient, nested, j);
    BodySplits(spec, rv);
    DirectiveValueStep(res, spec + [' '] + rv, spec, rv, ambient);
  }

  /** The scan from just after `@{` stops at the directive's own `}`. */
  lemma DirectiveCloses(spec: string, o: string, rv: string, closing: string, rest: string)
    requires IsSpec(spec) && o == spec + " " && ClosesWith(closing, rest)
    requires Match(rv + closing, 1) == Shift(Match(closing, 1), |rv|)
    ensures Match(o + (rv + closing), 1) == Some(|spec| + 1 + |rv|)
  {
    SpecIsOrdinary(spec, o);
    MatchSkipsOrdinary(o, rv + closing, 1);
    assert Match(closing, 1) == Some(0);
  }

  /** Where the directive's body and what follows it sit in the input. */
  lemma DirectiveSlices(spec: string, rv: string, closing: string, rest: string)
    requires ClosesWith(closing, rest)
    ensures var s := "@{" + (spec + " " + (rv + closing));
            var j := |spec| + 1 + |rv|;
            OpensDirective(s) && !IsEscapedClose(s) && 3 + j <= |s|
            && s[2..] == spec + " " + (rv + closing)
            && s[2..2 + j] == spec + [' '] + rv && s[3 + j..] == rest
  {
    var s := "@{" + (spec + " " + (rv + closing));
    var j := |spec| + 1 + |rv|;
    assert s[2..2 + j] == spec + [' '] + rv;
    assert s[2 + j..] == closing;
  }

  /** A well-formed spec ends at the first whitespace of the body. */
  lemma BodySplits(spec: string, value: string)
    requires IsSpec(spec)
    ensures SplitBody(spec + [' '] + value) == Some((spec, value))
  {
    var body := spec + [' '] + value;
    IndexOfWhitespaceFirst(body, |spec|);
    assert body[..|spec|] == spec && body[|spec| + 1..] == value;
  }

  /** What the evaluator displays for a rendered template, as a whole input. */
  lemma EvaluateRendered(res: Resolver, ps: seq<Piece>)
    requires WellFormed(ps)
    ensures Evaluate(res, Render(ps, false)) == Denote(res, ps, Default)
  {
    EvalRendered(res, ps, [], Default, false);
    assert Render(ps, false) + [] == Render(ps, false);
  }

  lemma {:induction false} DenoteChars(res: Resolver, ps: seq<Piece>, ambient: Style)
    ensures Chars(Denote(res, ps, ambient)) == PlainText(ps)
    decreases ps
  {
    if |ps| > 0 {
      CharsConcat(DenotePiece(res, ps[0], ambient), Denote(res, ps[1..], ambient));
      DenoteChars(res, ps[1..], ambient);
      match ps[0]
      case Text(t) =>
      case Styled(spec, value) =>
        DenoteChars(res, value, Compose(ambient, Resolve(res, spec)));
    }
  }

  /** No character is lost or duplicated: the displayed text is the template's
      text with the markup removed and the escapes resolved. */
  lemma EvaluatedText(res: Resolver, ps: seq<Piece>)
    requires WellFormed(ps)
    ensures Chars(Evaluate(res, Render(ps, false))) == PlainText(ps)
  {
    EvaluateRendered(res, ps);
    DenoteChars(res, ps, Default);
  }

  /** Text placed after a template is evaluated independently of it: sibling
      directives do not affect each other, and literal text around them keeps
      the ambient style. */
  lemma EvaluateSiblings(res: Resolver, ps: seq<Piece>, rest: string)
    requires WellFormed(ps)
    ensures Evaluate(res, Render(ps, false) + rest)
            == Evaluate(res, Render(ps, false)) + Evaluate(res, rest)
  {
    EvalRendered(res, ps, rest, Default, false);
    EvaluateRendered(res, ps);
  }
}
