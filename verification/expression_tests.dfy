/** The assertions of StyleExpressionTest, each stated over the model. Tests
    that do not use a named style hold for every registry; the two that do
    state what they need of it, with the resolver bound to group "test" as in
    the test's set-up. */
module ExpressionTests {
  import opened Optional
  import opened Strings
  import opened Styles
  import opened StyleResolver
  import opened StyleExpression
  import opened Templates

  const BoldStyle := Style({Bold}, None, None)
  const UnderlineStyle := Style({Underline}, None, None)
  const RedStyle := Style({}, Some(Red), None)
  const CyanStyle := Style({}, Some(Cyan), None)

  // The specs the tests use, resolved.

  lemma ResolvesBold(res: Resolver)
    ensures Resolve(res, "bold") == BoldStyle
  {
    ResolveAttribute(res, Bold);
  }

  lemma ResolvesUnderline(res: Resolver)
    ensures Resolve(res, "underline") == UnderlineStyle
  {
    ResolveAttribute(res, Underline);
  }

  lemma ResolvesRed(res: Resolver)
    ensures Resolve(res, "fg:red") == RedStyle
  {
    assert "fg:" + ColorName(Red) == "fg:red";
    ResolveColor(res, Red);
  }

  lemma ResolvesCyan(res: Resolver)
    ensures Resolve(res, "fg:cyan") == CyanStyle
  {
    assert "fg:" + ColorName(Cyan) == "fg:cyan";
    ResolveColor(res, Cyan);
  }

  lemma ResolvesBoldCyan(res: Resolver)
    ensures Resolve(res, "bold,fg:cyan") == Style({Bold}, Some(Cyan), None)
  {
    assert "bold" + "," + "fg:cyan" == "bold,fg:cyan";
    ResolveConcat(res, "bold", "fg:cyan");
    ResolvesBold(res);
    ResolvesCyan(res);
  }

  lemma ResolvesBoldRed(res: Resolver)
    ensures Resolve(res, "bold,fg:red") == Style({Bold}, Some(Red), None)
  {
    assert "bold" + "," + "fg:red" == "bold,fg:red";
    ResolveConcat(res, "bold", "fg:red");
    ResolvesBold(res);
    ResolvesRed(res);
  }

  lemma ResolvesFooOrBold(res: Resolver)
    requires (res.group, "foo") !in res.source
    ensures Resolve(res, ".foo:-bold") == BoldStyle
  {
    assert ReferenceSpec("foo", Some("bold")) == ".foo:-bold";
    ResolveReference(res, "foo", Some("bold"));
    ResolvesBold(res);
  }

  /** The empty name is looked up like any other, so `.:-bold` falls back to bold. */
  lemma ResolvesEmptyNameOrBold(res: Resolver)
    requires (res.group, "") !in res.source
    ensures Resolve(res, ".:-bold") == BoldStyle
  {
    assert ReferenceSpec("", Some("bold")) == ".:-bold";
    ResolveReference(res, "", Some("bold"));
    ResolvesBold(res);
  }

  lemma ResolvesVeryRed(res: Resolver)
    requires (res.group, "very-red") in res.source && res.source[(res.group, "very-red")] == "bold,fg:red"
    ensures Resolve(res, ".very-red") == Style({Bold}, Some(Red), None)
  {
    assert ReferenceSpec("very-red", None) == ".very-red";
    ResolveReference(res, "very-red", None);
    ResolvesBoldRed(Resolver(res.source - {(res.group, "very-red")}, res.group));
  }

  // Unfolding the denotation one piece at a time.

  lemma DenoteCons(res: Resolver, p: Piece, ps: seq<Piece>, a: Style)
    ensures Denote(res, [p] + ps, a) == DenotePiece(res, p, a) + Denote(res, ps, a)
  {
    assert ([p] + ps)[1..] == ps;
  }

  lemma DenoteOne(res: Resolver, p: Piece, a: Style)
    ensures Denote(res, [p], a) == DenotePiece(res, p, a)
  {
  }

  /** A single directive around literal text. */
  lemma DenoteDirective(res: Resolver, spec: string, t: string, a: Style)
    ensures Denote(res, [Styled(spec, [Text(t)])], a) == Paint(t, Compose(a, Resolve(res, spec)))
  {
    DenoteOne(res, Styled(spec, [Text(t)]), a);
    DenoteOne(res, Text(t), Compose(a, Resolve(res, spec)));
  }

  /** Rendering and meaning of a list, from those of its first piece and the rest. */
  lemma RenderOnto(p: Piece, ps: seq<Piece>, nested: bool, a: string, b: string)
    requires WellFormedPiece(p) && RenderPiece(p, nested) == a
    requires WellFormed(ps) && Render(ps, nested) == b
    ensures WellFormed([p] + ps) && Render([p] + ps, nested) == a + b
  {
    assert ([p] + ps)[1..] == ps;
  }

  lemma DenoteOnto(res: Resolver, p: Piece, ps: seq<Piece>, ambient: Style, a: StyledText, b: StyledText)
    requires DenotePiece(res, p, ambient) == a && Denote(res, ps, ambient) == b
    ensures Denote(res, [p] + ps, ambient) == a + b
  {
    DenoteCons(res, p, ps, ambient);
  }

  /** A directive around literal text means the text in the composed style. */
  lemma DenoteStyledText(res: Resolver, spec: string, t: string, ambient: Style, st: Style)
    requires Resolve(res, spec) == st
    ensures DenotePiece(res, Styled(spec, [Text(t)]), ambient) == Paint(t, Compose(ambient, st))
  {
    DenoteOne(res, Text(t), Compose(ambient, st));
  }

  /** A test input written as a template evaluates to the template's meaning. */
  lemma FromTemplate(res: Resolver, ps: seq<Piece>, s: string, expected: StyledText)
    requires WellFormed(ps) && Render(ps, false) == s && Denote(res, ps, Default) == expected
    ensures Evaluate(res, s) == expected
  {
    EvaluateRendered(res, ps);
  }

  // Rendering built from generic steps, so that each equation between
  // literals is proved on its own.

  lemma RenderOne(p: Piece, nested: bool)
    ensures WellFormed([p]) == WellFormedPiece(p) && Render([p], nested) == RenderPiece(p, nested)
  {
    assert [p][1..] == [];
    assert RenderPiece(p, nested) + [] == RenderPiece(p, nested);
  }

  /** A directive whose value renders to `rv` renders to `@{spec rv}`. */
  lemma RenderStyled(spec: string, value: seq<Piece>, rv: string, nested: bool, s: string)
    requires IsSpec(spec) && WellFormed(value) && Render(value, true) == rv
    requires s == "@{" + spec + " " + rv + "}"
    ensures WellFormedPiece(Styled(spec, value)) && RenderPiece(Styled(spec, value), nested) == s
  {
  }

  /** A directive around literal text, which is written escaped. */
  lemma RenderStyledText(spec: string, t: string, e: string, nested: bool, s: string)
    requires IsSpec(spec) && IsText(t) && Escape(t) == e && s == "@{" + spec + " " + e + "}"
    ensures WellFormedPiece(Styled(spec, [Text(t)])) && RenderPiece(Styled(spec, [Text(t)]), nested) == s
  {
    RenderOne(Text(t), true);
    RenderStyled(spec, [Text(t)], e, nested, s);
  }

  /** Literal text with no closing brace is written as it is. */
  lemma {:induction false} EscapePlain(t: string)
    requires forall k :: 0 <= k < |t| ==> t[k] != '}'
    ensures Escape(t) == t
  {
    if |t| > 0 {
      EscapePlain(t[1..]);
      assert [t[0]] + t[1..] == t;
    }
  }

  /** `s` is `@{spec t}` for literal text `t` with no closing brace. */
  predicate PlainDirective(spec: string, t: string, s: string) {
    IsSpec(spec) && IsText(t) && (forall k :: 0 <= k < |t| ==> t[k] != '}')
    && s == "@{" + spec + " " + t + "}"
  }

  lemma RenderPlainPiece(spec: string, t: string, nested: bool, s: string)
    requires PlainDirective(spec, t, s)
    ensures WellFormedPiece(Styled(spec, [Text(t)])) && RenderPiece(Styled(spec, [Text(t)]), nested) == s
  {
    EscapePlain(t);
    RenderStyledText(spec, t, t, nested, s);
  }

  lemma RenderPlainTemplate(spec: string, t: string, s: string)
    requires PlainDirective(spec, t, s)
    ensures WellFormed([Styled(spec, [Text(t)])]) && Render([Styled(spec, [Text(t)])], false) == s
  {
    RenderPlainPiece(spec, t, false, s);
    RenderOne(Styled(spec, [Text(t)]), false);
  }

  // The test cases: each input is a rendered template, whose meaning is
  // computed piece by piece. Every equation between two string literals (the
  // `...Literals`, `...Joins` and `...Splits` lemmas) is proved in a lemma of
  // its own: stated beside `Render` or `Eval`, such an equation makes the
  // prover unfold those functions over the literals, at a cost far beyond
  // the equation itself.

  const PrefixAndSuffix: seq<Piece> :=
    [Text("foo "), Styled("bold", [Text("bar")]), Text(" baz")]

  lemma PrefixAndSuffixLiterals()
    ensures PlainDirective("bold", "bar", "@{bold bar}") && IsText("foo ") && IsText(" baz")
    ensures PrefixAndSuffix == [Text("foo ")] + ([Styled("bold", [Text("bar")])] + [Text(" baz")])
  {
  }

  lemma PrefixAndSuffixJoins()
    ensures "@{bold bar}" + " baz" == "@{bold bar} baz"
    ensures "foo " + "@{bold bar} baz" == "foo @{bold bar} baz"
  {
  }

  lemma PrefixAndSuffixRenders()
    ensures WellFormed(PrefixAndSuffix) && Render(PrefixAndSuffix, false) == "foo @{bold bar} baz"
  {
    PrefixAndSuffixLiterals();
    PrefixAndSuffixJoins();
    RenderOne(Text(" baz"), false);
    RenderPlainPiece("bold", "bar", false, "@{bold bar}");
    RenderOnto(Styled("bold", [Text("bar")]), [Text(" baz")], false, "@{bold bar}", " baz");
    RenderOnto(Text("foo "), [Styled("bold", [Text("bar")])] + [Text(" baz")], false, "foo ", "@{bold bar} baz");
  }

  lemma PrefixAndSuffixMeans(res: Resolver)
    ensures Denote(res, PrefixAndSuffix, Default)
            == Paint("foo ", Default) + Paint("bar", BoldStyle) + Paint(" baz", Default)
  {
    ResolvesBold(res);
    ComposeDefault(BoldStyle);
    assert PrefixAndSuffix == [Text("foo ")] + [Styled("bold", [Text("bar")]), Text(" baz")];
    assert [Styled("bold", [Text("bar")]), Text(" baz")] == [Styled("bold", [Text("bar")])] + [Text(" baz")];
    DenoteCons(res, Text("foo "), [Styled("bold", [Text("bar")]), Text(" baz")], Default);
    DenoteCons(res, Styled("bold", [Text("bar")]), [Text(" baz")], Default);
    DenoteDirective(res, "bold", "bar", Default);
    DenoteOne(res, Text(" baz"), Default);
  }

  lemma EvaluateWithPrefixAndSuffix(res: Resolver)
    ensures Evaluate(res, "foo @{bold bar} baz")
            == Paint("foo ", Default) + Paint("bar", BoldStyle) + Paint(" baz", Default)
  {
    PrefixAndSuffixRenders();
    PrefixAndSuffixMeans(res);
    FromTemplate(res, PrefixAndSuffix, "foo @{bold bar} baz", Paint("foo ", Default) + Paint("bar", BoldStyle) + Paint(" baz", Default));
  }

  const Prefix: seq<Piece> :=
    [Text("foo "), Styled("bold", [Text("bar")])]

  lemma PrefixLiterals()
    ensures PlainDirective("bold", "bar", "@{bold bar}") && IsText("foo ")
    ensures "foo " + "@{bold bar}" == "foo @{bold bar}"
    ensures Prefix == [Text("foo ")] + [Styled("bold", [Text("bar")])]
  {
  }

  lemma PrefixRenders()
    ensures WellFormed(Prefix) && Render(Prefix, false) == "foo @{bold bar}"
  {
    PrefixLiterals();
    RenderPlainTemplate("bold", "bar", "@{bold bar}");
    RenderOnto(Text("foo "), [Styled("bold", [Text("bar")])], false, "foo ", "@{bold bar}");
  }

  lemma PrefixMeans(res: Resolver)
    ensures Denote(res, Prefix, Default)
            == Paint("foo ", Default) + Paint("bar", BoldStyle)
  {
    ResolvesBold(res);
    ComposeDefault(BoldStyle);
    assert Prefix == [Text("foo ")] + [Styled("bold", [Text("bar")])];
    DenoteCons(res, Text("foo "), [Styled("bold", [Text("bar")])], Default);
    DenoteDirective(res, "bold", "bar", Default);
  }

  lemma EvaluateWithPrefix(res: Resolver)
    ensures Evaluate(res, "foo @{bold bar}")
            == Paint("foo ", Default) + Paint("bar", BoldStyle)
  {
    PrefixRenders();
    PrefixMeans(res);
    FromTemplate(res, Prefix, "foo @{bold bar}", Paint("foo ", Default) + Paint("bar", BoldStyle));
  }

  const Suffix: seq<Piece> :=
    [Styled("bold", [Text("foo")]), Text(" bar")]

  lemma SuffixLiterals()
    ensures PlainDirective("bold", "foo", "@{bold foo}") && IsText(" bar")
    ensures "@{bold foo}" + " bar" == "@{bold foo} bar"
    ensures Suffix == [Styled("bold", [Text("foo")])] + [Text(" bar")]
  {
  }

  lemma SuffixRenders()
    ensures WellFormed(Suffix) && Render(Suffix, false) == "@{bold foo} bar"
  {
    SuffixLiterals();
    RenderOne(Text(" bar"), false);
    RenderPlainPiece("bold", "foo", false, "@{bold foo}");
    RenderOnto(Styled("bold", [Text("foo")]), [Text(" bar")], false, "@{bold foo}", " bar");
  }

  lemma SuffixMeans(res: Resolver)
    ensures Denote(res, Suffix, Default)
            == Paint("foo", BoldStyle) + Paint(" bar", Default)
  {
    ResolvesBold(res);
    ComposeDefault(BoldStyle);
    assert Suffix == [Styled("bold", [Text("foo")])] + [Text(" bar")];
    DenoteCons(res, Styled("bold", [Text("foo")]), [Text(" bar")], Default);
    DenoteDirective(res, "bold", "foo", Default);
    DenoteOne(res, Text(" bar"), Default);
  }

  lemma EvaluateWithSuffix(res: Resolver)
    ensures Evaluate(res, "@{bold foo} bar")
            == Paint("foo", BoldStyle) + Paint(" bar", Default)
  {
    SuffixRenders();
    SuffixMeans(res);
    FromTemplate(res, Suffix, "@{bold foo} bar", Paint("foo", BoldStyle) + Paint(" bar", Default));
  }

  const Single: seq<Piece> :=
    [Styled("bold", [Text("foo")])]

  lemma SingleLiterals()
    ensures PlainDirective("bold", "foo", "@{bold foo}")
  {
  }

  lemma SingleRenders()
    ensures WellFormed(Single) && Render(Single, false) == "@{bold foo}"
  {
    SingleLiterals();
    RenderPlainTemplate("bold", "foo", "@{bold foo}");
  }

  lemma SingleMeans(res: Resolver)
    ensures Denote(res, Single, Default)
            == Paint("foo", BoldStyle)
  {
    ResolvesBold(res);
    ComposeDefault(BoldStyle);
    DenoteDirective(res, "bold", "foo", Default);
  }

  lemma EvaluateSingle(res: Resolver)
    ensures Evaluate(res, "@{bold foo}")
            == Paint("foo", BoldStyle)
  {
    SingleRenders();
    SingleMeans(res);
    FromTemplate(res, Single, "@{bold foo}", Paint("foo", BoldStyle));
  }

  const WithDefault: seq<Piece> :=
    [Styled(".foo:-bold", [Text("foo")])]

  lemma WithDefaultLiterals()
    ensures PlainDirective(".foo:-bold", "foo", "@{.foo:-bold foo}")
  {
  }

  lemma WithDefaultRenders()
    ensures WellFormed(WithDefault) && Render(WithDefault, false) == "@{.foo:-bold foo}"
  {
    WithDefaultLiterals();
    RenderPlainTemplate(".foo:-bold", "foo", "@{.foo:-bold foo}");
  }

  lemma WithDefaultMeans(res: Resolver)
    requires ("test", "foo") !in res.source && res.group == "test"
    ensures Denote(res, WithDefault, Default)
            == Paint("foo", BoldStyle)
  {
    ResolvesFooOrBold(res);
    ComposeDefault(BoldStyle);
    DenoteDirective(res, ".foo:-bold", "foo", Default);
  }

  lemma EvaluateWithDefault(res: Resolver)
    requires ("test", "foo") !in res.source && res.group == "test"
    ensures Evaluate(res, "@{.foo:-bold foo}")
            == Paint("foo", BoldStyle)
  {
    WithDefaultRenders();
    WithDefaultMeans(res);
    FromTemplate(res, WithDefault, "@{.foo:-bold foo}", Paint("foo", BoldStyle));
  }

  const Multiple: seq<Piece> :=
    [Styled("bold", [Text("foo")]), Text(" "), Styled("fg:red", [Text("bar")]), Text(" "),
     Styled("underline", [Text("baz")])]

  // The longer inputs are taken apart from the right, one piece at a time,
  // with every equation between literals in a lemma of its own.

  lemma MultipleSplits()
    ensures Multiple == [Styled("bold", [Text("foo")])] + ([Text(" ")] + ([Styled("fg:red", [Text("bar")])] + [Text(" "), Styled("underline", [Text("baz")])]))
    ensures [Text(" "), Styled("underline", [Text("baz")])] == [Text(" ")] + [Styled("underline", [Text("baz")])]
  {
  }

  lemma MultipleLiterals()
    ensures PlainDirective("bold", "foo", "@{bold foo}") && PlainDirective("fg:red", "bar", "@{fg:red bar}")
    ensures PlainDirective("underline", "baz", "@{underline baz}") && IsText(" ")
  {
  }

  lemma MultipleJoin2()
    ensures " " + "@{underline baz}" == " @{underline baz}"
  {
  }

  lemma MultipleJoin1()
    ensures "@{fg:red bar}" + " @{underline baz}" == "@{fg:red bar} @{underline baz}"
  {
  }

  lemma MultipleJoin0()
    ensures " " + "@{fg:red bar} @{underline baz}" == " @{fg:red bar} @{underline baz}"
  {
  }

  lemma MultipleJoin()
    ensures "@{bold foo}" + " @{fg:red bar} @{underline baz}" == "@{bold foo} @{fg:red bar} @{underline baz}"
  {
  }

  lemma MultipleRenders()
    ensures WellFormed(Multiple) && Render(Multiple, false) == "@{bold foo} @{fg:red bar} @{underline baz}"
  {
    MultipleLiterals();
    MultipleSplits();
    RenderPlainTemplate("underline", "baz", "@{underline baz}");
    MultipleJoin2();
    RenderOnto(Text(" "), [Styled("underline", [Text("baz")])], false, " ", "@{underline baz}");
    RenderPlainPiece("fg:red", "bar", false, "@{fg:red bar}");
    MultipleJoin1();
    RenderOnto(Styled("fg:red", [Text("bar")]), [Text(" "), Styled("underline", [Text("baz")])], false, "@{fg:red bar}", " @{underline baz}");
    MultipleJoin0();
    RenderOnto(Text(" "), [Styled("fg:red", [Text("bar")])] + [Text(" "), Styled("underline", [Text("baz")])], false, " ", "@{fg:red bar} @{underline baz}");
    RenderPlainPiece("bold", "foo", false, "@{bold foo}");
    MultipleJoin();
    RenderOnto(Styled("bold", [Text("foo")]), [Text(" ")] + ([Styled("fg:red", [Text("bar")])] + [Text(" "), Styled("underline", [Text("baz")])]), false, "@{bold foo}", " @{fg:red bar} @{underline baz}");
  }

  lemma MultipleTailMeans(res: Resolver)
    ensures Denote(res, [Text(" "), Styled("underline", [Text("baz")])], Default) == Paint(" ", Default) + Paint("baz", UnderlineStyle)
  {
    ResolvesUnderline(res);
    ComposeDefault(UnderlineStyle);
    DenoteStyledText(res, "underline", "baz", Default, UnderlineStyle);
    DenoteOne(res, Styled("underline", [Text("baz")]), Default);
    DenoteOnto(res, Text(" "), [Styled("underline", [Text("baz")])], Default, Paint(" ", Default), Paint("baz", UnderlineStyle));
    assert [Text(" "), Styled("underline", [Text("baz")])] == [Text(" ")] + [Styled("underline", [Text("baz")])];
  }

  lemma MultipleMiddleMeans(res: Resolver)
    ensures Denote(res, [Text(" ")] + ([Styled("fg:red", [Text("bar")])] + [Text(" "), Styled("underline", [Text("baz")])]), Default)
            == Paint(" ", Default) + (Paint("bar", RedStyle) + (Paint(" ", Default) + Paint("baz", UnderlineStyle)))
  {
    var tail := Paint(" ", Default) + Paint("baz", UnderlineStyle);
    MultipleTailMeans(res);
    ResolvesRed(res);
    ComposeDefault(RedStyle);
    DenoteStyledText(res, "fg:red", "bar", Default, RedStyle);
    DenoteOnto(res, Styled("fg:red", [Text("bar")]), [Text(" "), Styled("underline", [Text("baz")])], Default, Paint("bar", RedStyle), tail);
    DenoteOnto(res, Text(" "), [Styled("fg:red", [Text("bar")])] + [Text(" "), Styled("underline", [Text("baz")])], Default, Paint(" ", Default), Paint("bar", RedStyle) + tail);
  }

  lemma Associate(a: StyledText, b: StyledText, c: StyledText, d: StyledText, e: StyledText)
    ensures a + (b + (c + (d + e))) == a + b + c + d + e
  {
  }

  lemma MultipleMeans(res: Resolver)
    ensures Denote(res, Multiple, Default)
            == Paint("foo", BoldStyle) + Paint(" ", Default) + Paint("bar", RedStyle)
            + Paint(" ", Default) + Paint("baz", UnderlineStyle)
  {
    MultipleMiddleMeans(res);
    ResolvesBold(res);
    ComposeDefault(BoldStyle);
    DenoteStyledText(res, "bold", "foo", Default, BoldStyle);
    DenoteOnto(res, Styled("bold", [Text("foo")]), [Text(" ")] + ([Styled("fg:red", [Text("bar")])] + [Text(" "), Styled("underline", [Text("baz")])]), Default, Paint("foo", BoldStyle),
               Paint(" ", Default) + (Paint("bar", RedStyle) + (Paint(" ", Default) + Paint("baz", UnderlineStyle))));
    Associate(Paint("foo", BoldStyle), Paint(" ", Default), Paint("bar", RedStyle),
              Paint(" ", Default), Paint("baz", UnderlineStyle));
    MultipleSplits();
  }

  lemma EvaluateMultipleReplacements(res: Resolver)
    ensures Evaluate(res, "@{bold foo} @{fg:red bar} @{underline baz}")
            == Paint("foo", BoldStyle) + Paint(" ", Default) + Paint("bar", RedStyle)
            + Paint(" ", Default) + Paint("baz", UnderlineStyle)
  {
    MultipleRenders();
    MultipleMeans(res);
    FromTemplate(res, Multiple, "@{bold foo} @{fg:red bar} @{underline baz}", Paint("foo", BoldStyle) + Paint(" ", Default) + Paint("bar", RedStyle) + Paint(" ", Default) + Paint("baz", UnderlineStyle));
  }

  const Recursive: seq<Piece> :=
    [Styled("underline", [Text("foo "), Styled("fg:cyan", [Text("bar")])])]

  lemma RecursiveSplits()
    ensures Recursive == [Styled("underline", [Text("foo ")] + [Styled("fg:cyan", [Text("bar")])])]
  {
    assert [Text("foo ")] + [Styled("fg:cyan", [Text("bar")])] == [Text("foo "), Styled("fg:cyan", [Text("bar")])];
  }

  lemma RecursiveLiterals()
    ensures PlainDirective("fg:cyan", "bar", "@{fg:cyan bar}") && IsSpec("underline")
    ensures IsText("foo ")
  {
  }

  lemma RecursiveEscapes()
    ensures Escape("foo ") == "foo "
  {
    EscapePlain("foo ");
  }

  lemma RecursiveJoins()
    ensures "foo " + "@{fg:cyan bar}" == "foo @{fg:cyan bar}"
    ensures "@{" + "underline" + " " + "foo @{fg:cyan bar}" + "}" == "@{underline foo @{fg:cyan bar}}"
  {
  }

  lemma RecursiveRenders()
    ensures WellFormed(Recursive) && Render(Recursive, false) == "@{underline foo @{fg:cyan bar}}"
  {
    var cyan := Styled("fg:cyan", [Text("bar")]);
    var value := [Text("foo ")] + [cyan];
    RecursiveLiterals();
    RecursiveEscapes();
    RecursiveJoins();
    RenderPlainPiece("fg:cyan", "bar", true, "@{fg:cyan bar}");
    RenderOne(cyan, true);
    RenderOnto(Text("foo "), [cyan], true, "foo ", "@{fg:cyan bar}");
    RenderStyled("underline", value, "foo @{fg:cyan bar}", false, "@{underline foo @{fg:cyan bar}}");
    RenderOne(Styled("underline", value), false);
    RecursiveSplits();
  }

  lemma RecursiveMeans(res: Resolver)
    ensures Denote(res, Recursive, Default)
            == Paint("foo ", UnderlineStyle) + Paint("bar", Style({Underline}, Some(Cyan), None))
  {
    ResolvesUnderline(res);
    ResolvesCyan(res);
    ComposeDefault(UnderlineStyle);
    assert Compose(UnderlineStyle, CyanStyle) == Style({Underline}, Some(Cyan), None);
    DenoteStyledText(res, "fg:cyan", "bar", UnderlineStyle, CyanStyle);
    DenoteOne(res, Styled("fg:cyan", [Text("bar")]), UnderlineStyle);
    DenoteOnto(res, Text("foo "), [Styled("fg:cyan", [Text("bar")])], UnderlineStyle, Paint("foo ", UnderlineStyle),
               Paint("bar", Style({Underline}, Some(Cyan), None)));
    DenoteOne(res, Styled("underline", [Text("foo ")] + [Styled("fg:cyan", [Text("bar")])]), Default);
    RecursiveSplits();
  }

  lemma EvaluateRecursiveReplacements(res: Resolver)
    ensures Evaluate(res, "@{underline foo @{fg:cyan bar}}")
            == Paint("foo ", UnderlineStyle) + Paint("bar", Style({Underline}, Some(Cyan), None))
  {
    RecursiveRenders();
    RecursiveMeans(res);
    FromTemplate(res, Recursive, "@{underline foo @{fg:cyan bar}}", Paint("foo ", UnderlineStyle) + Paint("bar", Style({Underline}, Some(Cyan), None)));
  }

  lemma MissingValueSplits()
    ensures SplitBody("bold").None?
  {
    assert forall k :: 0 <= k < |"bold"| ==> !IsWhitespace("bold"[k]);
  }

  lemma MissingValueScan()
    ensures Match("bold" + "}", 1) == Some(|"bold"|)
  {
    MatchSkipsOrdinary("bold", "}", 1);
  }

  lemma MissingValueJoins()
    ensures "@{" + "bold" + "}" + "" == "@{bold}" && "@{" + "bold" + "}" == "@{bold}"
  {
  }

  lemma EvaluateMissingValue(res: Resolver)
    ensures Evaluate(res, "@{bold}") == Paint("@{bold}", Default)
  {
    MissingValueSplits();
    MissingValueScan();
    MissingValueJoins();
    NoValueIsLiteral(res, "bold", "", Default, false);
  }

  lemma EvaluateMissingTokens(res: Resolver)
    ensures Evaluate(res, "foo") == Paint("foo", Default)
  {
    PlainInput(res, "foo", Default);
  }

  const Placeholder: seq<Piece> :=
    [Styled("bold,fg:cyan", [Text("${foo}")])]

  lemma PlaceholderEscapes()
    ensures Escape("${foo}") == "${foo\\}"
  {
  }

  lemma PlaceholderLiterals()
    ensures IsSpec("bold,fg:cyan") && IsText("${foo}")
    ensures "@{" + "bold,fg:cyan" + " " + "${foo\\}" + "}" == "@{bold,fg:cyan ${foo\\}}"
  {
  }

  lemma PlaceholderRenders()
    ensures WellFormed(Placeholder) && Render(Placeholder, false) == "@{bold,fg:cyan ${foo\\}}"
  {
    PlaceholderEscapes();
    PlaceholderLiterals();
    RenderStyledText("bold,fg:cyan", "${foo}", "${foo\\}", false, "@{bold,fg:cyan ${foo\\}}");
    RenderOne(Styled("bold,fg:cyan", [Text("${foo}")]), false);
  }

  lemma PlaceholderMeans(res: Resolver)
    ensures Denote(res, Placeholder, Default)
            == Paint("${foo}", Style({Bold}, Some(Cyan), None))
  {
    ResolvesBoldCyan(res);
    ComposeDefault(Style({Bold}, Some(Cyan), None));
    DenoteDirective(res, "bold,fg:cyan", "${foo}", Default);
  }

  lemma EvaluatePlaceholderValue(res: Resolver)
    ensures Evaluate(res, "@{bold,fg:cyan ${foo\\}}")
            == Paint("${foo}", Style({Bold}, Some(Cyan), None))
  {
    PlaceholderRenders();
    PlaceholderMeans(res);
    FromTemplate(res, Placeholder, "@{bold,fg:cyan ${foo\\}}", Paint("${foo}", Style({Bold}, Some(Cyan), None)));
  }

  const StyleReference: seq<Piece> :=
    [Styled(".very-red", [Text("foo bar")])]

  lemma StyleReferenceLiterals()
    ensures PlainDirective(".very-red", "foo bar", "@{.very-red foo bar}")
  {
  }

  lemma StyleReferenceRenders()
    ensures WellFormed(StyleReference) && Render(StyleReference, false) == "@{.very-red foo bar}"
  {
    StyleReferenceLiterals();
    RenderPlainTemplate(".very-red", "foo bar", "@{.very-red foo bar}");
  }

  lemma StyleReferenceMeans(res: Resolver)
    requires res.group == "test"
    requires ("test", "very-red") in res.source && res.source[("test", "very-red")] == "bold,fg:red"
    ensures Denote(res, StyleReference, Default)
            == Paint("foo bar", Style({Bold}, Some(Red), None))
  {
    ResolvesVeryRed(res);
    ComposeDefault(Style({Bold}, Some(Red), None));
    DenoteDirective(res, ".very-red", "foo bar", Default);
  }

  lemma EvaluateWithStyleReference(res: Resolver)
    requires res.group == "test"
    requires ("test", "very-red") in res.source && res.source[("test", "very-red")] == "bold,fg:red"
    ensures Evaluate(res, "@{.very-red foo bar}")
            == Paint("foo bar", Style({Bold}, Some(Red), None))
  {
    StyleReferenceRenders();
    StyleReferenceMeans(res);
    FromTemplate(res, StyleReference, "@{.very-red foo bar}", Paint("foo bar", Style({Bold}, Some(Red), None)));
  }

  // Beyond the test cases: literal text may hold `@` and `\`, and a
  // misspelt token in a spec is skipped without disturbing the rest.

  const AtSign: seq<Piece> :=
    [Text("mail "), Styled("bold", [Text("user@host")]), Text(" in C:\\tmp")]

  lemma AtSignDirective()
    ensures PlainDirective("bold", "user@host", "@{bold user@host}")
  {
  }

  lemma AtSignTexts()
    ensures IsText("mail ") && IsText(" in C:\\tmp")
    ensures AtSign == [Text("mail ")] + ([Styled("bold", [Text("user@host")])] + [Text(" in C:\\tmp")])
  {
  }

  lemma AtSignJoins()
    ensures "@{bold user@host}" + " in C:\\tmp" == "@{bold user@host} in C:\\tmp"
  {
  }

  lemma AtSignOuterJoins()
    ensures "mail " + "@{bold user@host} in C:\\tmp" == "mail @{bold user@host} in C:\\tmp"
  {
  }

  lemma AtSignTextJoins()
    ensures "user@host" + " in C:\\tmp" == "user@host in C:\\tmp"
  {
  }

  lemma AtSignOuterTextJoins()
    ensures "mail " + "user@host in C:\\tmp" == "mail user@host in C:\\tmp"
  {
  }

  lemma AtSignRenders()
    ensures WellFormed(AtSign) && Render(AtSign, false) == "mail @{bold user@host} in C:\\tmp"
  {
    AtSignDirective();
    AtSignTexts();
    AtSignJoins();
    AtSignOuterJoins();
    RenderOne(Text(" in C:\\tmp"), false);
    RenderPlainPiece("bold", "user@host", false, "@{bold user@host}");
    RenderOnto(Styled("bold", [Text("user@host")]), [Text(" in C:\\tmp")], false, "@{bold user@host}", " in C:\\tmp");
    RenderOnto(Text("mail "), [Styled("bold", [Text("user@host")])] + [Text(" in C:\\tmp")], false, "mail ", "@{bold user@host} in C:\\tmp");
  }

  /** `@` inside a value and `\` at the top level are displayed as written. */
  lemma EvaluatedTextWithAtSign(res: Resolver)
    ensures Chars(Evaluate(res, "mail @{bold user@host} in C:\\tmp")) == "mail user@host in C:\\tmp"
  {
    AtSignRenders();
    EvaluatedText(res, AtSign);
    AtSignPlain();
  }

  lemma PlainTextOnto(p: Piece, ps: seq<Piece>, a: string, b: string)
    requires PiecePlainText(p) == a && PlainText(ps) == b
    ensures PlainText([p] + ps) == a + b
  {
    assert ([p] + ps)[1..] == ps;
  }

  lemma AtSignPlain()
    ensures PlainText(AtSign) == "mail user@host in C:\\tmp"
  {
    AtSignTexts();
    AtSignTextJoins();
    AtSignOuterTextJoins();
    PlainTextOnto(Text(" in C:\\tmp"), [], " in C:\\tmp", "");
    assert [Text(" in C:\\tmp")] + [] == [Text(" in C:\\tmp")] && " in C:\\tmp" + "" == " in C:\\tmp";
    PlainTextOnto(Styled("bold", [Text("user@host")]), [Text(" in C:\\tmp")], "user@host", " in C:\\tmp");
    PlainTextOnto(Text("mail "), [Styled("bold", [Text("user@host")])] + [Text(" in C:\\tmp")], "mail ", "user@host in C:\\tmp");
  }

  lemma TypoLiterals()
    ensures ',' !in "blod" && ':' !in "blod" && "blod"[0] != '.' && ParseAttr("blod").None?
    ensures "blod" + "," + "fg:red" == "blod,fg:red"
  {
  }

  /** A misspelt attribute is skipped and the colour after it still applies. */
  lemma ResolvesTypo(res: Resolver)
    ensures Resolve(res, "blod,fg:red") == RedStyle
  {
    TypoLiterals();
    ResolveUnknownAttribute(res, "blod");
    IgnoredTokenKeepsRest(res, "blod", "fg:red");
    ResolvesRed(res);
  }
}
