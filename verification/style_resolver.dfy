/** Resolution of a style spec — a comma-separated list of attribute names,
    `fg:<color>`/`bg:<color>` tokens and `.name`/`.name:-default` references —
    into a Style. References are looked up in a read-only registry keyed by
    (group, name); the resolver is bound to one group. */
module StyleResolver {
  import opened Optional
  import opened Strings
  import opened Styles

  /** The named-style registry: (group, name) to spec string. */
  type Registry = map<(string, string), string>

  /** A resolver bound to a registry and the group its references are looked up in. */
  datatype Resolver = Resolver(source: Registry, group: string)

  /** Resolves `spec` from the empty style. */
  function Resolve(res: Resolver, spec: string): Style {
    Apply(res.source, res.group, Default, spec)
  }

  /** Folds the tokens of `spec`, left to right, into the accumulator `acc`. */
  function Apply(reg: Registry, group: string, acc: Style, spec: string): Style
    decreases |reg|, |spec|, 1
  {
    match IndexOf(spec, ',')
    case None => ApplyToken(reg, group, acc, spec)
    case Some(i) => Apply(reg, group, ApplyToken(reg, group, acc, spec[..i]), spec[i + 1..])
  }

  /** The effect of one token. Unknown names, unknown colours and missing
      references without a default change nothing. */
  function ApplyToken(reg: Registry, group: string, acc: Style, token: string): Style
    decreases |reg|, |token|, 0
  {
    if |token| > 0 && token[0] == '.' then
      ApplyReference(reg, group, acc, token[1..])
    else match IndexOf(token, ':')
      case Some(i) => ApplyColor(acc, token[..i], token[i + 1..])
      case None =>
        match ParseAttr(token)
        case Some(a) => acc.(attrs := acc.attrs + {a})
        case None => acc
  }

  /** A `fg:`/`bg:` token sets that colour; any other mode is ignored. */
  function ApplyColor(acc: Style, mode: string, name: string): (r: Style)
    ensures r.attrs == acc.attrs
    ensures mode != "bg" ==> r.bg == acc.bg
    ensures mode != "fg" ==> r.fg == acc.fg
    ensures ParseColor(name).None? ==> r == acc
    ensures mode == "fg" && ParseColor(name).Some? ==> r.fg == ParseColor(name)
    ensures mode == "bg" && ParseColor(name).Some? ==> r.bg == ParseColor(name)
  {
    match ParseColor(name)
    case None => acc
    case Some(c) =>
      if mode == "fg" then acc.(fg := Some(c))
      else if mode == "bg" then acc.(bg := Some(c))
      else acc
  }

  /** Splits a reference `name` or `name:-default` at the first `:-`. */
  function SplitDefault(reference: string): (r: (string, Option<string>))
    ensures r.1.None? ==> r.0 == reference
    ensures r.1.Some? ==> reference == r.0 + ":-" + r.1.value
    ensures forall k :: 0 <= k < |r.0| ==> !PairAt(r.0, k, ':', '-')
  {
    match IndexOfPair(reference, ':', '-')
    case None => (reference, None)
    case Some(i) =>
      assert reference == reference[..i] + ":-" + reference[i + 2..];
      assert forall k :: 0 <= k < i ==> (PairAt(reference[..i], k, ':', '-') ==> PairAt(reference, k, ':', '-'));
      (reference[..i], Some(reference[i + 2..]))
  }

  /** A reference to a registered name applies the registered spec; the name is
      withdrawn from the registry while that spec is resolved, so a reference
      cycle ends in the unregistered case. An unregistered name applies the
      default spec if one is given, and otherwise changes nothing. */
  function ApplyReference(reg: Registry, group: string, acc: Style, reference: string): Style
    decreases |reg|, |reference|, 0
  {
    var (name, default) := SplitDefault(reference);
    if (group, name) in reg then
      var rest := reg - {(group, name)};
      assert rest.Keys == reg.Keys - {(group, name)};
      Apply(rest, group, acc, reg[(group, name)])
    else match default
      case Some(d) => Apply(reg, group, acc, d)
      case None => acc
  }

  /** Folding a spec into an accumulator is the same as composing the
      accumulator with the spec resolved on its own. */
  lemma {:induction false} ApplyIsCompose(reg: Registry, group: string, acc: Style, spec: string)
    ensures Apply(reg, group, acc, spec) == Compose(acc, Apply(reg, group, Default, spec))
    decreases |reg|, |spec|, 1
  {
    match IndexOf(spec, ',')
    case None =>
      TokenIsCompose(reg, group, acc, spec);
    case Some(i) =>
      var t, rest := spec[..i], spec[i + 1..];
      var a, d := ApplyToken(reg, group, acc, t), ApplyToken(reg, group, Default, t);
      ApplyIsCompose(reg, group, a, rest);
      TokenIsCompose(reg, group, acc, t);
      ApplyIsCompose(reg, group, d, rest);
      ComposeAssociative(acc, d, Apply(reg, group, Default, rest));
  }

  lemma {:induction false} TokenIsCompose(reg: Registry, group: string, acc: Style, token: string)
    ensures ApplyToken(reg, group, acc, token) == Compose(acc, ApplyToken(reg, group, Default, token))
    decreases |reg|, |token|, 0
  {
    if |token| > 0 && token[0] == '.' {
      ReferenceIsCompose(reg, group, acc, token[1..]);
    }
  }

  lemma {:induction false} ReferenceIsCompose(reg: Registry, group: string, acc: Style, reference: string)
    ensures ApplyReference(reg, group, acc, reference)
            == Compose(acc, ApplyReference(reg, group, Default, reference))
    decreases |reg|, |reference|, 1
  {
    var (name, default) := SplitDefault(reference);
    if (group, name) in reg {
      var rest := reg - {(group, name)};
      assert rest.Keys == reg.Keys - {(group, name)};
      ApplyIsCompose(rest, group, acc, reg[(group, name)]);
    } else if default.Some? {
      ApplyIsCompose(reg, group, acc, default.value);
    } else {
      ComposeDefault(acc);
    }
  }

  /** Joining two specs with a comma applies the first, then the second. */
  lemma {:induction false} ApplyConcat(reg: Registry, group: string, acc: Style, a: string, b: string)
    ensures Apply(reg, group, acc, a + "," + b) == Apply(reg, group, Apply(reg, group, acc, a), b)
    decreases |a|
  {
    var s := a + "," + b;
    match IndexOf(a, ',')
    case None =>
      assert s[..|a|] == a && s[|a| + 1..] == b;
      assert ',' !in s[..|a|] && s[|a|] == ',';
      IndexOfFirst(s, ',', |a|);
    case Some(i) =>
      assert s[..i] == a[..i] && s[i + 1..] == a[i + 1..] + "," + b;
      assert ',' !in s[..i] by { assert s[..i] == a[..i]; }
      IndexOfFirst(s, ',', i);
      ApplyConcat(reg, group, ApplyToken(reg, group, acc, a[..i]), a[i + 1..], b);
  }

  /** A comma-joined spec resolves to the composition of its two halves:
      later tokens add attributes and override colours. */
  lemma ResolveConcat(res: Resolver, a: string, b: string)
    ensures Resolve(res, a + "," + b) == Compose(Resolve(res, a), Resolve(res, b))
  {
    ApplyConcat(res.source, res.group, Default, a, b);
    ApplyIsCompose(res.source, res.group, Resolve(res, a), b);
  }

  /** A spec without a comma is a single token. */
  lemma ResolveSingleToken(res: Resolver, token: string)
    requires ',' !in token
    ensures Resolve(res, token) == ApplyToken(res.source, res.group, Default, token)
  {
    assert IndexOf(token, ',') == None;
  }

  /** The spec text of a reference token: `.name`, or `.name:-default`. */
  function ReferenceSpec(name: string, default: Option<string>): string {
    match default
    case None => "." + name
    case Some(d) => "." + name + ":-" + d
  }

  /** A name that can appear in a reference: no comma and no `:-`. The empty
      name is looked up like any other. */
  predicate IsReferenceName(name: string) {
    ',' !in name && forall k :: 0 <= k < |name| ==> !PairAt(name, k, ':', '-')
  }

  /** A registered reference resolves to its registered spec (resolved without
      that name); an unregistered one resolves to its default spec when it has
      one, and to the default style when it has none. */
  lemma ResolveReference(res: Resolver, name: string, default: Option<string>)
    requires IsReferenceName(name)
    requires default.Some? ==> ',' !in default.value
    ensures var key := (res.group, name);
            Resolve(res, ReferenceSpec(name, default)) ==
              if key in res.source then Resolve(Resolver(res.source - {key}, res.group), res.source[key])
              else if default.Some? then Resolve(res, default.value)
              else Default
  {
    var spec := ReferenceSpec(name, default);
    var reference := spec[1..];
    assert ',' !in spec by {
      if default.Some? {
        assert spec == "." + name + ":-" + default.value;
        assert forall k :: |name| + 3 <= k < |spec| ==> spec[k] == default.value[k - |name| - 3];
      }
    }
    assert spec[0] == '.';
    ResolveSingleToken(res, spec);
    match default
    case None =>
      assert reference == name;
      assert SplitDefault(reference) == (name, None);
    case Some(d) =>
      assert reference == name + ":-" + d;
      assert reference[..|name|] == name && reference[|name| + 2..] == d;
      assert forall k :: 0 <= k < |name| - 1 ==> (PairAt(reference, k, ':', '-') <==> PairAt(name, k, ':', '-'));
      IndexOfPairFirst(reference, ':', '-', |name|);
  }

  /** A reference's default spec ends at the next comma: what follows it is
      the rest of the enclosing spec and applies whether or not the name is
      registered. */
  lemma ReferenceDefaultEndsAtComma(res: Resolver, name: string, default: string, rest: string)
    ensures Resolve(res, ReferenceSpec(name, Some(default)) + "," + rest)
            == Compose(Resolve(res, ReferenceSpec(name, Some(default))), Resolve(res, rest))
  {
    ResolveConcat(res, ReferenceSpec(name, Some(default)), rest);
  }

  /** An attribute name on its own switches on exactly that attribute. */
  lemma ResolveAttribute(res: Resolver, a: Attr)
    ensures Resolve(res, AttrName(a)) == Style({a}, None, None)
  {
    var n := AttrName(a);
    assert ',' !in n && ':' !in n && n[0] != '.' by {
      match a
      case Bold => case Faint => case Italic => case Underline =>
      case Blink => case Inverse => case Hidden => case Strikethrough =>
    }
    ResolveSingleToken(res, n);
    assert IndexOf(n, ':') == None;
    assert ParseAttr(n) == Some(a);
  }

  /** `fg:<color>` and `bg:<color>` on their own set exactly that colour. */
  lemma ResolveColor(res: Resolver, c: Color)
    requires ValidColor(c)
    ensures Resolve(res, "fg:" + ColorName(c)) == Style({}, Some(c), None)
    ensures Resolve(res, "bg:" + ColorName(c)) == Style({}, None, Some(c))
  {
    var name := ColorName(c);
    ColorNameRoundTrip(c);
    assert ',' !in name && ':' !in name by {
      if c.Indexed? {
        assert forall k :: 0 <= k < |name| ==> IsDigit(name[k]);
      }
    }
    ColorToken(res, "fg", name);
    ColorToken(res, "bg", name);
    assert "fg:" + name == "fg" + ":" + name;
    assert "bg:" + name == "bg" + ":" + name;
  }

  lemma ColorToken(res: Resolver, mode: string, name: string)
    requires (|mode| == 0 || mode[0] != '.') && ':' !in mode && ',' !in mode && ',' !in name
    ensures Resolve(res, mode + ":" + name) == ApplyColor(Default, mode, name)
  {
    var spec := mode + ":" + name;
    assert spec[..|mode|] == mode && spec[|mode| + 1..] == name;
    assert ',' !in spec by {
      assert forall k :: 0 <= k < |mode| ==> spec[k] == mode[k];
      assert forall k :: |mode| + 1 <= k < |spec| ==> spec[k] == name[k - |mode| - 1];
    }
    assert spec[0] != '.' by {
      if |mode| == 0 { assert spec[0] == ':'; } else { assert spec[0] == mode[0]; }
    }
    IndexOfFirst(spec, ':', |mode|);
    ResolveSingleToken(res, spec);
  }

  /** A token that is not a reference, has no colon and names no attribute
      changes nothing. */
  lemma ResolveUnknownAttribute(res: Resolver, token: string)
    requires ',' !in token && ':' !in token && (|token| == 0 || token[0] != '.')
    requires ParseAttr(token).None?
    ensures Resolve(res, token) == Default
  {
    ResolveSingleToken(res, token);
    assert IndexOf(token, ':') == None;
  }

  /** A colour token changes nothing when its mode is neither `fg` nor `bg`, or
      when its colour is not one the resolver knows. */
  lemma ResolveUnknownColor(res: Resolver, mode: string, name: string)
    requires (|mode| == 0 || mode[0] != '.') && ':' !in mode && ',' !in mode && ',' !in name
    requires (mode != "fg" && mode != "bg") || ParseColor(name).None?
    ensures Resolve(res, mode + ":" + name) == Default
  {
    ColorToken(res, mode, name);
  }

  /** A token that changes nothing on its own leaves the effect of the rest of
      the spec intact, on either side of it. */
  lemma IgnoredTokenKeepsRest(res: Resolver, token: string, rest: string)
    requires Resolve(res, token) == Default
    ensures Resolve(res, token + "," + rest) == Resolve(res, rest)
    ensures Resolve(res, rest + "," + token) == Resolve(res, rest)
  {
    ResolveConcat(res, token, rest);
    ResolveConcat(res, rest, token);
    ComposeDefault(Resolve(res, rest));
  }
}
