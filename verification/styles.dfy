/** The style a character is painted with: a set of boolean attributes and an
    optional foreground and background colour, plus the composition rule used
    when a directive is nested inside another. */
module Styles {
  import opened Optional
  import opened Strings

  /** The boolean display attributes a style can switch on. */
  datatype Attr = Bold | Faint | Italic | Underline | Blink | Inverse | Hidden | Strikethrough

  /** The eight named terminal colours and the 256-entry indexed palette. */
  datatype Color = Black | Red | Green | Yellow | Blue | Magenta | Cyan | White
                 | Indexed(index: nat)

  /** A palette index must address one of the 256 palette entries. */
  predicate ValidColor(c: Color) {
    c.Indexed? ==> c.index < 256
  }

  datatype Style = Style(attrs: set<Attr>, fg: Option<Color>, bg: Option<Color>)

  /** No attribute, no colour: the style of text outside every directive. */
  const Default := Style({}, None, None)

  /** Inner directive laid over the ambient (outer) style: attributes accumulate,
      and a colour the inner style sets replaces the outer one. */
  function Compose(outer: Style, inner: Style): (r: Style)
    ensures forall x :: x in r.attrs <==> x in outer.attrs || x in inner.attrs
    ensures inner.fg.Some? ==> r.fg == inner.fg
    ensures inner.fg.None? ==> r.fg == outer.fg
    ensures inner.bg.Some? ==> r.bg == inner.bg
    ensures inner.bg.None? ==> r.bg == outer.bg
  {
    Style(outer.attrs + inner.attrs,
          if inner.fg.Some? then inner.fg else outer.fg,
          if inner.bg.Some? then inner.bg else outer.bg)
  }

  /** `s` keeps everything `ambient` has switched on: its attributes and whether
      each colour is set. */
  predicate Extends(s: Style, ambient: Style) {
    ambient.attrs <= s.attrs && (ambient.fg.Some? ==> s.fg.Some?) && (ambient.bg.Some? ==> s.bg.Some?)
  }

  lemma ComposeExtends(outer: Style, inner: Style)
    ensures Extends(Compose(outer, inner), outer)
    ensures inner.attrs <= Compose(outer, inner).attrs
  {
  }

  lemma ExtendsTransitive(a: Style, b: Style, c: Style)
    requires Extends(a, b) && Extends(b, c)
    ensures Extends(a, c)
  {
  }

  /** Nesting is associative, so a chain of directives has one composed style
      however it is grouped. */
  lemma ComposeAssociative(a: Style, b: Style, c: Style)
    ensures Compose(Compose(a, b), c) == Compose(a, Compose(b, c))
  {
  }

  /** The default style is neutral on both sides of composition. */
  lemma ComposeDefault(s: Style)
    ensures Compose(Default, s) == s && Compose(s, Default) == s
  {
  }

  /** The spec-token name of each attribute. */
  function AttrName(a: Attr): string {
    match a
    case Bold => "bold"
    case Faint => "faint"
    case Italic => "italic"
    case Underline => "underline"
    case Blink => "blink"
    case Inverse => "inverse"
    case Hidden => "hidden"
    case Strikethrough => "strikethrough"
  }

  /** The attribute a spec token names; None for an unknown name. */
  function ParseAttr(name: string): (r: Option<Attr>)
    ensures r.Some? ==> AttrName(r.value) == name
    ensures forall a :: AttrName(a) == name ==> r == Some(a)
  {
    if name == "bold" then Some(Bold)
    else if name == "faint" then Some(Faint)
    else if name == "italic" then Some(Italic)
    else if name == "underline" then Some(Underline)
    else if name == "blink" then Some(Blink)
    else if name == "inverse" then Some(Inverse)
    else if name == "hidden" then Some(Hidden)
    else if name == "strikethrough" then Some(Strikethrough)
    else None
  }

  /** The spec spelling of each colour: its name, or the palette index in decimal. */
  function ColorName(c: Color): string {
    match c
    case Black => "black"
    case Red => "red"
    case Green => "green"
    case Yellow => "yellow"
    case Blue => "blue"
    case Magenta => "magenta"
    case Cyan => "cyan"
    case White => "white"
    case Indexed(n) => DecimalString(n)
  }

  /** The colour a `fg:`/`bg:` token names; None for an unknown name or an
      index outside the palette. */
  function ParseColor(name: string): (r: Option<Color>)
    ensures r.Some? ==> ValidColor(r.value)
  {
    if name == "black" then Some(Black)
    else if name == "red" then Some(Red)
    else if name == "green" then Some(Green)
    else if name == "yellow" then Some(Yellow)
    else if name == "blue" then Some(Blue)
    else if name == "magenta" then Some(Magenta)
    else if name == "cyan" then Some(Cyan)
    else if name == "white" then Some(White)
    else match ParseDecimal(name)
      case Some(n) => if n < 256 then Some(Indexed(n)) else None
      case None => None
  }

  /** Every valid colour is read back from its own spelling. */
  lemma ColorNameRoundTrip(c: Color)
    requires ValidColor(c)
    ensures ParseColor(ColorName(c)) == Some(c)
  {
    if c.Indexed? {
      var s := DecimalString(c.index);
      DecimalRoundTrip(c.index);
      assert IsDigit(s[0]);
      assert s != "black" && s != "red" && s != "green" && s != "yellow" by {
        assert s[0] != 'b' && s[0] != 'r' && s[0] != 'g' && s[0] != 'y';
      }
      assert s != "blue" && s != "magenta" && s != "cyan" && s != "white" by {
        assert s[0] != 'b' && s[0] != 'm' && s[0] != 'c' && s[0] != 'w';
      }
    }
  }
}
