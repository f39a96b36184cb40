/**
  The style context threaded top-down through the tree: the set of active fonts,
  the foreground colour and the justification of multi-line blocks, and the one
  way a node may change it for its children.
 */
module Fonts {

  datatype Style = BoldFace | ItalicsFace | TeletypeFace | SansSerifFace | RomanFace

  datatype Justify = Left | Center | Right

  /** The keys of the context dictionary that nodes read: 'font', 'colour', 'justify'. */
  datatype Context = Context(font: set<Style>, colour: string, justify: Justify)

  /** The second argument of `apply_config`: which key to overwrite, and with what. */
  datatype Update = SetFont(style: Style) | SetColour(colour: string)

  /** The styles that setting `s` discards from the font set. */
  function Displaced(s: Style): set<Style> {
    (if s in {ItalicsFace, SansSerifFace, TeletypeFace, RomanFace} then {BoldFace} else {})
    + (if s in {RomanFace, SansSerifFace, TeletypeFace} then {ItalicsFace} else {})
    + (if s in {SansSerifFace, TeletypeFace} then {RomanFace} else {})
  }

  /**
    The font-combination rule: add `s` to a copy of the set, then discard bold,
    italics and roman in turn when `s` overrides them.
   */
  function AddStyle(font: set<Style>, s: Style): (r: set<Style>)
    ensures s in r
    ensures s in {ItalicsFace, SansSerifFace, TeletypeFace, RomanFace} ==> BoldFace !in r
    ensures s in {RomanFace, SansSerifFace, TeletypeFace} ==> ItalicsFace !in r
    ensures s in {SansSerifFace, TeletypeFace} ==> RomanFace !in r
    ensures forall t :: t != s ==> (t in r <==> t in font && t !in Displaced(s))
  {
    var added := font + {s};
    var noBold := if s in {ItalicsFace, SansSerifFace, TeletypeFace, RomanFace} then added - {BoldFace} else added;
    var noItalics := if s in {RomanFace, SansSerifFace, TeletypeFace} then noBold - {ItalicsFace} else noBold;
    if s in {SansSerifFace, TeletypeFace} then noItalics - {RomanFace} else noItalics
  }

  /**
    The context a node hands its children: a copy of `ctx` with one key replaced.
    A font update goes through the combination rule; any other key is overwritten.
   */
  function Updated(ctx: Context, u: Update): (r: Context)
    ensures u.SetFont? ==> r.font == AddStyle(ctx.font, u.style) && r.colour == ctx.colour
    ensures u.SetColour? ==> r.colour == u.colour && r.font == ctx.font
    ensures r.justify == ctx.justify
  {
    match u
    case SetFont(s) => ctx.(font := AddStyle(ctx.font, s))
    case SetColour(c) => ctx.(colour := c)
  }

  /** At least one of the glyph styles that decide the upright/slanted shape is active. */
  predicate Grounded(font: set<Style>) {
    ItalicsFace in font || RomanFace in font || SansSerifFace in font || TeletypeFace in font
  }

  /** No update can take away every glyph style: each one either adds one or leaves the set alone. */
  lemma UpdateKeepsGrounded(ctx: Context, u: Update)
    requires Grounded(ctx.font)
    ensures Grounded(Updated(ctx, u).font)
  {
  }

  /** Adding bold never removes anything; adding a glyph style keeps every style it does not displace. */
  lemma AddBoldOnlyAdds(font: set<Style>)
    ensures AddStyle(font, BoldFace) == font + {BoldFace}
  {
  }
}
