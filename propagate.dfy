/**
  Configuration propagation (`apply_config`): one top-down pass in which every node
  stores the context it receives, may first rewrite its own child in place by wrapping
  it in implicit font nodes, and hands its children an updated copy of the context.
  The in-place rewrite is modelled as a rebuild: `Propagate` returns the configured tree.
 */
module Configuration {
  import opened Fonts
  import opened Ast
  import opened Strings
  import opened Substitution

  /** A font node around `x`. */
  function StyleNode(s: Style, x: Expr): Expr {
    match s
    case BoldFace => Bold(x)
    case ItalicsFace => Italics(x)
    case TeletypeFace => Teletype(x)
    case SansSerifFace => SansSerif(x)
    case RomanFace => Roman(x)
  }

  /** `x` wrapped in the given styles, the first one innermost. */
  function WrapIn(x: Expr, styles: seq<Style>): Expr
    decreases |styles|
  {
    if styles == [] then x else StyleNode(styles[|styles| - 1], WrapIn(x, styles[..|styles| - 1]))
  }

  /** The styles of `order` that are active in `font`, in the order of `order`. */
  function Filter(order: seq<Style>, font: set<Style>): (r: seq<Style>)
    ensures forall s :: s in r <==> s in order && s in font
    ensures |r| <= |order|
  {
    if order == [] then []
    else (if order[0] in font then [order[0]] else []) + Filter(order[1..], font)
  }

  /**
    The styles a font node may wrap its child in before it sets its own, innermost
    first: italics re-applies bold; teletype and sans-serif re-apply bold, italics and
    roman; roman re-applies bold and italics unless roman is already active.
   */
  function ImplicitOrder(e: Expr, font: set<Style>): seq<Style> {
    match e
    case Italics(_) => [BoldFace]
    case Teletype(_) => [BoldFace, ItalicsFace, RomanFace]
    case SansSerif(_) => [BoldFace, ItalicsFace, RomanFace]
    case Roman(_) => if RomanFace in font then [] else [BoldFace, ItalicsFace]
    case _ => []
  }

  /** A cost that every rewrite-then-descend step decreases: an implicit wrapper is cheaper than the node that adds it. */
  function Weight(e: Expr): nat {
    match e
    case Text(_) => 1
    case Concat(l, r) => 1 + Weight(l) + Weight(r)
    case Bold(b) => 1 + Weight(b)
    case Italics(b) => 3 + Weight(b)
    case Roman(b) => 5 + Weight(b)
    case Teletype(b) => 10 + Weight(b)
    case SansSerif(b) => 10 + Weight(b)
    case Colour(_, b) => 1 + Weight(b)
    case Big(b) => 1 + Weight(b)
    case Smol(b) => 1 + Weight(b)
    case MultilineHeader(b) => 1 + Weight(b)
    case LineJoin(l, r) => 1 + Weight(l) + Weight(r)
    case Paren(b) => 1 + Weight(b)
  }

  /** What `Weight` charges for a font node of style `s`. */
  function Cost(s: Style): nat {
    match s
    case BoldFace => 1
    case ItalicsFace => 3
    case RomanFace => 5
    case TeletypeFace => 10
    case SansSerifFace => 10
  }

  function IfWrap(cond: bool, s: Style, x: Expr): (r: Expr)
    ensures Weight(r) <= Weight(x) + Cost(s)
  {
    if cond then StyleNode(s, x) else x
  }

  /**
    The in-place child rewrite a node performs on receiving a context with font set
    `font`, written as the source's sequence of conditional wraps.
   */
  function Rewrite(e: Expr, font: set<Style>): (r: Expr)
    ensures e.Italics? ==> r.Italics? && Weight(r.body) < Weight(e)
    ensures e.Teletype? ==> r.Teletype? && Weight(r.body) < Weight(e)
    ensures e.SansSerif? ==> r.SansSerif? && Weight(r.body) < Weight(e)
    ensures e.Roman? ==> r.Roman? && Weight(r.body) < Weight(e)
    ensures e.Roman? && RomanFace in font ==> r == e
    ensures !(e.Italics? || e.Teletype? || e.SansSerif? || e.Roman?) ==> r == e
  {
    match e
    case Italics(b) => Italics(IfWrap(BoldFace in font, BoldFace, b))
    case Teletype(b) =>
      Teletype(IfWrap(RomanFace in font, RomanFace, IfWrap(ItalicsFace in font, ItalicsFace, IfWrap(BoldFace in font, BoldFace, b))))
    case SansSerif(b) =>
      SansSerif(IfWrap(RomanFace in font, RomanFace, IfWrap(ItalicsFace in font, ItalicsFace, IfWrap(BoldFace in font, BoldFace, b))))
    case Roman(b) =>
      if RomanFace in font then e else Roman(IfWrap(ItalicsFace in font, ItalicsFace, IfWrap(BoldFace in font, BoldFace, b)))
    case _ => e
  }

  /** `e` with its font-node child replaced. */
  function WithBody(e: Expr, b: Expr): Expr
    requires e.Italics? || e.Teletype? || e.SansSerif? || e.Roman?
  {
    match e
    case Italics(_) => Italics(b)
    case Teletype(_) => Teletype(b)
    case SansSerif(_) => SansSerif(b)
    case Roman(_) => Roman(b)
  }

  /**
    The conditional wraps are exactly "wrap the child in each style of the node's
    implicit order that is active, in that order".
   */
  lemma RewriteIsFilteredWrap(e: Expr, font: set<Style>)
    requires e.Italics? || e.Teletype? || e.SansSerif? || e.Roman?
    ensures Rewrite(e, font) == WithBody(e, WrapIn(e.body, Filter(ImplicitOrder(e, font), font)))
  {
    var b := e.body;
    match e
    case Italics(_) =>
      WrapFiltered(b, [BoldFace], font);
    case Teletype(_) =>
      WrapFiltered(b, [BoldFace, ItalicsFace, RomanFace], font);
      UnfoldThree(b, font);
    case SansSerif(_) =>
      WrapFiltered(b, [BoldFace, ItalicsFace, RomanFace], font);
      UnfoldThree(b, font);
    case Roman(_) =>
      if RomanFace !in font {
        WrapFiltered(b, [BoldFace, ItalicsFace], font);
        assert [BoldFace, ItalicsFace][..1] == [BoldFace];
      }
  }

  lemma UnfoldThree(x: Expr, font: set<Style>)
    ensures IfWrapAll(x, [BoldFace, ItalicsFace, RomanFace], font)
         == IfWrap(RomanFace in font, RomanFace, IfWrap(ItalicsFace in font, ItalicsFace, IfWrap(BoldFace in font, BoldFace, x)))
  {
    assert [BoldFace, ItalicsFace, RomanFace][..2] == [BoldFace, ItalicsFace];
    assert [BoldFace, ItalicsFace][..1] == [BoldFace];
    assert [BoldFace][..0] == [];
  }

  /** Wrapping in the active styles of `order` is one conditional wrap per style, first innermost. */
  lemma {:induction false} WrapFiltered(x: Expr, order: seq<Style>, font: set<Style>)
    ensures WrapIn(x, Filter(order, font)) == IfWrapAll(x, order, font)
    decreases |order|
  {
    if order != [] {
      var init := order[..|order| - 1];
      var last := order[|order| - 1];
      FilterSnoc(init, last, font);
      assert order == init + [last];
      WrapFiltered(x, init, font);
      if last in font {
        var f := Filter(init, font) + [last];
        assert f[..|f| - 1] == Filter(init, font);
      } else {
        assert Filter(init, font) + [] == Filter(init, font);
      }
    }
  }

  /** The source's shape: a conditional wrap for each style of `order` in turn. */
  function IfWrapAll(x: Expr, order: seq<Style>, font: set<Style>): Expr
    decreases |order|
  {
    if order == [] then x
    else IfWrap(order[|order| - 1] in font, order[|order| - 1], IfWrapAll(x, order[..|order| - 1], font))
  }

  lemma {:induction false} FilterSnoc(init: seq<Style>, last: Style, font: set<Style>)
    ensures Filter(init + [last], font) == Filter(init, font) + (if last in font then [last] else [])
    decreases |init|
  {
    var whole := init + [last];
    if init == [] {
      assert whole == [last] && whole[1..] == [];
    } else {
      assert whole[0] == init[0] && whole[1..] == init[1..] + [last];
      FilterSnoc(init[1..], last, font);
      var head := if init[0] in font then [init[0]] else [];
      var tail := if last in font then [last] else [];
      calc {
        Filter(whole, font);
        head + Filter(init[1..] + [last], font);
        head + (Filter(init[1..], font) + tail);
        (head + Filter(init[1..], font)) + tail;
      }
    }
  }

  /** Italics re-applies bold exactly when bold is active. */
  lemma ItalicsWrapsBoldIff(b: Expr, font: set<Style>)
    ensures Rewrite(Italics(b), font) == Italics(Bold(b)) <==> BoldFace in font
  {
  }

  /**
    The command a `Paren` chooses from the context it receives, by priority
    sans-serif, teletype, roman, italics, bold, and otherwise a colour command.
   */
  function ParenCommand(ctx: Context): (c: string)
    ensures SansSerifFace in ctx.font ==> c == "mathsf"
    ensures SansSerifFace !in ctx.font && TeletypeFace in ctx.font ==> c == "mathtt"
    ensures SansSerifFace !in ctx.font && TeletypeFace !in ctx.font && RomanFace in ctx.font ==> c == "mathrm"
    ensures SansSerifFace !in ctx.font && TeletypeFace !in ctx.font && RomanFace !in ctx.font && ItalicsFace in ctx.font ==> c == "mathit"
    ensures !Grounded(ctx.font) && BoldFace in ctx.font ==> c == "mathbb"
    ensures !Grounded(ctx.font) && BoldFace !in ctx.font ==> c == "textcolor{" + ctx.colour + "}"
  {
    if SansSerifFace in ctx.font then "mathsf"
    else if TeletypeFace in ctx.font then "mathtt"
    else if RomanFace in ctx.font then "mathrm"
    else if ItalicsFace in ctx.font then "mathit"
    else if BoldFace in ctx.font then "mathbb"
    else "textcolor{" + ctx.colour + "}"
  }

  /** The colour a `Colour` node sets: its code rendered as text, upper-cased. */
  function ColourValue(table: Table, code: string): (v: string)
    ensures |v| == |TextEval(table, code)|
    ensures forall i :: 0 <= i < |v| ==> !('a' <= v[i] <= 'z')
  {
    Upper(TextEval(table, code))
  }

  /**
    `apply_config` on the whole subtree: every node stores `ctx`; font nodes first
    rewrite their child (a roman node under active roman neither rewrites nor changes
    the context); the context handed down is updated by the node's own style or colour.
   */
  function Propagate(e: Expr, ctx: Context, table: Table): (s: Styled)
    ensures s.ctx == ctx
    decreases Weight(e)
  {
    match e
    case Text(lit) => SText(ctx, lit)
    case Concat(l, r) => SConcat(ctx, Propagate(l, ctx, table), Propagate(r, ctx, table))
    case Bold(b) => SBold(ctx, Propagate(b, Updated(ctx, SetFont(BoldFace)), table))
    case Italics(_) =>
      SItalics(ctx, Propagate(Rewrite(e, ctx.font).body, Updated(ctx, SetFont(ItalicsFace)), table))
    case Teletype(_) =>
      STeletype(ctx, Propagate(Rewrite(e, ctx.font).body, Updated(ctx, SetFont(TeletypeFace)), table))
    case SansSerif(_) =>
      SSansSerif(ctx, Propagate(Rewrite(e, ctx.font).body, Updated(ctx, SetFont(SansSerifFace)), table))
    case Roman(b) =>
      if RomanFace in ctx.font then SRoman(ctx, Propagate(b, ctx, table))
      else SRoman(ctx, Propagate(Rewrite(e, ctx.font).body, Updated(ctx, SetFont(RomanFace)), table))
    case Colour(code, b) =>
      SColour(ctx, code, Propagate(b, Updated(ctx, SetColour(ColourValue(table, code))), table))
    case Big(b) => SBig(ctx, Propagate(b, ctx, table))
    case Smol(b) => SSmol(ctx, Propagate(b, ctx, table))
    case MultilineHeader(b) => SHeader(ctx, Propagate(b, ctx, table))
    case LineJoin(l, r) => SJoin(ctx, Propagate(l, ctx, table), Propagate(r, ctx, table))
    case Paren(b) => SParen(ctx, ParenCommand(ctx), Propagate(b, ctx, table))
  }

  /**
    Starting from a context with a glyph style, every context reached keeps one:
    each update either adds a style or sets the colour.
   */
  lemma {:induction false} PropagateGrounded(e: Expr, ctx: Context, table: Table)
    requires Grounded(ctx.font)
    ensures AllGrounded(Propagate(e, ctx, table))
    ensures ParensAmong(Propagate(e, ctx, table), GlyphCommands)
    decreases Weight(e)
  {
    match e
    case Text(_) =>
    case Concat(l, r) =>
      PropagateGrounded(l, ctx, table);
      PropagateGrounded(r, ctx, table);
    case LineJoin(l, r) =>
      PropagateGrounded(l, ctx, table);
      PropagateGrounded(r, ctx, table);
    case Bold(b) =>
      UpdateKeepsGrounded(ctx, SetFont(BoldFace));
      PropagateGrounded(b, Updated(ctx, SetFont(BoldFace)), table);
    case Italics(_) =>
      PropagateGrounded(Rewrite(e, ctx.font).body, Updated(ctx, SetFont(ItalicsFace)), table);
    case Teletype(_) =>
      PropagateGrounded(Rewrite(e, ctx.font).body, Updated(ctx, SetFont(TeletypeFace)), table);
    case SansSerif(_) =>
      PropagateGrounded(Rewrite(e, ctx.font).body, Updated(ctx, SetFont(SansSerifFace)), table);
    case Roman(b) =>
      if RomanFace in ctx.font {
        PropagateGrounded(b, ctx, table);
      } else {
        PropagateGrounded(Rewrite(e, ctx.font).body, Updated(ctx, SetFont(RomanFace)), table);
      }
    case Colour(code, b) =>
      PropagateGrounded(b, Updated(ctx, SetColour(ColourValue(table, code))), table);
    case Big(b) => PropagateGrounded(b, ctx, table);
    case Smol(b) => PropagateGrounded(b, ctx, table);
    case MultilineHeader(b) => PropagateGrounded(b, ctx, table);
    case Paren(b) => PropagateGrounded(b, ctx, table);
  }

  /** The font commands a `Paren` can choose when its context has a glyph style. */
  const GlyphCommands: set<string> := {"mathsf", "mathtt", "mathrm", "mathit"}

  lemma IfWrapPlain(cond: bool, st: Style, x: Expr)
    requires Plain(x)
    ensures Plain(IfWrap(cond, st, x))
  {
  }

  /** Rewriting wraps a renderable child in font nodes, so it stays renderable. */
  lemma RewriteKeepsPlain(e: Expr, font: set<Style>)
    requires e.Italics? || e.Teletype? || e.SansSerif? || e.Roman?
    requires Plain(e.body)
    ensures Plain(Rewrite(e, font).body)
  {
  }

  /**
    Propagation keeps the tree's shape: a renderable tree stays renderable and a
    line-join chain stays a chain.
   */
  lemma {:induction false} PropagateKeepsShape(e: Expr, ctx: Context, table: Table)
    ensures Plain(e) ==> StyledPlain(Propagate(e, ctx, table))
    ensures Chain(e) ==> StyledChain(Propagate(e, ctx, table))
    decreases Weight(e)
  {
    match e
    case Text(_) =>
    case Concat(l, r) =>
      PropagateKeepsShape(l, ctx, table);
      PropagateKeepsShape(r, ctx, table);
    case LineJoin(l, r) =>
      PropagateKeepsShape(l, ctx, table);
      PropagateKeepsShape(r, ctx, table);
    case Bold(b) => PropagateKeepsShape(b, Updated(ctx, SetFont(BoldFace)), table);
    case Italics(b) =>
      if Plain(b) { RewriteKeepsPlain(e, ctx.font); }
      PropagateKeepsShape(Rewrite(e, ctx.font).body, Updated(ctx, SetFont(ItalicsFace)), table);
    case Teletype(b) =>
      if Plain(b) { RewriteKeepsPlain(e, ctx.font); }
      PropagateKeepsShape(Rewrite(e, ctx.font).body, Updated(ctx, SetFont(TeletypeFace)), table);
    case SansSerif(b) =>
      if Plain(b) { RewriteKeepsPlain(e, ctx.font); }
      PropagateKeepsShape(Rewrite(e, ctx.font).body, Updated(ctx, SetFont(SansSerifFace)), table);
    case Roman(b) =>
      if RomanFace in ctx.font {
        PropagateKeepsShape(b, ctx, table);
      } else {
        if Plain(b) { RewriteKeepsPlain(e, ctx.font); }
        PropagateKeepsShape(Rewrite(e, ctx.font).body, Updated(ctx, SetFont(RomanFace)), table);
      }
    case Colour(code, b) =>
      PropagateKeepsShape(b, Updated(ctx, SetColour(ColourValue(table, code))), table);
    case Big(b) => PropagateKeepsShape(b, ctx, table);
    case Smol(b) => PropagateKeepsShape(b, ctx, table);
    case MultilineHeader(b) => PropagateKeepsShape(b, ctx, table);
    case Paren(b) => PropagateKeepsShape(b, ctx, table);
  }

  // ----- no active style is lost -----

  function Count(b: bool): nat {
    if b then 1 else 0
  }

  /** `{s}` when `b` holds, otherwise nothing. */
  function Opt(b: bool, s: Style): set<Style> {
    if b then {s} else {}
  }

  /**
    How many font nodes a font node of style `s` becomes on receiving the font set
    `font`: itself, and one per style its rewrite re-applies.
   */
  function Layers(s: Style, font: set<Style>): nat {
    match s
    case BoldFace => 1
    case ItalicsFace => 1 + Count(BoldFace in font)
    case TeletypeFace => 1 + (Count(RomanFace in font) + Count(ItalicsFace in font) + Count(BoldFace in font))
    case SansSerifFace => 1 + (Count(RomanFace in font) + Count(ItalicsFace in font) + Count(BoldFace in font))
    case RomanFace =>
      if RomanFace in font then 1 else 1 + (Count(ItalicsFace in font) + Count(BoldFace in font))
  }

  lemma DescendFont(s: Styled, k: nat)
    requires IsFontNode(s)
    ensures Descend(s, k + 1) == Descend(s.body, k)
  {
  }

  /** Descending `j` then `k` font nodes is descending `j + k`. */
  lemma {:induction false} DescendAdd(s: Styled, j: nat, k: nat)
    ensures Descend(s, j + k) == Descend(Descend(s, j), k)
    decreases j
  {
    if j > 0 && IsFontNode(s) {
      DescendAdd(s.body, j - 1, k);
    }
  }

  /** An implicit bold adds bold to what the content sees. */
  lemma ReapplyBold(x: Expr, c: Context, bold: bool, table: Table)
    ensures Descend(Propagate(IfWrap(bold, BoldFace, x), c, table), Count(bold))
         == Propagate(x, c.(font := c.font + Opt(bold, BoldFace)), table)
  {
    if bold {
      AddBoldOnlyAdds(c.font);
      var inner := Propagate(x, Updated(c, SetFont(BoldFace)), table);
      assert Propagate(Bold(x), c, table) == SBold(c, inner);
      DescendFont(SBold(c, inner), 0);
    } else {
      assert c.(font := c.font + {}) == c;
    }
  }

  /** Implicit italics then bold, with bold inactive, add exactly those styles. */
  lemma ReapplyItalics(x: Expr, c: Context, italics: bool, bold: bool, table: Table)
    requires BoldFace !in c.font
    ensures Descend(Propagate(IfWrap(italics, ItalicsFace, IfWrap(bold, BoldFace, x)), c, table), Count(italics) + Count(bold))
         == Propagate(x, c.(font := c.font + Opt(italics, ItalicsFace) + Opt(bold, BoldFace)), table)
  {
    var y := IfWrap(bold, BoldFace, x);
    if italics {
      var c1 := Updated(c, SetFont(ItalicsFace));
      assert c1.font == c.font + {ItalicsFace};
      assert Rewrite(Italics(y), c.font).body == y;
      var inner := Propagate(y, c1, table);
      assert Propagate(Italics(y), c, table) == SItalics(c, inner);
      DescendFont(SItalics(c, inner), Count(bold));
      ReapplyBold(x, c1, bold, table);
    } else {
      ReapplyBold(x, c, bold, table);
      assert c.font + {} + Opt(bold, BoldFace) == c.font + Opt(bold, BoldFace);
    }
  }

  /** Implicit roman, italics and bold, over a set without them, add exactly those styles. */
  lemma ReapplyRoman(x: Expr, c: Context, roman: bool, italics: bool, bold: bool, table: Table)
    requires BoldFace !in c.font && ItalicsFace !in c.font && RomanFace !in c.font
    ensures Descend(Propagate(IfWrap(roman, RomanFace, IfWrap(italics, ItalicsFace, IfWrap(bold, BoldFace, x))), c, table),
                    Count(roman) + Count(italics) + Count(bold))
         == Propagate(x, c.(font := c.font + Opt(roman, RomanFace) + Opt(italics, ItalicsFace) + Opt(bold, BoldFace)), table)
  {
    var y := IfWrap(italics, ItalicsFace, IfWrap(bold, BoldFace, x));
    if roman {
      var c1 := Updated(c, SetFont(RomanFace));
      assert c1.font == c.font + {RomanFace};
      assert Rewrite(Roman(y), c.font).body == y;
      RomanStep(y, c, Count(italics) + Count(bold), table);
      ReapplyItalics(x, c1, italics, bold, table);
    } else {
      ReapplyItalics(x, c, italics, bold, table);
      assert c.font + {} == c.font;
    }
  }

  /** Below a roman node over inactive roman lies its rewritten content, configured under roman. */
  lemma RomanStep(y: Expr, c: Context, k: nat, table: Table)
    requires RomanFace !in c.font
    ensures Descend(Propagate(Roman(y), c, table), k + 1)
         == Descend(Propagate(Rewrite(Roman(y), c.font).body, Updated(c, SetFont(RomanFace)), table), k)
  {
    var inner := Propagate(Rewrite(Roman(y), c.font).body, Updated(c, SetFont(RomanFace)), table);
    assert Propagate(Roman(y), c, table) == SRoman(c, inner);
    DescendFont(SRoman(c, inner), k);
  }

  /**
    No active style is lost: whatever implicit font nodes a font node of style `s` adds
    around its content, the content is configured with the incoming font set plus `s`.
    Setting teletype, sans-serif or roman discards bold, italics and roman from the set,
    and the re-applied nodes put back exactly the ones that were active.
   */
  lemma ContentSeesStyle(s: Style, x: Expr, ctx: Context, table: Table)
    ensures Descend(Propagate(StyleNode(s, x), ctx, table), Layers(s, ctx.font))
         == Propagate(x, ctx.(font := ctx.font + {s}), table)
  {
    match s
    case BoldFace => ReapplyBold(x, ctx, true, table);
    case ItalicsFace => ItalicsContent(x, ctx, table);
    case TeletypeFace => OverrideContent(TeletypeFace, x, ctx, table);
    case SansSerifFace => OverrideContent(SansSerifFace, x, ctx, table);
    case RomanFace => RomanContent(x, ctx, table);
  }

  lemma ItalicsContent(x: Expr, ctx: Context, table: Table)
    ensures Descend(Propagate(Italics(x), ctx, table), Layers(ItalicsFace, ctx.font))
         == Propagate(x, ctx.(font := ctx.font + {ItalicsFace}), table)
  {
    var f := ctx.font;
    var b := BoldFace in f;
    var c1 := Updated(ctx, SetFont(ItalicsFace));
    var y := IfWrap(b, BoldFace, x);
    assert Rewrite(Italics(x), f).body == y;
    var inner := Propagate(y, c1, table);
    assert Propagate(Italics(x), ctx, table) == SItalics(ctx, inner);
    DescendFont(SItalics(ctx, inner), Count(b));
    ReapplyBold(x, c1, b, table);
    assert c1.font + Opt(b, BoldFace) == f + {ItalicsFace};
  }

  /** Teletype and sans-serif: both re-apply bold, italics and roman. */
  lemma OverrideContent(s: Style, x: Expr, ctx: Context, table: Table)
    requires s == TeletypeFace || s == SansSerifFace
    ensures Descend(Propagate(StyleNode(s, x), ctx, table), Layers(s, ctx.font))
         == Propagate(x, ctx.(font := ctx.font + {s}), table)
  {
    var f := ctx.font;
    var b, i, r := BoldFace in f, ItalicsFace in f, RomanFace in f;
    var c1 := Updated(ctx, SetFont(s));
    OverrideStep(s, x, ctx, table);
    OverrideFont(f, s);
    ReapplyRoman(x, c1, r, i, b, table);
  }

  /** The configured override node holds its re-wrapped content under the overriding style. */
  lemma OverrideStep(s: Style, x: Expr, ctx: Context, table: Table)
    requires s == TeletypeFace || s == SansSerifFace
    ensures var f := ctx.font;
      var y := IfWrap(RomanFace in f, RomanFace, IfWrap(ItalicsFace in f, ItalicsFace, IfWrap(BoldFace in f, BoldFace, x)));
      var k := Count(RomanFace in f) + Count(ItalicsFace in f) + Count(BoldFace in f);
      Descend(Propagate(StyleNode(s, x), ctx, table), Layers(s, f))
      == Descend(Propagate(y, Updated(ctx, SetFont(s)), table), k)
  {
    var f := ctx.font;
    var y := IfWrap(RomanFace in f, RomanFace, IfWrap(ItalicsFace in f, ItalicsFace, IfWrap(BoldFace in f, BoldFace, x)));
    var k := Count(RomanFace in f) + Count(ItalicsFace in f) + Count(BoldFace in f);
    var inner := Propagate(y, Updated(ctx, SetFont(s)), table);
    if s == TeletypeFace {
      assert Propagate(Teletype(x), ctx, table) == STeletype(ctx, inner);
      DescendFont(STeletype(ctx, inner), k);
    } else {
      assert Propagate(SansSerif(x), ctx, table) == SSansSerif(ctx, inner);
      DescendFont(SSansSerif(ctx, inner), k);
    }
  }

  /** Overriding discards bold, italics and roman; re-adding the active ones gives the set plus the style. */
  lemma OverrideFont(f: set<Style>, s: Style)
    requires s == TeletypeFace || s == SansSerifFace
    ensures var f1 := AddStyle(f, s);
      BoldFace !in f1 && ItalicsFace !in f1 && RomanFace !in f1
      && f1 + Opt(RomanFace in f, RomanFace) + Opt(ItalicsFace in f, ItalicsFace) + Opt(BoldFace in f, BoldFace) == f + {s}
  {
  }

  lemma RomanContent(x: Expr, ctx: Context, table: Table)
    ensures Descend(Propagate(Roman(x), ctx, table), Layers(RomanFace, ctx.font))
         == Propagate(x, ctx.(font := ctx.font + {RomanFace}), table)
  {
    var f := ctx.font;
    var b, i := BoldFace in f, ItalicsFace in f;
    if RomanFace in f {
      RomanActiveStep(x, ctx, table);
      assert f + {RomanFace} == f;
    } else {
      var c1 := Updated(ctx, SetFont(RomanFace));
      RomanInactiveStep(x, ctx, table);
      RomanFont(f);
      ReapplyItalics(x, c1, i, b, table);
    }
  }

  /** Under active roman the roman node holds its content, configured with the same context. */
  lemma RomanActiveStep(x: Expr, ctx: Context, table: Table)
    requires RomanFace in ctx.font
    ensures Descend(Propagate(Roman(x), ctx, table), Layers(RomanFace, ctx.font)) == Propagate(x, ctx, table)
  {
    var inner := Propagate(x, ctx, table);
    assert Propagate(Roman(x), ctx, table) == SRoman(ctx, inner);
    DescendFont(SRoman(ctx, inner), 0);
  }

  /** Otherwise the roman node holds its re-wrapped content under roman. */
  lemma RomanInactiveStep(x: Expr, ctx: Context, table: Table)
    requires RomanFace !in ctx.font
    ensures var f := ctx.font;
      var y := IfWrap(ItalicsFace in f, ItalicsFace, IfWrap(BoldFace in f, BoldFace, x));
      Descend(Propagate(Roman(x), ctx, table), Layers(RomanFace, f))
      == Descend(Propagate(y, Updated(ctx, SetFont(RomanFace)), table), Count(ItalicsFace in f) + Count(BoldFace in f))
  {
    var f := ctx.font;
    var y := IfWrap(ItalicsFace in f, ItalicsFace, IfWrap(BoldFace in f, BoldFace, x));
    assert Rewrite(Roman(x), f).body == y;
    RomanStep(x, ctx, Count(ItalicsFace in f) + Count(BoldFace in f), table);
  }

  /** Setting roman discards bold and italics; re-adding the active ones gives the set plus roman. */
  lemma RomanFont(f: set<Style>)
    requires RomanFace !in f
    ensures var f1 := AddStyle(f, RomanFace);
      BoldFace !in f1
      && f1 + Opt(ItalicsFace in f, ItalicsFace) + Opt(BoldFace in f, BoldFace) == f + {RomanFace}
  {
  }
}
