/**
  What the whole translation promises: facts about configuring and rendering that
  hold for every tree the parser can build, under every configuration.
 */
module Pipeline {
  import opened Fonts
  import opened Ast
  import opened Strings
  import opened Substitution
  import opened Configuration
  import opened Rendering
  import opened Parser
  import opened LineBlocks

  /** Two font commands, one inside the other. */
  lemma NestedFontCmds(outer: string, inner: string, x: string)
    ensures Cmd(outer, [Str(Cmd(inner, [Str(x)]))]) == "\\" + outer + "{\\" + inner + "{" + x + "}}"
  {
    FontCmd(inner, x);
    FontCmd(outer, Cmd(inner, [Str(x)]));
    var h := "\\" + outer + "{";
    var j := "\\" + inner + "{" + x;
    assert h + (j + "}") + "}" == h + j + "}}" by { Closing(h + j); }
    assert h + j == "\\" + outer + "{\\" + inner + "{" + x by { Opening(outer, inner, x); }
  }

  lemma Closing(a: string)
    ensures a + "}" + "}" == a + "}}"
  {
  }

  lemma Opening(outer: string, inner: string, x: string)
    ensures "\\" + outer + "{" + ("\\" + inner + "{" + x) == "\\" + outer + "{\\" + inner + "{" + x
  {
  }

  /**
    Under the seeded context a `Paren` always picks one of the glyph font commands:
    the blackboard-bold and colour fallbacks are out of reach, since every context
    reached keeps italics, roman, sans-serif or teletype active.
   */
  lemma ParensUseGlyphFonts(ast: Expr, defaults: set<string>, justify: Justify, colour: string, reserved: seq<string>)
    ensures AllGrounded(Configured(ast, defaults, justify, colour, reserved))
    ensures ParensAmong(Configured(ast, defaults, justify, colour, reserved), GlyphCommands)
  {
    PropagateGrounded(Prepared(ast, defaults, colour), InitialContext(justify, colour), ReplaceMap(reserved));
  }

  /** Only a colour node is configured into a colour node. */
  lemma PropagateColourIff(e: Expr, ctx: Context, table: Table)
    ensures Propagate(e, ctx, table).SColour? <==> e.Colour?
  {
    match e
    case Colour(_, _) =>
    case _ =>
  }

  /**
    A colour other than the three spellings of black puts a colour node on top, whose
    subtree sees the colour upper-cased; black puts none there (unless the input's own
    outermost node is one).
   */
  lemma ColourNodeIff(ast: Expr, defaults: set<string>, justify: Justify, colour: string, reserved: seq<string>)
    requires !ast.Colour?
    ensures Configured(ast, defaults, justify, colour, reserved).SColour? <==> !IsBlack(colour)
    ensures !IsBlack(colour) ==>
      Configured(ast, defaults, justify, colour, reserved).body.ctx.colour == ColourValue(ReplaceMap(reserved), colour)
  {
    var tree := Prepared(ast, defaults, colour);
    var table := ReplaceMap(reserved);
    var ctx := InitialContext(justify, colour);
    assert tree.Colour? <==> !IsBlack(colour);
    assert Configured(ast, defaults, justify, colour, reserved) == Propagate(tree, ctx, table);
    PropagateColourIff(tree, ctx, table);
    if !IsBlack(colour) {
      var b := tree.body;
      assert tree == Colour(colour, b);
      var inner := Updated(ctx, SetColour(ColourValue(table, colour)));
      assert Propagate(tree, ctx, table) == SColour(ctx, colour, Propagate(b, inner, table));
    }
  }

  /** A colour other than black wraps the whole output in a `textcolor` command naming it. */
  lemma ColourWrapsOutput(ast: Expr, defaults: set<string>, justify: Justify, colour: string, reserved: seq<string>)
    requires Plain(ast) && !IsBlack(colour)
    ensures StartsWith(Translate(ast, defaults, justify, colour, reserved),
                       "\\textcolor{" + TextEval(ReplaceMap(reserved), colour) + "}")
  {
    var table := ReplaceMap(reserved);
    var tree := Prepared(ast, defaults, colour);
    var ctx := InitialContext(justify, colour);
    var b := tree.body;
    assert tree == Colour(colour, b);
    var inner := Updated(ctx, SetColour(ColourValue(table, colour)));
    PropagateKeepsShape(b, inner, table);
    var sb := Propagate(b, inner, table);
    var s := SColour(ctx, colour, sb);
    assert Configured(ast, defaults, justify, colour, reserved) == s;
    var name := TextEval(table, colour);
    ColourHead(name, NodePiece(sb, Render(sb, table)));
    assert Render(s, table) == Cmd("textcolor", [Str(name), NodePiece(sb, Render(sb, table))]);
  }

  lemma ColourHead(name: string, p: Piece)
    ensures Cmd("textcolor", [Str(name), p]) == "\\textcolor{" + name + "}" + WrapIfNotBlock(p)
    ensures StartsWith("\\textcolor{" + name + "}" + WrapIfNotBlock(p), "\\textcolor{" + name + "}")
  {
    var head := "\\textcolor{" + name + "}";
    assert "\\" + "textcolor" + WrapIfNotBlock(Str(name)) == head;
    var rest := WrapIfNotBlock(p);
    assert (head + rest)[..|head|] == head;
  }

  /** `Evaluated` is configuring then rendering. */
  lemma EvaluatedIs(e: Expr, ctx: Context, table: Table)
    requires Plain(e) && StyledPlain(Propagate(e, ctx, table))
    ensures Evaluated(e, ctx, table) == Render(Propagate(e, ctx, table), table)
  {
  }

  /** The spelled-out heads of the nested font commands the lemmas below produce. */
  lemma NestedHeads()
    ensures "\\" + "mathrm" + "{\\" + "mathit" + "{" == "\\mathrm{\\mathit{"
    ensures "\\" + "mathsf" + "{\\" + "mathit" + "{" == "\\mathsf{\\mathit{"
    ensures "\\" + "mathit" + "{\\" + "mathbf" + "{" == "\\mathit{\\mathbf{"
    ensures "\\" + "mathrm" + "{\\" + "mathbf" + "{" == "\\mathrm{\\mathbf{"
    ensures "\\" + "mathbf" + "{" == "\\mathbf{"
    ensures "\\mathit{\\mathbf{" + "\\mathbf{" == "\\mathit{\\mathbf{\\mathbf{" && "}" + "}}" == "}}}"
  {
  }

  lemma UprightSlanted(ctx: Context, c: Context, body: Styled, table: Table)
    requires StyledPlain(body) && RomanFace !in ctx.font
    ensures Render(SRoman(ctx, SItalics(c, body)), table) == "\\mathrm{\\mathit{" + Render(body, table) + "}}"
  {
    var x := Render(body, table);
    assert Render(SItalics(c, body), table) == Cmd("mathit", [Str(x)]);
    assert Render(SRoman(ctx, SItalics(c, body)), table) == Cmd("mathrm", [Str(Cmd("mathit", [Str(x)]))]);
    NestedFontCmds("mathrm", "mathit", x);
    NestedHeads();
  }

  lemma SansSlanted(ctx: Context, c: Context, body: Styled, table: Table)
    requires StyledPlain(body)
    ensures Render(SSansSerif(ctx, SItalics(c, body)), table) == "\\mathsf{\\mathit{" + Render(body, table) + "}}"
  {
    var x := Render(body, table);
    assert Render(SItalics(c, body), table) == Cmd("mathit", [Str(x)]);
    assert Render(SSansSerif(ctx, SItalics(c, body)), table) == Cmd("mathsf", [Str(Cmd("mathit", [Str(x)]))]);
    NestedFontCmds("mathsf", "mathit", x);
    NestedHeads();
  }

  lemma SlantedBold(ctx: Context, c: Context, body: Styled, table: Table)
    requires StyledPlain(body)
    ensures Render(SItalics(ctx, SBold(c, body)), table) == "\\mathit{\\mathbf{" + Render(body, table) + "}}"
  {
    var x := Render(body, table);
    assert Render(SBold(c, body), table) == Cmd("mathbf", [Str(x)]);
    assert Render(SItalics(ctx, SBold(c, body)), table) == Cmd("mathit", [Str(Cmd("mathbf", [Str(x)]))]);
    NestedFontCmds("mathit", "mathbf", x);
    NestedHeads();
  }

  /** The colour the styled tree sees: the block's colour, or the upper-cased code under a colour node. */
  function ShownColour(colour: string, table: Table): string {
    if IsBlack(colour) then colour else ColourValue(table, colour)
  }

  /** The output around the styled tree: bare for black, after a `textcolor` head otherwise. */
  function ColourShown(colour: string, table: Table, shown: string): string {
    if IsBlack(colour) then shown else "\\textcolor{" + TextEval(table, colour) + "}" + shown
  }

  /**
    The colour wrap of the driver: a black colour leaves the styled tree on top; any other
    colour puts a `textcolor` head in front of the styled tree, which is configured with
    the upper-cased colour. A font node is inserted bare, without braces.
   */
  lemma ColourAround(styled: Expr, justify: Justify, colour: string, table: Table)
    requires Plain(styled) && !styled.Text? && !styled.Concat?
    ensures var tree := if IsBlack(colour) then styled else Colour(colour, styled);
      Evaluated(tree, InitialContext(justify, colour), table)
      == ColourShown(colour, table, Evaluated(styled, InitialContext(justify, ShownColour(colour, table)), table))
  {
    var ctx := InitialContext(justify, colour);
    var c := InitialContext(justify, ShownColour(colour, table));
    PropagateKeepsShape(styled, c, table);
    var sb := Propagate(styled, c, table);
    EvaluatedIs(styled, c, table);
    if !IsBlack(colour) {
      var tree := Colour(colour, styled);
      assert Updated(ctx, SetColour(ColourValue(table, colour))) == c;
      assert Propagate(tree, ctx, table) == SColour(ctx, colour, sb);
      EvaluatedIs(tree, ctx, table);
      var name := TextEval(table, colour);
      assert !sb.SText? && !sb.SConcat?;
      ColourHead(name, NodePiece(sb, Render(sb, table)));
      assert Render(SColour(ctx, colour, sb), table) == Cmd("textcolor", [Str(name), NodePiece(sb, Render(sb, table))]);
    }
  }

  /**
    A roman node over active italics (and inactive bold and roman) renders as roman around
    italics around its content: italics is displaced by roman and then put back, so the
    content sees the incoming fonts plus roman.
   */
  lemma RomanOver(ast: Expr, c: Context, table: Table)
    requires Plain(ast) && RomanFace !in c.font && BoldFace !in c.font && ItalicsFace in c.font
    ensures Evaluated(Roman(ast), c, table)
      == "\\mathrm{\\mathit{" + Evaluated(ast, c.(font := c.font + {RomanFace}), table) + "}}"
  {
    var upright := Updated(c, SetFont(RomanFace));
    var inner := Updated(upright, SetFont(ItalicsFace));
    assert inner.font == c.font + {RomanFace};
    assert inner == c.(font := c.font + {RomanFace});
    PropagateKeepsShape(ast, inner, table);
    var body := Propagate(ast, inner, table);
    assert Rewrite(Roman(ast), c.font).body == Italics(ast);
    assert BoldFace !in upright.font;
    assert Rewrite(Italics(ast), upright.font).body == ast;
    assert Propagate(Italics(ast), upright, table) == SItalics(upright, body);
    assert Propagate(Roman(ast), c, table) == SRoman(c, SItalics(upright, body));
    EvaluatedIs(Roman(ast), c, table);
    EvaluatedIs(ast, inner, table);
    UprightSlanted(c, upright, body, table);
  }

  /**
    A sans-serif node over italics alone renders as sans-serif around italics around its
    content, which sees sans-serif and italics.
   */
  lemma SansOver(ast: Expr, c: Context, table: Table)
    requires Plain(ast) && c.font == {ItalicsFace}
    ensures Evaluated(SansSerif(ast), c, table)
      == "\\mathsf{\\mathit{" + Evaluated(ast, c.(font := {SansSerifFace, ItalicsFace}), table) + "}}"
  {
    var sans := Updated(c, SetFont(SansSerifFace));
    assert sans.font == {SansSerifFace};
    var inner := Updated(sans, SetFont(ItalicsFace));
    assert inner == c.(font := {SansSerifFace, ItalicsFace});
    PropagateKeepsShape(ast, inner, table);
    var body := Propagate(ast, inner, table);
    assert Rewrite(SansSerif(ast), c.font).body == Italics(ast);
    assert Rewrite(Italics(ast), sans.font).body == ast;
    assert Propagate(Italics(ast), sans, table) == SItalics(sans, body);
    assert Propagate(SansSerif(ast), c, table) == SSansSerif(c, SItalics(sans, body));
    EvaluatedIs(SansSerif(ast), c, table);
    EvaluatedIs(ast, inner, table);
    SansSlanted(c, sans, body, table);
  }

  /**
    The roman default sets the whole output upright, and re-applies italics inside it
    because italics was active: the input then sees roman and italics. Under a colour
    other than black the same block follows the colour's `textcolor` head.
   */
  lemma RomanDefault(ast: Expr, defaults: set<string>, justify: Justify, colour: string, reserved: seq<string>)
    requires Plain(ast) && "roman" in defaults && "sans-serif" !in defaults
    ensures var table := ReplaceMap(reserved);
      var c := InitialContext(justify, ShownColour(colour, table));
      Translate(ast, defaults, justify, colour, reserved)
      == ColourShown(colour, table, "\\mathrm{\\mathit{" + Evaluated(ast, c.(font := {RomanFace, ItalicsFace}), table) + "}}")
  {
    var table := ReplaceMap(reserved);
    var c := InitialContext(justify, ShownColour(colour, table));
    assert Prepared(ast, defaults, colour) == if IsBlack(colour) then Roman(ast) else Colour(colour, Roman(ast));
    ColourAround(Roman(ast), justify, colour, table);
    RomanOver(ast, c, table);
    assert c.font + {RomanFace} == {RomanFace, ItalicsFace};
  }

  /**
    The sans-serif default likewise re-applies italics inside it; italics is displaced
    by sans-serif and then added back, so the input sees both.
   */
  lemma SansSerifDefault(ast: Expr, defaults: set<string>, justify: Justify, colour: string, reserved: seq<string>)
    requires Plain(ast) && "sans-serif" in defaults && "roman" !in defaults
    ensures var table := ReplaceMap(reserved);
      var c := InitialContext(justify, ShownColour(colour, table));
      Translate(ast, defaults, justify, colour, reserved)
      == ColourShown(colour, table, "\\mathsf{\\mathit{" + Evaluated(ast, c.(font := {SansSerifFace, ItalicsFace}), table) + "}}")
  {
    var table := ReplaceMap(reserved);
    var c := InitialContext(justify, ShownColour(colour, table));
    assert Prepared(ast, defaults, colour) == if IsBlack(colour) then SansSerif(ast) else Colour(colour, SansSerif(ast));
    ColourAround(SansSerif(ast), justify, colour, table);
    SansOver(ast, c, table);
  }

  /**
    With both defaults, roman goes inside sans-serif. Each re-applies italics, and roman,
    arriving under sans-serif and italics, displaces italics and puts it back: the input
    sees sans-serif, roman and italics.
   */
  lemma BothDefaults(ast: Expr, defaults: set<string>, justify: Justify, colour: string, reserved: seq<string>)
    requires Plain(ast) && "sans-serif" in defaults && "roman" in defaults
    ensures var table := ReplaceMap(reserved);
      var c := InitialContext(justify, ShownColour(colour, table));
      Translate(ast, defaults, justify, colour, reserved)
      == ColourShown(colour, table,
           "\\mathsf{\\mathit{"
           + ("\\mathrm{\\mathit{" + Evaluated(ast, c.(font := {SansSerifFace, RomanFace, ItalicsFace}), table) + "}}")
           + "}}")
  {
    var table := ReplaceMap(reserved);
    var c := InitialContext(justify, ShownColour(colour, table));
    var styled := SansSerif(Roman(ast));
    assert Prepared(ast, defaults, colour) == if IsBlack(colour) then styled else Colour(colour, styled);
    ColourAround(styled, justify, colour, table);
    SansOver(Roman(ast), c, table);
    var sans := c.(font := {SansSerifFace, ItalicsFace});
    RomanOver(ast, sans, table);
    assert sans.font + {RomanFace} == {SansSerifFace, RomanFace, ItalicsFace};
  }

  /**
    A run of `f` is set upright: in a context where roman is active it is just its
    fenced text; otherwise a roman command, with italics and bold re-applied inside
    when they are active (italics outside bold).
   */
  lemma FRunUpright(run: string, ctx: Context, table: Table)
    ensures var text := TextEval(table, [ZWNJ] + run + [ZWNJ]);
      var r := Evaluated(FAction(run), ctx, table);
      var i, b := ItalicsFace in ctx.font, BoldFace in ctx.font;
      (RomanFace in ctx.font ==> r == text) &&
      (RomanFace !in ctx.font && i && b ==> r == "\\mathrm{\\mathit{" + ("\\mathbf{" + text + "}") + "}}") &&
      (RomanFace !in ctx.font && i && !b ==> r == "\\mathrm{\\mathit{" + text + "}}") &&
      (RomanFace !in ctx.font && !i && b ==> r == "\\mathrm{\\mathbf{" + text + "}}") &&
      (RomanFace !in ctx.font && !i && !b ==> r == "\\mathrm{" + text + "}")
  {
    var lit := [ZWNJ] + run + [ZWNJ];
    var text := TextEval(table, lit);
    var e := FAction(run);
    if RomanFace in ctx.font {
      assert Propagate(e, ctx, table) == SRoman(ctx, SText(ctx, lit));
      EvaluatedIs(e, ctx, table);
    } else {
      FRunRewritten(run, ctx, table);
    }
  }

  /** The rendering of an `f` run when roman is not active, one case per re-applied style. */
  lemma FRunRewritten(run: string, ctx: Context, table: Table)
    requires RomanFace !in ctx.font
    ensures var text := TextEval(table, [ZWNJ] + run + [ZWNJ]);
      var r := Evaluated(FAction(run), ctx, table);
      var i, b := ItalicsFace in ctx.font, BoldFace in ctx.font;
      (i && b ==> r == "\\mathrm{\\mathit{" + ("\\mathbf{" + text + "}") + "}}") &&
      (i && !b ==> r == "\\mathrm{\\mathit{" + text + "}}") &&
      (!i && b ==> r == "\\mathrm{\\mathbf{" + text + "}}") &&
      (!i && !b ==> r == "\\mathrm{" + text + "}")
  {
    var lit := [ZWNJ] + run + [ZWNJ];
    var text := TextEval(table, lit);
    var e := FAction(run);
    var i, b := ItalicsFace in ctx.font, BoldFace in ctx.font;
    PropagateKeepsShape(e, ctx, table);
    EvaluatedIs(e, ctx, table);
    var upright := Updated(ctx, SetFont(RomanFace));
    assert BoldFace !in upright.font && ItalicsFace !in upright.font;
    var y := IfWrap(b, BoldFace, Text(lit));
    assert Rewrite(e, ctx.font).body == IfWrap(i, ItalicsFace, y);
    if i {
      var slanted := Updated(upright, SetFont(ItalicsFace));
      assert Rewrite(Italics(y), upright.font).body == y;
      var sy := Propagate(y, slanted, table);
      PropagateKeepsShape(y, slanted, table);
      assert Propagate(e, ctx, table) == SRoman(ctx, SItalics(upright, sy));
      UprightSlanted(ctx, upright, sy, table);
      if b {
        var bolded := Updated(slanted, SetFont(BoldFace));
        assert y == Bold(Text(lit));
        assert Propagate(Text(lit), bolded, table) == SText(bolded, lit);
        assert sy == SBold(slanted, SText(bolded, lit));
        assert Render(sy, table) == Cmd("mathbf", [Str(text)]);
        FontCmd("mathbf", text);
        Heads();
      }
    } else if b {
      var bolded := Updated(upright, SetFont(BoldFace));
      assert Rewrite(e, ctx.font).body == Bold(Text(lit));
      assert Propagate(Text(lit), bolded, table) == SText(bolded, lit);
      assert Propagate(Bold(Text(lit)), upright, table) == SBold(upright, SText(bolded, lit));
      assert Propagate(e, ctx, table) == SRoman(ctx, SBold(upright, SText(bolded, lit)));
      assert Render(SBold(upright, SText(bolded, lit)), table) == Cmd("mathbf", [Str(text)]);
      NestedFontCmds("mathrm", "mathbf", text);
      NestedHeads();
    } else {
      assert Propagate(e, ctx, table) == SRoman(ctx, SText(upright, lit));
      FontCmd("mathrm", text);
    }
  }

  /**
    `***x***` sets italics outside bold. With bold already active the italics node
    re-applies it, so bold appears twice; the content sees the same context either way.
   */
  lemma BoldItalicsNesting(x: Expr, ctx: Context, table: Table)
    requires Plain(x)
    ensures var body := Evaluated(x, Updated(Updated(ctx, SetFont(ItalicsFace)), SetFont(BoldFace)), table);
      var r := Evaluated(BoldItalicsAction(x), ctx, table);
      (BoldFace !in ctx.font ==> r == "\\mathit{\\mathbf{" + body + "}}") &&
      (BoldFace in ctx.font ==> r == "\\mathit{\\mathbf{\\mathbf{" + body + "}}}")
  {
    var slanted := Updated(ctx, SetFont(ItalicsFace));
    var inner := Updated(slanted, SetFont(BoldFace));
    PropagateKeepsShape(x, inner, table);
    var b := Propagate(x, inner, table);
    EvaluatedIs(x, inner, table);
    BoldItalicsTree(x, ctx, table);
    EvaluatedIs(BoldItalicsAction(x), ctx, table);
    if BoldFace !in ctx.font {
      SlantedBold(ctx, slanted, b, table);
    } else {
      SlantedBold(ctx, slanted, SBold(inner, b), table);
      DoubleBold(Render(b, table));
    }
  }

  /**
    The order of the two font nodes shows in the output: bold outside italics starts with
    a bold command, italics outside bold with an italic one, whatever the context.
   */
  lemma BoldItalicsOrderMatters(x: Expr, ctx: Context, table: Table)
    requires Plain(x)
    ensures StartsWith(Evaluated(Bold(Italics(x)), ctx, table), "\\mathbf{")
    ensures StartsWith(Evaluated(Italics(Bold(x)), ctx, table), "\\mathit{")
    ensures Evaluated(Bold(Italics(x)), ctx, table) != Evaluated(Italics(Bold(x)), ctx, table)
  {
    BoldHead(Italics(x), ctx, table);
    ItalicsHead(Bold(x), ctx, table);
    HeadsDiffer(Evaluated(Bold(Italics(x)), ctx, table), Evaluated(Italics(Bold(x)), ctx, table));
  }

  /**
    The order of bold and italics does not change what their content sees: below the
    font nodes of either order the content is configured with bold and italics added.
   */
  lemma BoldItalicsSameContent(x: Expr, ctx: Context, table: Table)
    ensures Descend(Propagate(Bold(Italics(x)), ctx, table), 1 + Layers(ItalicsFace, ctx.font + {BoldFace}))
         == Propagate(x, ctx.(font := ctx.font + {BoldFace, ItalicsFace}), table)
    ensures Descend(Propagate(Italics(Bold(x)), ctx, table), Layers(ItalicsFace, ctx.font) + 1)
         == Propagate(x, ctx.(font := ctx.font + {BoldFace, ItalicsFace}), table)
  {
    var both := ctx.(font := ctx.font + {BoldFace, ItalicsFace});
    assert ctx.(font := ctx.font + {BoldFace} + {ItalicsFace}) == both by {
      assert ctx.font + {BoldFace} + {ItalicsFace} == ctx.font + {BoldFace, ItalicsFace};
    }
    assert ctx.(font := ctx.font + {ItalicsFace} + {BoldFace}) == both by {
      assert ctx.font + {ItalicsFace} + {BoldFace} == ctx.font + {BoldFace, ItalicsFace};
    }
    BoldOverItalics(x, ctx, table);
    ItalicsOverBold(x, ctx, table);
  }

  lemma BoldOverItalics(x: Expr, ctx: Context, table: Table)
    ensures Descend(Propagate(Bold(Italics(x)), ctx, table), 1 + Layers(ItalicsFace, ctx.font + {BoldFace}))
         == Propagate(x, ctx.(font := ctx.font + {BoldFace} + {ItalicsFace}), table)
  {
    var mid := ctx.(font := ctx.font + {BoldFace});
    var s := Propagate(Bold(Italics(x)), ctx, table);
    ContentSeesStyle(BoldFace, Italics(x), ctx, table);
    var t := Descend(s, 1);
    assert t == Propagate(Italics(x), mid, table);
    var k := Layers(ItalicsFace, mid.font);
    ContentSeesStyle(ItalicsFace, x, mid, table);
    assert Descend(t, k) == Propagate(x, mid.(font := mid.font + {ItalicsFace}), table);
    DescendAdd(s, 1, k);
  }

  lemma ItalicsOverBold(x: Expr, ctx: Context, table: Table)
    ensures Descend(Propagate(Italics(Bold(x)), ctx, table), Layers(ItalicsFace, ctx.font) + 1)
         == Propagate(x, ctx.(font := ctx.font + {ItalicsFace} + {BoldFace}), table)
  {
    var mid := ctx.(font := ctx.font + {ItalicsFace});
    var s := Propagate(Italics(Bold(x)), ctx, table);
    var j := Layers(ItalicsFace, ctx.font);
    ContentSeesStyle(ItalicsFace, Bold(x), ctx, table);
    var t := Descend(s, j);
    assert t == Propagate(Bold(x), mid, table);
    ContentSeesStyle(BoldFace, x, mid, table);
    assert Descend(t, 1) == Propagate(x, mid.(font := mid.font + {BoldFace}), table);
    DescendAdd(s, j, 1);
  }

  /** A bold node renders as its font command first. */
  lemma BoldHead(x: Expr, ctx: Context, table: Table)
    requires Plain(x)
    ensures StartsWith(Evaluated(Bold(x), ctx, table), "\\mathbf{")
  {
    var s := Propagate(Bold(x), ctx, table);
    PropagateKeepsShape(Bold(x), ctx, table);
    EvaluatedIs(Bold(x), ctx, table);
    var inner := Render(s.body, table);
    assert Render(s, table) == Cmd("mathbf", [Str(inner)]);
    FontHead("mathbf", inner);
  }

  /** An italics node renders as its font command first. */
  lemma ItalicsHead(x: Expr, ctx: Context, table: Table)
    requires Plain(x)
    ensures StartsWith(Evaluated(Italics(x), ctx, table), "\\mathit{")
  {
    var s := Propagate(Italics(x), ctx, table);
    PropagateKeepsShape(Italics(x), ctx, table);
    EvaluatedIs(Italics(x), ctx, table);
    var inner := Render(s.body, table);
    assert Render(s, table) == Cmd("mathit", [Str(inner)]);
    FontHead("mathit", inner);
  }

  lemma HeadsDiffer(a: string, b: string)
    requires StartsWith(a, "\\mathbf{") && StartsWith(b, "\\mathit{")
    ensures a != b
  {
    assert a[5] == a[..8][5] == 'b';
    assert b[5] == b[..8][5] == 'i';
  }

  lemma FontHead(command: string, x: string)
    ensures StartsWith(Cmd(command, [Str(x)]), "\\" + command + "{")
  {
    FontCmd(command, x);
    var head := "\\" + command + "{";
    assert Cmd(command, [Str(x)]) == head + (x + "}");
    assert (head + (x + "}"))[..|head|] == head;
  }

  /** The configured tree of `***x***`. */
  lemma BoldItalicsTree(x: Expr, ctx: Context, table: Table)
    ensures var slanted := Updated(ctx, SetFont(ItalicsFace));
      var inner := Updated(slanted, SetFont(BoldFace));
      var b := Propagate(x, inner, table);
      Propagate(BoldItalicsAction(x), ctx, table)
      == if BoldFace in ctx.font then SItalics(ctx, SBold(slanted, SBold(inner, b))) else SItalics(ctx, SBold(slanted, b))
  {
    var slanted := Updated(ctx, SetFont(ItalicsFace));
    var inner := Updated(slanted, SetFont(BoldFace));
    var b := Propagate(x, inner, table);
    assert Propagate(Bold(x), slanted, table) == SBold(slanted, b);
    if BoldFace in ctx.font {
      AddBoldOnlyAdds(inner.font);
      assert Updated(inner, SetFont(BoldFace)) == inner;
      assert Rewrite(Italics(Bold(x)), ctx.font).body == Bold(Bold(x));
      assert Propagate(Bold(x), inner, table) == SBold(inner, b);
    } else {
      assert Rewrite(Italics(Bold(x)), ctx.font).body == Bold(x);
    }
  }

  lemma DoubleBold(body: string)
    ensures "\\mathit{\\mathbf{" + Cmd("mathbf", [Str(body)]) + "}}" == "\\mathit{\\mathbf{\\mathbf{" + body + "}}}"
  {
    FontCmd("mathbf", body);
    NestedHeads();
    LineBlocks.Regroup("\\mathit{\\mathbf{", "\\mathbf{", body, "}", "}}");
  }

  /** Under an active roman a roman node renders as its content. */
  lemma RomanPassThrough(x: Expr, ctx: Context, table: Table)
    requires Plain(x) && RomanFace in ctx.font
    ensures Evaluated(Roman(x), ctx, table) == Evaluated(x, ctx, table)
  {
    PropagateKeepsShape(x, ctx, table);
  }

  /** Roman active and bold, italics or both re-applied above `x`: a roman node at `x` changes nothing. */
  lemma RomanUnderWraps(x: Expr, ctx: Context, italics: bool, bold: bool, table: Table)
    requires Plain(x) && RomanFace in ctx.font && BoldFace !in ctx.font
    ensures var w := IfWrap(italics, ItalicsFace, IfWrap(bold, BoldFace, Roman(x)));
      var v := IfWrap(italics, ItalicsFace, IfWrap(bold, BoldFace, x));
      Evaluated(w, ctx, table) == Evaluated(v, ctx, table)
  {
    var c := if italics then Updated(ctx, SetFont(ItalicsFace)) else ctx;
    assert RomanFace in c.font && BoldFace !in c.font;
    var d := if bold then Updated(c, SetFont(BoldFace)) else c;
    AddBoldOnlyAdds(c.font);
    assert RomanFace in d.font;
    PropagateKeepsShape(x, d, table);
    RomanPassThrough(x, d, table);
    var wb := IfWrap(bold, BoldFace, Roman(x));
    var vb := IfWrap(bold, BoldFace, x);
    PropagateKeepsShape(wb, c, table);
    PropagateKeepsShape(vb, c, table);
    assert Render(Propagate(wb, c, table), table) == Render(Propagate(vb, c, table), table);
    var w := IfWrap(italics, ItalicsFace, wb);
    var v := IfWrap(italics, ItalicsFace, vb);
    PropagateKeepsShape(w, ctx, table);
    PropagateKeepsShape(v, ctx, table);
    if italics {
      assert Rewrite(w, ctx.font).body == wb;
      assert Rewrite(v, ctx.font).body == vb;
    }
  }

  /** Setting something roman twice is the same as setting it roman once. */
  lemma RomanIdempotent(x: Expr, ctx: Context, table: Table)
    requires Plain(x)
    ensures Evaluated(Roman(Roman(x)), ctx, table) == Evaluated(Roman(x), ctx, table)
  {
    PropagateKeepsShape(Roman(Roman(x)), ctx, table);
    PropagateKeepsShape(Roman(x), ctx, table);
    if RomanFace in ctx.font {
      RomanPassThrough(Roman(x), ctx, table);
    } else {
      var upright := Updated(ctx, SetFont(RomanFace));
      var italics := ItalicsFace in ctx.font;
      var bold := BoldFace in ctx.font;
      RomanUnderWraps(x, upright, italics, bold, table);
      assert Rewrite(Roman(Roman(x)), ctx.font).body == IfWrap(italics, ItalicsFace, IfWrap(bold, BoldFace, Roman(x)));
      assert Rewrite(Roman(x), ctx.font).body == IfWrap(italics, ItalicsFace, IfWrap(bold, BoldFace, x));
    }
  }

  /**
    The two-line input `a` / `**next_line**`, right-justified, for any first line `a`
    without spaces, dashes or underscores: the second line renders as
    `\\mathbf{next_line}`, which contains the placeholder, and the source's substitution
    then yields a different block from the structural one.
   */
  lemma PlaceholderInputCorrupted(a: string)
    requires ' ' !in a && '-' !in a && '_' !in a
    ensures var ast := JoinLine(Text(a), Bold(Text("next_line")));
      var s := Configured(ast, {}, Right, "black", []);
      s.SJoin? && StyledChain(s.left) && StyledPlain(s.right)
      && FinishRightAsWritten(Extend(s.ctx, RenderChain(s.left, ReplaceMap([])), Render(s.right, ReplaceMap([]))))
         != Translate(ast, {}, Right, "black", [])
  {
    var ctx := InitialContext(Right, "black");
    var h := SHeader(ctx, SParen(ctx, "mathit", SText(ctx, a)));
    var r := SBold(ctx, SText(Updated(ctx, SetFont(BoldFace)), "next_line"));
    PlaceholderTree(a);
    HeaderLine(a);
    PlaceholderLine();
    ShortAbsent("\\mathbf", Placeholder);
    AsWrittenCorruptsPlaceholderLine(ctx, h, r, ReplaceMap([]), "\\mathbf", "");
  }

  lemma PlaceholderTree(a: string)
    ensures var ctx := InitialContext(Right, "black");
      Configured(JoinLine(Text(a), Bold(Text("next_line"))), {}, Right, "black", [])
      == SJoin(ctx, SHeader(ctx, SParen(ctx, "mathit", SText(ctx, a))),
               SBold(ctx, SText(Updated(ctx, SetFont(BoldFace)), "next_line")))
  {
    var ast := JoinLine(Text(a), Bold(Text("next_line")));
    assert ast == LineJoin(MultilineHeader(Paren(Text(a))), Bold(Text("next_line")));
    assert Prepared(ast, {}, "black") == ast;
    var ctx := InitialContext(Right, "black");
    var t := ReplaceMap([]);
    assert ParenCommand(ctx) == "mathit";
    assert Propagate(Paren(Text(a)), ctx, t) == SParen(ctx, "mathit", SText(ctx, a));
    assert Propagate(MultilineHeader(Paren(Text(a))), ctx, t) == SHeader(ctx, SParen(ctx, "mathit", SText(ctx, a)));
    assert Propagate(Bold(Text("next_line")), ctx, t) == SBold(ctx, SText(Updated(ctx, SetFont(BoldFace)), "next_line"));
    assert Configured(ast, {}, Right, "black", []) == Propagate(ast, ctx, t);
  }

  /** A placeholder-free first line: italic, as the seeded context makes it. */
  lemma HeaderLine(a: string)
    requires ' ' !in a && '-' !in a && '_' !in a
    ensures var ctx := InitialContext(Right, "black");
      var line := Render(SParen(ctx, "mathit", SText(ctx, a)), ReplaceMap([]));
      line == "\\mathit{" + a + "}" && !Occurs(line, Placeholder)
  {
    var ctx := InitialContext(Right, "black");
    TextUnchanged([], a);
    var t := SText(ctx, a);
    assert Render(t, ReplaceMap([])) == a;
    var line := "\\mathit{" + a + "}";
    assert Render(SParen(ctx, "mathit", t), ReplaceMap([])) == line;
    assert Placeholder[5] == '_';
    assert '_' !in line;
    MissingCharAbsent(line, Placeholder, 5);
  }

  lemma PlaceholderLine()
    ensures var ctx := InitialContext(Right, "black");
      Render(SBold(ctx, SText(Updated(ctx, SetFont(BoldFace)), "next_line")), ReplaceMap([]))
      == "\\mathbf" + Placeholder + ""
  {
    var ctx := InitialContext(Right, "black");
    TextUnchanged([], "next_line");
    var n := SText(Updated(ctx, SetFont(BoldFace)), "next_line");
    assert Render(n, ReplaceMap([])) == "next_line";
    assert Render(SBold(ctx, n), ReplaceMap([])) == Cmd("mathbf", [Str("next_line")]);
    BoldPlaceholder();
  }

  lemma BoldPlaceholder()
    ensures Cmd("mathbf", [Str("next_line")]) == "\\mathbf" + Placeholder + ""
  {
    FontCmd("mathbf", "next_line");
    assert "\\" + "mathbf" + "{" + "next_line" + "}" == "\\mathbf" + Placeholder + "";
  }

  // ----- worked multi-line examples -----

  /** A line of plain text is fenced in a paren, which the seeded context sets in italics. */
  lemma TextLine(ctx: Context, a: string)
    requires ctx.font == {ItalicsFace} && ' ' !in a && '-' !in a
    ensures Propagate(Paren(Text(a)), ctx, ReplaceMap([])) == SParen(ctx, "mathit", SText(ctx, a))
    ensures Render(SParen(ctx, "mathit", SText(ctx, a)), ReplaceMap([])) == "\\mathit{" + a + "}"
  {
    TextUnchanged([], a);
  }

  /** The configured tree of the three lines A, B and C with no default font and the default colour. */
  lemma ThreeLinesTree(j: Justify)
    ensures var ctx := InitialContext(j, "black");
      var pa := SParen(ctx, "mathit", SText(ctx, "A"));
      var pb := SParen(ctx, "mathit", SText(ctx, "B"));
      var pc := SParen(ctx, "mathit", SText(ctx, "C"));
      Configured(JoinAll([Text("A"), Text("B"), Text("C")]), {}, j, "black", [])
      == SJoin(ctx, SJoin(ctx, SHeader(ctx, pa), pb), pc)
  {
    var lines := [Text("A"), Text("B"), Text("C")];
    assert lines[..2] == [Text("A"), Text("B")];
    var ast := JoinAll(lines);
    assert ast == LineJoin(LineJoin(MultilineHeader(Paren(Text("A"))), Paren(Text("B"))), Paren(Text("C")));
    var ctx := InitialContext(j, "black");
    TextLine(ctx, "A");
    TextLine(ctx, "B");
    TextLine(ctx, "C");
  }

  /**
    Centre justification of the lines A, B and C: a transparent stack whose upper slot
    is the stack of A over B and whose lower slot is C, every line in the block's colour.
   */
  lemma CenterThreeLines()
    ensures Translate(JoinAll([Text("A"), Text("B"), Text("C")]), {}, Center, "black", [])
      == "\\textcolor{transparent}{"
         + ("\\binom{" + ("\\binom{" + "\\textcolor{black}{\\mathit{A}}" + "}{" + "\\textcolor{black}{\\mathit{B}}" + "}")
            + "}{" + "\\textcolor{black}{\\mathit{C}}" + "}")
         + "}"
  {
    var ctx := InitialContext(Center, "black");
    var t := ReplaceMap([]);
    var pa := SParen(ctx, "mathit", SText(ctx, "A"));
    var pb := SParen(ctx, "mathit", SText(ctx, "B"));
    var pc := SParen(ctx, "mathit", SText(ctx, "C"));
    var l := SJoin(ctx, SHeader(ctx, pa), pb);
    var s := SJoin(ctx, l, pc);
    var ls := RenderedLines(s, t);
    calc {
      Translate(JoinAll([Text("A"), Text("B"), Text("C")]), {}, Center, "black", []);
    == { ThreeLinesTree(Center); }
      Render(s, t);
    == { CenterJustified(ctx, l, pc, t); }
      Tinted("transparent", StackOf(ls, "black"));
    == { ThreeRenderedLines(Center, "A", "B", "C"); ItalicWords(); CenterLiteral(ls); }
      "\\textcolor{transparent}{"
        + ("\\binom{" + ("\\binom{" + "\\textcolor{black}{\\mathit{A}}" + "}{" + "\\textcolor{black}{\\mathit{B}}" + "}")
           + "}{" + "\\textcolor{black}{\\mathit{C}}" + "}")
        + "}";
    }
  }

  lemma ItalicWords()
    ensures "\\mathit{" + "A" + "}" == "\\mathit{A}"
    ensures "\\mathit{" + "B" + "}" == "\\mathit{B}"
    ensures "\\mathit{" + "C" + "}" == "\\mathit{C}"
  {
  }

  /** The rendered lines of a block of three words, each in the default italics. */
  lemma ThreeRenderedLines(j: Justify, a: string, b: string, c: string)
    requires ' ' !in a && '-' !in a && ' ' !in b && '-' !in b && ' ' !in c && '-' !in c
    ensures var ctx := InitialContext(j, "black");
      var pa := SParen(ctx, "mathit", SText(ctx, a));
      var pb := SParen(ctx, "mathit", SText(ctx, b));
      var pc := SParen(ctx, "mathit", SText(ctx, c));
      var s := SJoin(ctx, SJoin(ctx, SHeader(ctx, pa), pb), pc);
      StyledChain(s.left) && RenderedLines(s, ReplaceMap([])) == ["\\mathit{" + a + "}", "\\mathit{" + b + "}", "\\mathit{" + c + "}"]
  {
    var ctx := InitialContext(j, "black");
    var t := ReplaceMap([]);
    var pa := SParen(ctx, "mathit", SText(ctx, a));
    var pb := SParen(ctx, "mathit", SText(ctx, b));
    var pc := SParen(ctx, "mathit", SText(ctx, c));
    TextLine(ctx, a);
    TextLine(ctx, b);
    TextLine(ctx, c);
    ThreeLines(ctx, pa, pb, pc, t);
  }

  /** A block of three lines renders line by line. */
  lemma ThreeLines(ctx: Context, pa: Styled, pb: Styled, pc: Styled, t: Table)
    requires StyledPlain(pa) && StyledPlain(pb) && StyledPlain(pc)
    ensures RenderedLines(SJoin(ctx, SJoin(ctx, SHeader(ctx, pa), pb), pc), t) == [Render(pa, t), Render(pb, t), Render(pc, t)]
  {
    ThreeStyledLines(ctx, pa, pb, pc);
  }

  lemma ThreeStyledLines(ctx: Context, pa: Styled, pb: Styled, pc: Styled)
    requires StyledPlain(pa) && StyledPlain(pb) && StyledPlain(pc)
    ensures StyledLines(SJoin(ctx, SJoin(ctx, SHeader(ctx, pa), pb), pc)) == [pa, pb, pc]
  {
    assert StyledLines(SJoin(ctx, SHeader(ctx, pa), pb)) == [pa] + [pb];
  }

  lemma StackOfThree(a: string, b: string, c: string, colour: string)
    ensures StackOf([a, b, c], colour)
      == "\\binom{" + ("\\binom{" + Tinted(colour, a) + "}{" + Tinted(colour, b) + "}") + "}{" + Tinted(colour, c) + "}"
  {
    assert [a, b, c][..2] == [a, b];
    assert [a, b][..1] == [a];
    assert StackOf([a], colour) == Tinted(colour, a);
    assert StackOf([a, b], colour) == "\\binom{" + Tinted(colour, a) + "}{" + Tinted(colour, b) + "}";
  }

  lemma CenterLiteral(ls: seq<string>)
    requires ls == ["\\mathit{A}", "\\mathit{B}", "\\mathit{C}"]
    ensures Tinted("transparent", StackOf(ls, "black"))
      == "\\textcolor{transparent}{"
         + ("\\binom{" + ("\\binom{" + "\\textcolor{black}{\\mathit{A}}" + "}{" + "\\textcolor{black}{\\mathit{B}}" + "}")
            + "}{" + "\\textcolor{black}{\\mathit{C}}" + "}")
         + "}"
  {
    StackOfThree("\\mathit{A}", "\\mathit{B}", "\\mathit{C}", "black");
    BlackWords();
  }

  lemma BlackWords()
    ensures Tinted("black", "\\mathit{A}") == "\\textcolor{black}{\\mathit{A}}"
    ensures Tinted("black", "\\mathit{B}") == "\\textcolor{black}{\\mathit{B}}"
    ensures Tinted("black", "\\mathit{C}") == "\\textcolor{black}{\\mathit{C}}"
    ensures forall x :: Tinted("transparent", x) == "\\textcolor{transparent}{" + x + "}"
  {
  }

  /**
    Right justification of the lines A and BB: each line in its bottom-aligned class, and
    the innermost slot holding BB, the longer of the two, in transparent ink.
   */
  lemma RightTwoLines()
    ensures Translate(JoinLine(Text("A"), Text("BB")), {}, Right, "black", [])
      == "\\class{dcg-expression-bottom}{" + [RLM] + "\\mathit{A}"
         + "\\class{dcg-expression-bottom}{" + [RLM] + "\\mathit{BB}"
         + "\\textcolor{transparent}{\\mathit{BB}}" + "}}"
  {
    var ctx := InitialContext(Right, "black");
    var t := ReplaceMap([]);
    var pa, pb := SParen(ctx, "mathit", SText(ctx, "A")), SParen(ctx, "mathit", SText(ctx, "BB"));
    var h := SHeader(ctx, pa);
    TwoLinesConfigured();
    TwoRenderedLines();
    RightJustified(ctx, h, pb, t);
    RightTwoLiteral();
  }

  /** The two-line block's parts: openings of A and BB, the transparent BB, two closing braces. */
  lemma RightTwoLiteral()
    ensures var ls := ["\\mathit{A}", "\\mathit{BB}"];
      Opens(ls) + Tinted("transparent", Longest(ls)) + Closes(|ls|)
      == "\\class{dcg-expression-bottom}{" + [RLM] + "\\mathit{A}"
         + "\\class{dcg-expression-bottom}{" + [RLM] + "\\mathit{BB}"
         + "\\textcolor{transparent}{\\mathit{BB}}" + "}}"
  {
    var ls := ["\\mathit{A}", "\\mathit{BB}"];
    assert ls[..1] == ["\\mathit{A}"];
    assert LongestAt(ls[..1]) == 0;
    assert LongestAt(ls) == 1;
    OpensSnoc(["\\mathit{A}"], "\\mathit{BB}");
    OpensSingle("\\mathit{A}");
    assert ["\\mathit{A}"] + ["\\mathit{BB}"] == ls;
    assert Closes(2) == "}" + Closes(1);
    assert Closes(2) == "}}";
  }

  lemma TwoLinesConfigured()
    ensures var ctx := InitialContext(Right, "black");
      Configured(JoinLine(Text("A"), Text("BB")), {}, Right, "black", [])
      == SJoin(ctx, SHeader(ctx, SParen(ctx, "mathit", SText(ctx, "A"))), SParen(ctx, "mathit", SText(ctx, "BB")))
  {
    var ctx := InitialContext(Right, "black");
    assert JoinLine(Text("A"), Text("BB")) == LineJoin(MultilineHeader(Paren(Text("A"))), Paren(Text("BB")));
    TextLine(ctx, "A");
    TextLine(ctx, "BB");
  }

  lemma TwoRenderedLines()
    ensures var ctx := InitialContext(Right, "black");
      var h := SHeader(ctx, SParen(ctx, "mathit", SText(ctx, "A")));
      var pb := SParen(ctx, "mathit", SText(ctx, "BB"));
      StyledChain(h) && StyledPlain(pb)
      && RenderedLines(SJoin(ctx, h, pb), ReplaceMap([])) == ["\\mathit{A}", "\\mathit{BB}"]
  {
    var ctx := InitialContext(Right, "black");
    var pa, pb := SParen(ctx, "mathit", SText(ctx, "A")), SParen(ctx, "mathit", SText(ctx, "BB"));
    var s := SJoin(ctx, SHeader(ctx, pa), pb);
    assert StyledLines(s) == [pa, pb];
    var ls := RenderedLines(s, ReplaceMap([]));
    TextLine(ctx, "A");
    TextLine(ctx, "BB");
    assert ls[0] == "\\mathit{A}" && ls[1] == "\\mathit{BB}";
  }
}
