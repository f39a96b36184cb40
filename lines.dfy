/**
  The three layouts of a multi-line block, each stated against an independent
  description of the block built from its rendered lines, and the right-justified
  layout as the source writes it (placeholder substitution) compared with the
  structural one the model renders.
 */
module LineBlocks {
  import opened Fonts
  import opened Ast
  import opened Strings
  import opened Substitution
  import opened Configuration
  import opened Rendering

  /** The rendering of every line of a chain, first line first. */
  function RenderedLines(s: Styled, table: Table): (ls: seq<string>)
    requires StyledChain(s)
    ensures |ls| == |StyledLines(s)|
  {
    var nodes := StyledLines(s);
    seq(|nodes|, i requires 0 <= i < |nodes| => Render(nodes[i], table))
  }

  /** The lines a chain hands its parent are exactly its line nodes, rendered, in order. */
  lemma {:induction false} RenderChainLines(s: Styled, table: Table)
    requires StyledChain(s)
    ensures RenderChain(s, table).lines == RenderedLines(s, table)
  {
    match s
    case SHeader(_, b) =>
    case SJoin(_, l, r) =>
      RenderChainLines(l, table);
      assert RenderChain(s, table).lines == RenderChain(l, table).lines + [Render(r, table)];
  }

  // ----- left justification -----

  /**
    Left-justified block: every line but the last inside one search container, the
    last line after it.
   */
  lemma LeftJustified(ctx: Context, l: Styled, r: Styled, table: Table)
    requires StyledChain(l) && StyledPlain(r) && ctx.justify == Left
    ensures var ls := RenderedLines(SJoin(ctx, l, r), table);
      Render(SJoin(ctx, l, r), table)
      == "\\class{dcg-search-container}{" + Join(ls[..|ls| - 1]) + "}" + ls[|ls| - 1]
  {
    var ls := RenderChain(SJoin(ctx, l, r), table).lines;
    RenderChainLines(SJoin(ctx, l, r), table);
    var init := Join(ls[..|ls| - 1]);
    assert Render(SJoin(ctx, l, r), table)
      == Cmd("class", [Str("dcg-search-container"), Str(init)]) + ls[|ls| - 1];
    ContainerIsCmd(init);
  }

  // ----- center justification -----

  /** A line drawn in the given colour. */
  function Tinted(colour: string, line: string): string {
    "\\textcolor{" + colour + "}{" + line + "}"
  }

  lemma TintedIsCmd(colour: string, line: string)
    ensures Cmd("textcolor", [Str(colour), Str(line)]) == Tinted(colour, line)
  {
    CmdTwoStrings("textcolor", colour, line);
    CommandHeads();
  }

  /** The stack of lines, each in `colour`: every new line goes underneath everything before it. */
  function StackOf(lines: seq<string>, colour: string): string
    requires |lines| >= 1
  {
    if |lines| == 1 then Tinted(colour, lines[0])
    else "\\binom{" + StackOf(lines[..|lines| - 1], colour) + "}{" + Tinted(colour, lines[|lines| - 1]) + "}"
  }

  /** Every header and join of the chain carries the colour `c`. */
  predicate ChainColour(s: Styled, c: string) {
    match s
    case SHeader(ctx, _) => ctx.colour == c
    case SJoin(ctx, l, _) => ctx.colour == c && ChainColour(l, c)
    case _ => false
  }

  lemma {:induction false} CenterStack(s: Styled, c: string, table: Table)
    requires StyledChain(s) && ChainColour(s, c)
    ensures RenderChain(s, table).stack == StackOf(RenderChain(s, table).lines, c)
  {
    match s
    case SHeader(_, b) =>
      TintedIsCmd(c, Render(b, table));
    case SJoin(_, l, r) =>
      CenterStack(l, c, table);
      var left := RenderChain(l, table);
      var ls := RenderChain(s, table).lines;
      assert ls[..|ls| - 1] == left.lines;
      TintedIsCmd(c, Render(r, table));
      BinomIsCmd(left.stack, Tinted(c, Render(r, table)));
  }

  /**
    Center-justified block: the stack of all lines in the block's colour, drawn inside a
    transparent command so that only the lines' own colour shows.
   */
  lemma CenterJustified(ctx: Context, l: Styled, r: Styled, table: Table)
    requires StyledChain(l) && StyledPlain(r) && ctx.justify == Center
    requires ChainColour(SJoin(ctx, l, r), ctx.colour)
    ensures Render(SJoin(ctx, l, r), table)
      == Tinted("transparent", StackOf(RenderedLines(SJoin(ctx, l, r), table), ctx.colour))
  {
    var p := RenderChain(SJoin(ctx, l, r), table);
    CenterStack(SJoin(ctx, l, r), ctx.colour, table);
    RenderChainLines(SJoin(ctx, l, r), table);
    TintedIsCmd("transparent", p.stack);
  }

  /** A chain built by configuration carries the colour of the context it was configured in. */
  lemma {:induction false} PropagateChainColour(e: Expr, ctx: Context, table: Table)
    requires Chain(e)
    ensures ChainColour(Propagate(e, ctx, table), ctx.colour)
  {
    match e
    case MultilineHeader(_) =>
    case LineJoin(l, _) => PropagateChainColour(l, ctx, table);
  }

  // ----- right justification -----

  /** The openings of every line of a right-justified block, in order. */
  function Opens(lines: seq<string>): string {
    if lines == [] then [] else RightOpen(lines[0]) + Opens(lines[1..])
  }

  lemma {:induction false} OpensSnoc(lines: seq<string>, last: string)
    ensures Opens(lines + [last]) == Opens(lines) + RightOpen(last)
  {
    if lines == [] {
      assert lines + [last] == [last];
    } else {
      assert (lines + [last])[1..] == lines[1..] + [last];
      OpensSnoc(lines[1..], last);
    }
  }

  /** A nested right-justified block is the openings, the innermost slot, then one closing brace per line. */
  lemma {:induction false} RightNestSplit(lines: seq<string>, hole: string)
    ensures RightNest(lines, hole) == Opens(lines) + hole + Closes(|lines|)
  {
    if lines != [] {
      RightNestSplit(lines[1..], hole);
      assert Closes(|lines| - 1) + "}" == Closes(|lines|);
    }
  }

  /** The constant part of an opening, between its backslash and its right-to-left mark. */
  const OpenMiddle: string := "class{dcg-expression-bottom}{"

  lemma MiddleAbsent()
    ensures !Occurs(OpenMiddle, Placeholder)
  {
    assert Placeholder[5] == '_' && '_' !in OpenMiddle;
    MissingCharAbsent(OpenMiddle, Placeholder, 5);
  }

  lemma OpenSplit()
    ensures "\\class{dcg-expression-bottom}{" == ['\\'] + OpenMiddle
  {
  }

  lemma RightOpenAbsent(prefix: string, line: string)
    requires !Occurs(prefix, Placeholder) && !Occurs(line, Placeholder)
    ensures !Occurs(prefix + RightOpen(line), Placeholder)
  {
    MiddleAbsent();
    GlueAbsent(OpenMiddle, RLM, line, Placeholder);
    GlueAbsent(prefix, '\\', OpenMiddle + [RLM] + line, Placeholder);
    OpenSplit();
    assert prefix + RightOpen(line) == prefix + ['\\'] + (OpenMiddle + [RLM] + line);
  }

  /** The command that opens the slot for the next line is an opening, the placeholder, and a closing brace. */
  lemma BottomIsCmd(line: string)
    ensures Cmd("class", [Str("dcg-expression-bottom"), Str([RLM] + line + Placeholder)])
      == RightOpen(line) + Placeholder + "}"
  {
    CmdTwoStrings("class", "dcg-expression-bottom", [RLM] + line + Placeholder);
    BottomHead([RLM] + line + Placeholder);
  }

  lemma BottomHead(x: string)
    ensures "\\" + "class" + "{" + "dcg-expression-bottom" + "}{" + x + "}" == "\\class{dcg-expression-bottom}{" + x + "}"
  {
  }

  /** No line contains the placeholder, so none of the openings does. */
  lemma {:induction false} OpensAbsent(lines: seq<string>)
    requires forall i :: 0 <= i < |lines| ==> !Occurs(lines[i], Placeholder)
    ensures !Occurs(Opens(lines), Placeholder)
    decreases |lines|
  {
    if lines == [] {
      ShortAbsent(Opens(lines), Placeholder);
    } else {
      var init := lines[..|lines| - 1];
      OpensAbsent(init);
      RightOpenAbsent(Opens(init), lines[|lines| - 1]);
      assert init + [lines[|lines| - 1]] == lines;
      OpensSnoc(init, lines[|lines| - 1]);
    }
  }

  lemma ClosesAbsent(n: nat)
    ensures !Occurs(Closes(n), Placeholder)
  {
    MissingCharAbsent(Closes(n), Placeholder, 0);
  }

  /** The placeholder's opening brace occurs nowhere else in it. */
  lemma PlaceholderHead()
    ensures Placeholder != [] && Placeholder[0] !in Placeholder[1..]
  {
    assert Placeholder[1..] == "next_line}";
  }

  /** One substitution step of the template, for placeholder-free earlier lines. */
  lemma TemplateStep(lines: seq<string>, right: string)
    requires forall i :: 0 <= i < |lines| ==> !Occurs(lines[i], Placeholder)
    ensures ReplaceAll(Opens(lines) + Placeholder + Closes(|lines|), Placeholder,
                       Cmd("class", [Str("dcg-expression-bottom"), Str([RLM] + right + Placeholder)]))
      == Opens(lines + [right]) + Placeholder + Closes(|lines| + 1)
  {
    var x := Cmd("class", [Str("dcg-expression-bottom"), Str([RLM] + right + Placeholder)]);
    PlaceholderHead();
    OpensAbsent(lines);
    ReplaceAtFirst(Opens(lines), Placeholder, Closes(|lines|), x);
    ClosesAbsent(|lines|);
    ReplaceAbsent(Closes(|lines|), Placeholder, x);
    OpensSnoc(lines, right);
    BottomIsCmd(right);
    ClosesCons(|lines|);
    calc {
      ReplaceAll(Opens(lines) + Placeholder + Closes(|lines|), Placeholder, x);
      Opens(lines) + x + Closes(|lines|);
      Opens(lines) + (RightOpen(right) + Placeholder + "}") + Closes(|lines|);
      { Regroup(Opens(lines), RightOpen(right), Placeholder, "}", Closes(|lines|)); }
      (Opens(lines) + RightOpen(right)) + Placeholder + ("}" + Closes(|lines|));
      Opens(lines + [right]) + Placeholder + Closes(|lines| + 1);
    }
  }

  lemma Regroup(a: string, b: string, c: string, d: string, e: string)
    ensures a + (b + c + d) + e == (a + b) + c + (d + e)
  {
  }

  lemma RegroupTail(a: string, b: string, c: string, d: string, e: string)
    ensures (a + b + c) + d + e == a + b + (c + d + e)
  {
  }

  lemma ClosesCons(n: nat)
    ensures "}" + Closes(n) == Closes(n + 1)
  {
  }

  /**
    As long as no line contains the placeholder, the template a chain builds is its
    openings, one placeholder, and one closing brace per line.
   */
  lemma {:induction false} TemplateShape(s: Styled, table: Table)
    requires StyledChain(s)
    requires forall i :: 0 <= i < |RenderChain(s, table).lines| ==> !Occurs(RenderChain(s, table).lines[i], Placeholder)
    ensures var p := RenderChain(s, table);
      p.template == Opens(p.lines) + Placeholder + Closes(|p.lines|)
  {
    match s
    case SHeader(_, b) => HeaderTemplate(Render(b, table));
    case SJoin(ctx, l, r) =>
      var left := RenderChain(l, table);
      var p := Extend(ctx, left, Render(r, table));
      assert RenderChain(s, table) == p;
      assert forall i :: 0 <= i < |left.lines| ==> left.lines[i] == p.lines[i];
      TemplateShape(l, table);
      ExtendTemplate(ctx, left, Render(r, table));
  }

  /** Extending a template of the expected shape keeps that shape. */
  lemma ExtendTemplate(ctx: Context, left: Partial, right: string)
    requires forall i :: 0 <= i < |left.lines| ==> !Occurs(left.lines[i], Placeholder)
    requires left.template == Opens(left.lines) + Placeholder + Closes(|left.lines|)
    ensures var p := Extend(ctx, left, right);
      p.template == Opens(p.lines) + Placeholder + Closes(|p.lines|)
  {
    TemplateStep(left.lines, right);
  }

  lemma HeaderTemplate(arg: string)
    ensures Cmd("class", [Str("dcg-expression-bottom"), Str([RLM] + arg + Placeholder)])
      == Opens([arg]) + Placeholder + Closes(1)
  {
    BottomIsCmd(arg);
    OpensSingle(arg);
    assert Closes(1) == "}" + Closes(0);
  }

  lemma OpensSingle(line: string)
    ensures Opens([line]) == RightOpen(line)
  {
    assert [line][1..] == [];
    assert Opens([line]) == RightOpen(line) + Opens([]);
  }

  /**
    Where no line contains the placeholder, the source's substitution and the structural
    right-justified block agree.
   */
  lemma RightAgrees(ctx: Context, l: Styled, r: Styled, table: Table)
    requires StyledChain(l) && StyledPlain(r) && ctx.justify == Right
    requires forall line :: line in RenderChain(SJoin(ctx, l, r), table).lines ==> !Occurs(line, Placeholder)
    ensures Render(SJoin(ctx, l, r), table)
      == FinishRightAsWritten(Extend(ctx, RenderChain(l, table), Render(r, table)))
  {
    var p := RenderChain(SJoin(ctx, l, r), table);
    PlaceholderHead();
    TemplateShape(SJoin(ctx, l, r), table);
    OpensAbsent(p.lines);
    ReplaceAtFirst(Opens(p.lines), Placeholder, Closes(|p.lines|), Filler(p.lines));
    ClosesAbsent(|p.lines|);
    ReplaceAbsent(Closes(|p.lines|), Placeholder, Filler(p.lines));
    RightNestSplit(p.lines, Filler(p.lines));
  }

  /**
    Right-justified block, as the model renders it: every line opens a bottom-aligned
    class that holds the rest of the block, and the innermost slot holds the longest
    line in transparent ink.
   */
  lemma RightJustified(ctx: Context, l: Styled, r: Styled, table: Table)
    requires StyledChain(l) && StyledPlain(r) && ctx.justify == Right
    ensures var ls := RenderedLines(SJoin(ctx, l, r), table);
      Render(SJoin(ctx, l, r), table)
      == Opens(ls) + Tinted("transparent", Longest(ls)) + Closes(|ls|)
  {
    var ls := RenderChain(SJoin(ctx, l, r), table).lines;
    RenderChainLines(SJoin(ctx, l, r), table);
    RightNestSplit(ls, Filler(ls));
    TintedIsCmd("transparent", Longest(ls));
  }

  /**
    The source's substitution goes wrong once a line's own rendering contains the
    placeholder: after a placeholder-free first line `a`, a second line
    `u + "{next_line}" + v` has its own text replaced by the transparent filler, so the
    source's block differs from the structural one right after the openings of `a` and `u`.
   */
  lemma AsWrittenCorruptsPlaceholderLine(ctx: Context, h: Styled, r: Styled, table: Table, u: string, v: string)
    requires h.SHeader? && StyledPlain(h.body) && StyledPlain(r) && ctx.justify == Right
    requires !Occurs(Render(h.body, table), Placeholder) && !Occurs(u, Placeholder)
    requires Render(r, table) == u + Placeholder + v
    ensures FinishRightAsWritten(Extend(ctx, RenderChain(h, table), Render(r, table)))
      != Render(SJoin(ctx, h, r), table)
  {
    var p := Extend(ctx, RenderChain(h, table), Render(r, table));
    TwoLineTemplate(ctx, h, r, table);
    assert Render(SJoin(ctx, h, r), table) == RightNest(p.lines, Filler(p.lines));
    PartialCorrupts(p, Render(h.body, table), u, v);
  }

  lemma PartialCorrupts(p: Partial, a: string, u: string, v: string)
    requires p.lines == [a, u + Placeholder + v]
    requires p.template == Opens(p.lines) + Placeholder + Closes(2)
    requires !Occurs(a, Placeholder) && !Occurs(u, Placeholder)
    ensures FinishRightAsWritten(p) != RightNest(p.lines, Filler(p.lines))
  {
    SplitOpening(a, u, v);
    OpensAbsent([a, u]);
    var pre := Opens([a, u]);
    var fill := Filler(p.lines);
    assert p.template == pre + Placeholder + (v + Placeholder + Closes(2));
    assert fill[0] == '\\';
    RightNestSplit(p.lines, fill);
    RegroupTail(pre, Placeholder, v, fill, Closes(2));
    SubstitutionOverwrites(pre, v + Placeholder + Closes(2), fill, v + fill + Closes(2));
  }

  /** The template of a two-line block whose first line is placeholder-free. */
  lemma TwoLineTemplate(ctx: Context, h: Styled, r: Styled, table: Table)
    requires h.SHeader? && StyledPlain(h.body) && StyledPlain(r)
    requires !Occurs(Render(h.body, table), Placeholder)
    ensures var p := Extend(ctx, RenderChain(h, table), Render(r, table));
      p.lines == [Render(h.body, table), Render(r, table)]
      && p.template == Opens(p.lines) + Placeholder + Closes(2)
  {
    HeaderTemplate(Render(h.body, table));
    TemplateStep([Render(h.body, table)], Render(r, table));
  }

  /** The opening of a line that contains the placeholder exposes it. */
  lemma SplitOpening(a: string, u: string, v: string)
    ensures Opens([a, u + Placeholder + v]) == Opens([a, u]) + Placeholder + v
  {
    OpensSnoc([a], u);
    OpensSnoc([a], u + Placeholder + v);
    assert [a] + [u] == [a, u];
    assert [a] + [u + Placeholder + v] == [a, u + Placeholder + v];
  }

  /**
    Substituting for the first placeholder after a placeholder-free prefix puts the
    substitute's first character where the placeholder's opening brace stood.
   */
  lemma SubstitutionOverwrites(pre: string, rest: string, fill: string, other: string)
    requires !Occurs(pre, Placeholder) && fill != [] && fill[0] != '{'
    ensures ReplaceAll(pre + Placeholder + rest, Placeholder, fill) != pre + Placeholder + other
  {
    PlaceholderHead();
    ReplaceAtFirst(pre, Placeholder, rest, fill);
    var asWritten := pre + fill + ReplaceAll(rest, Placeholder, fill);
    assert asWritten[|pre|] == fill[0];
    assert (pre + Placeholder + other)[|pre|] == '{';
  }
}
