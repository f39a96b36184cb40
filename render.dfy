/**
  Rendering (`eval`): a bottom-up pass over the configured tree producing the
  markup string. Font nodes wrap their child in a font command, size and colour
  nodes in a presentation command, and line-join chains are folded into one
  multi-line block according to the justification in their context.
 */
module Rendering {
  import opened Fonts
  import opened Ast
  import opened Strings
  import opened Substitution
  import opened Configuration

  /** Right-to-left mark, put before each line of a right-justified block. */
  const RLM: char := '‏'

  /** The marker for "next line goes here" in a right-justified block under construction. */
  const Placeholder: string := "{next_line}"

  /** An argument of `cmd`: a plain string, or a node given by its rendering and whether it is a text or concatenation node. */
  datatype Piece = Str(s: string) | Node(isBlock: bool, s: string)

  /** `wrap_if_not_block`: strings and text/concatenation nodes are braced, other nodes are inserted bare. */
  function WrapIfNotBlock(p: Piece): (r: string)
    ensures p.Str? || p.isBlock ==> r == "{" + p.s + "}"
    ensures p.Node? && !p.isBlock ==> r == p.s
  {
    match p
    case Str(s) => "{" + s + "}"
    case Node(isBlock, s) => if isBlock then "{" + s + "}" else s
  }

  function Args(args: seq<Piece>): string {
    if args == [] then [] else WrapIfNotBlock(args[0]) + Args(args[1..])
  }

  /** `cmd`: a backslash, the command name, then each argument in turn. */
  function Cmd(command: string, args: seq<Piece>): (r: string)
    ensures |args| == 1 ==> r == "\\" + command + WrapIfNotBlock(args[0])
    ensures |args| == 2 ==> r == "\\" + command + WrapIfNotBlock(args[0]) + WrapIfNotBlock(args[1])
  {
    assert |args| == 1 ==> Args(args) == WrapIfNotBlock(args[0]) + Args([]);
    assert |args| == 2 ==> args[1..][1..] == [] && Args(args) == WrapIfNotBlock(args[0]) + WrapIfNotBlock(args[1]) + Args([]);
    "\\" + command + Args(args)
  }

  /** A command with two string arguments: both braced, one after the other. */
  lemma CmdTwoStrings(command: string, a: string, b: string)
    ensures Cmd(command, [Str(a), Str(b)]) == "\\" + command + "{" + a + "}{" + b + "}"
  {
    var args := [Str(a), Str(b)];
    assert WrapIfNotBlock(args[0]) == "{" + a + "}";
    assert WrapIfNotBlock(args[1]) == "{" + b + "}";
  }

  /** The container that holds all but the last line of a left-justified block. */
  lemma ContainerIsCmd(x: string)
    ensures Cmd("class", [Str("dcg-search-container"), Str(x)]) == "\\class{dcg-search-container}{" + x + "}"
  {
    CmdTwoStrings("class", "dcg-search-container", x);
    ContainerHead(x);
  }

  lemma ContainerHead(x: string)
    ensures "\\" + "class" + "{" + "dcg-search-container" + "}{" + x + "}" == "\\class{dcg-search-container}{" + x + "}"
  {
  }

  /** The two-row stack of center justification. */
  lemma BinomIsCmd(top: string, bottom: string)
    ensures Cmd("binom", [Str(top), Str(bottom)]) == "\\binom{" + top + "}{" + bottom + "}"
  {
    CmdTwoStrings("binom", top, bottom);
    CommandHeads();
  }

  /** The spelled-out heads of the stack and its tinted rows. */
  lemma CommandHeads()
    ensures "\\" + "textcolor" + "{" == "\\textcolor{"
    ensures "\\" + "binom" + "{" == "\\binom{"
  {
  }

  /** A new line under an earlier stack, tinted. */
  lemma TintedBinom(top: string, colour: string, line: string)
    ensures Cmd("binom", [Str(top), Str(Cmd("textcolor", [Str(colour), Str(line)]))])
      == "\\binom{" + top + "}{" + ("\\textcolor{" + colour + "}{" + line + "}") + "}"
  {
    TextcolorIsCmd(colour, line);
    BinomIsCmd(top, Cmd("textcolor", [Str(colour), Str(line)]));
  }

  lemma TextcolorIsCmd(colour: string, line: string)
    ensures Cmd("textcolor", [Str(colour), Str(line)]) == "\\textcolor{" + colour + "}{" + line + "}"
  {
    CmdTwoStrings("textcolor", colour, line);
    CommandHeads();
  }

  /** A child node as a `cmd` argument. */
  function NodePiece(child: Styled, rendered: string): (p: Piece)
    ensures WrapIfNotBlock(p) == if child.SText? || child.SConcat? then "{" + rendered + "}" else rendered
  {
    Node(child.SText? || child.SConcat?, rendered)
  }

  /** What a line-join chain hands its parent before the block is finished (`eval(False)`). */
  datatype Partial = Partial(
    lines: seq<string>,   // every line rendered so far, first line first (left and right justify)
    stack: string,        // the nested two-row stack built so far (center justify)
    template: string)     // the right-justified block with one placeholder for the next line

  /** The opening of one right-justified line: a bottom-aligned class, a right-to-left mark, the line. */
  function RightOpen(line: string): string {
    "\\class{dcg-expression-bottom}{" + [RLM] + line
  }

  /** Where `max(lines, key=len)` stops: the first line of maximal length. */
  function LongestAt(lines: seq<string>): (i: nat)
    requires |lines| >= 1
    ensures i < |lines|
    ensures forall j :: 0 <= j < |lines| ==> |lines[j]| <= |lines[i]|
    ensures forall j :: 0 <= j < i ==> |lines[j]| < |lines[i]|
  {
    if |lines| == 1 then 0
    else
      var prev := LongestAt(lines[..|lines| - 1]);
      assert forall j :: 0 <= j < |lines| - 1 ==> lines[..|lines| - 1][j] == lines[j];
      if |lines[|lines| - 1]| > |lines[prev]| then |lines| - 1 else prev
  }

  function Longest(lines: seq<string>): string
    requires |lines| >= 1
  {
    lines[LongestAt(lines)]
  }

  /** The transparent copy of the longest line that sizes a right-justified block. */
  function Filler(lines: seq<string>): string
    requires |lines| >= 1
  {
    Cmd("textcolor", [Str("transparent"), Str(Longest(lines))])
  }

  /** `}` repeated `n` times. */
  function Closes(n: nat): (r: string)
    ensures |r| == n && forall i :: 0 <= i < n ==> r[i] == '}'
  {
    if n == 0 then [] else "}" + Closes(n - 1)
  }

  /**
    A right-justified block: each line opens a bottom-aligned class holding the
    line and everything after it; the innermost slot holds `hole`.
   */
  function RightNest(lines: seq<string>, hole: string): string {
    if lines == [] then hole else RightOpen(lines[0]) + RightNest(lines[1..], hole) + "}"
  }

  /** `LineJoin.eval(False)`: add the right line to every justification's intermediate form. */
  function Extend(ctx: Context, left: Partial, right: string): (p: Partial)
    ensures p.lines == left.lines + [right]
    ensures p.stack == "\\binom{" + left.stack + "}{" + ("\\textcolor{" + ctx.colour + "}{" + right + "}") + "}"
  {
    TintedBinom(left.stack, ctx.colour, right);
    Partial(
      left.lines + [right],
      Cmd("binom", [Str(left.stack), Str(Cmd("textcolor", [Str(ctx.colour), Str(right)]))]),
      ReplaceAll(left.template, Placeholder, Cmd("class", [Str("dcg-expression-bottom"), Str([RLM] + right + Placeholder)])))
  }

  /**
    `LineJoin.eval(True)`: center makes the whole stack transparent (its real lines carry
    their own colour); right fills the innermost slot with the transparent longest line;
    left stacks every line but the last in a container and lets the last flow after it.
   */
  function Finish(ctx: Context, left: Partial, right: string): (r: string)
    ensures ctx.justify == Left ==> r == "\\class{dcg-search-container}{" + Join(left.lines) + "}" + right
    ensures ctx.justify == Center ==> r == "\\textcolor{transparent}{" + Extend(ctx, left, right).stack + "}"
  {
    var p := Extend(ctx, left, right);
    match ctx.justify
    case Center =>
      TransparentIsCmd(p.stack);
      Cmd("textcolor", [Str("transparent"), Str(p.stack)])
    case Right => RightNest(p.lines, Filler(p.lines))
    case Left =>
      LastLineAfter(left.lines, right);
      Cmd("class", [Str("dcg-search-container"), Str(Join(p.lines[..|p.lines| - 1]))]) + p.lines[|p.lines| - 1]
  }

  lemma TransparentIsCmd(x: string)
    ensures Cmd("textcolor", [Str("transparent"), Str(x)]) == "\\textcolor{transparent}{" + x + "}"
  {
    CmdTwoStrings("textcolor", "transparent", x);
    CommandHeads();
  }

  lemma LastLineAfter(lines: seq<string>, right: string)
    ensures var all := lines + [right];
      Cmd("class", [Str("dcg-search-container"), Str(Join(all[..|all| - 1]))]) + all[|all| - 1]
      == "\\class{dcg-search-container}{" + Join(lines) + "}" + right
  {
    var all := lines + [right];
    assert all[..|all| - 1] == lines;
    ContainerIsCmd(Join(lines));
  }

  /** The right-justified finish as the source writes it: substitute the filler for the placeholder. */
  function FinishRightAsWritten(p: Partial): string
    requires |p.lines| >= 1
  {
    ReplaceAll(p.template, Placeholder, Filler(p.lines))
  }

  /** `eval()` of a node that stands on its own. */
  function Render(s: Styled, table: Table): string
    requires StyledPlain(s)
    decreases s
  {
    match s
    case SText(_, lit) => TextEval(table, lit)
    case SConcat(_, l, r) => Render(l, table) + Render(r, table)
    case SBold(_, b) => Cmd("mathbf", [Str(Render(b, table))])
    case SItalics(_, b) => Cmd("mathit", [Str(Render(b, table))])
    case STeletype(_, b) => Cmd("mathtt", [Str(Render(b, table))])
    case SSansSerif(_, b) => Cmd("mathsf", [Str(Render(b, table))])
    case SRoman(ctx, b) =>
      if RomanFace in ctx.font then Render(b, table) else Cmd("mathrm", [Str(Render(b, table))])
    case SColour(_, code, b) =>
      Cmd("textcolor", [Str(TextEval(table, code)), NodePiece(b, Render(b, table))])
    case SBig(_, b) => Cmd("class", [Str("dcg-displaysize-large"), NodePiece(b, Render(b, table))])
    case SSmol(_, b) => Cmd("class", [Str("dcg-mq-sub"), NodePiece(b, Render(b, table))])
    case SParen(_, c, b) => "\\" + c + "{" + Render(b, table) + "}"
    case SJoin(ctx, l, r) => Finish(ctx, RenderChain(l, table), Render(r, table))
  }

  /** `eval(False)` of a line-join chain. */
  function RenderChain(s: Styled, table: Table): (p: Partial)
    requires StyledChain(s)
    ensures |p.lines| >= 1
    decreases s
  {
    match s
    case SHeader(ctx, b) =>
      var arg := Render(b, table);
      Partial(
        [arg],
        Cmd("textcolor", [Str(ctx.colour), Str(arg)]),
        Cmd("class", [Str("dcg-expression-bottom"), Str([RLM] + arg + Placeholder)]))
    case SJoin(ctx, l, r) => Extend(ctx, RenderChain(l, table), Render(r, table))
  }

  /** The configured line nodes of a chain, first line first. */
  function StyledLines(s: Styled): (ls: seq<Styled>)
    requires StyledChain(s)
    ensures |ls| >= 1 && forall i :: 0 <= i < |ls| ==> StyledPlain(ls[i])
  {
    match s
    case SHeader(_, b) => [b]
    case SJoin(_, l, r) => StyledLines(l) + [r]
  }

  // ----- what `cmd` makes of each node -----

  /** A one-argument command braces its argument. */
  lemma FontCmd(command: string, x: string)
    ensures Cmd(command, [Str(x)]) == "\\" + command + "{" + x + "}"
  {
  }

  /** The spelled-out heads of the commands nodes render with. */
  lemma Heads()
    ensures "\\" + "mathbf" + "{" == "\\mathbf{" && "\\" + "mathit" + "{" == "\\mathit{"
    ensures "\\" + "mathtt" + "{" == "\\mathtt{" && "\\" + "mathsf" + "{" == "\\mathsf{"
    ensures "\\" + "mathrm" + "{" == "\\mathrm{"
    ensures "\\" + "class" + "{" + "dcg-displaysize-large" + "}" == "\\class{dcg-displaysize-large}"
    ensures "\\" + "class" + "{" + "dcg-mq-sub" + "}" == "\\class{dcg-mq-sub}"
    ensures "\\" + "textcolor" + "{" == "\\textcolor{"
  {
  }

  /**
    Bold, italics, teletype and sans-serif always brace their content in their font
    command; roman does too, unless roman was already active, and then it adds nothing.
   */
  lemma FontNodeRendering(s: Styled, table: Table)
    requires StyledPlain(s) && IsFontNode(s)
    ensures var inner := Render(s.body, table);
      && (s.SBold? ==> Render(s, table) == "\\mathbf{" + inner + "}")
      && (s.SItalics? ==> Render(s, table) == "\\mathit{" + inner + "}")
      && (s.STeletype? ==> Render(s, table) == "\\mathtt{" + inner + "}")
      && (s.SSansSerif? ==> Render(s, table) == "\\mathsf{" + inner + "}")
      && (s.SRoman? ==> Render(s, table) == if RomanFace in s.ctx.font then inner else "\\mathrm{" + inner + "}")
  {
    var inner := Render(s.body, table);
    Heads();
    match s
    case SBold(_, _) =>
      assert Render(s, table) == Cmd("mathbf", [Str(inner)]);
      FontCmd("mathbf", inner);
    case SItalics(_, _) =>
      assert Render(s, table) == Cmd("mathit", [Str(inner)]);
      FontCmd("mathit", inner);
    case STeletype(_, _) =>
      assert Render(s, table) == Cmd("mathtt", [Str(inner)]);
      FontCmd("mathtt", inner);
    case SSansSerif(_, _) =>
      assert Render(s, table) == Cmd("mathsf", [Str(inner)]);
      FontCmd("mathsf", inner);
    case SRoman(ctx, _) =>
      if RomanFace !in ctx.font {
        assert Render(s, table) == Cmd("mathrm", [Str(inner)]);
        FontCmd("mathrm", inner);
      }
  }

  /**
    Size and colour nodes hand their content node to `cmd` unrendered, so it is braced
    only when it is a text or concatenation node; any other node is inserted bare.
   */
  lemma BlockBracing(s: Styled, table: Table)
    requires StyledPlain(s) && (s.SBig? || s.SSmol? || s.SColour?)
    ensures var inner := Render(s.body, table);
      var arg := if s.body.SText? || s.body.SConcat? then "{" + inner + "}" else inner;
      && (s.SBig? ==> Render(s, table) == "\\class{dcg-displaysize-large}" + arg)
      && (s.SSmol? ==> Render(s, table) == "\\class{dcg-mq-sub}" + arg)
      && (s.SColour? ==> Render(s, table) == "\\textcolor{" + TextEval(table, s.code) + "}" + arg)
  {
    var inner := Render(s.body, table);
    var p := NodePiece(s.body, inner);
    var arg := if s.body.SText? || s.body.SConcat? then "{" + inner + "}" else inner;
    assert WrapIfNotBlock(p) == arg;
    match s
    case SBig(_, _) =>
      assert Render(s, table) == Cmd("class", [Str("dcg-displaysize-large"), p]);
      NameThenNode("class", "dcg-displaysize-large", p);
      Heads();
    case SSmol(_, _) =>
      assert Render(s, table) == Cmd("class", [Str("dcg-mq-sub"), p]);
      NameThenNode("class", "dcg-mq-sub", p);
      Heads();
    case SColour(_, code, _) =>
      assert Render(s, table) == Cmd("textcolor", [Str(TextEval(table, code)), p]);
      NameThenNode("textcolor", TextEval(table, code), p);
      Heads();
  }

  /** A command whose first argument is a string and whose second is a node. */
  lemma NameThenNode(command: string, first: string, p: Piece)
    ensures Cmd(command, [Str(first), p]) == "\\" + command + "{" + first + "}" + WrapIfNotBlock(p)
  {
  }
}
