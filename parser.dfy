/**
  The parser's semantic actions — what each grammar production builds from the trees
  of its right-hand side — and the driver that wraps the parsed tree in the default
  fonts and colour, seeds the context, configures and renders it.
 */
module Parser {
  import opened Fonts
  import opened Ast
  import opened Strings
  import opened Substitution
  import opened Configuration
  import opened Rendering
  import Lexer

  /** `expr : F`: a run of `f` is set upright, fenced by zero-width non-joiners. */
  function FAction(run: string): Expr {
    Roman(Text([ZWNJ] + run + [ZWNJ]))
  }

  /** `expr : BOLDITALICS expr BOLDITALICS`. */
  function BoldItalicsAction(e: Expr): Expr {
    Italics(Bold(e))
  }

  /** The operand of a line break as it is stored: text and concatenations are fenced in a `Paren`. */
  function Fenced(e: Expr): Expr {
    if e.Text? || e.Concat? then Paren(e) else e
  }

  /**
    `expr : expr BREAK expr`: the lower line is appended to the upper chain, or the
    upper expression becomes the header of a new chain.
   */
  function JoinLine(upper: Expr, lower: Expr): (r: Expr)
    requires (Plain(upper) || Chain(upper)) && Plain(lower)
    ensures r.LineJoin? && Chain(r) && Plain(r)
    ensures upper.LineJoin? || upper.MultilineHeader? ==> r.left == upper
    ensures !(upper.LineJoin? || upper.MultilineHeader?) ==> r.left == MultilineHeader(Fenced(upper))
    ensures r.right == Fenced(lower)
  {
    var top := Fenced(upper);
    var bottom := Fenced(lower);
    assert Plain(upper) ==> Plain(top);
    if top.LineJoin? || top.MultilineHeader? then LineJoin(top, bottom)
    else LineJoin(MultilineHeader(top), bottom)
  }

  /** Lines separated by breaks, reduced left to right as the grammar's left associativity does. */
  function JoinAll(lines: seq<Expr>): (r: Expr)
    requires |lines| >= 2 && forall i :: 0 <= i < |lines| ==> Plain(lines[i])
    ensures Chain(r) && Plain(r)
  {
    if |lines| == 2 then JoinLine(lines[0], lines[1])
    else JoinLine(JoinAll(lines[..|lines| - 1]), lines[|lines| - 1])
  }

  /**
    Every line of a multi-line input ends up as one line of the chain, in order, fenced;
    provided no line is itself a chain.
   */
  lemma {:induction false} JoinAllLines(lines: seq<Expr>)
    requires |lines| >= 2
    requires forall i :: 0 <= i < |lines| ==> Plain(lines[i]) && !lines[i].LineJoin?
    ensures Lines(JoinAll(lines)) == seq(|lines|, i requires 0 <= i < |lines| => Fenced(lines[i]))
  {
    if |lines| > 2 {
      var init := lines[..|lines| - 1];
      JoinAllLines(init);
      assert Lines(JoinAll(lines)) == Lines(JoinAll(init)) + [Fenced(lines[|lines| - 1])];
    } else {
      assert Lines(JoinAll(lines)) == Lines(MultilineHeader(Fenced(lines[0]))) + [Fenced(lines[1])];
    }
  }

  /** One character of a size modifier: `+` enlarges, `-` shrinks, anything else (the trailing space) is ignored. */
  function SizeStep(op: char, e: Expr): Expr {
    if op == '+' then Big(e) else if op == '-' then Smol(e) else e
  }

  /** The size modifiers applied in order, the first innermost. */
  function Modded(ops: string, e: Expr): (r: Expr)
    ensures Plain(e) ==> Plain(r)
  {
    if ops == [] then e else Modded(ops[1..], SizeStep(ops[0], e))
  }

  lemma {:induction false} ModdedSnoc(ops: string, c: char, e: Expr)
    ensures Modded(ops + [c], e) == SizeStep(c, Modded(ops, e))
  {
    if ops == [] {
      assert [] + [c] == [c];
      assert [c][1..] == [];
    } else {
      assert (ops + [c])[1..] == ops[1..] + [c];
      ModdedSnoc(ops[1..], c, SizeStep(ops[0], e));
    }
  }

  /** `expr : MOD expr`: the loop over the token's characters after the `#`. */
  method ApplyModifiers(value: string, body: Expr) returns (expr: Expr)
    ensures expr == Modded(if value == [] then [] else value[1..], body)
  {
    var ops := if value == [] then [] else value[1..];
    expr := body;
    for i := 0 to |ops|
      invariant expr == Modded(ops[..i], body)
    {
      ModdedSnoc(ops[..i], ops[i], body);
      assert ops[..i + 1] == ops[..i] + [ops[i]];
      expr := SizeStep(ops[i], expr);
    }
    assert ops[..|ops|] == ops;
  }

  /** The size wrappers around an expression, outermost first, as `+` and `-`. */
  function SizeLayers(e: Expr): string {
    match e
    case Big(b) => "+" + SizeLayers(b)
    case Smol(b) => "-" + SizeLayers(b)
    case _ => []
  }

  /** The `+` and `-` characters of `ops`, in order. */
  function Signs(ops: string): (r: string)
    ensures forall i :: 0 <= i < |r| ==> r[i] == '+' || r[i] == '-'
  {
    if ops == [] then []
    else (if ops[0] == '+' || ops[0] == '-' then [ops[0]] else []) + Signs(ops[1..])
  }

  function Reversed(s: string): (r: string)
    ensures |r| == |s|
  {
    if s == [] then [] else Reversed(s[1..]) + [s[0]]
  }

  lemma {:induction false} SignsSnoc(ops: string, c: char)
    ensures Signs(ops + [c]) == Signs(ops) + (if c == '+' || c == '-' then [c] else [])
  {
    if ops == [] {
      assert [] + [c] == [c];
      assert [c][1..] == [];
    } else {
      assert (ops + [c])[1..] == ops[1..] + [c];
      SignsSnoc(ops[1..], c);
    }
  }

  lemma {:induction false} ReversedSnoc(s: string, c: char)
    ensures Reversed(s + [c]) == [c] + Reversed(s)
  {
    if s == [] {
      assert [] + [c] == [c];
    } else {
      assert (s + [c])[1..] == s[1..] + [c];
      ReversedSnoc(s[1..], c);
    }
  }

  /**
    A modifier token puts one size wrapper per `+`/`-` around its operand, and the
    first character ends up innermost: read from the outside in, the wrappers spell
    the signs backwards.
   */
  lemma {:induction false} ModifiersStack(ops: string, e: Expr)
    requires !e.Big? && !e.Smol?
    ensures SizeLayers(Modded(ops, e)) == Reversed(Signs(ops))
    decreases |ops|
  {
    if ops != [] {
      var init := ops[..|ops| - 1];
      var c := ops[|ops| - 1];
      assert ops == init + [c];
      ModifiersStack(init, e);
      ModdedSnoc(init, c, e);
      SignsSnoc(init, c);
      var inner := Modded(init, e);
      if c == '+' || c == '-' {
        ReversedSnoc(Signs(init), c);
        assert SizeLayers(SizeStep(c, inner)) == [c] + SizeLayers(inner);
      } else {
        assert Signs(init) + [] == Signs(init);
      }
    }
  }

  /** `expr : COLOUR expr`: the directive minus its backslash becomes the colour code. */
  function ColourAction(value: string, e: Expr): Expr {
    Colour(if value == [] then [] else value[1..], e)
  }

  /** The code a colour directive stores keeps the letter `c` in front of its six digits. */
  lemma ColourCodeKeepsLetter(t: Lexer.Token, e: Expr)
    requires t.kind == Lexer.ColourTag && Lexer.Lexeme(t)
    ensures var code := ColourAction(t.value, e).code;
      |code| == 7 && code[0] == 'c' && forall i :: 1 <= i < 7 ==> Lexer.IsDigit(code[i])
  {
    assert t.value[..2][1] == t.value[1];
  }

  /**
    Every action turns trees that can be rendered on their own into one that can:
    the driver's requirement on the parsed tree holds for whatever the grammar builds.
   */
  lemma ActionsBuildPlain(run: string, value: string, a: Expr, b: Expr)
    requires Plain(a) && Plain(b)
    ensures Plain(Text(value)) && Plain(FAction(run))
    ensures Plain(Bold(a)) && Plain(BoldItalicsAction(a)) && Plain(Italics(a))
    ensures Plain(Teletype(a)) && Plain(Roman(a))
    ensures Plain(JoinLine(a, b)) && Plain(Concat(a, b)) && Plain(ColourAction(value, a))
    ensures Plain(Modded(value, a))
  {
  }

  // ----- the driver -----

  /** The colours that mean "no colour wrap". */
  predicate IsBlack(colour: string) {
    colour == "black" || colour == "#000" || colour == "#000000"
  }

  /** The parsed tree wrapped in the default fonts (roman inside sans-serif) and the colour. */
  function Prepared(ast: Expr, defaults: set<string>, colour: string): (e: Expr)
    ensures Plain(ast) ==> Plain(e)
  {
    var romanised := if "roman" in defaults then Roman(ast) else ast;
    var styled := if "sans-serif" in defaults then SansSerif(romanised) else romanised;
    assert Plain(ast) ==> Plain(romanised) && Plain(styled);
    if IsBlack(colour) then styled else Colour(colour, styled)
  }

  /** The context the driver seeds: italics only, the configured colour and justification. */
  function InitialContext(justify: Justify, colour: string): Context {
    Context({ItalicsFace}, colour, justify)
  }

  /** The prepared tree configured from the seeded context. */
  function Configured(ast: Expr, defaults: set<string>, justify: Justify, colour: string, reserved: seq<string>): (s: Styled)
    ensures Plain(ast) ==> StyledPlain(s)
  {
    var tree := Prepared(ast, defaults, colour);
    PropagateKeepsShape(tree, InitialContext(justify, colour), ReplaceMap(reserved));
    Propagate(tree, InitialContext(justify, colour), ReplaceMap(reserved))
  }

  /** `apply_config` with `ctx`, then `eval()`: the rendering of a tree configured from `ctx`. */
  function Evaluated(e: Expr, ctx: Context, table: Table): string
    requires Plain(e)
  {
    PropagateKeepsShape(e, ctx, table);
    Render(Propagate(e, ctx, table), table)
  }

  /** The translation of a parsed tree under a configuration. */
  function Translate(ast: Expr, defaults: set<string>, justify: Justify, colour: string, reserved: seq<string>): string
    requires Plain(ast)
  {
    Render(Configured(ast, defaults, justify, colour, reserved), ReplaceMap(reserved))
  }

  /** The configuration dictionary the driver reads and updates. */
  class Config {
    var defaults: set<string>
    var justify: Justify
    var colour: string
    /** The `font` key: absent until a parse seeds it. */
    var font: Lexer.Option<set<Style>>

    constructor(defaults: set<string>, justify: Justify, colour: string)
      ensures this.defaults == defaults && this.justify == justify && this.colour == colour
      ensures font == Lexer.None
    {
      this.defaults := defaults;
      this.justify := justify;
      this.colour := colour;
      font := Lexer.None;
    }

    /**
      `parse`: wrap the parsed tree, seed the font set in the caller's configuration,
      configure the tree from that configuration and render it.
     */
    method Parse(ast: Expr, reserved: seq<string>) returns (result: string)
      requires Plain(ast)
      modifies this
      ensures defaults == old(defaults) && justify == old(justify) && colour == old(colour)
      ensures font == Lexer.Some({ItalicsFace})
      ensures result == Translate(ast, defaults, justify, colour, reserved)
    {
      var tree := ast;
      if "roman" in defaults {
        tree := Roman(tree);
      }
      if "sans-serif" in defaults {
        tree := SansSerif(tree);
      }
      if !IsBlack(colour) {
        tree := Colour(colour, tree);
      }
      assert tree == Prepared(ast, defaults, colour) && Plain(tree);
      font := Lexer.Some({ItalicsFace});
      var table := ReplaceMap(reserved);
      var ctx := Context(font.value, colour, justify);
      PropagateKeepsShape(tree, ctx, table);
      result := Render(Propagate(tree, ctx, table), table);
    }
  }
}
