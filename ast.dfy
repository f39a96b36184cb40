/**
  The closed set of tree nodes. `Expr` is the tree the parser's actions build;
  `Styled` is the same tree after configuration, where every node holds the
  context it received and a `Paren` holds the font command it chose.
 */
module Ast {
  import opened Fonts

  datatype Expr =
    | Text(literal: string)
    | Concat(left: Expr, right: Expr)
    | Bold(body: Expr)
    | Italics(body: Expr)
    | Teletype(body: Expr)
    | SansSerif(body: Expr)
    | Roman(body: Expr)
      /** The colour's first child is always a text leaf; it is kept as its literal. */
    | Colour(code: string, body: Expr)
    | Big(body: Expr)
    | Smol(body: Expr)
    | MultilineHeader(body: Expr)
    | LineJoin(left: Expr, right: Expr)
    | Paren(body: Expr)

  datatype Styled =
    | SText(ctx: Context, literal: string)
    | SConcat(ctx: Context, left: Styled, right: Styled)
    | SBold(ctx: Context, body: Styled)
    | SItalics(ctx: Context, body: Styled)
    | STeletype(ctx: Context, body: Styled)
    | SSansSerif(ctx: Context, body: Styled)
    | SRoman(ctx: Context, body: Styled)
    | SColour(ctx: Context, code: string, body: Styled)
    | SBig(ctx: Context, body: Styled)
    | SSmol(ctx: Context, body: Styled)
    | SHeader(ctx: Context, body: Styled)
    | SJoin(ctx: Context, left: Styled, right: Styled)
    | SParen(ctx: Context, command: string, body: Styled)

  /**
    A node that can be rendered on its own (`eval()`): a multi-line header only ever
    stands at the left end of a line-join chain, whose left side is itself a chain.
   */
  predicate Plain(e: Expr) {
    match e
    case Text(_) => true
    case Concat(l, r) => Plain(l) && Plain(r)
    case MultilineHeader(_) => false
    case LineJoin(l, r) => Chain(l) && Plain(r)
    case Colour(_, b) => Plain(b)
    case Bold(b) => Plain(b)
    case Italics(b) => Plain(b)
    case Teletype(b) => Plain(b)
    case SansSerif(b) => Plain(b)
    case Roman(b) => Plain(b)
    case Big(b) => Plain(b)
    case Smol(b) => Plain(b)
    case Paren(b) => Plain(b)
  }

  /** A left-leaning line-join chain ending in a header (`eval(False)`). */
  predicate Chain(e: Expr) {
    match e
    case MultilineHeader(b) => Plain(b)
    case LineJoin(l, r) => Chain(l) && Plain(r)
    case _ => false
  }

  /** The physical lines of a chain, first line first. */
  function Lines(e: Expr): (ls: seq<Expr>)
    requires Chain(e)
    ensures |ls| >= 1
  {
    match e
    case MultilineHeader(b) => [b]
    case LineJoin(l, r) => Lines(l) + [r]
  }

  /** The same two shapes for configured trees. */
  predicate StyledPlain(s: Styled) {
    match s
    case SText(_, _) => true
    case SConcat(_, l, r) => StyledPlain(l) && StyledPlain(r)
    case SHeader(_, _) => false
    case SJoin(_, l, r) => StyledChain(l) && StyledPlain(r)
    case SColour(_, _, b) => StyledPlain(b)
    case SBold(_, b) => StyledPlain(b)
    case SItalics(_, b) => StyledPlain(b)
    case STeletype(_, b) => StyledPlain(b)
    case SSansSerif(_, b) => StyledPlain(b)
    case SRoman(_, b) => StyledPlain(b)
    case SBig(_, b) => StyledPlain(b)
    case SSmol(_, b) => StyledPlain(b)
    case SParen(_, _, b) => StyledPlain(b)
  }

  predicate StyledChain(s: Styled) {
    match s
    case SHeader(_, b) => StyledPlain(b)
    case SJoin(_, l, r) => StyledChain(l) && StyledPlain(r)
    case _ => false
  }

  /** A configured font node: bold, italics, teletype, sans-serif or roman. */
  predicate IsFontNode(s: Styled) {
    s.SBold? || s.SItalics? || s.STeletype? || s.SSansSerif? || s.SRoman?
  }

  /** The configured tree `k` font nodes further down; a node that is not a font node stops the descent. */
  function Descend(s: Styled, k: nat): Styled {
    if k == 0 || !IsFontNode(s) then s else Descend(s.body, k - 1)
  }

  /** Every context stored anywhere in the configured tree satisfies `Grounded`. */
  predicate AllGrounded(s: Styled) {
    Grounded(s.ctx.font) &&
    match s
    case SText(_, _) => true
    case SConcat(_, l, r) => AllGrounded(l) && AllGrounded(r)
    case SJoin(_, l, r) => AllGrounded(l) && AllGrounded(r)
    case SColour(_, _, b) => AllGrounded(b)
    case SBold(_, b) => AllGrounded(b)
    case SItalics(_, b) => AllGrounded(b)
    case STeletype(_, b) => AllGrounded(b)
    case SSansSerif(_, b) => AllGrounded(b)
    case SRoman(_, b) => AllGrounded(b)
    case SBig(_, b) => AllGrounded(b)
    case SSmol(_, b) => AllGrounded(b)
    case SHeader(_, b) => AllGrounded(b)
    case SParen(_, _, b) => AllGrounded(b)
  }

  /** Every `Paren` in the configured tree chose one of the given commands. */
  predicate ParensAmong(s: Styled, commands: set<string>) {
    match s
    case SText(_, _) => true
    case SConcat(_, l, r) => ParensAmong(l, commands) && ParensAmong(r, commands)
    case SJoin(_, l, r) => ParensAmong(l, commands) && ParensAmong(r, commands)
    case SColour(_, _, b) => ParensAmong(b, commands)
    case SBold(_, b) => ParensAmong(b, commands)
    case SItalics(_, b) => ParensAmong(b, commands)
    case STeletype(_, b) => ParensAmong(b, commands)
    case SSansSerif(_, b) => ParensAmong(b, commands)
    case SRoman(_, b) => ParensAmong(b, commands)
    case SBig(_, b) => ParensAmong(b, commands)
    case SSmol(_, b) => ParensAmong(b, commands)
    case SHeader(_, b) => ParensAmong(b, commands)
    case SParen(_, c, b) => c in commands && ParensAmong(b, commands)
  }
}
