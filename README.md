# desmos-mathquill-parser, modelled in Dafny

The translator turns a small markup language into the LaTeX-like strings that the Desmos
MathQuill editor displays. The markup has `**bold**`, `*italics*`, `***bold italics***`,
`` `teletype` ``, `~roman~`, runs of `f`, `#+`/`#-` size modifiers, `\cNNNNNN` colour
directives, `{…}` grouping and newlines. The translator works in four steps:

1. A lexer cuts the input into tokens. It tries its rules in a fixed order.
2. Grammar actions build a tree of nodes from the tokens.
3. The driver wraps the tree in the default fonts and colour, and seeds a style context.
   The context holds an active-font set, a colour and a justification.
4. `apply_config` pushes the context down the tree. On the way each font node may re-wrap
   its child in implicit font nodes. Then `eval` renders the tree bottom-up into one
   string. Text leaves go through an ordered replacement table: escaped spaces, the two
   dashes, and every reserved word split by a zero-width non-joiner. A chain of line breaks
   becomes one multi-line block, laid out left, centre or right.

The Dafny modules follow those stages:

| file | module | what it holds |
|---|---|---|
| strings.dfy | `Strings` | `str.replace` (left to right, non-overlapping), ASCII `str.upper`, `join` |
| substitution.dfy | `Substitution` | the replacement table and the text-leaf loop |
| fonts.dfy | `Fonts` | the style context and the font-combination rule |
| ast.dfy | `Ast` | the tree before (`Expr`) and after (`Styled`) configuration |
| propagate.dfy | `Configuration` | `apply_config` for every node kind |
| render.dfy | `Rendering` | `cmd`, `wrap_if_not_block`, `eval` for every node kind |
| lines.dfy | `LineBlocks` | the three multi-line layouts, and right justification as written |
| lexer.dfy | `Lexer` | the token rules and first-match lexing |
| parser.dfy | `Parser` | the grammar actions, and the `parse` driver as a class over the caller's configuration |
| pipeline.dfy | `Pipeline` | end-to-end properties of the translation |

## Model

| member | source | states |
|---|---|---|
| Strings.Upper | lexer_parser.py:188 | upper-casing keeps the length; each ASCII lower-case letter becomes its capital and every other character is kept |
| Strings.ReplaceAbsent | lexer_parser.py:76 | replacing a non-empty pattern that does not occur returns the string unchanged |
| Strings.ReplaceRemovesChar | lexer_parser.py:76 | replacing a one-character pattern with text that lacks it removes every occurrence |
| Strings.ReplaceAtFirst | lexer_parser.py:161 | after a pattern-free prefix, the first occurrence is the one replaced, and replacement continues after it |
| Strings.JoinAppend | lexer_parser.py:170 | joining parts plus one more equals joining the parts, then appending it |
| Strings.ReplaceAll | lexer_parser.py:76 | `str.replace`: a non-empty pattern replaced by text of the same length keeps the length, and by longer text never shortens the string |
| Strings.Interleave | lexer_parser.py:76 | `str.replace` with an empty pattern puts the replacement before every character and at the end, so the length grows by one replacement per gap |
| Substitution.Split | lexer_parser.py:67 | a reserved word gains one zero-width non-joiner at index len/2; the characters before and after it are the word's halves |
| Substitution.Assign | lexer_parser.py:67 | dictionary assignment: an existing key keeps its slot and takes the new value; a new key goes last; keys stay distinct |
| Substitution.BaseTable | lexer_parser.py:61-65 | the fixed entries are space, double dash and single dash, in that order |
| Substitution.AddReserved | lexer_parser.py:66-67 | the reserved-word update keeps the fixed keys' slots, overrides a fixed key's value when that key is reserved, and appends every other word with its split form; the keys after the fixed ones are the new words, each once, in order of first occurrence |
| Substitution.ReplaceMap | lexer_parser.py:61-67 | the whole table: fixed entries first, each value overridden if reserved, then the reserved words that are not fixed keys, each once, in order of first occurrence; all keys distinct |
| Substitution.FirstOccurrencesExactly | lexer_parser.py:66-67 | the first-occurrence list holds exactly the words not already seen, each once |
| Substitution.ShorterWordFirst | lexer_parser.py:66-77 | with the reserved words `sin` then `sinh`, `sin` takes the earlier slot and splits `sinh` as `s‌in` + `h`, so the entry for `sinh` never applies |
| Substitution.EvalText | lexer_parser.py:73-77 | the loop over the table gives the table's entries applied in order, each to the previous result |
| Substitution.ApplyTable | lexer_parser.py:75-77 | the entries substituted one after another; the loop `Substitution.EvalText` computes it |
| Substitution.TextEval | lexer_parser.py:73-77 | a text leaf's rendering, the table applied to its literal; its properties are `Substitution.TextUnchanged`, `Substitution.TextHasNoDash` and `Substitution.ReservedWordIsSplit` |
| Substitution.TextUnchanged | lexer_parser.py:73-77 | text with no space, no dash and no reserved word comes out as written |
| Substitution.TextHasNoDash | lexer_parser.py:61-77 | when no reserved word has a dash, no ASCII dash survives a text leaf |
| Substitution.ReplaceMapSingle | lexer_parser.py:66-67 | a single reserved word that is not a fixed key gets one slot after the fixed entries |
| Substitution.ReservedWordIsSplit | lexer_parser.py:73-77 | a reserved word on its own renders as its split form |
| Substitution.DoubleDashFirst | lexer_parser.py:61-65 | `--` becomes the horizontal bar before the single-dash entry can split it |
| Fonts.AddStyle | lexer_parser.py:22-31 | the new style is always active; italics, sans-serif, teletype and roman discard bold; roman, sans-serif and teletype discard italics; sans-serif and teletype discard roman; every other style is kept |
| Fonts.Updated | lexer_parser.py:18-33 | a font update applies the combination rule to a copy; a colour update replaces the colour; the justification is never changed |
| Fonts.UpdateKeepsGrounded | lexer_parser.py:18-33 | an update never removes the last glyph style: a context with italics, roman, sans-serif or teletype keeps one of them |
| Fonts.AddBoldOnlyAdds | lexer_parser.py:22-26 | setting bold only adds bold |
| Ast.Lines | lexer_parser.py:147-172 | a line-join chain has at least one line |
| Configuration.Rewrite | lexer_parser.py:54-135 | each font node's in-place child rewrite keeps the node kind and strictly decreases the child's weight; a roman node under active roman and every node that is not italics, teletype, sans-serif or roman are left as they are |
| Configuration.RewriteIsFilteredWrap | lexer_parser.py:89-135 | each rewrite wraps the child in the node's implicit styles that are active, innermost first: bold for italics; bold, italics and roman for teletype and sans-serif; bold and italics for roman, unless roman is active |
| Configuration.ItalicsWrapsBoldIff | lexer_parser.py:54-58 | italics re-applies bold exactly when bold is active |
| Configuration.ParenCommand | lexer_parser.py:200-215 | a paren picks its command by priority: sans-serif, teletype, roman, italics, bold (blackboard), else a colour command |
| Configuration.Propagate | lexer_parser.py:15-36 | every configured node stores exactly the context it received |
| Configuration.PropagateGrounded | lexer_parser.py:200-215 | starting from a context with a glyph style, every context stored keeps one, and every paren picks a glyph font command |
| Configuration.ContentSeesStyle | lexer_parser.py:15-135 | no active style is lost: below the implicit font nodes a font node of style s adds, its content is configured with the incoming font set plus s |
| Configuration.PropagateKeepsShape | lexer_parser.py:15-36 | configuration keeps a standalone tree renderable and a line-join chain a chain |
| Configuration.ColourValue | lexer_parser.py:187-188 | the colour a colour node hands down has the length of its rendered code and no ASCII lower-case letter |
| Rendering.WrapIfNotBlock | lexer_parser.py:37-44 | strings and text/concatenation nodes are braced; other nodes are inserted bare |
| Rendering.Cmd | lexer_parser.py:46-47 | a command is a backslash, the name, then each argument in turn |
| Rendering.NodePiece | lexer_parser.py:37-44 | a child node as a command argument is braced exactly when it is text or a concatenation |
| Rendering.FontNodeRendering | lexer_parser.py:49-123 | bold, italics, teletype and sans-serif render as their command around the content; roman renders its bare content under active roman and `mathrm` around it otherwise |
| Rendering.BlockBracing | lexer_parser.py:174-185 | size and colour nodes render as their class or colour command followed by the content, braced exactly when the content is text or a concatenation |
| Rendering.LongestAt | lexer_parser.py:163 | `max(key=len)` picks the first line of maximal length: no line is longer, and every earlier line is shorter |
| Rendering.RenderChain | lexer_parser.py:137-172 | a chain hands its parent at least one line; `LineBlocks.RenderChainLines` states what the lines are |
| Rendering.Extend | lexer_parser.py:149-161 | one more line: the line list gains it at the end, and the centre stack becomes the old stack over the new line tinted in the chain's colour |
| Rendering.Finish | lexer_parser.py:147-172 | the finished block: left justification puts the earlier lines in one search container followed by the new line; centre justification draws the stack in transparent ink; right justification uses the corrected nest (`LineBlocks.RightJustified`) |
| Rendering.FinishRightAsWritten | lexer_parser.py:164 | the source's right-justified finish, a substitution over the template; `LineBlocks.RightAgrees` and `LineBlocks.AsWrittenCorruptsPlaceholderLine` state when it equals the corrected nest and when not |
| Rendering.Render | lexer_parser.py:73-185 | `eval()` for every node kind; its contract is stated node by node in `Rendering.FontNodeRendering`, `Rendering.BlockBracing`, `LineBlocks.LeftJustified`, `LineBlocks.CenterJustified` and `LineBlocks.RightJustified` |
| LineBlocks.RenderChainLines | lexer_parser.py:137-172 | the lines a chain hands up are its line nodes rendered, first line first |
| LineBlocks.LeftJustified | lexer_parser.py:167-170 | left justify: every line but the last inside one search container, then the last line |
| LineBlocks.CenterStack | lexer_parser.py:152-157 | the centre stack puts each new line under all earlier ones, each tinted in the chain's colour |
| LineBlocks.CenterJustified | lexer_parser.py:140-157 | centre justify: that stack drawn inside a transparent colour command |
| LineBlocks.PropagateChainColour | lexer_parser.py:147-153 | every header and join of a configured chain carries its context's colour |
| LineBlocks.RightJustified | lexer_parser.py:159-166 | right justify, corrected: each line opens a bottom-aligned class holding the rest; the innermost slot holds the longest line in transparent ink |
| LineBlocks.TemplateShape | lexer_parser.py:143 | the right-justify template is every line's opening, one placeholder, then one closing brace per line |
| LineBlocks.RightAgrees | lexer_parser.py:159-164 | when no line contains the placeholder, the source's substitution equals the corrected block |
| LineBlocks.AsWrittenCorruptsPlaceholderLine | lexer_parser.py:161-164 | when a second line contains the placeholder, the source's substitution differs from the corrected block |
| Lexer.Run | lexer_parser.py:230-231 | a greedy run: every character in it satisfies the class, and the next one does not |
| Lexer.MatchLen | lexer_parser.py:219-231 | each rule's match at the position stays inside the input |
| Lexer.FirstMatch | lexer_parser.py:217-233 | a token is the non-empty slice of the input that starts at the position, of a kind among the rules |
| Lexer.TokenizeFrom | lexer_parser.py:217-236 | a successful lexing gives at most one token per remaining character, each non-empty and of a rule's kind; `Lexer.RoundTrip` and `Lexer.ErrorWhereNoRule` are its partners |
| Lexer.Tokenize | lexer_parser.py:233-236 | lexing from the start with the rules in declaration order; see `Lexer.RoundTrip`, `Lexer.ErrorAtStrayBackslash` and `Lexer.NoRuleIffStrayBackslash` |
| Lexer.FirstMatchIsFirst | lexer_parser.py:219-231 | the token comes from the earliest rule that matches, and is that rule's whole match |
| Lexer.NoMatchIffNoRule | lexer_parser.py:219-231 | no token exactly when no rule matches |
| Lexer.RoundTrip | lexer_parser.py:235-236 | the token values concatenate back to the input from the starting position on |
| Lexer.TokensAreLexemes | lexer_parser.py:219-231 | every token's value is exactly what its own rule matches at its position |
| Lexer.StartRule | lexer_parser.py:219-231 | away from a backslash, some rule matches at the position |
| Lexer.NoRuleIffStrayBackslash | lexer_parser.py:228-231 | no rule matches exactly where the input has a backslash that does not begin a colour directive |
| Lexer.ErrorWhereNoRule | lexer_parser.py:235-236 | a lexing error names a position inside the input where no rule matches |
| Lexer.ErrorAtStrayBackslash | lexer_parser.py:228-231 | a lexing error names the position of such a backslash |
| Lexer.ThreeStarsAreBoldItalics | lexer_parser.py:222-224 | three stars are one bold-italics mark, not bold then italics |
| Lexer.HexColourIsError | lexer_parser.py:228 | a colour directive with hexadecimal letters cannot be lexed |
| Parser.JoinLine | lexer_parser.py:286-295 | a break fences text and concatenation operands in a paren; it appends to an existing chain or starts a new one headed by the upper operand |
| Parser.JoinAllLines | lexer_parser.py:286-295 | lines separated by breaks become the chain's lines, in order, each fenced |
| Parser.JoinAll | lexer_parser.py:286-295 | the left-associated reduction of two or more lines is a renderable line-join chain; `Parser.JoinAllLines` gives its lines |
| Parser.FAction | lexer_parser.py:262-264 | a run of `f` becomes roman around its fenced text; `Pipeline.FRunUpright` states its rendering |
| Parser.BoldItalicsAction | lexer_parser.py:270-272 | `***x***` becomes italics around bold; `Pipeline.BoldItalicsNesting` states its rendering |
| Parser.ApplyModifiers | lexer_parser.py:297-305 | the modifier loop gives the fold of size wrappers over the characters after `#` |
| Parser.Modded | lexer_parser.py:297-305 | the size wrappers keep a renderable tree renderable; `Parser.ModifiersStack` gives their order |
| Parser.ModifiersStack | lexer_parser.py:297-305 | one size wrapper per `+`/`-`, with the first character innermost; other characters are ignored |
| Parser.ColourCodeKeepsLetter | lexer_parser.py:307-309 | the colour code a directive stores is `c` followed by its six digits |
| Parser.ColourAction | lexer_parser.py:307-309 | a colour directive becomes a colour node whose code drops the backslash; `Parser.ColourCodeKeepsLetter` states the code |
| Parser.ActionsBuildPlain | lexer_parser.py:258-317 | every grammar action builds a tree that can be rendered on its own from such trees |
| Parser.Prepared | lexer_parser.py:330-338 | the default fonts and the colour wrap keep the tree renderable |
| Parser.Configured | lexer_parser.py:340-341 | the configured tree of a renderable input is renderable |
| Parser.Evaluated | lexer_parser.py:340-341 | `apply_config` then `eval()` from a given context; the `Pipeline` lemmas state its value for the default fonts, `f` runs and bold italics |
| Parser.Translate | lexer_parser.py:325-344 | the translation of a parsed tree; `Parser.Config.Parse` returns it, and `Pipeline.RomanDefault`, `Pipeline.SansSerifDefault`, `Pipeline.BothDefaults` and `Pipeline.ColourNodeIff` state it |
| Parser.Config.constructor | lexer_parser.py:325 | a fresh configuration has no font key |
| Parser.Config.Parse | lexer_parser.py:325-344 | parse sets the caller's font key to italics, leaves the other keys, and returns the translation of the wrapped tree configured from the updated configuration |
| Pipeline.ParensUseGlyphFonts | lexer_parser.py:200-215 | under the seeded context every paren picks a glyph font; the blackboard-bold and colour fallbacks are never reached |
| Pipeline.ColourNodeIff | lexer_parser.py:336-338 | a colour node is put on top exactly when the colour is not one of the three spellings of black; its subtree then sees the colour upper-cased |
| Pipeline.ColourWrapsOutput | lexer_parser.py:182-185 | a non-black colour makes the output start with a `textcolor` command naming it |
| Pipeline.RomanDefault | lexer_parser.py:330-338 | with the roman default alone, the output is roman around italics around the input configured with roman and italics, inside a `textcolor` naming the upper-cased colour when the colour is not black |
| Pipeline.SansSerifDefault | lexer_parser.py:333-338 | with the sans-serif default alone, the output is sans-serif around italics around the input configured with sans-serif and italics, inside the colour command when the colour is not black |
| Pipeline.BothDefaults | lexer_parser.py:330-338 | with both defaults, sans-serif and italics go around roman and italics around the input, configured with sans-serif, roman and italics, inside the colour command when the colour is not black |
| Pipeline.ColourAround | lexer_parser.py:182-188 | a non-black colour wraps the rendered tree in `textcolor` with the colour code, and the tree is configured with the colour upper-cased; a black colour adds nothing |
| Pipeline.FRunUpright | lexer_parser.py:262-264 | a run of `f` renders as its fenced text under active roman; otherwise it renders as roman around the text, with italics then bold inside when italics is active, and bold inside when only bold is active |
| Pipeline.BoldItalicsNesting | lexer_parser.py:270-272 | `***x***` renders italics outside bold, with bold doubled when bold was already active |
| Pipeline.BoldItalicsOrderMatters | lexer_parser.py:49-87 | bold-outside-italics and italics-outside-bold render differently in every context |
| Pipeline.BoldItalicsSameContent | lexer_parser.py:49-87 | in either order, bold and italics configure their content with both styles added |
| Pipeline.RomanPassThrough | lexer_parser.py:119-128 | under active roman a roman node renders as its content |
| Pipeline.RomanIdempotent | lexer_parser.py:119-135 | a roman node inside a roman node renders the same as one roman node |
| Pipeline.CenterThreeLines | lexer_parser.py:137-157 | three centred lines A, B, C become a transparent stack of the stack of A over B over C, every line in the block's colour |
| Pipeline.RightTwoLines | lexer_parser.py:137-166 | two right-justified lines A, BB become nested bottom-aligned classes, each line after a right-to-left mark, with the longer line BB in transparent ink in the innermost slot |
| Pipeline.PlaceholderInputCorrupted | lexer_parser.py:159-164 | the input "a line, then `**next_line**`", right-justified, is translated differently by the source's substitution than by the corrected block |

## Left out

- The parser's LALR automaton (operator precedences, the error handler at lexer_parser.py:319-321): not modelled. The grammar actions are modelled, and the driver takes the tree they build. `Parser.JoinAll` builds the left-leaning chain that the `left` precedence of line breaks gives.
- Reading `reserved_words.txt`: the reserved words are a parameter of `Substitution.ReplaceMap` and `Parser.Config.Parse`.
- Debug printing, the `print(col)` in `parse`, and `debug()`: output only.
- `translated_len` (lexer_parser.py:194-195): it is never called, and it would raise if it were.
- mathquill.py, the command-line front end that builds the configuration: not modelled. It always sets the colour, defaults and justification. The model takes them as fields of `Parser.Config`.
- Lazy lexing: rply yields tokens on demand, and its error surfaces when the parser reaches the bad position. `Lexer.Tokenize` lexes eagerly and returns the first error.
- Unicode: `\d` and `str.upper` are modelled on ASCII only. A non-ASCII digit would match `\d` in the source, but not `Lexer.IsDigit`.
- In-place mutation of the tree is modelled as a rebuild. Two places do it: `apply_config` rewriting a node's child, and the break action replacing its operands. Trees are never shared, so no aliasing is lost.
- The first child of a colour node is always a text leaf. It is modelled as its literal string.
- A paren whose context has no font at all would pick a colour command. That template has braces that `str.format` reads as a field, so it raises. The model renders the intended string instead. `Pipeline.ParensUseGlyphFonts` shows the branch is never reached from `parse`.
- A configuration without a colour key makes `parse` wrap the tree in a colour node over `None`, and rendering raises. The model's configuration always has a colour, as mathquill.py guarantees.
- Rendering.Render, Rendering.Finish, Parser.Translate and Parser.Config.Parse: right justification renders the corrected nest (`LineBlocks.RightJustified`), not the source's substitution over the template. The two agree whenever no rendered line contains `{next_line}` (`LineBlocks.RightAgrees`). When a line does, the source's output is `Rendering.FinishRightAsWritten`, shown under "## Findings".
- Justification is one of three values. Any value other than centre or right behaves as left in the source.

Behaviour of the code that a reader might not expect:

- A colour directive is a backslash, `c` and six decimal digits. A hexadecimal code such as `\c00FF00` cannot be lexed (`Lexer.HexColourIsError`).
- The stored colour code keeps the `c` (`Parser.ColourCodeKeepsLetter`).
- `***x***` builds italics around bold. Bold around italics does not render the same (`Pipeline.BoldItalicsOrderMatters`), although the content sees the same fonts either way (`Pipeline.BoldItalicsSameContent`).
- In centre justification the first line is tinted in the block's colour like every other line (`Pipeline.CenterThreeLines`).
- A lexing error is possible, at any backslash that does not begin a colour directive.

## Findings

| source | as written | input that shows it | evidently intended | confidence | as-written member | corrected member |
|---|---|---|---|---|---|---|
| lexer_parser.py:161-164 | a right-justified block is built as a template with a `{next_line}` placeholder, filled by `str.replace` on the whole template | right justification and the input `a`, newline, `**next_line**`: the second line renders as `\mathbf{next_line}`, and its own `{next_line}` is replaced too | each line appears as written, and the transparent filler goes only in the innermost slot | not executed | LineBlocks.AsWrittenCorruptsPlaceholderLine | LineBlocks.RightJustified |
