# sms-style-converter: the style-to-class core

This project models the `convertStyle` command of the sms-style-converter
editor extension (`extension.js`). The command works on a selection from a
JSP page. The selection may hold a `style="..."` attribute, or it may be a
bare declaration list. Either form may be interleaved with conditional
blocks `<c:if test="COND">CSS</c:if>`.

The command replaces the selection with a class:
- It looks for a single-class rule with the same declarations in each
  configured stylesheet, in order.
- When none matches, it generates a fresh `cspfix_NNNNNNNN` name and appends
  a new rule.
- `display: none` becomes the `hide` class.
- Each conditional block is converted on its own and re-emitted as a
  `<c:if>` tag inside the class attribute.

The modules follow the functions of the source:

- `Strings`: the character classes and string operations the code relies on, with the meaning ECMAScript gives them. These are `\s` and `trim`, `includes`, `replaceAll`, and `join`.
- `Fragments`: `parseText`. It splits the selection into conditional blocks and the text outside them, then cleans up the semicolons of that outside text.
- `StyleAttribute`: `parseStyleAttribute`. It models the two `style=` regular expressions as a leftmost scanner.
- `CssAst`: the part of a `css.parse` tree that is read, and `isValidCssDeclaration`.
- `Matcher`: `findMatchingClass`, plus the loop over the configured files.
- `ClassNames`: `generateRandomClassName`. It covers the eight-digit candidate, the uniqueness check over file contents, and the retry loop.
- `Minify`: `minifyCss`. It covers the root-placeholder expansion and the `.temp{...}` wrapping around the minifier.
- `Display`: the `display: none` test, its global removal, and the removal of a final semicolon.
- `Workspace`: the configured files as the command reads and appends to them.
- `Convert`: `processCIfBlock` and the decisions of the command itself.

Regular expressions are modelled by scanners. A per-position predicate says
where the expression matches (for example `CifMatch` or `AttrMatchAt`). The
scanner's contract then states the engine's choice:
- the leftmost position;
- the shortest lazy group;
- the longest greedy white-space run.

`.` never matches a line terminator.

The two libraries are parameters of the model (`Env`): `css.parse` (a
`Parser`, `None` where it throws) and the CleanCSS minifier (`clean`). The
files are a `Disk`:
- the configured sources in order;
- the generated sink;
- the `stray` file that `cssFiles[2]` names when fewer than three files are
  configured.

`Math.random` becomes a finite sequence of draws.

Notes on what the code does:
- A conditional block's rule is appended to `cssFiles[2]` (extension.js:220), while the main style's rule goes to `generatedCssFile` (extension.js:330). `cssFiles` is the sources followed by the generated file (extension.js:250), so the two coincide only when exactly two source files are configured (`AppendToThirdFile`).
- A bare declaration list is replaced by its class alone (extension.js:279-281 and 354-358). Its conditional blocks reach `processCIfBlock` only on the attribute paths (extension.js:285 and 343), so they are neither converted nor emitted (`BareFormIgnoresBlocks`).
- A failed append for a conditional block is caught inside `processCIfBlock`, which then returns `null` (extension.js:221-223). Only that block's tag is dropped and the command goes on (`ProcessCIfBlock` gives `NoClass`). A failed append for the main style ends the command (extension.js:331-333).
- The read inside `generateRandomClassName` is not guarded (extension.js:102), while the file search catches read errors (extension.js:319-321). An unreadable configured file reached during the uniqueness check therefore ends the command with an exception: the resolution is `Failed(UnreadableFile)` and the outcome `Crashed(UnreadableFile)`.
- `<c:if>` tags are always written with double quotes, whatever quote the selection used (extension.js:287 and 345).

## Model

| member | source | states |
|---|---|---|
| Strings.Trim | extension.js:178 | `trim`: the input is white space, the result, then white space; and the result neither begins nor ends with white space |
| Strings.ReplaceAllRemovesPattern | extension.js:20-21 | after `replaceAll` with a replacement sharing no character with the pattern, the pattern occurs nowhere in the result |
| Strings.ReplaceAllKeepsAbsent | extension.js:20-21 | a string sharing no character with the replacement does not appear through `replaceAll` if it was absent before |
| Strings.ReplaceAllAbsent | extension.js:20-21 | `replaceAll` of a pattern that does not occur changes nothing |
| Fragments.FindClose | extension.js:165 | the lazy body `(.*?)<\/c:if>`: the first `</c:if>` from the start on, with no line terminator before it; none exactly when no such close exists |
| Fragments.FindCond | extension.js:165 | the lazy condition: the least condition end that admits a body, and there the least body end; none when no condition end admits a match |
| Fragments.MatchAt | extension.js:165 | the match of the `c:if` expression at one position is the one with the least condition end and then the least body end; none exactly when no match starts there |
| Fragments.FindNext | extension.js:171 | `exec` finds the leftmost position at or after `lastIndex` where the expression matches |
| Fragments.Segment | extension.js:165-185 | the `exec` loop cuts the text into gaps and matched blocks that alternate, start and end with a gap, and concatenate back to the text; each gap ends where the leftmost match at or after the previous `lastIndex` starts, the block after it is the match there, and the last gap has no match after it |
| Fragments.SegmentWithoutMatch | extension.js:185 | with no match the whole text is one gap |
| Fragments.Blocks | extension.js:176-179 | every recorded block body is trimmed; pieces without a match give no block, and a leading match gives the first block |
| Fragments.BlocksOfAlternating | extension.js:171-182 | one block is pushed per match, in order: the k-th block holds the k-th match's condition verbatim and its body trimmed |
| Fragments.CollapseSemicolons | extension.js:188 | `/;;+/g` to `;`: no `;;` is left, the result is empty only for empty input, and the first and last characters are kept |
| Fragments.CollapseKeepsOthers | extension.js:188 | collapsing semicolon runs keeps every other character in order |
| Fragments.CollapseKeepsSingles | extension.js:188 | text without `;;` is left unchanged |
| Fragments.CollapseRun | extension.js:188 | a `;;` anywhere collapses like a single `;` there, so each run of semicolons becomes one |
| Fragments.StripEdgeSemicolons | extension.js:188 | the global `^;` or `;$`: one leading `;` and one trailing `;` are removed where present and nothing else, so only semicolons go; after the collapse the text neither starts nor ends with `;` |
| Fragments.CleanSemicolons | extension.js:188 | the cleaned outside text has no `;;`, no semicolon at either end, and the same non-semicolon characters in the same order; text without `;;` only loses its edge semicolons |
| Fragments.ParseText | extension.js:158-191 | `parseText`: one block per match, in the order of the matches, with verbatim condition and trimmed body; the outside text is the gaps between the matches with doubled and edge semicolons cleaned |
| Fragments.ParseTextNoBlocks | extension.js:165-182 | there are no blocks exactly when the `c:if` expression matches nowhere in the text |
| Fragments.ParseTextFirstBlock | extension.js:165-179 | the first block comes from the leftmost match: its condition and its trimmed body |
| Fragments.ParseTextWithoutCif | extension.js:158-191 | a text without `<c:if` yields no blocks and its own text, semicolons cleaned |
| StyleAttribute.FindQuote | extension.js:138 | the body `((?:(?!\1).)*)\1`: the first occurrence of the opening quote, with no line terminator before it |
| StyleAttribute.QuotedValue | extension.js:138 | the captured styles run from after the opening quote to its first recurrence and contain neither the quote nor a line terminator; nothing is captured exactly when the quote does not recur before a line terminator |
| StyleAttribute.AttrMatchAt | extension.js:138-147 | a match at one position yields one of the accepted quotes of the asked form (plain or backslash-escaped) and styles without that quote or a line terminator |
| StyleAttribute.AttrFromQuote | extension.js:138-147 | from the quote position on, the expression matches exactly when a quote of the asked form stands there and recurs before a line terminator; it captures that quote and the text up to the recurrence |
| StyleAttribute.AttrShapeUnique | extension.js:138-147 | `\s*` before and after `=` can end in one place only, so a match fixes where its `=` and its quote stand |
| StyleAttribute.AttrMatchAtExactly | extension.js:138-147 | the scanner matches at a position exactly when `style\s*=\s*(q)((?:(?!\1).)*)\1` matches there read declaratively, and every such match captures the quote and styles the scanner reports |
| StyleAttribute.FirstAttr | extension.js:138 | `match` takes the leftmost position where the expression matches; none exactly when it matches nowhere |
| StyleAttribute.Locate | extension.js:138-153 | the plain-quote expression is tried first anywhere in the text, at its leftmost match; the escaped one only when the plain one matches nowhere; nothing exactly when neither matches |
| StyleAttribute.ChosenAttrOnly | extension.js:136-156 | at most one position and one quote form are chosen |
| StyleAttribute.ParseStyleAttribute | extension.js:136-156 | the quote is one of `"`, `'`, `\"`, `\'` and does not occur in the styles; a plain quote wins whenever the plain expression matches anywhere; `null` exactly when neither expression matches; otherwise the result is the match at the chosen position |
| CssAst.ProperDeclarationsKeepAll | extension.js:79-82 | a list of declaration nodes serialises to one `prop:value` per node, in order |
| CssAst.ValidDeclarationSerializesAll | extension.js:115-134 | text accepted by `isValidCssDeclaration` parses to a non-empty declaration list that the matcher serialises without dropping anything |
| Matcher.StripImportant | extension.js:84 | `/\s*!important\s*$/` removes text exactly when `!important` ends the string up to trailing white space; what goes is that keyword with the white space around it; the result is a prefix and no longer ends in white space |
| Matcher.FirstMatch | extension.js:56-88 | the rule loop returns the first matching rule; a rule without selectors before any match throws and so ends the search |
| Matcher.FindMatchingClass | extension.js:50-93 | the returned name is the first matching rule's selector without the `.`, so it holds no `.`, `:`, space, `+`, `>` or `~`; `null` only for a parse failure or when every match comes after a throwing rule |
| Matcher.MatchingIsComplete | extension.js:56-87 | a matching rule with no throwing rule before it guarantees a class is found |
| Matcher.FileHit | extension.js:312-322 | a file contributes a name exactly when it is readable and `findMatchingClass` on its content returns a non-empty name, and then it contributes that name |
| Matcher.FindInFiles | extension.js:312-322 | the configured files are searched in order and the first that yields a name decides; no name exactly when no file yields one |
| ClassNames.DecimalStringValue | extension.js:97 | `toString()` of a whole number denotes that number |
| ClassNames.DecimalStringLength | extension.js:97 | a number below 10^k has at most k digits |
| ClassNames.LeadingZerosValue | extension.js:97 | `padStart` with zeros does not change the value denoted |
| ClassNames.Digits8 | extension.js:97 | the padded draw is exactly eight decimal digits denoting the draw |
| ClassNames.CandidateName | extension.js:97-98 | a candidate starts with `cspfix_` and is fifteen characters long, with no `.`, `:` or space |
| ClassNames.CandidateNameRoundTrip | extension.js:97-98 | the draw is read back from the digits of its name |
| ClassNames.CandidateNameInjective | extension.js:97-98 | different draws give different names |
| ClassNames.CheckCandidate | extension.js:100-107 | the uniqueness loop says unique exactly when every file is readable and none contains the name; taken and read-error name the first deciding file |
| ClassNames.FirstFree | extension.js:96-112 | the retry loop returns the first candidate no file contains, after only candidates some file contained |
| ClassNames.GenerateName | extension.js:95-113 | the generated name comes from the last draw used, no configured file contains it, and every earlier draw's name was taken; running out of draws means every name was taken; a read error means some draw's check met an unreadable file |
| Minify.ExpandRoot | extension.js:20-21 | no root placeholder of either spelling is left after expansion |
| Minify.ExpandRootIdentity | extension.js:20-21 | text without a placeholder passes through unchanged |
| Minify.ExpandRootSplice | extension.js:20-21 | text before the first placeholder is kept, that placeholder becomes `..`, and the rest is expanded in turn |
| Minify.Unwrap | extension.js:47 | the leading `.temp{` is removed exactly when it is there, and then the trailing `}` exactly when it is there, in each of the four combinations |
| Minify.UnwrapInvertsWrap | extension.js:43-47 | unwrapping undoes the `.temp{...}` wrapping |
| Minify.MinifyWithoutMinifier | extension.js:18-48 | an illustration of the wrap and unwrap at lines 43-47: with a minifier that changes nothing, `minifyCss` is only the placeholder expansion |
| Display.CoreEndExactly | extension.js:270-273 | `display\s*:\s*none` matches at a position exactly when `display`, white space, `:`, white space and `none` stand there, and the match ends right after that `none` |
| Display.MatchEnd | extension.js:270-273 | the removal pattern matches exactly where the core does and extends it greedily over white space and at most one `;`: it stops at the end or at a non-space, and a `;` after the white space is always taken |
| Display.MatchEndOneSemicolon | extension.js:273 | an illustration of `;?`: after `display:none ;;` one match takes only the first `;` |
| Display.RemoveFrom | extension.js:273 | the global removal from a position shortens the text exactly when the pattern matches at or after that position |
| Display.RemoveFromLeftmost | extension.js:273 | the global removal keeps the text up to the leftmost match, drops that match, and resumes right after it |
| Display.RemoveDisplayNone | extension.js:270-273 | the removal changes the styles exactly when the `display: none` test succeeds, and never lengthens them |
| Display.DropTrailingSemicolon | extension.js:273 | `/;\s*$/` removes text exactly when a semicolon followed only by white space ends the string, and then removes just that suffix |
| Workspace.Append | extension.js:220 | `appendFileSync` fails exactly when the file is not writable; otherwise the file holds its old text followed by the new text |
| Workspace.AppendToSink | extension.js:330 | the main style's rule goes to the generated file only, with its old content followed by the rule |
| Workspace.AppendToThirdFile | extension.js:220 | a block's rule goes to `cssFiles[2]`: the generated file with two sources, the third source with more, the stray file with fewer; the append fails exactly when that file is not writable, and nothing else changes |
| Convert.AppendRule | extension.js:220 | a new rule's append fails exactly when the file it goes to is not writable: the generated file for the main style, `cssFiles[2]` for a block |
| Convert.ResolveClass | extension.js:310-335 | the first configured file in order that yields a class decides, and nothing changes; on a total miss the generator decides: out of draws or an unreadable file ends in an exception, otherwise the generated name is appended and returned, or the append fails exactly when the target file is not writable; a created class has the `cspfix_` prefix and is contained in no configured file, and only its rule is appended |
| Convert.ProcessCIfBlock | extension.js:193-231 | `processCIfBlock`: `hide` for `display: none` with no file touched; nothing for an invalid block with no file touched; for a valid block, the class resolved for its minified text exactly when resolution succeeds, nothing exactly when the append fails, and the exception exactly when resolution throws |
| Convert.CifTag | extension.js:287 | every tag holds a `:`, so it can never be mistaken for a class name |
| Convert.ResolveBlocks | extension.js:343-346 | the map and filter yield at most one tag per block |
| Convert.ResolveOneBlock | extension.js:343-346 | a block with a class gives one tag `<c:if test="COND">NAME</c:if>` and the files that block left; a block without one gives no tag; an exception stops the run with the files as they were |
| Convert.ResolveBlocksAppend | extension.js:343-346 | the blocks are handled one after another: the tags of a concatenation are the first part's tags followed by the rest's, the rest starting from the files the first part left; an exception in the first part ends the run there |
| Convert.InvalidBlocksGiveNoTags | extension.js:230 | blocks that are neither hidden nor declaration lists give no tag and touch no file |
| Convert.HiddenBlocksBecomeHideTags | extension.js:195-197 | blocks that all set `display: none` become `hide` tags with their own conditions, in order, and touch no file |
| Convert.HiddenAttributeBecomesHide | extension.js:276-302 | an attribute with nothing left after removing `display: none` and minifying, whose styles set `display: none` and whose blocks all set it too, becomes `class=` and its quote around `hide` and one `hide` tag per block in order, with no file touched; with no blocks that is `class="hide"` for a double quote |
| Convert.ClassAttribute | extension.js:292-300 | the attribute is empty exactly when there is neither a class nor a tag; otherwise it is `class=` and the quote around the list |
| Convert.ClassAttributeListsWords | extension.js:349-351 | the attribute lists the main class, when there is one, and then the tags, separated by single spaces |
| Convert.AttributeStartsWithHead | extension.js:349-351 | an attribute with a main class starts with `class=`, the quote and that class |
| Convert.FinishAttribute | extension.js:343-353 | the attribute form ends in an exception exactly when a block threw; otherwise the replacement is the class attribute over the main class and the blocks' tags, with the files as the blocks left them |
| Convert.Finish | extension.js:341-358 | a bare selection is replaced by its class alone with no further change; an attribute crashes exactly when a block threw, and otherwise becomes the class attribute over the main class and the tags, with the files as the blocks left them |
| Convert.ConvertMinified | extension.js:276-359 | with nothing left after minifying, the replacement is `hide` or nothing as the main class, rendered as for `Finish`; otherwise a resolution exception crashes with no file changed, a failed append reports a write error and nothing else, and a resolved class, after `hide ` when hidden, is rendered as for `Finish` from the files resolution left |
| Convert.ConvertStyles | extension.js:269-359 | the same outcomes as `ConvertMinified`, for styles whose `display: none` test decides `hide` and whose rest, without `display: none` and a final semicolon, is minified |
| Convert.Convert | extension.js:253-359 | the command reports an invalid selection exactly when it holds no `style=` attribute and is not a valid declaration list, and then changes nothing; an attribute is converted from its own quote and styles, a bare declaration list from the untrimmed outside text with no quote, both with the blocks of the whole selection, ending as `ConvertMinified` states for the `display: none` test and the minified rest |
| Convert.BareSelectionWithoutStyles | extension.js:277-282 | a valid bare selection with nothing left after removing `display: none` and minifying is replaced by `hide` or by nothing, and no file changes |
| Convert.BareFormIgnoresBlocks | extension.js:277-282 | a bare selection's result does not depend on its conditional blocks, contains no tag, and only the generated file can change |
| Convert.MatchReusesClass | extension.js:310-338 | a bare selection whose styles match a configured class is replaced by that class, after `hide` when hidden, and no file changes |
| Convert.EmptyBareStyles | extension.js:277-282 | styles with nothing left after removal turn a bare selection into `hide` or nothing, and no file is read or written |
| Convert.CreatedClassIsNew | extension.js:324-335 | a created class is in no configured file, no file matched, and the only change is its rule appended to the generated file |

## Left out

- The editor: reading the selection, the edit builder, the information and error messages, and the `await` on the edit. The outcome is returned as a `Run` value instead.
- Reading the configuration: the source files and the generated file are given as a `Disk`. The default paths and `rootPath` concatenation are not modelled, and distinct configured paths are assumed to be distinct files.
- The contents of `css.parse` and of CleanCSS and its options: both are parameters (`Env`). Any node of the parse tree other than a style rule is `OtherRule`.
- `Math.random`: a finite sequence of draws. Running out of draws (`OutOfDraws`) stands for the unbounded retry loop going on forever when every candidate is taken.
- File encodings, and the UTF-16 representation of JavaScript strings: characters are Unicode scalar values.
- `console.log` and `console.error` (including the debug log for one selector), the unused `cssRulesCache`, and the empty `deactivate`.
- Concurrency between two commands on the same files.
- Convert.ResolveBlocks: its own contract only bounds the number of tags, because each tag depends on the class the search or the generator resolves for its block. The tags are stated block by block through `ResolveOneBlock` and `ResolveBlocksAppend`, and in closed form for all-hidden blocks (`HiddenBlocksBecomeHideTags`) and invalid blocks (`InvalidBlocksGiveNoTags`).
