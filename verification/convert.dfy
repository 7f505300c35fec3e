/**
 * The `convertStyle` command (`activate`) and `processCIfBlock`: turning a
 * selected inline style into a class, reusing an existing rule when one
 * matches and appending a new rule otherwise.
 */
module Convert {
  import opened Wrappers
  import opened Strings
  import opened CssAst
  import opened Workspace
  import opened Fragments
  import opened StyleAttribute
  import opened Matcher
  import opened ClassNames
  import opened Minify
  import opened Display

  const HIDE := "hide"
  const CLASS_EQ := "class="

  /** The two library calls the converter relies on: `css.parse` and the CleanCSS minifier. */
  datatype Env = Env(parse: Parser, clean: string -> string)

  /** The configured files, and the random draws the name generator will make. */
  datatype World = World(disk: Disk, draws: seq<Draw>)

  /**
   * Why a command ends with an exception instead of an edit: a file that
   * cannot be read during the name uniqueness check (that read is not guarded),
   * or, in the model only, no draw left for the retry loop.
   */
  datatype Failure = UnreadableFile | OutOfDraws

  /** The class for a minified style: found in a file, or created and appended. */
  datatype Resolution =
    | Resolved(name: string, world: World, created: bool)
    | WriteFailed(world: World)
    | Failed(failure: Failure)

  /** The text appended for a new class: `\n.NAME{CSS}`. */
  function NewRule(name: string, css: string): string {
    "\n." + name + "{" + css + "}"
  }

  /** The file a new rule goes to: the generated file for the main style, `cssFiles[2]` for a conditional block. */
  function Target(d: Disk, forBlock: bool): CssFile {
    if forBlock then ThirdFile(d) else d.sink
  }

  /** The main style appends to the generated file, a conditional block to `cssFiles[2]`; the append fails exactly when that file is not writable. */
  function AppendRule(d: Disk, text: string, forBlock: bool): (r: Option<Disk>)
    ensures r.Some? <==> Target(d, forBlock).appendable
  {
    if forBlock then AppendToThirdFile(d, text) else AppendToSink(d, text)
  }

  /**
   * The file search followed, when nothing matches, by name generation and the
   * append (lines 205-225 for a block, 310-335 for the main style).
   */
  function ResolveClass(env: Env, css: string, w: World, forBlock: bool): (r: Resolution)
    ensures r.Resolved? ==> r.name != "" && ':' !in r.name && ' ' !in r.name
    ensures r.Resolved? && !r.created ==> r.world == w && exists i | 0 <= i < |w.disk.Files()| :: FileHit(env.parse, w.disk.Files()[i], css) == Some(r.name)
    ensures (r.Resolved? && r.created) || r.WriteFailed? || r.Failed? ==> forall i | 0 <= i < |w.disk.Files()| :: FileHit(env.parse, w.disk.Files()[i], css).None?
    ensures r.Resolved? && r.created ==> Free(r.name, w.disk.Files())
    ensures r.Resolved? && r.created ==> IsPrefix(PREFIX, r.name) && |r.world.draws| < |w.draws|
    ensures r.Resolved? && r.created && !forBlock ==>
      && r.world.disk.sources == w.disk.sources && r.world.disk.stray == w.disk.stray
      && r.world.disk.sink.content == Some(w.disk.sink.content.GetOr("") + NewRule(r.name, css))
    ensures r.Resolved? && r.created && forBlock ==> Some(r.world.disk) == AppendToThirdFile(w.disk, NewRule(r.name, css))
    ensures r.WriteFailed? ==> r.world.disk == w.disk
    ensures var hit := FindInFiles(env.parse, w.disk.Files(), css, 0);
      hit.Some? ==> r == Resolved(hit.value, w, false)
    ensures FindInFiles(env.parse, w.disk.Files(), css, 0).None? ==>
      match GenerateName(w.draws, w.disk.Files())
      case Exhausted => r == Failed(OutOfDraws)
      case GenReadError => r == Failed(UnreadableFile)
      case Generated(name, used) =>
        && (r.Resolved? || r.WriteFailed?)
        && (r.WriteFailed? <==> !Target(w.disk, forBlock).appendable)
        && r.world.draws == w.draws[used..]
        && (r.Resolved? ==> r.name == name && r.created)
  {
    var files := w.disk.Files();
    match FindInFiles(env.parse, files, css, 0)
    case Some(name) => Resolved(name, w, false)
    case None =>
      match GenerateName(w.draws, files)
      case Exhausted => Failed(OutOfDraws)
      case GenReadError => Failed(UnreadableFile)
      case Generated(name, used) =>
        match AppendRule(w.disk, NewRule(name, css), forBlock)
        case None => WriteFailed(World(w.disk, w.draws[used..]))
        case Some(d) => Resolved(name, World(d, w.draws[used..]), true)
  }

  /** What `processCIfBlock` returns: a class name, `null` (with the files as they now are), or an exception. */
  datatype BlockResult = BlockClass(name: string, world: World) | NoClass(world: World) | BlockFailed(failure: Failure)

  /**
   * `processCIfBlock`: `hide` for a block that sets `display: none`, nothing
   * for a block that is not a declaration list, otherwise a matching or new
   * class for its minified text.
   */
  function ProcessCIfBlock(env: Env, css: string, w: World): (r: BlockResult)
    ensures HasDisplayNone(css) ==> r == BlockClass(HIDE, w)
    ensures !HasDisplayNone(css) && !IsValidCssDeclaration(env.parse, css) ==> r == NoClass(w)
    ensures r.BlockClass? ==> r.name != "" && ':' !in r.name
    ensures r.BlockClass? && !HasDisplayNone(css) ==> IsValidCssDeclaration(env.parse, css) && ResolveClass(env, MinifyCss(env.clean, css), w, true).Resolved? && ResolveClass(env, MinifyCss(env.clean, css), w, true).name == r.name
    ensures r.NoClass? && r.world != w ==> !HasDisplayNone(css) && IsValidCssDeclaration(env.parse, css)
    ensures var res := ResolveClass(env, MinifyCss(env.clean, css), w, true);
      !HasDisplayNone(css) && IsValidCssDeclaration(env.parse, css) ==>
        && (r.BlockClass? <==> res.Resolved?)
        && (r.NoClass? <==> res.WriteFailed?)
        && (r.BlockFailed? <==> res.Failed?)
        && (res.Resolved? ==> r == BlockClass(res.name, res.world))
        && (res.WriteFailed? ==> r == NoClass(res.world))
        && (res.Failed? ==> r == BlockFailed(res.failure))
  {
    if HasDisplayNone(css) then BlockClass(HIDE, w)
    else if IsValidCssDeclaration(env.parse, css) then
      match ResolveClass(env, MinifyCss(env.clean, css), w, true)
      case Resolved(name, w1, _) => BlockClass(name, w1)
      case WriteFailed(w1) => NoClass(w1)
      case Failed(f) => BlockFailed(f)
    else NoClass(w)
  }

  /** `<c:if test="CONDITION">CLASS</c:if>`: always written with double quotes. */
  function CifTag(condition: string, name: string): (r: string)
    ensures ':' in r
  {
    var r := "<c:if test=\"" + condition + "\">" + name + "</c:if>";
    assert r[2] == ':';
    r
  }

  /** The tags for the conditional blocks, the files afterwards, and the exception that stopped the map if one did. */
  datatype TagRun = TagRun(tags: seq<string>, world: World, failure: Option<Failure>)

  /**
   * `cifBlocks.map(...).filter(result => result)`: one tag per block that
   * yields a class, in block order; an exception stops the whole map.
   */
  function ResolveBlocks(env: Env, blocks: seq<CifBlock>, w: World): (r: TagRun)
    decreases |blocks|
    ensures |r.tags| <= |blocks|
  {
    if blocks == [] then TagRun([], w, None)
    else match ProcessCIfBlock(env, blocks[0].css, w)
      case BlockFailed(f) => TagRun([], w, Some(f))
      case NoClass(w1) => ResolveBlocks(env, blocks[1..], w1)
      case BlockClass(name, w1) =>
        var rest := ResolveBlocks(env, blocks[1..], w1);
        TagRun([CifTag(blocks[0].condition, name)] + rest.tags, rest.world, rest.failure)
  }

  /**
   * One block on its own: a class becomes one tag with the block's condition,
   * no class gives no tag, and an exception gives no tag and stops.
   */
  lemma ResolveOneBlock(env: Env, b: CifBlock, w: World)
    ensures var r := ResolveBlocks(env, [b], w);
      match ProcessCIfBlock(env, b.css, w)
      case BlockClass(name, w1) => r == TagRun([CifTag(b.condition, name)], w1, None)
      case NoClass(w1) => r == TagRun([], w1, None)
      case BlockFailed(f) => r == TagRun([], w, Some(f))
  {
    assert [b][1..] == [];
  }

  /**
   * The blocks are handled one after another: the tags for `a + b` are those
   * for `a` followed by those for `b`, which start from the files as `a` left
   * them; once a block throws, nothing after it is handled.
   */
  lemma {:induction false} ResolveBlocksAppend(env: Env, a: seq<CifBlock>, b: seq<CifBlock>, w: World)
    decreases |a|
    ensures var ra := ResolveBlocks(env, a, w);
      ra.failure.Some? ==> ResolveBlocks(env, a + b, w) == ra
    ensures var ra := ResolveBlocks(env, a, w);
      var rb := ResolveBlocks(env, b, ra.world);
      ra.failure.None? ==> ResolveBlocks(env, a + b, w) == TagRun(ra.tags + rb.tags, rb.world, rb.failure)
  {
    if a == [] {
      assert a + b == b;
    } else {
      assert (a + b)[0] == a[0];
      assert (a + b)[1..] == a[1..] + b;
      match ProcessCIfBlock(env, a[0].css, w)
      case BlockFailed(f) =>
      case NoClass(w1) =>
        ResolveBlocksAppend(env, a[1..], b, w1);
      case BlockClass(name, w1) =>
        ResolveBlocksAppend(env, a[1..], b, w1);
        var tag := CifTag(a[0].condition, name);
        var ra' := ResolveBlocks(env, a[1..], w1);
        var rb := ResolveBlocks(env, b, ra'.world);
        AppendAssoc([tag], ra'.tags, rb.tags);
    }
  }

  /** Blocks that are neither hidden nor declaration lists yield no tag and touch no file. */
  lemma {:induction false} InvalidBlocksGiveNoTags(env: Env, blocks: seq<CifBlock>, w: World)
    requires forall j | 0 <= j < |blocks| :: !HasDisplayNone(blocks[j].css) && !IsValidCssDeclaration(env.parse, blocks[j].css)
    ensures ResolveBlocks(env, blocks, w) == TagRun([], w, None)
    decreases |blocks|
  {
    if blocks != [] {
      assert ProcessCIfBlock(env, blocks[0].css, w) == NoClass(w);
      InvalidBlocksGiveNoTags(env, blocks[1..], w);
    }
  }

  /** A first block that sets `display: none` contributes a `hide` tag and leaves the files to the rest. */
  lemma HiddenHead(env: Env, blocks: seq<CifBlock>, w: World)
    requires blocks != [] && HasDisplayNone(blocks[0].css)
    ensures var rest := ResolveBlocks(env, blocks[1..], w);
      ResolveBlocks(env, blocks, w) == TagRun([CifTag(blocks[0].condition, HIDE)] + rest.tags, rest.world, rest.failure)
  {
  }

  /** The `hide` tags of a non-empty block list: the first block's tag, then the rest's. */
  lemma HideTagsCons(blocks: seq<CifBlock>)
    requires blocks != []
    ensures seq(|blocks|, j requires 0 <= j < |blocks| => CifTag(blocks[j].condition, HIDE))
      == [CifTag(blocks[0].condition, HIDE)] + seq(|blocks| - 1, j requires 0 <= j < |blocks| - 1 => CifTag(blocks[1..][j].condition, HIDE))
  {
  }

  /**
   * Blocks that all set `display: none` each become a `hide` tag with their own
   * condition, in order, and no file is touched.
   */
  lemma {:induction false} HiddenBlocksBecomeHideTags(env: Env, blocks: seq<CifBlock>, w: World)
    requires forall j | 0 <= j < |blocks| :: HasDisplayNone(blocks[j].css)
    ensures ResolveBlocks(env, blocks, w) == TagRun(seq(|blocks|, j requires 0 <= j < |blocks| => CifTag(blocks[j].condition, HIDE)), w, None)
    decreases |blocks|
  {
    if blocks != [] {
      HiddenBlocksBecomeHideTags(env, blocks[1..], w);
      HiddenHead(env, blocks, w);
      HideTagsCons(blocks);
    }
  }

  /**
   * The replacement text of the attribute form: `class=` with the original
   * quote around the class list, or nothing when there is no class at all.
   */
  function ClassAttribute(quote: string, head: string, tags: seq<string>): (r: string)
    ensures r == "" <==> head == "" && tags == []
    ensures r != "" ==> IsPrefix(CLASS_EQ + quote, r) && IsSuffix(quote, r)
  {
    var open := CLASS_EQ + quote;
    var list := if head != "" then
      if |tags| > 0 then head + " " + Join(tags, " ") else head
    else Join(tags, " ");
    if head == "" && tags == [] then ""
    else
      var r := open + list + quote;
      assert r[..|open|] == open;
      assert r[|r| - |quote|..] == quote;
      r
  }

  /**
   * The attribute lists its words separated by single spaces: the main class
   * (when there is one) followed by the tags.
   */
  lemma ClassAttributeListsWords(quote: string, head: string, tags: seq<string>)
    ensures var words := (if head == "" then [] else [head]) + tags;
      ClassAttribute(quote, head, tags) == if words == [] then "" else CLASS_EQ + quote + Join(words, " ") + quote
  {
    if head != "" && |tags| > 0 {
      assert ([head] + tags)[1..] == tags;
    } else if head != "" {
      assert [head] + tags == [head];
    } else {
      assert [] + tags == tags;
    }
  }

  /** How the command ends: the selection replaced, an error message, or an exception. */
  datatype Outcome = Replaced(text: string) | NotCss | WriteError | Crashed(failure: Failure)

  datatype Run = Run(outcome: Outcome, world: World)

  /** The selection's text outside the conditional blocks, trimmed. */
  function Outer(text: string): string {
    Trim(ParseText(text).cssText)
  }

  /** The `style=` attribute in that text, if any; without one the selection is a bare declaration list. */
  function AttributeOf(text: string): Option<StyleInfo> {
    ParseStyleAttribute(Outer(text))
  }

  /** The styles without `display: none` and without a final semicolon, minified. */
  function MinifyStyles(env: Env, styles: string): string {
    MinifyCss(env.clean, DropTrailingSemicolon(RemoveDisplayNone(styles)))
  }

  /**
   * The final edit for a main class `head`: a bare selection becomes `head`
   * with no file touched; an attribute becomes the class attribute over the
   * blocks' tags, with the files as the blocks left them, unless a block
   * threw, which ends the command with that exception.
   */
  predicate Rendered(env: Env, quote: Option<string>, head: string, blocks: seq<CifBlock>, w: World, r: Run) {
    match quote
    case None => r == Run(Replaced(head), w)
    case Some(q) =>
      var tr := ResolveBlocks(env, blocks, w);
      && r.world == tr.world
      && (tr.failure.Some? ==> r.outcome == Crashed(tr.failure.value))
      && (tr.failure.None? ==> r.outcome == Replaced(ClassAttribute(q, head, tr.tags)))
  }

  /** The attribute form's ending: resolve the blocks, then write the class attribute. */
  function FinishAttribute(env: Env, quote: string, head: string, blocks: seq<CifBlock>, w: World): (r: Run)
    ensures r.outcome.Replaced? ==> r.outcome.text == "" || IsPrefix(CLASS_EQ + quote, r.outcome.text)
    ensures r.outcome.Replaced? || r.outcome.Crashed?
    ensures r.world == ResolveBlocks(env, blocks, w).world
    ensures r.outcome.Crashed? <==> ResolveBlocks(env, blocks, w).failure.Some?
    ensures Rendered(env, Some(quote), head, blocks, w, r)
  {
    var tr := ResolveBlocks(env, blocks, w);
    if tr.failure.Some? then Run(Crashed(tr.failure.value), tr.world)
    else Run(Replaced(ClassAttribute(quote, head, tr.tags)), tr.world)
  }

  /** What precedes the class list in the replacement: `class=` and the quote, or nothing for a bare selection. */
  function Lead(quote: Option<string>): string {
    match quote
    case Some(q) => CLASS_EQ + q
    case None => ""
  }

  /** The replacement for a main class `head`: the class alone for a bare selection, the class attribute otherwise. */
  function Finish(env: Env, quote: Option<string>, head: string, blocks: seq<CifBlock>, w: World): (r: Run)
    ensures r.outcome.Replaced? || r.outcome.Crashed?
    ensures quote.None? ==> r == Run(Replaced(head), w)
    ensures r.outcome.Replaced? && head != "" ==> IsPrefix(Lead(quote) + head, r.outcome.text)
    ensures quote.Some? && r.outcome.Replaced? ==> r.outcome.text == "" || IsPrefix(Lead(quote), r.outcome.text)
    ensures r.world == if quote.None? then w else ResolveBlocks(env, blocks, w).world
    ensures quote.Some? ==> (r.outcome.Crashed? <==> ResolveBlocks(env, blocks, w).failure.Some?)
    ensures Rendered(env, quote, head, blocks, w, r)
  {
    if quote.None? then Run(Replaced(head), w)
    else
      var tr := ResolveBlocks(env, blocks, w);
      var r := FinishAttribute(env, quote.value, head, blocks, w);
      assert r.outcome.Replaced? && head != "" ==> IsPrefix(Lead(quote) + head, r.outcome.text) by {
        if head != "" {
          AttributeStartsWithHead(quote.value, head, tr.tags);
        }
      }
      r
  }

  /**
   * How the command ends once the styles are known, given whether they set
   * `display: none` and what is left of them minified: with nothing left, the
   * main class is `hide` or nothing; otherwise the class resolution decides,
   * an exception crashing with no file changed, a failed append reporting a
   * write error, and a resolved class, after `hide ` when hidden, being
   * rendered over the blocks from the files resolution left.
   */
  predicate Settled(env: Env, quote: Option<string>, hidden: bool, minified: string, blocks: seq<CifBlock>, w: World, r: Run) {
    && (r.outcome == WriteError <==> minified != "" && ResolveClass(env, minified, w, false).WriteFailed?)
    && (minified == "" ==> Rendered(env, quote, if hidden then HIDE else "", blocks, w, r))
    && (minified != "" ==>
      match ResolveClass(env, minified, w, false)
      case Failed(f) => r == Run(Crashed(f), w)
      case WriteFailed(w1) => r == Run(WriteError, w1)
      case Resolved(name, w1, _) => Rendered(env, quote, (if hidden then HIDE + " " else "") + name, blocks, w1, r))
  }

  /**
   * Everything after the styles are known (lines 270-359), given whether they
   * set `display: none` and what is left of them once that is removed and the
   * rest minified: `quote` is the attribute's quote, or `None` for a bare
   * declaration list, whose replacement is only the class. Hidden styles put
   * `hide` first in the class list, followed by a space and the class when
   * other declarations remain.
   */
  function ConvertMinified(env: Env, quote: Option<string>, hidden: bool, minified: string, blocks: seq<CifBlock>, w: World): (r: Run)
    ensures r.outcome != NotCss
    ensures quote.Some? && r.outcome.Replaced? ==> r.outcome.text == "" || IsPrefix(Lead(quote), r.outcome.text)
    ensures hidden && r.outcome.Replaced? ==> IsPrefix(Lead(quote) + HIDE, r.outcome.text)
    ensures hidden && minified != "" && r.outcome.Replaced? ==> IsPrefix(Lead(quote) + HIDE + " ", r.outcome.text)
    ensures minified != "" && r.outcome.Replaced? ==>
      && ResolveClass(env, minified, w, false).Resolved?
      && IsPrefix(Lead(quote) + (if hidden then HIDE + " " else "") + ResolveClass(env, minified, w, false).name, r.outcome.text)
    ensures minified == "" ==> r.world == if quote.None? then w else ResolveBlocks(env, blocks, w).world
    ensures minified == "" && blocks == [] ==> r.world == w
    ensures r.outcome == WriteError <==> minified != "" && ResolveClass(env, minified, w, false).WriteFailed?
    ensures minified == "" ==> Rendered(env, quote, if hidden then HIDE else "", blocks, w, r)
    ensures minified != "" ==>
      match ResolveClass(env, minified, w, false)
      case Failed(f) => r == Run(Crashed(f), w)
      case WriteFailed(w1) => r == Run(WriteError, w1)
      case Resolved(name, w1, _) => Rendered(env, quote, (if hidden then HIDE + " " else "") + name, blocks, w1, r)
    ensures Settled(env, quote, hidden, minified, blocks, w, r)
  {
    if minified == "" then
      Finish(env, quote, if hidden then HIDE else "", blocks, w)
    else
      match ResolveClass(env, minified, w, false)
      case Failed(f) => Run(Crashed(f), w)
      case WriteFailed(w1) => Run(WriteError, w1)
      case Resolved(name, w1, _) =>
        var mark := if hidden then HIDE + " " else "";
        var r := Finish(env, quote, mark + name, blocks, w1);
        AppendAssoc(Lead(quote), mark, name);
        assert hidden && r.outcome.Replaced? ==> IsPrefix(Lead(quote) + HIDE + " ", r.outcome.text) && IsPrefix(Lead(quote) + HIDE, r.outcome.text) by {
          if hidden && r.outcome.Replaced? {
            HidePrefix(Lead(quote), name, r.outcome.text);
          }
        }
        r
  }

  /**
   * The styles' conversion (lines 269-359): `display: none` is detected,
   * removed with a final semicolon, and the rest minified.
   */
  function ConvertStyles(env: Env, quote: Option<string>, styles: string, blocks: seq<CifBlock>, w: World): (r: Run)
    ensures r.outcome != NotCss
    ensures quote.Some? && r.outcome.Replaced? ==> r.outcome.text == "" || IsPrefix(Lead(quote), r.outcome.text)
    ensures HasDisplayNone(styles) && r.outcome.Replaced? ==> IsPrefix(Lead(quote) + HIDE, r.outcome.text)
    ensures var minified := MinifyStyles(env, styles);
      minified != "" && r.outcome.Replaced? ==>
        && ResolveClass(env, minified, w, false).Resolved?
        && IsPrefix(Lead(quote) + (if HasDisplayNone(styles) then HIDE + " " else "") + ResolveClass(env, minified, w, false).name, r.outcome.text)
    ensures MinifyStyles(env, styles) == "" && blocks == [] ==> r.world == w
    ensures r.outcome == WriteError <==> MinifyStyles(env, styles) != "" && ResolveClass(env, MinifyStyles(env, styles), w, false).WriteFailed?
    ensures var hidden := HasDisplayNone(styles);
      MinifyStyles(env, styles) == "" ==> Rendered(env, quote, if hidden then HIDE else "", blocks, w, r)
    ensures var hidden, minified := HasDisplayNone(styles), MinifyStyles(env, styles);
      minified != "" ==>
        match ResolveClass(env, minified, w, false)
        case Failed(f) => r == Run(Crashed(f), w)
        case WriteFailed(w1) => r == Run(WriteError, w1)
        case Resolved(name, w1, _) => Rendered(env, quote, (if hidden then HIDE + " " else "") + name, blocks, w1, r)
    ensures Settled(env, quote, HasDisplayNone(styles), MinifyStyles(env, styles), blocks, w, r)
  {
    ConvertMinified(env, quote, HasDisplayNone(styles), MinifyStyles(env, styles), blocks, w)
  }

  /**
   * The `convertStyle` command on the selected text: an error unless the
   * selection holds a `style=` attribute or is a valid declaration list.
   */
  function Convert(env: Env, text: string, w: World): (r: Run)
    ensures r.outcome == NotCss <==> AttributeOf(text).None? && !IsValidCssDeclaration(env.parse, Outer(text))
    ensures r.outcome == NotCss ==> r.world == w
    ensures AttributeOf(text).Some? && r.outcome.Replaced? ==> r.outcome.text == "" || IsPrefix(CLASS_EQ + AttributeOf(text).value.quote, r.outcome.text)
    ensures AttributeOf(text).Some? ==>
      var info := AttributeOf(text).value;
        Settled(env, Some(info.quote), HasDisplayNone(info.styles), MinifyStyles(env, info.styles), ParseText(text).blocks, w, r)
    ensures var s := ParseText(text).cssText;
      AttributeOf(text).None? && IsValidCssDeclaration(env.parse, Outer(text)) ==>
        Settled(env, None, HasDisplayNone(s), MinifyStyles(env, s), ParseText(text).blocks, w, r)
  {
    match AttributeOf(text)
    case Some(info) => ConvertStyles(env, Some(info.quote), info.styles, ParseText(text).blocks, w)
    case None =>
      if IsValidCssDeclaration(env.parse, Outer(text)) then ConvertStyles(env, None, ParseText(text).cssText, ParseText(text).blocks, w)
      else Run(NotCss, w)
  }

  /**
   * A bare declaration list is replaced by its class alone: the conditional
   * blocks make no difference, no tag is written (a tag holds `:`, a class
   * name never does), and only the generated file can change.
   */
  lemma BareFormIgnoresBlocks(env: Env, hidden: bool, minified: string, blocks: seq<CifBlock>, others: seq<CifBlock>, w: World)
    ensures ConvertMinified(env, None, hidden, minified, blocks, w) == ConvertMinified(env, None, hidden, minified, others, w)
    ensures var r := ConvertMinified(env, None, hidden, minified, blocks, w);
      && (r.outcome.Replaced? ==> ':' !in r.outcome.text)
      && r.world.disk.sources == w.disk.sources && r.world.disk.stray == w.disk.stray
  {
    if minified != "" {
      var res := ResolveClass(env, minified, w, false);
      if res.Resolved? {
        var head := if hidden then HIDE + " " + res.name else res.name;
        assert ConvertMinified(env, None, hidden, minified, blocks, w) == Run(Replaced(head), res.world);
        assert ConvertMinified(env, None, hidden, minified, others, w) == Run(Replaced(head), res.world);
      }
    }
  }

  /**
   * An attribute whose styles are only `display: none`, with blocks that all
   * set it too, becomes `class=` and its quote around `hide` and one
   * `<c:if test="COND">hide</c:if>` per block, in order; no file is touched.
   */
  lemma HiddenAttributeBecomesHide(env: Env, q: string, blocks: seq<CifBlock>, w: World)
    requires forall j | 0 <= j < |blocks| :: HasDisplayNone(blocks[j].css)
    ensures var tags := seq(|blocks|, j requires 0 <= j < |blocks| => CifTag(blocks[j].condition, HIDE));
      ConvertMinified(env, Some(q), true, "", blocks, w) == Run(Replaced(CLASS_EQ + q + Join([HIDE] + tags, " ") + q), w)
  {
    var tags := seq(|blocks|, j requires 0 <= j < |blocks| => CifTag(blocks[j].condition, HIDE));
    HiddenBlocksBecomeHideTags(env, blocks, w);
    ClassAttributeListsWords(q, HIDE, tags);
  }

  /** A class attribute with a main class starts with that class. */
  lemma AttributeStartsWithHead(quote: string, head: string, tags: seq<string>)
    requires head != ""
    ensures IsPrefix(CLASS_EQ + quote + head, ClassAttribute(quote, head, tags))
  {
    var words := [head] + tags;
    ClassAttributeListsWords(quote, head, tags);
    JoinStartsWithFirst(words, " ");
    var a := CLASS_EQ + quote + Join(words, " ") + quote;
    assert a == (CLASS_EQ + quote) + Join(words, " ") + quote;
    assert a[..|CLASS_EQ + quote + head|] == CLASS_EQ + quote + Join(words, " ")[..|head|];
  }

  /** Text that starts with `LEAD hide NAME` starts with `LEAD hide ` and with `LEAD hide`. */
  lemma HidePrefix(lead: string, name: string, s: string)
    requires IsPrefix(lead + (HIDE + " " + name), s)
    ensures IsPrefix(lead + HIDE + " ", s) && IsPrefix(lead + HIDE, s)
  {
    assert lead + (HIDE + " " + name) == (lead + HIDE + " ") + name;
    PrefixOfPrefix(lead + HIDE + " ", name, s);
    PrefixOfPrefix(lead + HIDE, " ", s);
  }

  /**
   * A valid bare selection whose styles leave nothing after removing
   * `display: none` and minifying is replaced by `hide` or by nothing, and no
   * file is read or written.
   */
  lemma BareSelectionWithoutStyles(env: Env, text: string, w: World)
    requires AttributeOf(text).None? && IsValidCssDeclaration(env.parse, Outer(text))
    requires MinifyStyles(env, ParseText(text).cssText) == ""
    ensures Convert(env, text, w) == Run(Replaced(if HasDisplayNone(ParseText(text).cssText) then HIDE else ""), w)
  {
  }

  /**
   * When a configured file already holds a matching class, a bare selection
   * is replaced by that class (after `hide` if it sets `display: none`) and no
   * file is written.
   */
  lemma MatchReusesClass(env: Env, hidden: bool, minified: string, blocks: seq<CifBlock>, w: World)
    requires minified != ""
    ensures var hit := FindInFiles(env.parse, w.disk.Files(), minified, 0);
      hit.Some? ==> ConvertMinified(env, None, hidden, minified, blocks, w) == Run(Replaced(if hidden then HIDE + " " + hit.value else hit.value), w)
  {
  }

  /**
   * Styles that are only `display: none` (nothing left after minifying) turn a
   * bare selection into `hide`, and one without it into nothing; no file is
   * read or written.
   */
  lemma EmptyBareStyles(env: Env, hidden: bool, blocks: seq<CifBlock>, w: World)
    ensures ConvertMinified(env, None, hidden, "", blocks, w) == Run(Replaced(if hidden then HIDE else ""), w)
  {
  }

  /**
   * A class created for a selection is new: no configured file held its name
   * or a matching rule; the new rule is appended to the generated file and
   * nothing else changes.
   */
  lemma CreatedClassIsNew(env: Env, hidden: bool, minified: string, blocks: seq<CifBlock>, w: World)
    requires minified != ""
    ensures var res := ResolveClass(env, minified, w, false);
      res.Resolved? && res.created ==>
        && Free(res.name, w.disk.Files())
        && (forall i | 0 <= i < |w.disk.Files()| :: FileHit(env.parse, w.disk.Files()[i], minified).None?)
        && ConvertMinified(env, None, hidden, minified, blocks, w).world.disk == w.disk.(sink := w.disk.sink.(content := Some(w.disk.sink.content.GetOr("") + NewRule(res.name, minified))))
  {
  }
}
