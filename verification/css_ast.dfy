/**
 * The parsed stylesheet as the `css` package returns it, reduced to what the
 * converter looks at, and `isValidCssDeclaration`.
 */
module CssAst {
  import opened Wrappers
  import opened Strings

  /** An item inside a rule's braces: a `declaration` node or a `comment` node. */
  datatype Decl = Declaration(property: string, value: string) | Comment(text: string)

  /** A `rule` node with its selector list and items, or any other node (comment, at-rule). */
  datatype Rule = StyleRule(selectors: seq<string>, declarations: seq<Decl>) | OtherRule

  type Stylesheet = seq<Rule>

  /** `css.parse`: the rules of the stylesheet, or `None` where the parser throws. */
  type Parser = string -> Option<Stylesheet>

  /** `prop:value` for every declaration, in order; comments are dropped. */
  function Pairs(decls: seq<Decl>): (ps: seq<string>)
    ensures |ps| <= |decls|
  {
    if decls == [] then []
    else
      (match decls[0]
       case Declaration(p, v) => [p + ":" + v]
       case Comment(_) => [])
      + Pairs(decls[1..])
  }

  /** The declarations as the matcher compares them: the pairs joined by `;`. */
  function Serialize(decls: seq<Decl>): string {
    Join(Pairs(decls), ";")
  }

  /** The item list of a valid declaration text: only declarations, each with a non-empty property and value. */
  predicate ProperDeclarations(decls: seq<Decl>) {
    && |decls| > 0
    && forall i | 0 <= i < |decls| :: decls[i].Declaration? && decls[i].property != "" && decls[i].value != ""
  }

  /**
   * `isValidCssDeclaration`: `.dummy{TEXT}` parses, its first rule is a
   * style rule (any other node has no `declarations`), and that rule's items
   * are proper declarations.
   */
  predicate IsValidCssDeclaration(parse: Parser, text: string) {
    match parse(".dummy{" + text + "}")
    case None => false
    case Some(rules) => |rules| > 0 && rules[0].StyleRule? && ProperDeclarations(rules[0].declarations)
  }

  /** Nothing is dropped from proper declarations when they are serialised: one `prop:value` pair per item, in order. */
  lemma {:induction false} ProperDeclarationsKeepAll(decls: seq<Decl>)
    requires forall i | 0 <= i < |decls| :: decls[i].Declaration?
    ensures |Pairs(decls)| == |decls|
    ensures forall i | 0 <= i < |decls| :: Pairs(decls)[i] == decls[i].property + ":" + decls[i].value
  {
    if decls != [] {
      ProperDeclarationsKeepAll(decls[1..]);
      assert Pairs(decls) == [decls[0].property + ":" + decls[0].value] + Pairs(decls[1..]);
    }
  }

  /**
   * A text accepted by `isValidCssDeclaration` parses to a rule whose
   * serialised declarations list every item: the matcher's filter on the
   * node type drops none of them.
   */
  lemma ValidDeclarationSerializesAll(parse: Parser, text: string)
    requires IsValidCssDeclaration(parse, text)
    ensures var decls := parse(".dummy{" + text + "}").value[0].declarations;
      && |Pairs(decls)| == |decls| > 0
      && Serialize(decls) != ""
  {
    var decls := parse(".dummy{" + text + "}").value[0].declarations;
    ProperDeclarationsKeepAll(decls);
    assert Pairs(decls)[0] == decls[0].property + ":" + decls[0].value;
  }
}
