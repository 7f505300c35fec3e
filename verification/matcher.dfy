/**
 * `findMatchingClass` and the search over the configured files: finding an
 * existing single-class rule whose declarations equal the target text.
 */
module Matcher {
  import opened Wrappers
  import opened Strings
  import opened CssAst
  import opened Workspace

  const IMPORTANT := "!important"

  /**
   * A selector the matcher accepts: it starts with `.`, holds none of `:`,
   * space, `+`, `>`, `~`, and has no second `.`.
   */
  predicate IsSingleClassSelector(sel: string) {
    && |sel| > 0 && sel[0] == '.'
    && ':' !in sel && ' ' !in sel && '+' !in sel && '>' !in sel && '~' !in sel
    && Count(sel, '.') <= 1
  }

  /**
   * `.replace(/\s*!important\s*$/, '')`: removes one `!important` standing at
   * the very end (trailing white space aside) together with all white space
   * before and after it; any other text is left alone.
   */
  function StripImportant(s: string): (r: string)
    ensures IsPrefix(r, s)
    ensures r != s <==> IsSuffix(IMPORTANT, TrimEnd(s))
    ensures r != s ==> exists j: nat :: |r| <= j && j + |IMPORTANT| <= |s| && AllSpace(s[|r|..j]) && s[j..j + |IMPORTANT|] == IMPORTANT && AllSpace(s[j + |IMPORTANT|..])
    ensures r != s ==> r == [] || !IsSpace(r[|r| - 1])
  {
    var t := TrimEnd(s);
    if IsSuffix(IMPORTANT, t) then
      var j := |t| - |IMPORTANT|;
      var r := TrimEnd(t[..j]);
      assert s[|r|..j] == t[..j][|r|..];
      assert s[j..j + |IMPORTANT|] == t[j..];
      assert s[j + |IMPORTANT|..] == s[|t|..];
      assert s[..|r|] == t[..j][..|r|];
      r
    else s
  }

  /** The rule's declarations equal the target, either exactly or once a trailing `!important` is removed. */
  predicate DeclarationsMatch(decls: seq<Decl>, target: string) {
    var s := Serialize(decls);
    s == target || StripImportant(s) == target
  }

  /** A rule that `findMatchingClass` returns: a style rule with one single-class selector and matching declarations. */
  predicate RuleMatches(rule: Rule, target: string) {
    && rule.StyleRule?
    && |rule.selectors| == 1
    && IsSingleClassSelector(rule.selectors[0])
    && DeclarationsMatch(rule.declarations, target)
  }

  /** Reading `rule.selectors[0]` of a style rule without selectors throws, which ends the search of the file. */
  predicate Throws(rule: Rule) {
    rule.StyleRule? && |rule.selectors| == 0
  }

  /** The rule loop from index `from`: the index of the first matching rule, unless a throwing rule comes first. */
  function FirstMatch(rules: Stylesheet, target: string, from: nat): (r: Option<nat>)
    requires from <= |rules|
    decreases |rules| - from
    ensures r.Some? ==> from <= r.value < |rules| && RuleMatches(rules[r.value], target)
    ensures r.Some? ==> forall j | from <= j < r.value :: !RuleMatches(rules[j], target) && !Throws(rules[j])
    ensures r.None? ==> forall j | from <= j < |rules| && RuleMatches(rules[j], target) :: exists k | from <= k < j :: Throws(rules[k])
  {
    if from == |rules| then None
    else if Throws(rules[from]) then None
    else if RuleMatches(rules[from], target) then Some(from)
    else FirstMatch(rules, target, from + 1)
  }

  /**
   * `findMatchingClass`: the class name of the first matching rule, which is
   * its selector without the leading `.` and so holds no `.`, no combinator
   * and no pseudo-class colon; `null` when the stylesheet does not parse, when
   * no rule matches, or when a rule without selectors comes before any match.
   */
  function FindMatchingClass(sheet: Option<Stylesheet>, target: string): (r: Option<string>)
    ensures r.Some? ==> '.' !in r.value && ':' !in r.value && ' ' !in r.value && '+' !in r.value && '>' !in r.value && '~' !in r.value
    ensures r.Some? ==> sheet.Some? && exists i | 0 <= i < |sheet.value| ::
      && RuleMatches(sheet.value[i], target)
      && "." + r.value == sheet.value[i].selectors[0]
      && forall j | 0 <= j < i :: !RuleMatches(sheet.value[j], target) && !Throws(sheet.value[j])
    ensures r.None? ==> sheet.None? || forall j | 0 <= j < |sheet.value| && RuleMatches(sheet.value[j], target) :: exists k | 0 <= k < j :: Throws(sheet.value[k])
  {
    match sheet
    case None => None
    case Some(rules) =>
      match FirstMatch(rules, target, 0)
      case None => None
      case Some(i) =>
        var sel := rules[i].selectors[0];
        assert sel == [sel[0]] + sel[1..];
        assert Count(sel[1..], '.') == 0;
        CountZero(sel[1..], '.');
        assert forall c | c in sel[1..] :: c in sel;
        Some(sel[1..])
  }

  /**
   * Matching is complete: when a rule matches and no rule before it lacks
   * selectors, the first such rule's class is returned.
   */
  lemma MatchingIsComplete(rules: Stylesheet, target: string, i: nat)
    requires i < |rules| && RuleMatches(rules[i], target)
    requires forall k | 0 <= k < i :: !Throws(rules[k])
    ensures FindMatchingClass(Some(rules), target).Some?
  {
  }

  /** What one configured file contributes: a non-empty class name from a readable, matching file. */
  function FileHit(parse: Parser, f: CssFile, target: string): (r: Option<string>)
    ensures r.Some? ==> r.value != "" && ':' !in r.value && ' ' !in r.value && '.' !in r.value
    ensures r.Some? ==> f.content.Some? && FindMatchingClass(parse(f.content.value), target) == r
    ensures r.None? <==> f.content.None? || FindMatchingClass(parse(f.content.value), target) in {None, Some("")}
  {
    match f.content
    case None => None
    case Some(text) =>
      match FindMatchingClass(parse(text), target)
      case Some(name) => if name != "" then Some(name) else None
      case None => None
  }

  /** No file in `lo..hi` yields a class name. */
  predicate NoHitIn(parse: Parser, files: seq<CssFile>, target: string, lo: nat, hi: nat)
    requires hi <= |files|
  {
    forall j | lo <= j < hi :: FileHit(parse, files[j], target).None?
  }

  /** File `i` yields `hit` and no file in `lo..i` yields anything. */
  predicate FirstHitAt(parse: Parser, files: seq<CssFile>, target: string, lo: nat, i: nat, hit: Option<string>)
    requires i < |files|
  {
    FileHit(parse, files[i], target) == hit && NoHitIn(parse, files, target, lo, i)
  }

  /** Skipping a file that yields nothing keeps the first hit after it the first hit. */
  lemma HitStep(parse: Parser, files: seq<CssFile>, target: string, from: nat, i: nat, r: Option<string>)
    requires from < i < |files| && FileHit(parse, files[from], target).None?
    requires FirstHitAt(parse, files, target, from + 1, i, r)
    ensures FirstHitAt(parse, files, target, from, i, r)
  {
  }

  /**
   * The loop over the configured files (an unreadable file is skipped, an
   * empty class name counts as no match): the first file, in configured order,
   * that yields a class name decides.
   */
  function FindInFiles(parse: Parser, files: seq<CssFile>, target: string, from: nat): (r: Option<string>)
    requires from <= |files|
    decreases |files| - from
    ensures r.Some? ==> r.value != "" && ':' !in r.value && ' ' !in r.value && '.' !in r.value
    ensures r.Some? ==> exists i | from <= i < |files| :: FirstHitAt(parse, files, target, from, i, r)
    ensures r.None? <==> NoHitIn(parse, files, target, from, |files|)
  {
    if from == |files| then None
    else
      var hit := FileHit(parse, files[from], target);
      if hit.Some? then
        assert FirstHitAt(parse, files, target, from, from, hit);
        hit
      else
        var r := FindInFiles(parse, files, target, from + 1);
        assert r.Some? ==> exists i | from <= i < |files| :: FirstHitAt(parse, files, target, from, i, r) by {
          if r.Some? {
            var i :| from + 1 <= i < |files| && FirstHitAt(parse, files, target, from + 1, i, r);
            HitStep(parse, files, target, from, i, r);
          }
        }
        r
  }
}
