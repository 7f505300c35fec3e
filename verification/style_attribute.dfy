/**
 * `parseStyleAttribute`: finding `style=` followed by a quoted value.
 *
 * Two regular expressions are tried in turn: first `style\s*=\s*(["'])((?:(?!\1).)*)\1`
 * (a plain quote), then the same with `(\\["'])` (a backslash-escaped quote).
 * `AttrMatchAt` is the match either expression makes at one position; the
 * search takes the leftmost position, the plain form first.
 */
module StyleAttribute {
  import opened Wrappers
  import opened Strings

  /** The quote as found (one or two characters) and the text between the quotes. */
  datatype StyleInfo = StyleInfo(quote: string, styles: string)

  const QUOTES: set<string> := {"\"", "'", "\\\"", "\\'"}

  predicate IsQuoteToken(q: string, escaped: bool) {
    if escaped then |q| == 2 && q[0] == '\\' && (q[1] == '"' || q[1] == '\'')
    else |q| == 1 && (q[0] == '"' || q[0] == '\'')
  }

  /**
   * The body `((?:(?!\1).)*)\1` after the opening quote at `i`: the first
   * occurrence of the quote, which must come before any line terminator.
   */
  function FindQuote(t: string, i: nat, q: string): (r: Option<nat>)
    requires q != []
    decreases |t| - i
    ensures r.Some? ==> i <= r.value && OccursAt(t, q, r.value) && NoBreakIn(t, i, r.value)
    ensures r.Some? ==> forall j | i <= j < r.value :: !OccursAt(t, q, j)
    ensures r.None? ==> forall e | i <= e :: !(OccursAt(t, q, e) && NoBreakIn(t, i, e))
  {
    if i + |q| > |t| then None
    else if OccursAt(t, q, i) then Some(i)
    else if IsLineBreak(t[i]) then None
    else FindQuote(t, i + 1, q)
  }

  /** A quote that first occurs at `e` does not occur inside `t[i..e]`. */
  lemma QuoteNotInBody(t: string, i: nat, e: nat, q: string)
    requires q != [] && i <= e <= |t|
    requires forall j | i <= j < e :: !OccursAt(t, q, j)
    ensures !Contains(t[i..e], q)
  {
    var body := t[i..e];
    forall k: nat | k <= |body| ensures !OccursAt(body, q, k) {
      if k + |q| <= |body| {
        SliceOfSlice(t, i, e, k, |q|);
        assert !OccursAt(t, q, i + k);
      }
    }
  }

  /** The value after an opening quote `q` ending at `i`: the text up to the next `q`, which holds neither `q` nor a line break. */
  function QuotedValue(t: string, i: nat, q: string): (r: Option<string>)
    requires q != []
    ensures r.Some? ==> !Contains(r.value, q) && NoBreakIn(r.value, 0, |r.value|)
    ensures r.None? <==> FindQuote(t, i, q).None?
    ensures r.Some? ==> r.value == t[i..FindQuote(t, i, q).value]
  {
    match FindQuote(t, i, q)
    case None => None
    case Some(e) =>
      var styles := t[i..e];
      QuoteNotInBody(t, i, e, q);
      assert forall k | 0 <= k < |styles| :: styles[k] == t[i + k];
      Some(styles)
  }

  /** How many characters the quote takes: two for a backslash-escaped one. */
  function QuoteWidth(escaped: bool): nat {
    if escaped then 2 else 1
  }

  /**
   * The expression up to the opening quote, read declaratively: `style` at
   * `p`, white space up to `a`, `=` at `a`, white space up to `b`, and a quote
   * of the asked form at `b`.
   */
  predicate AttrShape(t: string, p: nat, escaped: bool, a: nat, b: nat) {
    && OccursAt(t, "style", p)
    && p + 5 <= a < b && b + QuoteWidth(escaped) <= |t|
    && (forall k | p + 5 <= k < a :: IsSpace(t[k]))
    && t[a] == '='
    && (forall k | a + 1 <= k < b :: IsSpace(t[k]))
    && IsQuoteToken(t[b..b + QuoteWidth(escaped)], escaped)
  }

  /** The whole expression matches at `p`, its closing quote at `e`. */
  predicate AttrMatch(t: string, p: nat, escaped: bool, a: nat, b: nat, e: nat) {
    && AttrShape(t, p, escaped, a, b)
    && FindQuote(t, b + QuoteWidth(escaped), t[b..b + QuoteWidth(escaped)]) == Some(e)
  }

  /** Neither `=` nor a quote is white space, so the two runs of white space can end in one place only. */
  lemma AttrShapeUnique(t: string, p: nat, escaped: bool, a: nat, b: nat)
    requires AttrShape(t, p, escaped, a, b)
    ensures a == SkipSpaces(t, p + 5) && b == SkipSpaces(t, a + 1)
  {
    SkipSpacesTo(t, p + 5, a);
    assert !IsSpace(t[b]) by {
      assert t[b] == t[b..b + QuoteWidth(escaped)][0];
    }
    SkipSpacesTo(t, a + 1, b);
  }

  /**
   * The match at position `p`: `style`, white space, `=`, white space, the
   * quote, then everything up to the next occurrence of the same quote on the
   * same line. The white-space runs are greedy, and since neither `=` nor a
   * quote is white space there is at most one match at `p`.
   */
  function AttrMatchAt(t: string, p: nat, escaped: bool): (r: Option<StyleInfo>)
    ensures r.Some? ==> IsQuoteToken(r.value.quote, escaped) && !Contains(r.value.styles, r.value.quote)
    ensures r.Some? ==> NoBreakIn(r.value.styles, 0, |r.value.styles|)
  {
    if !OccursAt(t, "style", p) then None
    else AttrFromEquals(t, SkipSpaces(t, p + 5), escaped)
  }

  /** The rest of the match once the white space after `style` ends at `a`. */
  function AttrFromEquals(t: string, a: nat, escaped: bool): (r: Option<StyleInfo>)
    requires a <= |t|
    ensures r.Some? ==> IsQuoteToken(r.value.quote, escaped) && !Contains(r.value.styles, r.value.quote)
    ensures r.Some? ==> NoBreakIn(r.value.styles, 0, |r.value.styles|)
  {
    if a == |t| || t[a] != '=' then None
    else AttrFromQuote(t, SkipSpaces(t, a + 1), escaped)
  }

  /** The rest of the match once the white space after `=` ends at `b`. */
  function AttrFromQuote(t: string, b: nat, escaped: bool): (r: Option<StyleInfo>)
    requires b <= |t|
    ensures r.Some? ==> IsQuoteToken(r.value.quote, escaped) && !Contains(r.value.styles, r.value.quote)
    ensures r.Some? ==> NoBreakIn(r.value.styles, 0, |r.value.styles|)
    ensures var w := QuoteWidth(escaped);
      r.Some? <==> b + w <= |t| && IsQuoteToken(t[b..b + w], escaped) && FindQuote(t, b + w, t[b..b + w]).Some?
    ensures var w := QuoteWidth(escaped);
      r.Some? ==> r.value == StyleInfo(t[b..b + w], t[b + w..FindQuote(t, b + w, t[b..b + w]).value])
  {
    var width := QuoteWidth(escaped);
    if b + width > |t| || !IsQuoteToken(t[b..b + width], escaped) then None
    else
      var q := t[b..b + width];
      match QuotedValue(t, b + width, q)
      case None => None
      case Some(styles) => Some(StyleInfo(q, styles))
  }

  /** With `style` at `p` the scanner goes on to the `=` stage where the white space after it ends. */
  lemma AttrAfterStyle(t: string, p: nat, escaped: bool, a: nat)
    requires OccursAt(t, "style", p) && a == SkipSpaces(t, p + 5)
    ensures AttrMatchAt(t, p, escaped) == AttrFromEquals(t, a, escaped)
  {
  }

  /** With `=` at `a` the scanner goes on to the quote stage where the white space after it ends. */
  lemma AttrAfterEquals(t: string, a: nat, escaped: bool, b: nat)
    requires a < |t| && t[a] == '=' && b == SkipSpaces(t, a + 1)
    ensures AttrFromEquals(t, a, escaped) == AttrFromQuote(t, b, escaped)
  {
  }

  /** A declarative match fixes what the scanner reports at `p`. */
  lemma AttrMatchDetermines(t: string, p: nat, escaped: bool, a: nat, b: nat, e: nat)
    requires AttrMatch(t, p, escaped, a, b, e)
    ensures AttrMatchAt(t, p, escaped) == Some(StyleInfo(t[b..b + QuoteWidth(escaped)], t[b + QuoteWidth(escaped)..e]))
  {
    AttrShapeUnique(t, p, escaped, a, b);
    AttrAfterStyle(t, p, escaped, a);
    AttrAfterEquals(t, a, escaped, b);
  }

  /** The scanner's quote stage, reached after `style` and `=`, succeeding is a declarative match. */
  lemma AttrQuoteWitness(t: string, p: nat, escaped: bool, a: nat, b: nat)
    requires OccursAt(t, "style", p) && a == SkipSpaces(t, p + 5)
    requires a < |t| && t[a] == '=' && b == SkipSpaces(t, a + 1)
    requires AttrFromQuote(t, b, escaped).Some?
    ensures var q := t[b..b + QuoteWidth(escaped)];
      FindQuote(t, b + QuoteWidth(escaped), q).Some? && AttrMatch(t, p, escaped, a, b, FindQuote(t, b + QuoteWidth(escaped), q).value)
  {
    assert AttrShape(t, p, escaped, a, b);
  }

  /** What the scanner reports is a declarative match. */
  lemma AttrMatchWitness(t: string, p: nat, escaped: bool)
    requires AttrMatchAt(t, p, escaped).Some?
    ensures exists a: nat, b: nat, e: nat :: AttrMatch(t, p, escaped, a, b, e)
  {
    assert OccursAt(t, "style", p);
    var a := SkipSpaces(t, p + 5);
    assert AttrFromEquals(t, a, escaped).Some?;
    var b := SkipSpaces(t, a + 1);
    assert AttrFromQuote(t, b, escaped).Some?;
    AttrQuoteWitness(t, p, escaped, a, b);
  }

  /**
   * The scanner agrees with the expression read declaratively: it finds a
   * match at `p` exactly when the expression matches there, and then reports
   * the quote and the text up to the closing quote.
   */
  lemma AttrMatchAtExactly(t: string, p: nat, escaped: bool)
    ensures AttrMatchAt(t, p, escaped).Some? <==> exists a: nat, b: nat, e: nat :: AttrMatch(t, p, escaped, a, b, e)
    ensures forall a: nat, b: nat, e: nat | AttrMatch(t, p, escaped, a, b, e) ::
      AttrMatchAt(t, p, escaped) == Some(StyleInfo(t[b..b + QuoteWidth(escaped)], t[b + QuoteWidth(escaped)..e]))
  {
    forall a: nat, b: nat, e: nat | AttrMatch(t, p, escaped, a, b, e)
      ensures AttrMatchAt(t, p, escaped) == Some(StyleInfo(t[b..b + QuoteWidth(escaped)], t[b + QuoteWidth(escaped)..e]))
    {
      AttrMatchDetermines(t, p, escaped, a, b, e);
    }
    if AttrMatchAt(t, p, escaped).Some? {
      AttrMatchWitness(t, p, escaped);
    }
  }

  /** The expression matches nowhere in `lo..hi`. */
  predicate NoAttrIn(t: string, lo: nat, hi: nat, escaped: bool) {
    forall p | lo <= p < hi :: AttrMatchAt(t, p, escaped).None?
  }

  /** The expression matches nowhere at or after `lo`. */
  ghost predicate NoAttrFrom(t: string, lo: nat, escaped: bool) {
    forall p | lo <= p :: AttrMatchAt(t, p, escaped).None?
  }

  /** Too close to the end for `style` to fit. */
  lemma NoAttrNearEnd(t: string, from: nat, escaped: bool)
    requires from + 5 > |t|
    ensures NoAttrFrom(t, from, escaped)
  {
    forall p | from <= p ensures AttrMatchAt(t, p, escaped).None? {
      assert !OccursAt(t, "style", p);
    }
  }

  /** Skipping a position where the expression does not match. */
  lemma NoAttrStep(t: string, from: nat, r: Option<nat>, escaped: bool)
    requires AttrMatchAt(t, from, escaped).None?
    requires r.Some? ==> from + 1 <= r.value && NoAttrIn(t, from + 1, r.value, escaped)
    requires r.None? ==> NoAttrFrom(t, from + 1, escaped)
    ensures r.Some? ==> NoAttrIn(t, from, r.value, escaped)
    ensures r.None? ==> NoAttrFrom(t, from, escaped)
  {
  }

  /** The leftmost position at or after `from` where the expression matches. */
  function FirstAttr(t: string, from: nat, escaped: bool): (r: Option<nat>)
    decreases |t| - from
    ensures r.Some? ==> from <= r.value && AttrMatchAt(t, r.value, escaped).Some?
    ensures r.Some? ==> NoAttrIn(t, from, r.value, escaped)
    ensures r.None? ==> NoAttrFrom(t, from, escaped)
  {
    if from + 5 > |t| then
      NoAttrNearEnd(t, from, escaped);
      None
    else if AttrMatchAt(t, from, escaped).Some? then Some(from)
    else
      var r := FirstAttr(t, from + 1, escaped);
      NoAttrStep(t, from, r, escaped);
      r
  }

  /** The quote forms the two expressions accept. */
  lemma QuoteTokenIsQuote(q: string, escaped: bool)
    requires IsQuoteToken(q, escaped)
    ensures q in QUOTES
    ensures !escaped ==> q in {"\"", "'"}
  {
    if escaped {
      assert q == [q[0], q[1]];
    } else {
      assert q == [q[0]];
    }
  }

  /**
   * The match `match` returns: the form `escaped` matches at `p` and nowhere
   * before it, and the escaped form is used only where the plain one matches
   * nowhere.
   */
  ghost predicate ChosenAttr(t: string, p: nat, escaped: bool) {
    && AttrMatchAt(t, p, escaped).Some?
    && (forall q: nat | q < p :: AttrMatchAt(t, q, escaped).None?)
    && (escaped ==> forall q: nat :: AttrMatchAt(t, q, false).None?)
  }

  /** At most one position and form are chosen. */
  lemma ChosenAttrOnly(t: string, p: nat, escaped: bool)
    requires ChosenAttr(t, p, escaped)
    ensures forall p': nat, escaped': bool | ChosenAttr(t, p', escaped') :: p' == p && escaped' == escaped
  {
    forall p': nat, escaped': bool | ChosenAttr(t, p', escaped') ensures p' == p && escaped' == escaped {
    }
  }

  /**
   * Where the attribute is taken from: the leftmost plain-quoted match if
   * there is one, otherwise the leftmost escaped-quoted match.
   */
  function Locate(t: string): (r: Option<(nat, bool)>)
    ensures r.Some? ==> ChosenAttr(t, r.value.0, r.value.1)
    ensures r.None? <==> forall p: nat :: AttrMatchAt(t, p, false).None? && AttrMatchAt(t, p, true).None?
  {
    match FirstAttr(t, 0, false)
    case Some(p) => Some((p, false))
    case None =>
      match FirstAttr(t, 0, true)
      case Some(p) => Some((p, true))
      case None => None
  }

  /**
   * `parseStyleAttribute`: the quote is one of the four accepted forms and
   * does not occur in the styles; a plain quote wins over an escaped one
   * wherever they stand; `null` exactly when neither form occurs; otherwise
   * the result is the match at the chosen position.
   */
  function ParseStyleAttribute(t: string): (r: Option<StyleInfo>)
    ensures r.Some? ==> r.value.quote in QUOTES && !Contains(r.value.styles, r.value.quote)
    ensures r.None? <==> forall p: nat :: AttrMatchAt(t, p, false).None? && AttrMatchAt(t, p, true).None?
    ensures (exists p: nat :: AttrMatchAt(t, p, false).Some?) ==> r.Some? && r.value.quote in {"\"", "'"}
    ensures r.Some? <==> exists p: nat, escaped: bool :: ChosenAttr(t, p, escaped)
    ensures forall p: nat, escaped: bool | ChosenAttr(t, p, escaped) :: r == AttrMatchAt(t, p, escaped)
  {
    match Locate(t)
    case Some((p, escaped)) =>
      ChosenAttrOnly(t, p, escaped);
      QuoteTokenIsQuote(AttrMatchAt(t, p, escaped).value.quote, escaped);
      AttrMatchAt(t, p, escaped)
    case None => None
  }
}
