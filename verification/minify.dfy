/**
 * `minifyCss`: expand the JSP root placeholders, minify the declarations
 * wrapped in a throw-away `.temp{...}` rule, and unwrap the result again.
 */
module Minify {
  import opened Strings

  const ROOT_TIGHT := "<%=root%>"
  const ROOT_SPACED := "<%=root %>"
  const PARENT := ".."
  const WRAP_OPEN := ".temp{"
  const WRAP_CLOSE := "}"

  /** Both spellings of the root placeholder are replaced by `..`, in that order; none is left afterwards. */
  function ExpandRoot(css: string): (r: string)
    ensures !Contains(r, ROOT_TIGHT) && !Contains(r, ROOT_SPACED)
  {
    var a := ReplaceAll(css, ROOT_TIGHT, PARENT);
    ReplaceAllRemovesPattern(css, ROOT_TIGHT, PARENT);
    var r := ReplaceAll(a, ROOT_SPACED, PARENT);
    ReplaceAllKeepsAbsent(a, ROOT_SPACED, PARENT, ROOT_TIGHT);
    ReplaceAllRemovesPattern(a, ROOT_SPACED, PARENT);
    r
  }

  /** Text without a placeholder passes through the expansion unchanged. */
  lemma ExpandRootIdentity(css: string)
    requires !Contains(css, ROOT_TIGHT) && !Contains(css, ROOT_SPACED)
    ensures ExpandRoot(css) == css
  {
    ReplaceAllAbsent(css, ROOT_TIGHT, PARENT);
    ReplaceAllAbsent(css, ROOT_SPACED, PARENT);
  }

  /** `c` stands in `pat` at most at its first position. */
  predicate OnlyFirst(pat: string, c: char) {
    forall j | 0 < j < |pat| :: pat[j] != c
  }

  /** No occurrence of `pat` starts in `a` when `a` lacks `pat` and what follows begins with a character `pat` holds at most first. */
  lemma NoneStartsIn(a: string, x: string, pat: string)
    requires pat != [] && !Contains(a, pat)
    requires x != [] && OnlyFirst(pat, x[0])
    ensures forall k | 0 <= k < |a| :: !OccursAt(a + x, pat, k)
  {
    var s := a + x;
    forall k | 0 <= k < |a| ensures !OccursAt(s, pat, k) {
      if k + |pat| <= |a| {
        assert !OccursAt(a, pat, k);
        assert s[k..k + |pat|] == a[k..k + |pat|];
      } else if k + |pat| <= |s| {
        assert s[k..k + |pat|][|a| - k] == x[0];
      }
    }
  }

  /** One pass at a placeholder: the text before it is kept, the placeholder becomes `..`, and the pass goes on after it. */
  lemma PassAtPlaceholder(a: string, b: string, pat: string)
    requires pat == ROOT_TIGHT || pat == ROOT_SPACED
    requires !Contains(a, pat)
    ensures ReplaceAll(a + pat + b, pat, PARENT) == a + PARENT + ReplaceAll(b, pat, PARENT)
  {
    var x := pat + b;
    assert x[0] == '<' && OnlyFirst(pat, '<');
    NoneStartsIn(a, x, pat);
    assert a + pat + b == a + x;
    ReplaceAllKeepsFront(a, x, pat, PARENT);
    assert x[..|pat|] == pat && x[|pat|..] == b;
  }

  /** One pass over text `m` that holds no occurrence of the pattern, not even one running on into what follows. */
  lemma PassOver(a: string, m: string, b: string, pat: string)
    requires pat != [] && !Contains(a, pat)
    requires m != [] && OnlyFirst(pat, m[0])
    requires forall k | 0 <= k < |m| :: !OccursAt(m + b, pat, k)
    ensures ReplaceAll(a + m + b, pat, PARENT) == a + m + ReplaceAll(b, pat, PARENT)
  {
    NoneStartsIn(a, m + b, pat);
    assert a + m + b == a + (m + b);
    ReplaceAllKeepsFront(a, m + b, pat, PARENT);
    ReplaceAllKeepsFront(m, b, pat, PARENT);
  }

  /** The spaced placeholder holds no start of the tight one. */
  lemma SpacedHoldsNoTight(b: string)
    ensures forall k | 0 <= k < |ROOT_SPACED| :: !OccursAt(ROOT_SPACED + b, ROOT_TIGHT, k)
  {
    var s := ROOT_SPACED + b;
    forall k | 0 <= k < |ROOT_SPACED| ensures !OccursAt(s, ROOT_TIGHT, k) {
      if k + |ROOT_TIGHT| <= |s| {
        if k == 0 {
          assert s[k..k + |ROOT_TIGHT|][7] == ' ';
        } else {
          assert s[k..k + |ROOT_TIGHT|][0] == ROOT_SPACED[k];
        }
      }
    }
  }

  /** `..` holds no start of the spaced placeholder. */
  lemma DotsHoldNoSpaced(b: string)
    ensures forall k | 0 <= k < |PARENT| :: !OccursAt(PARENT + b, ROOT_SPACED, k)
  {
    var s := PARENT + b;
    forall k | 0 <= k < |PARENT| ensures !OccursAt(s, ROOT_SPACED, k) {
      if k + |ROOT_SPACED| <= |s| {
        assert s[k..k + |ROOT_SPACED|][0] == '.';
      }
    }
  }

  /**
   * The expansion read left to right: text before the first placeholder is
   * kept, that placeholder (either spelling) becomes `..`, and the rest is
   * expanded the same way.
   */
  lemma ExpandRootSplice(a: string, p: string, b: string)
    requires p == ROOT_TIGHT || p == ROOT_SPACED
    requires !Contains(a, ROOT_TIGHT) && !Contains(a, ROOT_SPACED)
    ensures ExpandRoot(a + p + b) == a + PARENT + ExpandRoot(b)
  {
    var b1 := ReplaceAll(b, ROOT_TIGHT, PARENT);
    if p == ROOT_TIGHT {
      PassAtPlaceholder(a, b, ROOT_TIGHT);
      DotsHoldNoSpaced(b1);
      PassOver(a, PARENT, b1, ROOT_SPACED);
    } else {
      SpacedHoldsNoTight(b);
      PassOver(a, ROOT_SPACED, b, ROOT_TIGHT);
      PassAtPlaceholder(a, b1, ROOT_SPACED);
    }
  }

  function Wrap(css: string): string {
    WRAP_OPEN + css + WRAP_CLOSE
  }

  /**
   * `.replace(/^\.temp{/, '').replace(/}$/, '')`: a leading `.temp{` and then a
   * trailing `}` are removed where present; the result is what lies between.
   */
  function Unwrap(s: string): (r: string)
    ensures IsPrefix(WRAP_OPEN, s) && IsSuffix(WRAP_CLOSE, s[|WRAP_OPEN|..]) ==> r == s[|WRAP_OPEN|..|s| - 1]
    ensures !IsPrefix(WRAP_OPEN, s) && !IsSuffix(WRAP_CLOSE, s) ==> r == s
    ensures IsPrefix(WRAP_OPEN, s) && !IsSuffix(WRAP_CLOSE, s[|WRAP_OPEN|..]) ==> r == s[|WRAP_OPEN|..]
    ensures !IsPrefix(WRAP_OPEN, s) && IsSuffix(WRAP_CLOSE, s) ==> r == s[..|s| - 1]
    ensures |s| - |WRAP_OPEN| - |WRAP_CLOSE| <= |r| <= |s|
  {
    var a := if IsPrefix(WRAP_OPEN, s) then s[|WRAP_OPEN|..] else s;
    if IsSuffix(WRAP_CLOSE, a) then a[..|a| - 1] else a
  }

  /** Unwrapping undoes the wrapping. */
  lemma UnwrapInvertsWrap(css: string)
    ensures Unwrap(Wrap(css)) == css
  {
    var w := Wrap(css);
    assert w[..|WRAP_OPEN|] == WRAP_OPEN;
    assert w[|WRAP_OPEN|..] == css + WRAP_CLOSE;
  }

  /** `minifyCss` with the minifier `clean` (`new CleanCSS(options).minify(...).styles`) as a parameter. */
  function MinifyCss(clean: string -> string, css: string): string {
    Unwrap(clean(Wrap(ExpandRoot(css))))
  }

  /**
   * When the minifier leaves the text alone, minification is just the
   * placeholder expansion: the wrapping adds nothing and loses nothing.
   */
  lemma MinifyWithoutMinifier(clean: string -> string, css: string)
    requires forall s :: clean(s) == s
    ensures MinifyCss(clean, css) == ExpandRoot(css)
    ensures !Contains(MinifyCss(clean, css), ROOT_TIGHT) && !Contains(MinifyCss(clean, css), ROOT_SPACED)
  {
    UnwrapInvertsWrap(ExpandRoot(css));
  }
}
