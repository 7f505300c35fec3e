/**
 * The `display: none` handling of the converter: the test
 * `/display\s*:\s*none/` (the optional trailing parts of the converter's
 * patterns never change the test's outcome), the removal of
 * `display\s*:\s*none\s*;?\s*` with the global flag, and the removal of a final semicolon
 * `/;\s*$/`.
 */
module Display {
  import opened Wrappers
  import opened Strings

  const DISPLAY := "display"
  const NONE := "none"

  /**
   * The core expression read declaratively: `display` at `i`, white space up
   * to `a`, `:` at `a`, white space up to `b`, and `none` at `b`.
   */
  predicate CoreAt(s: string, i: nat, a: nat, b: nat) {
    && OccursAt(s, DISPLAY, i)
    && OccursAt(s, NONE, b)
    && i + |DISPLAY| <= a < b
    && (forall k | i + |DISPLAY| <= k < a :: IsSpace(s[k]))
    && s[a] == ':'
    && (forall k | a + 1 <= k < b :: IsSpace(s[k]))
  }

  /** Where the core `display\s*:\s*none` matched at `i` ends, if it matches there. */
  function CoreEnd(s: string, i: nat): (r: Option<nat>)
    ensures r.Some? ==> i + |DISPLAY| + 1 + |NONE| <= r.value <= |s| && OccursAt(s, DISPLAY, i) && OccursAt(s, NONE, r.value - |NONE|)
  {
    if !OccursAt(s, DISPLAY, i) then None
    else
      var a := SkipSpaces(s, i + |DISPLAY|);
      if a < |s| && s[a] == ':' then
        var b := SkipSpaces(s, a + 1);
        if OccursAt(s, NONE, b) then Some(b + |NONE|) else None
      else None
  }

  /** Neither `:` nor `n` is white space, so the two runs of white space can end in one place only. */
  lemma CoreAtUnique(s: string, i: nat, a: nat, b: nat)
    requires CoreAt(s, i, a, b)
    ensures a == SkipSpaces(s, i + |DISPLAY|) && b == SkipSpaces(s, a + 1)
  {
    SkipSpacesTo(s, i + |DISPLAY|, a);
    assert s[b] == s[b..b + |NONE|][0];
    SkipSpacesTo(s, a + 1, b);
  }

  /**
   * The scanner agrees with the core expression read declaratively: it
   * finds a match at `i` exactly when the expression matches there, and the
   * match ends after `none`.
   */
  lemma CoreEndExactly(s: string, i: nat)
    ensures CoreEnd(s, i).Some? <==> exists a: nat, b: nat :: CoreAt(s, i, a, b)
    ensures forall a: nat, b: nat | CoreAt(s, i, a, b) :: CoreEnd(s, i) == Some(b + |NONE|)
  {
    forall a: nat, b: nat | CoreAt(s, i, a, b) ensures CoreEnd(s, i) == Some(b + |NONE|) {
      CoreAtUnique(s, i, a, b);
    }
    if CoreEnd(s, i).Some? {
      var a := SkipSpaces(s, i + |DISPLAY|);
      var b := SkipSpaces(s, a + 1);
      assert CoreAt(s, i, a, b);
    }
  }

  /** The test of `display\s*:\s*none\s*;?\s*`, and likewise without the optional tail: the core matches somewhere. */
  predicate HasDisplayNone(s: string) {
    exists i: nat | i <= |s| :: CoreEnd(s, i).Some?
  }

  /**
   * Where the whole removal pattern matched at `i` ends: greedy white space,
   * a semicolon if one follows, greedy white space again.
   */
  function MatchEnd(s: string, i: nat): (r: Option<nat>)
    ensures r.Some? <==> CoreEnd(s, i).Some?
    ensures r.Some? ==> CoreEnd(s, i).value <= r.value <= |s|
    ensures r.Some? ==> forall k | CoreEnd(s, i).value <= k < r.value :: IsSpace(s[k]) || s[k] == ';'
    ensures r.Some? ==> r.value == |s| || !IsSpace(s[r.value])
    ensures r.Some? ==> forall k, k' | CoreEnd(s, i).value <= k < k' < r.value :: !(s[k] == ';' && s[k'] == ';')
    ensures r.Some? ==> forall a | CoreEnd(s, i).value <= a < |s| && s[a] == ';' && (forall k | CoreEnd(s, i).value <= k < a :: IsSpace(s[k])) :: a < r.value
  {
    match CoreEnd(s, i)
    case None => None
    case Some(e) =>
      var a := SkipSpaces(s, e);
      if a < |s| && s[a] == ';' then Some(SkipSpaces(s, a + 1)) else Some(a)
  }

  /** One semicolon is taken and the second left: in `display:none ;;` the match ends before the last character. */
  lemma MatchEndOneSemicolon()
    ensures MatchEnd("display:none ;;", 0) == Some(14)
  {
    var s := "display:none ;;";
    assert OccursAt(s, DISPLAY, 0);
    SkipSpacesTo(s, 7, 7);
    SkipSpacesTo(s, 8, 8);
    assert OccursAt(s, NONE, 8);
    SkipSpacesTo(s, 12, 13);
    SkipSpacesTo(s, 14, 14);
  }

  /** The core pattern matches at no position from `from` on. */
  predicate NoCoreFrom(s: string, from: nat) {
    forall i: nat | from <= i <= |s| :: CoreEnd(s, i).None?
  }

  lemma NoCoreAtEnd(s: string)
    ensures NoCoreFrom(s, |s|)
  {
    assert !OccursAt(s, DISPLAY, |s|);
  }

  /** A match at `from` is removed up to `e`: the result is shorter than the text from `from`. */
  lemma RemoveStepMatch(s: string, from: nat, e: nat, r: string)
    requires from < e <= |s| && CoreEnd(s, from).Some?
    requires |r| <= |s| - e
    ensures |r| <= |s| - from
    ensures r == s[from..] <==> NoCoreFrom(s, from)
  {
    assert |r| < |s[from..]|;
  }

  /** No match at `from`: its character is kept in front of the rest. */
  lemma RemoveStepKeep(s: string, from: nat, rest: string)
    requires from < |s| && CoreEnd(s, from).None?
    requires |rest| <= |s| - (from + 1)
    requires rest == s[from + 1..] <==> NoCoreFrom(s, from + 1)
    ensures |[s[from]] + rest| <= |s| - from
    ensures [s[from]] + rest == s[from..] <==> NoCoreFrom(s, from)
  {
    SuffixCons(s, from);
    assert [s[from]] + rest == s[from..] <==> rest == s[from + 1..];
    assert NoCoreFrom(s, from) <==> NoCoreFrom(s, from + 1);
  }

  /**
   * The global removal from position `from` on, scanning left to right and
   * resuming after each match: the text shrinks exactly when a match exists.
   */
  function RemoveFrom(s: string, from: nat): (r: string)
    requires from <= |s|
    decreases |s| - from
    ensures |r| <= |s| - from
    ensures r == s[from..] <==> NoCoreFrom(s, from)
  {
    if from == |s| then
      NoCoreAtEnd(s);
      []
    else
      match MatchEnd(s, from)
      case Some(e) =>
        var r := RemoveFrom(s, e);
        RemoveStepMatch(s, from, e, r);
        r
      case None =>
        var rest := RemoveFrom(s, from + 1);
        RemoveStepKeep(s, from, rest);
        [s[from]] + rest
  }

  /** At a match the scan drops it and resumes where it ends. */
  lemma RemoveFromMatch(s: string, i: nat)
    requires i <= |s| && CoreEnd(s, i).Some?
    ensures MatchEnd(s, i).Some? && i < MatchEnd(s, i).value <= |s|
    ensures RemoveFrom(s, i) == RemoveFrom(s, MatchEnd(s, i).value)
  {
  }

  /** Where nothing matches the scan keeps the character and moves on. */
  lemma RemoveFromSkip(s: string, from: nat)
    requires from < |s| && CoreEnd(s, from).None?
    ensures RemoveFrom(s, from) == [s[from]] + RemoveFrom(s, from + 1)
  {
  }

  /**
   * Each match is removed where the scan finds it: the text before the
   * leftmost match at or after `from` is kept, the match is dropped, and the
   * scan resumes where the match ends.
   */
  lemma {:induction false} RemoveFromLeftmost(s: string, from: nat, i: nat)
    requires from <= i <= |s| && CoreEnd(s, i).Some?
    requires forall j | from <= j < i :: CoreEnd(s, j).None?
    decreases i - from
    ensures MatchEnd(s, i).Some? && i < MatchEnd(s, i).value <= |s|
    ensures RemoveFrom(s, from) == s[from..i] + RemoveFrom(s, MatchEnd(s, i).value)
  {
    RemoveFromMatch(s, i);
    if from == i {
      assert s[from..i] == [];
    } else {
      var e := MatchEnd(s, i).value;
      RemoveFromSkip(s, from);
      RemoveFromLeftmost(s, from + 1, i);
      SliceCons(s, from, i);
      ConsAppend(s[from], s[from + 1..i], RemoveFrom(s, e));
    }
  }

  /** Replacing `display\s*:\s*none\s*;?\s*` with the global flag by nothing: the text changes exactly when the test finds `display: none`. */
  function RemoveDisplayNone(s: string): (r: string)
    ensures |r| <= |s|
    ensures r == s <==> !HasDisplayNone(s)
  {
    assert s[0..] == s;
    RemoveFrom(s, 0)
  }

  /**
   * `.replace(/;\s*$/, '')`: a semicolon followed by nothing but white space
   * up to the end is removed together with that white space; otherwise the
   * text is unchanged.
   */
  function DropTrailingSemicolon(s: string): (r: string)
    ensures IsPrefix(r, s)
    ensures r != s <==> exists i | 0 <= i < |s| :: s[i] == ';' && AllSpace(s[i + 1..])
    ensures r != s ==> s[|r|] == ';' && AllSpace(s[|r| + 1..])
  {
    var t := TrimEnd(s);
    if t != [] && t[|t| - 1] == ';' then
      var r := t[..|t| - 1];
      assert s[|r| + 1..] == s[|t|..];
      r
    else
      forall k | |t| <= k < |s| ensures IsSpace(s[k]) {
        assert s[|t|..][k - |t|] == s[k];
      }
      forall i | 0 <= i < |s| && s[i] == ';' ensures !AllSpace(s[i + 1..]) {
        assert i + 1 < |t|;
        assert s[i + 1..][|t| - 1 - (i + 1)] == t[|t| - 1];
      }
      s
  }
}
