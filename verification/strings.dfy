/** Character classes and string operations with the meaning ECMAScript gives them. */
module Strings {

  /** Line terminators: the regular-expression `.` never matches one. */
  predicate IsLineBreak(c: char) {
    c == '\n' || c == '\r' || c == '\U{2028}' || c == '\U{2029}'
  }

  /** White space as both the regular-expression class `\s` and `String.prototype.trim` see it. */
  predicate IsSpace(c: char) {
    || IsLineBreak(c)
    || c == '\t' || c == '\U{000B}' || c == '\U{000C}' || c == ' '
    || c == '\U{00A0}' || c == '\U{FEFF}' || c == '\U{1680}'
    || ('\U{2000}' <= c <= '\U{200A}')
    || c == '\U{202F}' || c == '\U{205F}' || c == '\U{3000}'
  }

  predicate AllSpace(s: string) {
    forall i | 0 <= i < |s| :: IsSpace(s[i])
  }

  /** No line terminator among the characters of `s` at positions `lo..hi`. */
  predicate NoBreakIn(s: string, lo: int, hi: int) {
    forall i | lo <= i < hi && 0 <= i < |s| :: !IsLineBreak(s[i])
  }

  predicate IsPrefix(p: string, s: string) {
    |p| <= |s| && s[..|p|] == p
  }

  predicate IsSuffix(x: string, s: string) {
    |x| <= |s| && s[|s| - |x|..] == x
  }

  /** `sub` occurs in `s` starting at position `i`. */
  predicate OccursAt(s: string, sub: string, i: nat) {
    i + |sub| <= |s| && s[i..i + |sub|] == sub
  }

  /** `String.prototype.includes`. */
  predicate Contains(s: string, sub: string) {
    exists i: nat | i <= |s| :: OccursAt(s, sub, i)
  }

  /** A slice of a slice is a slice. */
  lemma SliceOfSlice(t: string, i: nat, e: nat, k: nat, n: nat)
    requires i <= e <= |t| && k + n <= e - i
    ensures t[i..e][k..k + n] == t[i + k..i + k + n]
  {
    var a, b := t[i..e][k..k + n], t[i + k..i + k + n];
    forall m | 0 <= m < n ensures a[m] == b[m] {
      assert a[m] == t[i..e][k + m];
    }
  }

  /** A non-empty suffix is its first character followed by the rest. */
  lemma SuffixCons(s: string, i: nat)
    requires i < |s|
    ensures s[i..] == [s[i]] + s[i + 1..]
  {
  }

  /** A non-empty slice is its first character followed by the rest. */
  lemma SliceCons(s: string, i: nat, j: nat)
    requires i < j <= |s|
    ensures s[i..j] == [s[i]] + s[i + 1..j]
  {
  }

  lemma ConsAppend(c: char, a: string, b: string)
    ensures [c] + (a + b) == ([c] + a) + b
  {
  }

  /** Adjacent slices join into one. */
  lemma SliceSplit(s: string, i: nat, j: nat, k: nat)
    requires i <= j <= k <= |s|
    ensures s[i..k] == s[i..j] + s[j..k]
  {
  }

  /** The number of occurrences of `c` in `s`. */
  function Count(s: string, c: char): nat {
    if s == [] then 0 else (if s[0] == c then 1 else 0) + Count(s[1..], c)
  }

  lemma CountZero(s: string, c: char)
    requires Count(s, c) == 0
    ensures c !in s
  {
  }

  /** `s` with every `c` removed. */
  function Without(s: string, c: char): string {
    if s == [] then [] else (if s[0] == c then [] else [s[0]]) + Without(s[1..], c)
  }

  lemma {:induction false} WithoutAppend(a: string, b: string, c: char)
    ensures Without(a + b, c) == Without(a, c) + Without(b, c)
    decreases |a|
  {
    if a != [] {
      assert (a + b)[1..] == a[1..] + b;
      WithoutAppend(a[1..], b, c);
    } else {
      assert a + b == b;
    }
  }

  /** The first position at or after `i` that is not white space. */
  function SkipSpaces(s: string, i: nat): (j: nat)
    requires i <= |s|
    ensures i <= j <= |s|
    ensures forall k | i <= k < j :: IsSpace(s[k])
    ensures j == |s| || !IsSpace(s[j])
    decreases |s| - i
  {
    if i < |s| && IsSpace(s[i]) then SkipSpaces(s, i + 1) else i
  }

  /** The white-space run starting at `i` ends exactly at `j` when everything before `j` is white space and `s[j]` is not. */
  lemma SkipSpacesTo(s: string, i: nat, j: nat)
    requires i <= j <= |s|
    requires forall k | i <= k < j :: IsSpace(s[k])
    requires j == |s| || !IsSpace(s[j])
    ensures SkipSpaces(s, i) == j
  {
  }

  function TrimStart(s: string): (r: string)
    ensures IsSuffix(r, s)
    ensures AllSpace(s[..|s| - |r|])
    ensures r == [] || !IsSpace(r[0])
  {
    if s != [] && IsSpace(s[0]) then
      var r := TrimStart(s[1..]);
      assert s[..|s| - |r|] == [s[0]] + s[1..][..|s| - 1 - |r|];
      r
    else s
  }

  function TrimEnd(s: string): (r: string)
    ensures IsPrefix(r, s)
    ensures AllSpace(s[|r|..])
    ensures r == [] || !IsSpace(r[|r| - 1])
  {
    if s != [] && IsSpace(s[|s| - 1]) then
      var r := TrimEnd(s[..|s| - 1]);
      assert s[|r|..] == s[..|s| - 1][|r|..] + [s[|s| - 1]];
      r
    else s
  }

  /** Neither end of `s` is white space. */
  predicate Trimmed(s: string) {
    s == [] || (!IsSpace(s[0]) && !IsSpace(s[|s| - 1]))
  }

  /** `s` is `lead + r + trail` with `lead` and `trail` white space. */
  predicate SpaceAround(s: string, r: string) {
    exists i: nat | i + |r| <= |s| :: r == s[i..i + |r|] && AllSpace(s[..i]) && AllSpace(s[i + |r|..])
  }

  /** Trimming the start and then the end leaves the middle of `s` between white space. */
  lemma TrimParts(s: string, a: string, r: string)
    requires IsSuffix(a, s) && AllSpace(s[..|s| - |a|]) && (a == [] || !IsSpace(a[0]))
    requires IsPrefix(r, a) && AllSpace(a[|r|..]) && (r == [] || !IsSpace(r[|r| - 1]))
    ensures SpaceAround(s, r) && Trimmed(r)
  {
    var i := |s| - |a|;
    assert r == s[i..i + |r|];
    assert s[i + |r|..] == a[|r|..];
    assert r != [] ==> r[0] == a[0];
  }

  /**
   * `String.prototype.trim`: `s` is `lead + r + trail` with `lead` and `trail`
   * white space, and `r` neither begins nor ends with white space.
   */
  function Trim(s: string): (r: string)
    ensures SpaceAround(s, r)
    ensures Trimmed(r)
  {
    var a := TrimStart(s);
    var r := TrimEnd(a);
    TrimParts(s, a, r);
    r
  }

  /** `Array.prototype.join`. */
  function Join(parts: seq<string>, sep: string): string {
    if parts == [] then []
    else if |parts| == 1 then parts[0]
    else parts[0] + sep + Join(parts[1..], sep)
  }

  /** A joined list starts with its first element. */
  lemma JoinStartsWithFirst(parts: seq<string>, sep: string)
    requires parts != []
    ensures IsPrefix(parts[0], Join(parts, sep))
  {
  }

  /** Concatenation is associative. */
  lemma AppendAssoc<T>(x: seq<T>, y: seq<T>, z: seq<T>)
    ensures x + (y + z) == (x + y) + z
  {
  }

  /** A prefix of a prefix is a prefix. */
  lemma PrefixOfPrefix(a: string, b: string, s: string)
    requires IsPrefix(a + b, s)
    ensures IsPrefix(a, s)
  {
    assert s[..|a|] == (a + b)[..|a|];
  }

  /** `String.prototype.replaceAll` with a string pattern: non-overlapping, left to right. */
  function ReplaceAll(s: string, pat: string, rep: string): string
    requires pat != []
    decreases |s|
  {
    if s == [] then []
    else if IsPrefix(pat, s) then rep + ReplaceAll(s[|pat|..], pat, rep)
    else [s[0]] + ReplaceAll(s[1..], pat, rep)
  }

  /** Text of `s` that contains no character of `rep` survives the replacement only where it stood in `s`. */
  lemma {:induction false} ReplaceAllPrefix(s: string, pat: string, rep: string, w: string)
    requires pat != [] && rep != []
    requires forall k | 0 <= k < |w| :: w[k] !in rep
    ensures IsPrefix(w, ReplaceAll(s, pat, rep)) ==> IsPrefix(w, s)
    decreases |s|
  {
    var r := ReplaceAll(s, pat, rep);
    if w != [] && s != [] && IsPrefix(pat, s) {
      assert r == rep + ReplaceAll(s[|pat|..], pat, rep);
      assert r[0] == rep[0];
      assert rep[0] in rep;
    } else if w != [] && s != [] {
      var tail := ReplaceAll(s[1..], pat, rep);
      assert r == [s[0]] + tail;
      ReplaceAllPrefix(s[1..], pat, rep, w[1..]);
      if |w| <= |r| {
        assert r[..|w|] == [s[0]] + tail[..|w| - 1];
        assert w == [w[0]] + w[1..];
        if |w| <= |s| {
          assert s[..|w|] == [s[0]] + s[1..][..|w| - 1];
        }
      }
    }
  }

  /** When `rep` shares no character with `pat`, no occurrence of `pat` is left. */
  lemma {:induction false} ReplaceAllRemovesPattern(s: string, pat: string, rep: string)
    requires pat != [] && rep != []
    requires forall k | 0 <= k < |pat| :: pat[k] !in rep
    ensures !Contains(ReplaceAll(s, pat, rep), pat)
    decreases |s|
  {
    var r := ReplaceAll(s, pat, rep);
    if s != [] && IsPrefix(pat, s) {
      var tail := ReplaceAll(s[|pat|..], pat, rep);
      assert r == rep + tail;
      ReplaceAllRemovesPattern(s[|pat|..], pat, rep);
      forall i: nat | i <= |r| ensures !OccursAt(r, pat, i) {
        if i < |rep| {
          assert r[i] == rep[i];
        } else if i + |pat| <= |r| {
          assert tail[i - |rep|..i - |rep| + |pat|] == r[i..i + |pat|];
          assert !OccursAt(tail, pat, i - |rep|);
        }
      }
    } else if s != [] {
      var tail := ReplaceAll(s[1..], pat, rep);
      assert r == [s[0]] + tail;
      ReplaceAllRemovesPattern(s[1..], pat, rep);
      forall i: nat | i <= |r| ensures !OccursAt(r, pat, i) {
        if i == 0 {
          ReplaceAllPrefix(s[1..], pat, rep, pat[1..]);
          if |pat| <= |r| {
            assert r[..|pat|] == [s[0]] + tail[..|pat| - 1];
            assert pat == [pat[0]] + pat[1..];
            if |pat| <= |s| {
              assert s[..|pat|] == [s[0]] + s[1..][..|pat| - 1];
            }
          }
        } else if i + |pat| <= |r| {
          assert tail[i - 1..i - 1 + |pat|] == r[i..i + |pat|];
          assert !OccursAt(tail, pat, i - 1);
        }
      }
    }
  }

  /** Occurrences of `q` in a suffix of `s` are occurrences in `s`. */
  lemma NotContainedInSuffix(s: string, q: string, k: nat)
    requires k <= |s|
    requires !Contains(s, q)
    ensures !Contains(s[k..], q)
  {
    forall j: nat | j <= |s[k..]| ensures !OccursAt(s[k..], q, j) {
      if j + |q| <= |s[k..]| {
        assert s[k + j..k + j + |q|] == s[k..][j..j + |q|];
        assert !OccursAt(s, q, k + j);
      }
    }
  }

  /** A string sharing no character with `rep` occurs after the replacement only if it occurred before. */
  lemma {:induction false} ReplaceAllKeepsAbsent(s: string, pat: string, rep: string, q: string)
    requires pat != [] && rep != []
    requires q != []
    requires forall k | 0 <= k < |q| :: q[k] !in rep
    requires !Contains(s, q)
    ensures !Contains(ReplaceAll(s, pat, rep), q)
    decreases |s|
  {
    var r := ReplaceAll(s, pat, rep);
    if s != [] && IsPrefix(pat, s) {
      var tail := ReplaceAll(s[|pat|..], pat, rep);
      assert r == rep + tail;
      NotContainedInSuffix(s, q, |pat|);
      ReplaceAllKeepsAbsent(s[|pat|..], pat, rep, q);
      forall i: nat | i <= |r| ensures !OccursAt(r, q, i) {
        if i < |rep| {
          if i + |q| <= |r| {
            assert r[i] == rep[i];
            assert rep[i] in rep;
            assert r[i..i + |q|][0] == r[i];
          }
        } else if i + |q| <= |r| {
          assert tail[i - |rep|..i - |rep| + |q|] == r[i..i + |q|];
          assert !OccursAt(tail, q, i - |rep|);
        }
      }
    } else if s != [] {
      var tail := ReplaceAll(s[1..], pat, rep);
      assert r == [s[0]] + tail;
      NotContainedInSuffix(s, q, 1);
      ReplaceAllKeepsAbsent(s[1..], pat, rep, q);
      forall i: nat | i <= |r| ensures !OccursAt(r, q, i) {
        if i == 0 {
          ReplaceAllPrefix(s, pat, rep, q);
          assert !OccursAt(s, q, 0);
          if |q| <= |r| && |q| <= |s| {
            assert r[0..|q|] == r[..|q|] && s[0..|q|] == s[..|q|];
          }
        } else if i + |q| <= |r| {
          assert r[1..] == tail;
          assert tail[i - 1..i - 1 + |q|] == r[i..i + |q|];
          assert !OccursAt(tail, q, i - 1);
        }
      }
    }
  }

  /** A front part where no occurrence of the pattern starts is copied unchanged. */
  lemma {:induction false} ReplaceAllKeepsFront(a: string, x: string, pat: string, rep: string)
    requires pat != []
    requires forall k | 0 <= k < |a| :: !OccursAt(a + x, pat, k)
    ensures ReplaceAll(a + x, pat, rep) == a + ReplaceAll(x, pat, rep)
    decreases |a|
  {
    if a != [] {
      var s := a + x;
      assert !OccursAt(s, pat, 0);
      assert !IsPrefix(pat, s) by {
        if |pat| <= |s| {
          assert s[..|pat|] == s[0..|pat|];
        }
      }
      assert s[1..] == a[1..] + x;
      forall k | 0 <= k < |a[1..]| ensures !OccursAt(a[1..] + x, pat, k) {
        assert !OccursAt(s, pat, k + 1);
        if k + |pat| <= |a[1..] + x| {
          assert (a[1..] + x)[k..k + |pat|] == s[k + 1..k + 1 + |pat|];
        }
      }
      assert s != [] && s[0] == a[0];
      assert ReplaceAll(s, pat, rep) == [a[0]] + ReplaceAll(a[1..] + x, pat, rep);
      ReplaceAllKeepsFront(a[1..], x, pat, rep);
      assert a == [a[0]] + a[1..];
      ConsAppend(a[0], a[1..], ReplaceAll(x, pat, rep));
    } else {
      assert a + x == x;
    }
  }

  /** With no occurrence of the pattern, the replacement changes nothing. */
  lemma {:induction false} ReplaceAllAbsent(s: string, pat: string, rep: string)
    requires pat != []
    requires !Contains(s, pat)
    ensures ReplaceAll(s, pat, rep) == s
    decreases |s|
  {
    if s != [] {
      assert !OccursAt(s, pat, 0);
      NotContainedInSuffix(s, pat, 1);
      ReplaceAllAbsent(s[1..], pat, rep);
      assert s == [s[0]] + s[1..];
    }
  }
}
