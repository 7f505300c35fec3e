/**
 * `generateRandomClassName`: a candidate `cspfix_` followed by eight decimal
 * digits, drawn until no configured file contains it.
 */
module ClassNames {
  import opened Strings
  import opened Workspace

  const PREFIX := "cspfix_"

  /** `Math.floor(Math.random() * 100000000)`: a whole number below 10^8. */
  type Draw = n: nat | n < 100000000

  predicate IsDigit(c: char) {
    '0' <= c <= '9'
  }

  predicate AllDigits(s: string) {
    forall i | 0 <= i < |s| :: IsDigit(s[i])
  }

  function DigitChar(d: nat): (c: char)
    requires d < 10
    ensures IsDigit(c)
  {
    (('0' as int) + d) as char
  }

  function DigitValue(c: char): (d: nat)
    requires IsDigit(c)
    ensures d < 10
  {
    (c as int) - ('0' as int)
  }

  /** The number a string of decimal digits denotes. */
  function Value(s: string): nat
    requires AllDigits(s)
  {
    if s == [] then 0 else Value(s[..|s| - 1]) * 10 + DigitValue(s[|s| - 1])
  }

  /** `Number.prototype.toString()` for a whole number: its decimal digits without leading zeros. */
  function DecimalString(n: nat): (r: string)
    ensures |r| >= 1 && AllDigits(r)
    ensures r[0] == '0' ==> n == 0
  {
    if n < 10 then [DigitChar(n)] else DecimalString(n / 10) + [DigitChar(n % 10)]
  }

  /** The decimal string denotes the number it was written from. */
  lemma {:induction false} DecimalStringValue(n: nat)
    ensures Value(DecimalString(n)) == n
  {
    var r := DecimalString(n);
    if n >= 10 {
      DecimalStringValue(n / 10);
      assert r[..|r| - 1] == DecimalString(n / 10);
    }
  }

  function Pow10(k: nat): (p: nat)
    ensures p >= 1
  {
    if k == 0 then 1 else 10 * Pow10(k - 1)
  }

  /** A number below 10^k takes at most k digits. */
  lemma {:induction false} DecimalStringLength(n: nat, k: nat)
    requires 1 <= k && n < Pow10(k)
    ensures |DecimalString(n)| <= k
  {
    if n >= 10 {
      assert k >= 2;
      DecimalStringLength(n / 10, k - 1);
    }
  }

  function Zeros(k: nat): (r: string)
    ensures |r| == k && AllDigits(r)
    ensures forall i | 0 <= i < k :: r[i] == '0'
  {
    seq(k, _ => '0')
  }

  /** `String.prototype.padStart(width, '0')`. */
  function PadStart(s: string, width: nat): (r: string)
    ensures |s| >= width ==> r == s
    ensures |s| < width ==> |r| == width && IsSuffix(s, r) && forall i | 0 <= i < width - |s| :: r[i] == '0'
  {
    if |s| >= width then s else Zeros(width - |s|) + s
  }

  /** Leading zeros do not change the value. */
  lemma {:induction false} LeadingZerosValue(k: nat, s: string)
    requires AllDigits(s)
    ensures AllDigits(Zeros(k) + s) && Value(Zeros(k) + s) == Value(s)
    decreases |s|
  {
    var z := Zeros(k) + s;
    if s == [] {
      assert z == Zeros(k);
      ZerosValue(k);
    } else {
      assert z[..|z| - 1] == Zeros(k) + s[..|s| - 1];
      LeadingZerosValue(k, s[..|s| - 1]);
    }
  }

  lemma {:induction false} ZerosValue(k: nat)
    ensures Value(Zeros(k)) == 0
  {
    if k > 0 {
      assert Zeros(k)[..k - 1] == Zeros(k - 1);
      ZerosValue(k - 1);
    }
  }

  /** The eight digits of a draw: exactly eight decimal digits that denote the draw. */
  function Digits8(n: Draw): (r: string)
    ensures |r| == 8 && AllDigits(r) && Value(r) == n
  {
    var d := DecimalString(n);
    DecimalStringLength(n, 8);
    DecimalStringValue(n);
    var r := PadStart(d, 8);
    assert AllDigits(r) && Value(r) == n by {
      if |d| < 8 {
        LeadingZerosValue(8 - |d|, d);
      }
    }
    r
  }

  /** The candidate name of a draw: `cspfix_` and eight digits, so no `.`, `:` or space. */
  function CandidateName(n: Draw): (r: string)
    ensures |r| == |PREFIX| + 8 && IsPrefix(PREFIX, r)
    ensures ':' !in r && ' ' !in r && '.' !in r
  {
    var d := Digits8(n);
    var r := PREFIX + d;
    forall i | |PREFIX| <= i < |r| ensures r[i] != ':' && r[i] != ' ' && r[i] != '.' {
      assert r[i] == d[i - |PREFIX|];
    }
    r
  }

  /** The draw can be read back from the digits of its name. */
  lemma CandidateNameRoundTrip(n: Draw)
    ensures AllDigits(CandidateName(n)[|PREFIX|..]) && Value(CandidateName(n)[|PREFIX|..]) == n
  {
    assert CandidateName(n)[|PREFIX|..] == Digits8(n);
  }

  /** Different draws give different names. */
  lemma CandidateNameInjective(a: Draw, b: Draw)
    requires CandidateName(a) == CandidateName(b)
    ensures a == b
  {
    CandidateNameRoundTrip(a);
    CandidateNameRoundTrip(b);
  }

  datatype Check = Unique | Taken | ReadError

  /** Every file can be read and none contains `name`. */
  predicate Free(name: string, files: seq<CssFile>) {
    forall i | 0 <= i < |files| :: files[i].content.Some? && !Contains(files[i].content.value, name)
  }

  /**
   * The uniqueness loop over the files for one candidate: the first file that
   * cannot be read throws, the first file containing the name ends the loop.
   */
  function CheckCandidate(name: string, files: seq<CssFile>, from: nat): (r: Check)
    requires from <= |files|
    decreases |files| - from
    ensures r == Unique <==> forall i | from <= i < |files| :: files[i].content.Some? && !Contains(files[i].content.value, name)
    ensures r == Taken ==> exists i | from <= i < |files| :: files[i].content.Some? && Contains(files[i].content.value, name) && forall j | from <= j < i :: files[j].content.Some? && !Contains(files[j].content.value, name)
    ensures r == ReadError ==> exists i | from <= i < |files| :: files[i].content.None? && forall j | from <= j < i :: files[j].content.Some? && !Contains(files[j].content.value, name)
  {
    if from == |files| then Unique
    else match files[from].content
      case None => ReadError
      case Some(text) =>
        if Contains(text, name) then Taken else CheckCandidate(name, files, from + 1)
  }

  /** A name and how many draws it took, a read failure, or no draw left. */
  datatype Generation = Generated(name: string, used: nat) | GenReadError | Exhausted

  /** The candidate names of a sequence of draws, in order. */
  function Candidates(draws: seq<Draw>): (names: seq<string>)
    ensures |names| == |draws|
    ensures forall j | 0 <= j < |draws| :: names[j] == CandidateName(draws[j])
  {
    seq(|draws|, j requires 0 <= j < |draws| => CandidateName(draws[j]))
  }

  /**
   * The retry loop of `generateRandomClassName` over the candidates from `k`
   * on: the first name no file contains; a read failure aborts; running out of
   * candidates stands for the unbounded loop going on.
   */
  function FirstFree(names: seq<string>, files: seq<CssFile>, k: nat): (g: Generation)
    requires k <= |names|
    decreases |names| - k
    ensures g.Generated? ==> k < g.used <= |names| && g.name == names[g.used - 1] && Free(g.name, files)
    ensures g.Generated? ==> forall j | k <= j < g.used - 1 :: CheckCandidate(names[j], files, 0) == Taken
    ensures g.Exhausted? ==> forall j | k <= j < |names| :: CheckCandidate(names[j], files, 0) == Taken
    ensures g.GenReadError? ==> exists j | k <= j < |names| :: CheckCandidate(names[j], files, 0) == ReadError
  {
    if k == |names| then Exhausted
    else
      match CheckCandidate(names[k], files, 0)
      case Unique => Generated(names[k], k + 1)
      case ReadError => GenReadError
      case Taken => FirstFree(names, files, k + 1)
  }

  /**
   * `generateRandomClassName` over a finite supply of draws: the name comes
   * from the last draw used, every earlier draw gave a name some file already
   * holds, and no configured file holds the name returned.
   */
  function GenerateName(draws: seq<Draw>, files: seq<CssFile>): (g: Generation)
    ensures g.Generated? ==> 0 < g.used <= |draws| && g.name == CandidateName(draws[g.used - 1]) && Free(g.name, files)
    ensures g.Generated? ==> forall j | 0 <= j < g.used - 1 :: CheckCandidate(CandidateName(draws[j]), files, 0) == Taken
    ensures g.Exhausted? ==> forall j | 0 <= j < |draws| :: CheckCandidate(CandidateName(draws[j]), files, 0) == Taken
    ensures g.GenReadError? ==> exists j | 0 <= j < |draws| :: CheckCandidate(CandidateName(draws[j]), files, 0) == ReadError
  {
    FirstFree(Candidates(draws), files, 0)
  }
}
