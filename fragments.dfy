/** The pattern vocabulary of convert/regexes.go: its string constants, the
    digit-range fragments the synthesiser emits (as a datatype with a
    rendering to pattern text and a membership predicate), and the languages
    of the suffix constants. */
module Fragments {
  import opened Decimal
  import opened Text

  const RegexStart := "^"
  const RegexEnd := "$"
  const RegexOr := "|"
  const VersionDigits := @"\d+"
  const VersionDot := @"\."
  const PreReleasePattern := @"(?:-[a-zA-Z0-9\-\.]+)?"
  const BuildMetaPattern := @"(?:\+[a-zA-Z0-9\-\.]+)?"
  const VersionSuffixPattern := PreReleasePattern + BuildMetaPattern
  const SemanticVersionCore := VersionDigits + VersionDot + VersionDigits + VersionDot + VersionDigits
  const ExactVersionTemplate := RegexStart + SemanticVersionCore + VersionSuffixPattern + RegexEnd
  const WildcardVersionDigits := VersionDigits
  /** Matches nothing; relies on negative look-ahead, which is why it is only
      ever used as a value here. */
  const EmptyMatchPattern := RegexStart + "(?!.*)" + RegexEnd

  /** CARET_RANGE_TEMPLATE with its `%d` filled in. */
  function CaretRangeTemplate(major: nat): string {
    RegexStart + Show(major) + VersionDot + VersionDigits + VersionDot + VersionDigits + VersionSuffixPattern + RegexEnd
  }

  /** CARET_RANGE_ZERO_MAJOR_TEMPLATE with its `%d` filled in. */
  function CaretRangeZeroMajorTemplate(minor: nat): string {
    RegexStart + "0" + VersionDot + Show(minor) + VersionDot + VersionDigits + VersionSuffixPattern + RegexEnd
  }

  /** TILDE_RANGE_TEMPLATE with both `%d` filled in. */
  function TildeRangeTemplate(major: nat, minor: nat): string {
    RegexStart + Show(major) + VersionDot + Show(minor) + VersionDot + VersionDigits + VersionSuffixPattern + RegexEnd
  }

  /** NOT_EQUAL_BASE_PATTERN with its `%s` filled in; the doubled backslashes
      are in the original constant. */
  function NotEqualBasePattern(core: string): string {
    RegexStart + "(?!" + core + RegexEnd + ")" + @"\d+(?:\.\d+)?(?:\.\d+)?"
      + @"(?:-[a-zA-Z0-9\\-\\.]+)?(?:\\+[a-zA-Z0-9\\-\\.]+)?" + RegexEnd
  }

  // ---------------------------------------------------------------------
  // Languages of the suffix constants

  /** The characters of `[a-zA-Z0-9\-\.]`. */
  predicate IsIdentChar(c: char) {
    ('a' <= c <= 'z') || ('A' <= c <= 'Z') || ('0' <= c <= '9') || c == '-' || c == '.'
  }

  /** `(?:<lead>[a-zA-Z0-9\-\.]+)?`: empty, or the lead character and at
      least one identifier character. */
  predicate InOptionalTag(t: string, lead: char) {
    t == [] || (|t| >= 2 && t[0] == lead && forall i | 1 <= i < |t| :: IsIdentChar(t[i]))
  }

  /** Language of PRE_RELEASE_PATTERN. */
  predicate InPreRelease(t: string) { InOptionalTag(t, '-') }

  /** Language of BUILD_META_PATTERN. */
  predicate InBuildMeta(t: string) { InOptionalTag(t, '+') }

  predicate SuffixSplitAt(t: string, k: int) {
    0 <= k <= |t| && InPreRelease(t[..k]) && InBuildMeta(t[k..])
  }

  /** Language of VERSION_SUFFIX_PATTERN, the concatenation of the two. */
  predicate InVersionSuffix(t: string) {
    exists k | 0 <= k <= |t| :: SuffixSplitAt(t, k)
  }

  /** The suffix may be absent, and when present it starts with `-` or `+`;
      `+` never occurs in a pre-release, so the split is at the first `+`. */
  lemma VersionSuffixShape(t: string)
    ensures InVersionSuffix([])
    ensures InVersionSuffix(t) && t != [] ==> t[0] == '-' || t[0] == '+'
    ensures InVersionSuffix(t) <==>
      if '+' in t then InPreRelease(t[..IndexOf(t, '+')]) && InBuildMeta(t[IndexOf(t, '+')..])
      else InPreRelease(t)
  {
    assert SuffixSplitAt([], 0);
    if InVersionSuffix(t) {
      var k :| 0 <= k <= |t| && SuffixSplitAt(t, k);
      SuffixSplitAtFirstPlus(t, k);
    }
    if '+' in t {
      var p := IndexOf(t, '+');
      if InPreRelease(t[..p]) && InBuildMeta(t[p..]) {
        assert SuffixSplitAt(t, p);
      }
    } else if InPreRelease(t) {
      assert t[..|t|] == t && t[|t|..] == [];
      assert SuffixSplitAt(t, |t|);
    }
  }

  /** A split of the suffix is at its first `+`, or at its end when it has none. */
  lemma SuffixSplitAtFirstPlus(t: string, k: int)
    requires SuffixSplitAt(t, k)
    ensures t != [] ==> t[0] == '-' || t[0] == '+'
    ensures if '+' in t then k == IndexOf(t, '+') else k == |t|
  {
    assert forall i | 0 <= i < k :: t[i] == t[..k][i];
  }

  // ---------------------------------------------------------------------
  // Digit-range fragments

  /** One piece of an alternative emitted by NumGreaterOrEqual / NumLessOrEqual. */
  datatype Atom =
    | Lit(text: string)            // the fixed prefix s[:i]
    | Range(lo: Digit, hi: Digit)  // digitRangeUp / digitRangeDown
    | Class(lo: Digit, hi: Digit)  // `[%d-%d]` printed by a format, both ends always written
    | AnyDigit                     // `\d`
    | AnyDigits(count: nat)        // `\d{k}`
    | AtLeast(count: nat)          // `\d{k,}`

  type Alternative = seq<Atom>

  /** A numeric fragment: `\d+`, the match-nothing pattern, or an alternation. */
  datatype Frag = AnyNumber | NoMatch | Alts(alts: seq<Alternative>)

  function RenderAtom(a: Atom): string {
    match a
    case Lit(t) => t
    case Range(lo, hi) => if lo == hi then Show(lo) else "[" + Show(lo) + "-" + Show(hi) + "]"
    case Class(lo, hi) => "[" + Show(lo) + "-" + Show(hi) + "]"
    case AnyDigit => @"\d"
    case AnyDigits(k) => @"\d{" + Show(k) + "}"
    case AtLeast(k) => @"\d{" + Show(k) + ",}"
  }

  function RenderAlternative(a: Alternative): string {
    if a == [] then "" else RenderAtom(a[0]) + RenderAlternative(a[1..])
  }

  function RenderAll(alts: seq<Alternative>): (r: seq<string>)
    ensures |r| == |alts|
    ensures forall i | 0 <= i < |alts| :: r[i] == RenderAlternative(alts[i])
  {
    if alts == [] then [] else [RenderAlternative(alts[0])] + RenderAll(alts[1..])
  }

  /** `joinPatterns`: a lone alternative as it is, several in a non-capturing group. */
  function JoinPatterns(patterns: seq<string>): (r: string)
    ensures |patterns| == 1 ==> r == patterns[0]
    ensures |patterns| != 1 ==> r == "(?:" + Join(patterns, RegexOr) + ")"
  {
    if |patterns| == 1 then patterns[0] else "(?:" + Join(patterns, RegexOr) + ")"
  }

  /** The pattern text of a fragment, as the Go functions return it. */
  function Render(f: Frag): string {
    match f
    case AnyNumber => VersionDigits
    case NoMatch => EmptyMatchPattern
    case Alts(alts) => JoinPatterns(RenderAll(alts))
  }

  /** Does the alternative match all of x? */
  predicate MatchAlt(a: Alternative, x: string)
    decreases |a|
  {
    if a == [] then x == []
    else match a[0]
      case Lit(t) => t <= x && MatchAlt(a[1..], x[|t|..])
      case Range(lo, hi) => |x| > 0 && IsDigit(x[0]) && lo <= DigitValue(x[0]) <= hi && MatchAlt(a[1..], x[1..])
      case Class(lo, hi) => |x| > 0 && IsDigit(x[0]) && lo <= DigitValue(x[0]) <= hi && MatchAlt(a[1..], x[1..])
      case AnyDigit => |x| > 0 && IsDigit(x[0]) && MatchAlt(a[1..], x[1..])
      case AnyDigits(k) => |x| >= k && AllDigits(x[..k]) && MatchAlt(a[1..], x[k..])
      case AtLeast(k) => exists j | k <= j <= |x| :: AllDigits(x[..j]) && MatchAlt(a[1..], x[j..])
  }

  /** Does the anchored fragment `^f$` match x? */
  predicate Matches(f: Frag, x: string) {
    match f
    case AnyNumber => |x| > 0 && AllDigits(x)
    case NoMatch => false
    case Alts(alts) => exists a | a in alts :: MatchAlt(a, x)
  }

  /** Every literal in the alternative is a digit string. */
  predicate DigitLiterals(a: Alternative) {
    forall i | 0 <= i < |a| :: a[i].Lit? ==> AllDigits(a[i].text)
  }

  predicate DigitFrag(f: Frag) {
    f.Alts? ==> forall a | a in f.alts :: DigitLiterals(a)
  }

  lemma {:induction false} MatchAltDigits(a: Alternative, x: string)
    requires DigitLiterals(a) && MatchAlt(a, x)
    ensures AllDigits(x)
    decreases |a|
  {
    if a != [] {
      assert DigitLiterals(a[1..]) by {
        forall i | 0 <= i < |a[1..]| ensures a[1..][i].Lit? ==> AllDigits(a[1..][i].text) {
          assert a[1..][i] == a[i + 1];
        }
      }
      var n: nat;
      match a[0] {
        case Lit(t) =>
          n := |t|;
          assert x[..n] == t;
        case Range(lo, hi) =>
          n := 1;
        case Class(lo, hi) =>
          n := 1;
        case AnyDigit =>
          n := 1;
        case AnyDigits(k) =>
          n := k;
        case AtLeast(k) =>
          n :| k <= n <= |x| && AllDigits(x[..n]) && MatchAlt(a[1..], x[n..]);
      }
      MatchAltDigits(a[1..], x[n..]);
      DigitsSplit(x, n);
    }
  }

  /** A text whose two halves are digit strings is one. */
  lemma DigitsSplit(x: string, n: nat)
    requires n <= |x| && AllDigits(x[..n]) && AllDigits(x[n..])
    ensures AllDigits(x)
  {
    forall i | 0 <= i < |x| ensures IsDigit(x[i]) {
      if i < n {
        assert x[i] == x[..n][i];
      } else {
        assert x[i] == x[n..][i - n];
      }
    }
  }

  /** A fragment built from digit literals matches only digit strings. */
  lemma MatchesDigits(f: Frag, x: string)
    requires DigitFrag(f) && Matches(f, x)
    ensures AllDigits(x)
  {
    if f.Alts? {
      var a :| a in f.alts && MatchAlt(a, x);
      MatchAltDigits(a, x);
    }
  }

  /** `%d` of n as a fragment: the one-alternative alternation of its numeral. */
  function Exactly(n: nat): (f: Frag)
    ensures Render(f) == Show(n)
    ensures DigitFrag(f)
  {
    ShowCanonical(n);
    assert RenderAll([[Lit(Show(n))]]) == [Show(n)] by {
      var a := [Lit(Show(n))];
      assert a[0] == Lit(Show(n)) && a[1..] == [];
      assert RenderAlternative(a[1..]) == "";
      assert RenderAlternative(a) == RenderAtom(a[0]) + RenderAlternative(a[1..]);
      assert RenderAll([a])[0] == Show(n);
    }
    Alts([[Lit(Show(n))]])
  }

  /** A canonical numeral matches `%d` of n exactly when it denotes n. */
  lemma ExactlyMatches(n: nat, x: string)
    requires Canonical(x)
    ensures Matches(Exactly(n), x) <==> Value(x) == n
  {
    var a := [Lit(Show(n))];
    assert Matches(Exactly(n), x) <==> MatchAlt(a, x);
    assert MatchAlt(a, x) <==> x == Show(n) by {
      if Show(n) <= x { assert MatchAlt(a[1..], x[|Show(n)|..]) <==> x == Show(n); }
    }
    ShowCanonical(n);
    ShowValue(x);
  }

  /** `\d+` matches every numeral. */
  lemma AnyNumberMatches(x: string)
    requires Canonical(x)
    ensures Matches(AnyNumber, x)
  {
  }

  // ---------------------------------------------------------------------
  // digitRangeUp / digitRangeDown

  /** `digitRangeUp`: the class of the digits d..9. */
  function DigitRangeUp(d: Digit): Atom {
    Range(d, 9)
  }

  /** `digitRangeDown`: the class of the digits 0..d. */
  function DigitRangeDown(d: Digit): Atom {
    Range(0, d)
  }

  /** DigitRangeUp(d) matches exactly the digits d..9; `9` alone renders as the digit. */
  lemma DigitRangeUpMeaning(d: Digit)
    ensures forall c :: MatchAlt([DigitRangeUp(d)], [c]) <==> IsDigit(c) && d <= DigitValue(c)
    ensures RenderAtom(DigitRangeUp(d)) == if d == 9 then "9" else "[" + [DigitChar(d)] + "-9]"
  {
    assert forall c: char :: [c][1..] == [];
  }

  /** DigitRangeDown(d) matches exactly the digits 0..d; `0` alone renders as the digit. */
  lemma DigitRangeDownMeaning(d: Digit)
    ensures forall c :: MatchAlt([DigitRangeDown(d)], [c]) <==> IsDigit(c) && DigitValue(c) <= d
    ensures RenderAtom(DigitRangeDown(d)) == if d == 0 then "0" else "[0-" + [DigitChar(d)] + "]"
  {
    assert forall c: char :: [c][1..] == [];
  }

  // ---------------------------------------------------------------------
  // Only non-capturing groups

  /** Every `(` opens a non-capturing group `(?:`. */
  predicate NonCapturing(s: string) {
    forall i | 0 <= i < |s| && s[i] == '(' :: i + 2 < |s| && s[i + 1] == '?' && s[i + 2] == ':'
  }

  lemma ShowNoParen(n: nat)
    ensures '(' !in Show(n)
  {
    ShowCanonical(n);
  }

  lemma {:induction false} RenderAlternativeNoParen(a: Alternative)
    requires DigitLiterals(a)
    ensures '(' !in RenderAlternative(a)
    decreases |a|
  {
    if a != [] {
      assert DigitLiterals(a[1..]) by {
        forall i | 0 <= i < |a[1..]| ensures a[1..][i].Lit? ==> AllDigits(a[1..][i].text) {
          assert a[1..][i] == a[i + 1];
        }
      }
      RenderAlternativeNoParen(a[1..]);
      match a[0]
      case Lit(t) =>
      case Range(lo, hi) => ShowNoParen(lo); ShowNoParen(hi);
      case Class(lo, hi) => ShowNoParen(lo); ShowNoParen(hi);
      case AnyDigit =>
      case AnyDigits(k) => ShowNoParen(k);
      case AtLeast(k) => ShowNoParen(k);
    }
  }

  lemma {:induction false} JoinNoParen(ps: seq<string>)
    requires forall i | 0 <= i < |ps| :: '(' !in ps[i]
    ensures '(' !in Join(ps, RegexOr)
  {
    if |ps| > 1 {
      JoinNoParen(ps[1..]);
    }
  }

  /** Rendering an alternation of digit alternatives produces no capturing group. */
  lemma RenderNonCapturing(f: Frag)
    requires f.Alts? && DigitFrag(f)
    ensures NonCapturing(Render(f))
  {
    var ps := RenderAll(f.alts);
    forall i | 0 <= i < |ps| ensures '(' !in ps[i] {
      assert f.alts[i] in f.alts;
      RenderAlternativeNoParen(f.alts[i]);
    }
    JoinNoParen(ps);
    if |ps| != 1 {
      var body := Join(ps, RegexOr);
      var r := "(?:" + body + ")";
      forall i | 0 <= i < |r| && r[i] == '(' ensures i + 2 < |r| && r[i + 1] == '?' && r[i + 2] == ':' {
      }
    }
  }
}
