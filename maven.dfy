/** Maven version ranges, convert/maven.go: the bracket parser, the bound
    splitter and the three major-only patterns. */
module Maven {
  import opened Wrappers
  import opened Decimal
  import opened Text
  import opened Fragments
  import opened Synth
  import opened Versions
  import opened Constraints

  predicate IsOpenBracket(c: char) { c == '[' || c == '(' }

  predicate IsCloseBracket(c: char) { c == ']' || c == ')' }

  /** `parseMavenRange`: at least three characters, an opening bracket and a
      closing bracket; the text between them is kept, the bracket kinds are not. */
  function ParseMavenRange(s: string): (r: Result<VersionConstraint>)
    ensures r.Ok? <==> |s| >= 3 && IsOpenBracket(s[0]) && IsCloseBracket(s[|s| - 1])
    ensures r.Ok? ==> r.value.operator == OpMavenRange && s == [s[0]] + r.value.version + [s[|s| - 1]]
    ensures r.Err? && |s| < 3 ==> r.msg == "invalid Maven range format: " + s
    ensures r.Err? && |s| >= 3 ==> r.msg == "invalid Maven range brackets: " + s
  {
    if |s| < 3 then Err("invalid Maven range format: " + s)
    else if !IsOpenBracket(s[0]) || !IsCloseBracket(s[|s| - 1]) then Err("invalid Maven range brackets: " + s)
    else Ok(VersionConstraint(OpMavenRange, s[1..|s| - 1]))
  }

  /** Inclusive and exclusive brackets give the same constraint. */
  lemma MavenBracketKindLost(x: string, open1: char, close1: char, open2: char, close2: char)
    requires |x| >= 1
    requires IsOpenBracket(open1) && IsOpenBracket(open2) && IsCloseBracket(close1) && IsCloseBracket(close2)
    ensures ParseMavenRange([open1] + x + [close1]) == ParseMavenRange([open2] + x + [close2])
      == Ok(VersionConstraint(OpMavenRange, x))
  {
    var s1 := [open1] + x + [close1];
    var s2 := [open2] + x + [close2];
    assert s1[1..|s1| - 1] == x;
    assert s2[1..|s2| - 1] == x;
  }

  /** `parseMavenRangeBounds`: exactly one comma, both sides trimmed. */
  function ParseMavenRangeBounds(s: string): (r: Result<(string, string)>)
    ensures r.Ok? <==> multiset(s)[','] == 1
  {
    SplitCount(s, ',');
    var parts := Split(s, ',');
    if |parts| != 2 then Err("invalid Maven range format: " + s)
    else Ok((TrimSpace(parts[0]), TrimSpace(parts[1])))
  }

  /** The bounds are the trimmed texts on either side of the comma. */
  lemma MavenBoundsSplit(x: string, y: string)
    requires ',' !in x && ',' !in y
    ensures ParseMavenRangeBounds(x + "," + y) == Ok((TrimSpace(x), TrimSpace(y)))
  {
    SplitCons(x, y, ',');
    SplitNone(y, ',');
  }

  /** `extractMajorVersion`: Atoi of the text before the first dot, 0 when
      that is not a number. */
  function ExtractMajorVersion(v: string): int {
    match Atoi(Split(v, '.')[0])
    case None => 0
    case Some(m) => m
  }

  /** The major of a version whose text starts with `%d` of n is n. */
  lemma ExtractMajorOf(n: int, rest: string)
    requires rest == [] || rest[0] == '.'
    ensures ExtractMajorVersion(ShowInt(n) + rest) == n
  {
    var m := if n < 0 then -n else n;
    ShowCanonical(m);
    assert '.' !in ShowInt(n) by {
      assert forall i | 0 <= i < |Show(m)| :: Show(m)[i] != '.';
    }
    if rest == [] {
      assert ShowInt(n) + rest == ShowInt(n);
      SplitNone(ShowInt(n), '.');
    } else {
      assert ShowInt(n) + rest == ShowInt(n) + ['.'] + rest[1..];
      SplitCons(ShowInt(n), rest[1..], '.');
    }
    AtoiShowInt(n);
  }

  /** A major that is not a number counts as 0: the function never fails. */
  lemma ExtractMajorDefault(v: string)
    requires Atoi(CutAt(v, '.')).None?
    ensures ExtractMajorVersion(v) == 0
  {
    SplitFirst(v, '.');
  }

  /** What follows the major in every Maven pattern. */
  const MavenTail := VersionDot + VersionDigits + VersionDot + VersionDigits + VersionSuffixPattern + RegexEnd

  predicate TailShaped(p: string) {
    RegexStart <= p && HasSuffix(p, MavenTail)
  }

  lemma TailShape(head: string)
    ensures TailShaped(RegexStart + head + MavenTail)
  {
    var p := RegexStart + head + MavenTail;
    assert p[..|RegexStart|] == RegexStart;
    assert p[|p| - |MavenTail|..] == MavenTail;
  }

  /** Regrouping a concatenation of eight texts. */
  lemma Regroup(s: string, m: string, a: string, b: string, c: string, d: string, e: string, f: string)
    ensures s + (m + a + b + c + d) + e + f == s + m + (a + b + c + d + e + f)
  {
  }

  lemma ExactTemplateShape()
    ensures TailShaped(ExactVersionTemplate)
  {
    Regroup(RegexStart, VersionDigits, VersionDot, VersionDigits, VersionDot, VersionDigits, VersionSuffixPattern, RegexEnd);
    TailShape(VersionDigits);
  }

  /** `mavenBothBoundsPattern`: the major literally when both bounds share it,
      else the character class from the lower to the upper major. */
  function MavenBothBoundsPattern(lower: string, upper: string): string {
    var lowerMajor := ExtractMajorVersion(lower);
    var upperMajor := ExtractMajorVersion(upper);
    if lowerMajor == upperMajor then RegexStart + ShowInt(lowerMajor) + MavenTail
    else RegexStart + ("[" + ShowInt(lowerMajor) + "-" + ShowInt(upperMajor) + "]") + MavenTail
  }

  /** `mavenLowerBoundPattern`: a digit from the lower major to 9, or two
      digits or more. */
  function MavenLowerBoundPattern(lower: string): string {
    RegexStart + ("(?:[" + ShowInt(ExtractMajorVersion(lower)) + @"-9]|\d{2,})") + MavenTail
  }

  /** `mavenUpperBoundPattern`: a digit from 0 to the upper major, or `0`
      when that major is not positive. */
  function MavenUpperBoundPattern(upper: string): string {
    var upperMajor := ExtractMajorVersion(upper);
    if upperMajor > 0 then RegexStart + ("[0-" + ShowInt(upperMajor) + "]") + MavenTail
    else RegexStart + "0" + MavenTail
  }

  /** `mavenRangeRegex`: dispatch on which bounds are present. Every result
      is anchored and ends with `\.\d+\.\d+`, the suffix pattern and `$`. */
  function MavenRangeRegex(s: string): (r: Result<string>)
    ensures r.Ok? <==> multiset(s)[','] == 1
    ensures r.Ok? ==> RegexStart <= r.value && HasSuffix(r.value, MavenTail)
  {
    match ParseMavenRangeBounds(s)
    case Err(msg) => Err(msg)
    case Ok((lower, upper)) =>
      MavenPatternsShaped(lower, upper);
      if lower != "" && upper != "" then Ok(MavenBothBoundsPattern(lower, upper))
      else if lower != "" then Ok(MavenLowerBoundPattern(lower))
      else if upper != "" then Ok(MavenUpperBoundPattern(upper))
      else Ok(ExactVersionTemplate)
  }

  lemma MavenPatternsShaped(lower: string, upper: string)
    ensures TailShaped(MavenBothBoundsPattern(lower, upper))
    ensures TailShaped(MavenLowerBoundPattern(lower))
    ensures TailShaped(MavenUpperBoundPattern(upper))
    ensures TailShaped(ExactVersionTemplate)
  {
    var l, u := ExtractMajorVersion(lower), ExtractMajorVersion(upper);
    TailShape(ShowInt(l));
    TailShape("[" + ShowInt(l) + "-" + ShowInt(u) + "]");
    TailShape("(?:[" + ShowInt(l) + @"-9]|\d{2,})");
    TailShape("[0-" + ShowInt(u) + "]");
    TailShape("0");
    ExactTemplateShape();
  }

  /** Which pattern a range with the given bounds gets. */
  lemma MavenDispatch(x: string, y: string)
    requires ',' !in x && ',' !in y
    ensures var lower, upper := TrimSpace(x), TrimSpace(y);
      MavenRangeRegex(x + "," + y) ==
        if lower != "" && upper != "" then Ok(MavenBothBoundsPattern(lower, upper))
        else if lower != "" then Ok(MavenLowerBoundPattern(lower))
        else if upper != "" then Ok(MavenUpperBoundPattern(upper))
        else Ok(ExactVersionTemplate)
  {
    MavenBoundsSplit(x, y);
  }

  // ---------------------------------------------------------------------
  // What the patterns accept, where the major class is a real range

  /** A pattern fixing only the major component. */
  function MajorOnly(major: Frag): VersionPattern {
    Single(Clause(major, AnyNumber, AnyNumber))
  }

  lemma MajorOnlyRender(major: Frag)
    ensures RenderVersionPattern(MajorOnly(major)) == RegexStart + Render(major) + MavenTail
  {
    Regroup(RegexStart, Render(major), VersionDot, VersionDigits, VersionDot, VersionDigits, VersionSuffixPattern, RegexEnd);
  }

  lemma RenderOneAtom(x: Atom)
    ensures RenderAlternative([x]) == RenderAtom(x)
  {
    assert [x][1..] == [];
  }

  /** A single-digit class accepts exactly the canonical numerals in its range. */
  lemma RangeShow(lo: Digit, hi: Digit, a: nat)
    ensures Matches(Alts([[Range(lo, hi)]]), Show(a)) <==> lo <= a <= hi
  {
    MatchesSingle([Range(lo, hi)], Show(a));
    assert [Range(lo, hi)] == [Range(lo, hi)] + [];
    MatchRange(lo, hi, [], Show(a));
    ShowLength(a, 1);
    ShowCanonical(a);
    if a < 10 {
      assert Show(a) == [DigitChar(a)];
    }
  }

  /** For a pattern fixing only the major, matching a canonical version is
      the major fragment accepting the major. */
  lemma MajorOnlyMatches(major: Frag, a: nat, b: nat, c: nat, t: string)
    requires DigitFrag(major)
    requires t == [] || !IsDigit(t[0])
    ensures MatchesVersion(MajorOnly(major), VersionString(a, b, c) + t) <==>
      Matches(major, Show(a)) && InVersionSuffix(t)
  {
    ClauseMatchesVersion(Clause(major, AnyNumber, AnyNumber), a, b, c, t);
    AnyNumberShow(b);
    AnyNumberShow(c);
  }

  /** Both bounds with majors l <= u of one digit each: exactly the versions
      whose major lies between them. */
  lemma MavenBothBoundsMeaning(lower: string, upper: string, a: nat, b: nat, c: nat, t: string)
    requires 0 <= ExtractMajorVersion(lower) <= ExtractMajorVersion(upper) <= 9
    requires t == [] || !IsDigit(t[0])
    ensures var l, u := ExtractMajorVersion(lower), ExtractMajorVersion(upper);
      && MavenBothBoundsPattern(lower, upper) == RenderVersionPattern(MajorOnly(Alts([[Range(l, u)]])))
      && (MatchesVersion(MajorOnly(Alts([[Range(l, u)]])), VersionString(a, b, c) + t) <==>
          InVersionSuffix(t) && l <= a <= u)
  {
    var l, u := ExtractMajorVersion(lower), ExtractMajorVersion(upper);
    MajorRangeRender(l, u);
    MajorRangeMatches(l, u, a, b, c, t);
  }

  /** A major-only pattern whose major is one digit class. */
  lemma MajorRangeRender(lo: Digit, hi: Digit)
    ensures RenderVersionPattern(MajorOnly(Alts([[Range(lo, hi)]]))) == RegexStart + RenderAtom(Range(lo, hi)) + MavenTail
  {
    RenderOneAtom(Range(lo, hi));
    assert RenderAll([[Range(lo, hi)]]) == [RenderAtom(Range(lo, hi))];
    MajorOnlyRender(Alts([[Range(lo, hi)]]));
  }

  lemma MajorRangeMatches(lo: Digit, hi: Digit, a: nat, b: nat, c: nat, t: string)
    requires t == [] || !IsDigit(t[0])
    ensures MatchesVersion(MajorOnly(Alts([[Range(lo, hi)]])), VersionString(a, b, c) + t) <==>
      InVersionSuffix(t) && lo <= a <= hi
  {
    RangeShow(lo, hi, a);
    MajorOnlyMatches(Alts([[Range(lo, hi)]]), a, b, c, t);
  }

  /** Both bounds with the same non-negative major, of any size: exactly that major. */
  lemma MavenSameMajorMeaning(lower: string, upper: string, a: nat, b: nat, c: nat, t: string)
    requires 0 <= ExtractMajorVersion(lower) == ExtractMajorVersion(upper)
    requires t == [] || !IsDigit(t[0])
    ensures var l := ExtractMajorVersion(lower);
      && MavenBothBoundsPattern(lower, upper) == RenderVersionPattern(MajorOnly(Exactly(l)))
      && (MatchesVersion(MajorOnly(Exactly(l)), VersionString(a, b, c) + t) <==> InVersionSuffix(t) && a == l)
  {
    var l := ExtractMajorVersion(lower);
    MajorOnlyRender(Exactly(l));
    ExactlyShow(l, a);
    MajorOnlyMatches(Exactly(l), a, b, c, t);
  }

  /** Only an upper bound with a positive major of one digit: the versions
      whose major is at most it. */
  lemma MavenUpperBoundMeaning(upper: string, a: nat, b: nat, c: nat, t: string)
    requires 0 < ExtractMajorVersion(upper) <= 9
    requires t == [] || !IsDigit(t[0])
    ensures var u := ExtractMajorVersion(upper);
      && MavenUpperBoundPattern(upper) == RenderVersionPattern(MajorOnly(Alts([[Range(0, u)]])))
      && (MatchesVersion(MajorOnly(Alts([[Range(0, u)]])), VersionString(a, b, c) + t) <==> InVersionSuffix(t) && a <= u)
  {
    var u := ExtractMajorVersion(upper);
    UpperClass(u);
    MajorRangeRender(0, u);
    MajorRangeMatches(0, u, a, b, c, t);
  }

  /** `[0-%d]` of a positive digit is the class from 0 to it. */
  lemma UpperClass(u: int)
    requires 0 < u <= 9
    ensures "[0-" + ShowInt(u) + "]" == RenderAtom(Range(0, u))
  {
    assert Show(0) == "0";
    assert "[0-" == "[" + "0" + "-";
  }

  /** Only an upper bound whose major is not positive: major 0 alone. */
  lemma MavenUpperBoundZero(upper: string, a: nat, b: nat, c: nat, t: string)
    requires ExtractMajorVersion(upper) <= 0
    requires t == [] || !IsDigit(t[0])
    ensures && MavenUpperBoundPattern(upper) == RenderVersionPattern(MajorOnly(Exactly(0)))
      && (MatchesVersion(MajorOnly(Exactly(0)), VersionString(a, b, c) + t) <==> InVersionSuffix(t) && a == 0)
  {
    MajorOnlyRender(Exactly(0));
    ExactlyShow(0, a);
    MajorOnlyMatches(Exactly(0), a, b, c, t);
  }

  /** The lower-bound fragment: a digit from l to 9, or two digits or more.
      The class is printed by a format, so both ends are written even for 9. */
  function LowerMajorFrag(l: Digit): Frag {
    Alts([[Class(l, 9)], [AtLeast(2)]])
  }

  /** A class written with both ends accepts what the digit range accepts. */
  lemma ClassLikeRange(lo: Digit, hi: Digit, x: string)
    ensures MatchAlt([Class(lo, hi)], x) == MatchAlt([Range(lo, hi)], x)
  {
    assert [Class(lo, hi)][1..] == [] && [Range(lo, hi)][1..] == [];
  }

  lemma LowerMajorFragShow(l: Digit, a: nat)
    ensures Matches(LowerMajorFrag(l), Show(a)) <==> l <= a
  {
    assert [[Class(l, 9)], [AtLeast(2)]] == [[Class(l, 9)]] + [[AtLeast(2)]];
    MatchesAppend([[Class(l, 9)]], [[AtLeast(2)]], Show(a));
    MatchesSingle([Class(l, 9)], Show(a));
    MatchesSingle([Range(l, 9)], Show(a));
    ClassLikeRange(l, 9, Show(a));
    RangeShow(l, 9, a);
    MatchesSingle([AtLeast(2)], Show(a));
    MatchAtLeastAlone(2, Show(a));
    ShowCanonical(a);
    ShowLength(a, 1);
  }

  /** The fragment prints as `(?:[%d-9]|\d{2,})` does, for every digit l. */
  lemma LowerMajorFragRender(l: Digit)
    ensures Render(LowerMajorFrag(l)) == "(?:[" + ShowInt(l) + @"-9]|\d{2,})"
  {
    RenderOneAtom(Class(l, 9));
    RenderOneAtom(AtLeast(2));
    assert Show(9) == "9";
    assert RenderAtom(AtLeast(2)) == @"\d{2,}";
    assert RenderAll([[Class(l, 9)], [AtLeast(2)]]) == [RenderAtom(Class(l, 9)), RenderAtom(AtLeast(2))];
    assert Join([RenderAtom(Class(l, 9)), RenderAtom(AtLeast(2))], RegexOr)
      == RenderAtom(Class(l, 9)) + RegexOr + RenderAtom(AtLeast(2));
  }

  /** Only a lower bound, with a major of one digit: the versions whose major
      is at least it. */
  lemma MavenLowerBoundMeaning(lower: string, a: nat, b: nat, c: nat, t: string)
    requires 0 <= ExtractMajorVersion(lower) <= 9
    requires t == [] || !IsDigit(t[0])
    ensures var l := ExtractMajorVersion(lower);
      && MavenLowerBoundPattern(lower) == RenderVersionPattern(MajorOnly(LowerMajorFrag(l)))
      && (MatchesVersion(MajorOnly(LowerMajorFrag(l)), VersionString(a, b, c) + t) <==> InVersionSuffix(t) && l <= a)
  {
    var l := ExtractMajorVersion(lower);
    var f := LowerMajorFrag(l);
    LowerMajorFragRender(l);
    MajorOnlyRender(f);
    LowerMajorFragShow(l, a);
    MajorOnlyMatches(f, a, b, c, t);
  }
}
