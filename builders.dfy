/** The range builders of convert/convert.go: the four comparison builders,
    which assemble alternations from the numeric-range synthesiser, and the
    caret, tilde and compatible-release builders, which fill templates. */
module Builders {
  import opened Wrappers
  import opened Decimal
  import opened Text
  import opened Fragments
  import opened Synth
  import opened Versions
  import opened Comparisons
  import opened Parsing

  // ---------------------------------------------------------------------
  // Comparison builders

  /** The four comparisons, `>=`, `>`, `<=` and `<`. */
  datatype Comparison = GreaterEqual | Greater | LessEqual | Less

  function ComparisonPattern(k: Comparison, major: nat, minor: nat, patch: nat): VersionPattern {
    match k
    case GreaterEqual => GePattern(major, minor, patch)
    case Greater => GtPattern(major, minor, patch)
    case LessEqual => LePattern(major, minor, patch)
    case Less => LtPattern(major, minor, patch)
  }

  /** What the comparison builders return: a parse error is passed on,
      otherwise the rendered pattern of the parsed components. */
  function ComparisonOf(k: Comparison, version: string): (r: Result<string>)
    ensures ParseVersionParts(version).Err? ==> r == Err(ParseVersionParts(version).msg)
    ensures r.Ok? <==> ParseVersionParts(version).Ok?
  {
    ComparisonFrom(k, ParseVersionParts(version))
  }

  function ComparisonFrom(k: Comparison, parsed: Result<(nat, nat, nat)>): Result<string> {
    match parsed
    case Err(e) => Err(e)
    case Ok((major, minor, patch)) => Ok(RenderVersionPattern(ComparisonPattern(k, major, minor, patch)))
  }

  /** A successful parse gives the rendered pattern of its components. */
  lemma ComparisonOfParsed(k: Comparison, version: string, major: nat, minor: nat, patch: nat)
    requires ParseVersionParts(version) == Ok((major, minor, patch))
    ensures ComparisonOf(k, version) == Ok(RenderVersionPattern(ComparisonPattern(k, major, minor, patch)))
  {
  }

  /** The text of a clause whose major is a synthesised fragment. */
  lemma MajorClauseText(f: Frag)
    ensures Render(f) + VersionDot + VersionDigits + VersionDot + VersionDigits
      == RenderClause(Clause(f, AnyNumber, AnyNumber))
  {
  }

  lemma MinorClauseText(major: nat, f: Frag)
    ensures Show(major) + VersionDot + Render(f) + VersionDot + VersionDigits
      == RenderClause(Clause(Exactly(major), f, AnyNumber))
  {
  }

  lemma PatchClauseText(major: nat, minor: nat, f: Frag)
    ensures Show(major) + VersionDot + Show(minor) + VersionDot + Render(f)
      == RenderClause(Clause(Exactly(major), Exactly(minor), f))
  {
  }

  /** The anchored alternation the four builders end with. */
  function Alternation(patterns: seq<string>): string {
    RegexStart + "(?:" + Join(patterns, RegexOr) + ")" + VersionSuffixPattern + RegexEnd
  }

  lemma RenderClausesAppend(xs: seq<Clause>, ys: seq<Clause>)
    ensures RenderClauses(xs + ys) == RenderClauses(xs) + RenderClauses(ys)
  {
  }

  /** The builders' last step: the rendered clauses of the parsed
      components, in an alternation, are the pattern ComparisonOf names. */
  lemma ComparisonAssembly(k: Comparison, major: nat, minor: nat, patch: nat, patterns: seq<string>)
    requires ComparisonPattern(k, major, minor, patch).Grouped?
    requires patterns == RenderClauses(ComparisonPattern(k, major, minor, patch).clauses)
    ensures Alternation(patterns) == RenderVersionPattern(ComparisonPattern(k, major, minor, patch))
  {
  }

  lemma RenderThree(c0: Clause, c1: Clause, c2: Clause)
    ensures RenderClauses([c0, c1, c2]) == [RenderClause(c0), RenderClause(c1), RenderClause(c2)]
  {
  }

  /** Each optional clause contributes its text when present. */
  lemma OptionalClauses(c0: Clause, c1: Clause, c2: Clause, b0: bool, b1: bool, b2: bool)
    ensures RenderClauses((if b0 then [c0] else []) + (if b1 then [c1] else []) + (if b2 then [c2] else []))
      == (if b0 then [RenderClause(c0)] else []) + (if b1 then [RenderClause(c1)] else [])
         + (if b2 then [RenderClause(c2)] else [])
  {
    RenderClausesAppend((if b0 then [c0] else []) + (if b1 then [c1] else []), (if b2 then [c2] else []));
    RenderClausesAppend((if b0 then [c0] else []), (if b1 then [c1] else []));
  }

  /** The three appended texts of `>=` and `>` are the rendered clauses of
      GeClauses and GtClauses. */
  lemma UpperAssembly(k: Comparison, major: nat, minor: nat, patch: nat, f0: Frag, f1: Frag, f2: Frag, patterns: seq<string>)
    requires k == GreaterEqual || k == Greater
    requires f0 == GeFragment(major + 1) && f1 == GeFragment(minor + 1)
    requires f2 == GeFragment(if k == GreaterEqual then patch else patch + 1)
    requires patterns == [Render(f0) + VersionDot + VersionDigits + VersionDot + VersionDigits,
                          Show(major) + VersionDot + Render(f1) + VersionDot + VersionDigits,
                          Show(major) + VersionDot + Show(minor) + VersionDot + Render(f2)]
    ensures Alternation(patterns) == RenderVersionPattern(ComparisonPattern(k, major, minor, patch))
  {
    var c0 := Clause(f0, AnyNumber, AnyNumber);
    var c1 := Clause(Exactly(major), f1, AnyNumber);
    var c2 := Clause(Exactly(major), Exactly(minor), f2);
    MajorClauseText(f0);
    MinorClauseText(major, f1);
    PatchClauseText(major, minor, f2);
    RenderThree(c0, c1, c2);
    assert ComparisonPattern(k, major, minor, patch) == Grouped([c0, c1, c2]);
    ComparisonAssembly(k, major, minor, patch, patterns);
  }

  /** The appended texts of `<=` and `<`, each present only when its
      component allows, are the rendered clauses of LeClauses and LtClauses. */
  lemma LowerAssembly(k: Comparison, major: nat, minor: nat, patch: nat, g0: Frag, g1: Frag, g2: Frag, patterns: seq<string>)
    requires k == LessEqual || k == Less
    requires major > 0 ==> g0 == LeFragment(major - 1)
    requires minor > 0 ==> g1 == LeFragment(minor - 1)
    requires g2 == LeFragment(if k == LessEqual then patch else patch - 1)
    requires patterns ==
      (if major > 0 then [Render(g0) + VersionDot + VersionDigits + VersionDot + VersionDigits] else [])
      + (if minor > 0 then [Show(major) + VersionDot + Render(g1) + VersionDot + VersionDigits] else [])
      + (if k == LessEqual || patch > 0 then [Show(major) + VersionDot + Show(minor) + VersionDot + Render(g2)] else [])
    requires patterns != []
    ensures Alternation(patterns) == RenderVersionPattern(ComparisonPattern(k, major, minor, patch))
  {
    var c0 := Clause(g0, AnyNumber, AnyNumber);
    var c1 := Clause(Exactly(major), g1, AnyNumber);
    var c2 := Clause(Exactly(major), Exactly(minor), g2);
    MajorClauseText(g0);
    MinorClauseText(major, g1);
    PatchClauseText(major, minor, g2);
    OptionalClauses(c0, c1, c2, major > 0, minor > 0, k == LessEqual || patch > 0);
    var cs := (if major > 0 then [c0] else []) + (if minor > 0 then [c1] else [])
      + (if k == LessEqual || patch > 0 then [c2] else []);
    assert ComparisonPattern(k, major, minor, patch) == Grouped(cs);
    ComparisonAssembly(k, major, minor, patch, patterns);
  }

  /** `greaterThanEqualRegex`: a larger major, or the same major and a
      larger minor, or the same major and minor and a patch of at least
      the target's. */
  method GreaterThanEqualRegex(version: string) returns (r: Result<string>)
    ensures r == ComparisonOf(GreaterEqual, version)
  {
    var parsed := ParseVersionParts(version);
    if parsed.Err? {
      return Err(parsed.msg);
    }
    var (major, minor, patch) := parsed.value;
    ComparisonOfParsed(GreaterEqual, version, major, minor, patch);
    var pattern := GreaterEqualAlternation(major, minor, patch);
    return Ok(pattern);
  }

  /** The pattern `greaterThanEqualRegex` assembles from the parsed components. */
  method GreaterEqualAlternation(major: nat, minor: nat, patch: nat) returns (pattern: string)
    ensures pattern == RenderVersionPattern(ComparisonPattern(GreaterEqual, major, minor, patch))
  {
    var patterns: seq<string> := [];

    var f0 := NumGreaterOrEqual(major + 1);
    patterns := patterns + [Render(f0) + VersionDot + VersionDigits + VersionDot + VersionDigits];

    var f1 := NumGreaterOrEqual(minor + 1);
    patterns := patterns + [Show(major) + VersionDot + Render(f1) + VersionDot + VersionDigits];

    var f2 := NumGreaterOrEqual(patch);
    patterns := patterns + [Show(major) + VersionDot + Show(minor) + VersionDot + Render(f2)];

    UpperAssembly(GreaterEqual, major, minor, patch, f0, f1, f2, patterns);
    return Alternation(patterns);
  }

  /** `greaterThanRegex`: as for `>=`, with a patch above the target's. */
  method GreaterThanRegex(version: string) returns (r: Result<string>)
    ensures r == ComparisonOf(Greater, version)
  {
    var parsed := ParseVersionParts(version);
    if parsed.Err? {
      return Err(parsed.msg);
    }
    var (major, minor, patch) := parsed.value;
    ComparisonOfParsed(Greater, version, major, minor, patch);
    var pattern := GreaterAlternation(major, minor, patch);
    return Ok(pattern);
  }

  /** The pattern `greaterThanRegex` assembles from the parsed components. */
  method GreaterAlternation(major: nat, minor: nat, patch: nat) returns (pattern: string)
    ensures pattern == RenderVersionPattern(ComparisonPattern(Greater, major, minor, patch))
  {
    var patterns: seq<string> := [];

    var f0 := NumGreaterOrEqual(major + 1);
    patterns := patterns + [Render(f0) + VersionDot + VersionDigits + VersionDot + VersionDigits];

    var f1 := NumGreaterOrEqual(minor + 1);
    patterns := patterns + [Show(major) + VersionDot + Render(f1) + VersionDot + VersionDigits];

    var f2 := NumGreaterOrEqual(patch + 1);
    patterns := patterns + [Show(major) + VersionDot + Show(minor) + VersionDot + Render(f2)];

    UpperAssembly(Greater, major, minor, patch, f0, f1, f2, patterns);
    return Alternation(patterns);
  }

  /** `lessThanEqualRegex`: a smaller major (only when the major is above
      0), or the same major and a smaller minor (only when the minor is
      above 0), or the same major and minor and a patch of at most the
      target's. */
  method LessThanEqualRegex(version: string) returns (r: Result<string>)
    ensures r == ComparisonOf(LessEqual, version)
  {
    var parsed := ParseVersionParts(version);
    if parsed.Err? {
      return Err(parsed.msg);
    }
    var (major, minor, patch) := parsed.value;
    ComparisonOfParsed(LessEqual, version, major, minor, patch);
    var pattern := LessEqualAlternation(major, minor, patch);
    return Ok(pattern);
  }

  /** The pattern `lessThanEqualRegex` assembles from the parsed components. */
  method LessEqualAlternation(major: nat, minor: nat, patch: nat) returns (pattern: string)
    ensures pattern == RenderVersionPattern(ComparisonPattern(LessEqual, major, minor, patch))
  {
    var patterns: seq<string> := [];
    ghost var g0, g1, g2 := NoMatch, NoMatch, NoMatch;

    if major > 0 {
      var f := NumLessOrEqual(major - 1);
      patterns := patterns + [Render(f) + VersionDot + VersionDigits + VersionDot + VersionDigits];
      g0 := f;
    }
    ghost var t0 := if major > 0 then [Render(g0) + VersionDot + VersionDigits + VersionDot + VersionDigits] else [];
    assert patterns == t0;

    if minor > 0 {
      var f := NumLessOrEqual(minor - 1);
      patterns := patterns + [Show(major) + VersionDot + Render(f) + VersionDot + VersionDigits];
      g1 := f;
    }
    ghost var t1 := if minor > 0 then [Show(major) + VersionDot + Render(g1) + VersionDot + VersionDigits] else [];
    assert patterns == t0 + t1;

    var f := NumLessOrEqual(patch);
    patterns := patterns + [Show(major) + VersionDot + Show(minor) + VersionDot + Render(f)];
    g2 := f;

    LowerAssembly(LessEqual, major, minor, patch, g0, g1, g2, patterns);
    return Alternation(patterns);
  }

  /** `lessThanRegex`: as for `<=`, with the patch clause only when the
      patch is above 0; with no clause at all, EMPTY_MATCH_PATTERN. */
  method LessThanRegex(version: string) returns (r: Result<string>)
    ensures r == ComparisonOf(Less, version)
  {
    var parsed := ParseVersionParts(version);
    if parsed.Err? {
      return Err(parsed.msg);
    }
    var (major, minor, patch) := parsed.value;
    ComparisonOfParsed(Less, version, major, minor, patch);
    var pattern := LessAlternation(major, minor, patch);
    return Ok(pattern);
  }

  /** The pattern `lessThanRegex` assembles from the parsed components. */
  method LessAlternation(major: nat, minor: nat, patch: nat) returns (pattern: string)
    ensures pattern == RenderVersionPattern(ComparisonPattern(Less, major, minor, patch))
  {
    var patterns: seq<string> := [];
    ghost var g0, g1, g2 := NoMatch, NoMatch, NoMatch;

    if major > 0 {
      var f := NumLessOrEqual(major - 1);
      patterns := patterns + [Render(f) + VersionDot + VersionDigits + VersionDot + VersionDigits];
      g0 := f;
    }
    ghost var t0 := if major > 0 then [Render(g0) + VersionDot + VersionDigits + VersionDot + VersionDigits] else [];
    assert patterns == t0;

    if minor > 0 {
      var f := NumLessOrEqual(minor - 1);
      patterns := patterns + [Show(major) + VersionDot + Render(f) + VersionDot + VersionDigits];
      g1 := f;
    }
    ghost var t1 := if minor > 0 then [Show(major) + VersionDot + Render(g1) + VersionDot + VersionDigits] else [];
    assert patterns == t0 + t1;

    if patch > 0 {
      var f := NumLessOrEqual(patch - 1);
      patterns := patterns + [Show(major) + VersionDot + Show(minor) + VersionDot + Render(f)];
      g2 := f;
    }
    ghost var t2 := if patch > 0 then [Show(major) + VersionDot + Show(minor) + VersionDot + Render(g2)] else [];
    assert patterns == t0 + t1 + t2;
    assert g2 == LeFragment(patch - 1);

    if |patterns| == 0 {
      assert major == 0 && minor == 0 && patch == 0 by {
        assert |t0| + |t1| + |t2| == 0;
      }
      EmptyAssembly(major, minor, patch);
      return EmptyMatchPattern;
    }

    LowerAssembly(Less, major, minor, patch, g0, g1, g2, patterns);
    return Alternation(patterns);
  }

  /** `<0.0.0`: no clause, and the pattern that matches nothing. */
  lemma EmptyAssembly(major: nat, minor: nat, patch: nat)
    requires major == 0 && minor == 0 && patch == 0
    ensures EmptyMatchPattern == RenderVersionPattern(ComparisonPattern(Less, major, minor, patch))
  {
  }

  // ---------------------------------------------------------------------
  // Caret, tilde and compatible-release ranges

  /** The version pattern of `^M.m.p`: the major alone, or for major 0 the
      major and the minor; the patch is never looked at. */
  function CaretPattern(major: nat, minor: nat): VersionPattern {
    if major == 0 then Single(Clause(Exactly(0), Exactly(minor), AnyNumber))
    else Single(Clause(Exactly(major), AnyNumber, AnyNumber))
  }

  /** The version pattern of `~M.m.p`: the major and the minor. */
  function TildePattern(major: nat, minor: nat): VersionPattern {
    Single(Clause(Exactly(major), Exactly(minor), AnyNumber))
  }

  /** `caretRangeRegex`: CARET_RANGE_TEMPLATE of the major, replaced by
      CARET_RANGE_ZERO_MAJOR_TEMPLATE of the minor when the major is 0. */
  function CaretRangeRegex(version: string): (r: Result<string>)
    ensures ParseVersionParts(version).Err? ==> r == Err(ParseVersionParts(version).msg)
    ensures ParseVersionParts(version).Ok? ==>
      r == Ok(RenderVersionPattern(CaretPattern(ParseVersionParts(version).value.0, ParseVersionParts(version).value.1)))
  {
    match ParseVersionParts(version)
    case Err(e) => Err(e)
    case Ok((major, minor, _)) =>
      CaretTemplates(major, minor);
      var pattern := CaretRangeTemplate(major);
      Ok(if major == 0 then CaretRangeZeroMajorTemplate(minor) else pattern)
  }

  /** `tildeRangeRegex`: TILDE_RANGE_TEMPLATE of the major and the minor. */
  function TildeRangeRegex(version: string): (r: Result<string>)
    ensures ParseVersionParts(version).Err? ==> r == Err(ParseVersionParts(version).msg)
    ensures ParseVersionParts(version).Ok? ==>
      r == Ok(RenderVersionPattern(TildePattern(ParseVersionParts(version).value.0, ParseVersionParts(version).value.1)))
  {
    match ParseVersionParts(version)
    case Err(e) => Err(e)
    case Ok((major, minor, _)) =>
      TildeTemplate(major, minor);
      Ok(TildeRangeTemplate(major, minor))
  }

  /** `compatibleReleaseRegex`: Python's `~=` is handled as the tilde range. */
  function CompatibleReleaseRegex(version: string): (r: Result<string>)
    ensures r == TildeRangeRegex(version)
  {
    TildeRangeRegex(version)
  }

  /** The templates are the renderings of the caret clauses. */
  lemma CaretTemplates(major: nat, minor: nat)
    ensures major != 0 ==> CaretRangeTemplate(major) == RenderVersionPattern(CaretPattern(major, minor))
    ensures major == 0 ==> CaretRangeZeroMajorTemplate(minor) == RenderVersionPattern(CaretPattern(major, minor))
  {
    RenderSingle(CaretPattern(major, minor).clause);
    assert Show(0) == "0";
  }

  lemma TildeTemplate(major: nat, minor: nat)
    ensures TildeRangeTemplate(major, minor) == RenderVersionPattern(TildePattern(major, minor))
  {
    RenderSingle(TildePattern(major, minor).clause);
  }

  /** `^M.m.p` accepts a.b.c exactly when a is M and, for M = 0, b is m. */
  lemma CaretMatches(major: nat, minor: nat, a: nat, b: nat, c: nat, t: string)
    requires t == [] || !IsDigit(t[0])
    ensures MatchesVersion(CaretPattern(major, minor), VersionString(a, b, c) + t) <==>
      InVersionSuffix(t) && a == major && (major == 0 ==> b == minor)
  {
    var cl := CaretPattern(major, minor).clause;
    ClauseMatchesVersion(cl, a, b, c, t);
    ExactlyShow(major, a);
    ExactlyShow(minor, b);
    AnyNumberShow(b);
    AnyNumberShow(c);
  }

  /** `~M.m.p` accepts a.b.c exactly when a is M and b is m. */
  lemma TildeMatches(major: nat, minor: nat, a: nat, b: nat, c: nat, t: string)
    requires t == [] || !IsDigit(t[0])
    ensures MatchesVersion(TildePattern(major, minor), VersionString(a, b, c) + t) <==>
      InVersionSuffix(t) && a == major && b == minor
  {
    ClauseMatchesVersion(TildePattern(major, minor).clause, a, b, c, t);
    ExactlyShow(major, a);
    ExactlyShow(minor, b);
    AnyNumberShow(c);
  }

  /** For the text of M.m.p with any suffix, the caret and tilde builders
      give the patterns above. */
  lemma RangesOfVersion(major: nat, minor: nat, patch: nat, t: string)
    requires SuffixLead(t)
    ensures CaretRangeRegex(VersionString(major, minor, patch) + t) == Ok(RenderVersionPattern(CaretPattern(major, minor)))
    ensures TildeRangeRegex(VersionString(major, minor, patch) + t) == Ok(RenderVersionPattern(TildePattern(major, minor)))
  {
    ParseVersionString(major, minor, patch, t);
  }

  /** The lower bound is not enforced: for a major above 0, `^M.m.p`
      accepts M.b.c for every b and c, so `^1.2.3` accepts 1.0.0, although
      the comments describe it as `>=1.2.3 <2.0.0`. */
  lemma CaretIgnoresLowerBound(major: nat, minor: nat, patch: nat, b: nat, c: nat)
    requires major > 0
    ensures CaretRangeRegex(VersionString(major, minor, patch)) == Ok(RenderVersionPattern(CaretPattern(major, minor)))
    ensures MatchesVersion(CaretPattern(major, minor), VersionString(major, b, c))
  {
    RangesOfVersion(major, minor, patch, []);
    assert VersionString(major, minor, patch) + [] == VersionString(major, minor, patch);
    VersionSuffixShape([]);
    CaretMatches(major, minor, major, b, c, []);
    assert VersionString(major, b, c) + [] == VersionString(major, b, c);
  }

  /** Likewise `~M.m.p` accepts M.m.c for every c, so `~1.2.3` accepts
      1.2.0, although described as `>=1.2.3 <1.3.0`. */
  lemma TildeIgnoresLowerBound(major: nat, minor: nat, patch: nat, c: nat)
    ensures TildeRangeRegex(VersionString(major, minor, patch)) == Ok(RenderVersionPattern(TildePattern(major, minor)))
    ensures MatchesVersion(TildePattern(major, minor), VersionString(major, minor, c))
  {
    RangesOfVersion(major, minor, patch, []);
    assert VersionString(major, minor, patch) + [] == VersionString(major, minor, patch);
    VersionSuffixShape([]);
    TildeMatches(major, minor, major, minor, c, []);
    assert VersionString(major, minor, c) + [] == VersionString(major, minor, c);
  }
}
