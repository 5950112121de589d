/** Exact matching in convert/convert.go: `exactMatchRegex`, which routes
    wildcards, Go module versions and C# versions to their own builders and
    quotes a semantic version literally; the wildcard builder; and
    `notEqualRegex`, which wraps the exact pattern in a negative look-ahead. */
module ExactMatch {
  import opened Decimal
  import opened Text
  import opened Fragments
  import opened Versions
  import opened GoModules
  import opened CSharp
  import opened Parsing

  // ---------------------------------------------------------------------
  // Wildcards

  /** One part of a wildcard version: `*` stands for any number, anything
      else is quoted. */
  function WildcardPart(part: string): string {
    if part == "*" then VersionDigits else QuoteMeta(part)
  }

  function WildcardParts(parts: seq<string>): (r: seq<string>)
    ensures |r| == |parts|
    ensures forall i | 0 <= i < |parts| :: r[i] == WildcardPart(parts[i])
  {
    if parts == [] then [] else [WildcardPart(parts[0])] + WildcardParts(parts[1..])
  }

  /** `convertWildcardParts`: fills a slice of the same length part by part. */
  method ConvertWildcardParts(parts: seq<string>) returns (result: seq<string>)
    ensures result == WildcardParts(parts)
  {
    var a := new string[|parts|];
    for i := 0 to |parts|
      invariant forall j | 0 <= j < i :: a[j] == WildcardPart(parts[j])
    {
      if parts[i] == "*" {
        a[i] := VersionDigits;
      } else {
        a[i] := QuoteMeta(parts[i]);
      }
    }
    result := a[..];
  }

  /** Whether `padToSemanticVersion` pads: the original ends in a `*` part. */
  predicate EndsInWildcard(originalParts: seq<string>) {
    |originalParts| > 0 && originalParts[|originalParts| - 1] == "*"
  }

  /** What `padToSemanticVersion` returns: the pattern parts kept as they
      are, followed, when the original ends in `*`, by as many digit
      matchers as bring the count up to three. */
  function PaddedParts(patternParts: seq<string>, originalParts: seq<string>): (r: seq<string>)
    ensures |r| == if EndsInWildcard(originalParts) && |patternParts| < 3 then 3 else |patternParts|
    ensures r[..|patternParts|] == patternParts
    ensures forall i | |patternParts| <= i < |r| :: r[i] == VersionDigits
    decreases 3 - |patternParts|
  {
    if EndsInWildcard(originalParts) && |patternParts| < 3 then
      PaddedParts(patternParts + [VersionDigits], originalParts)
    else patternParts
  }

  /** `padToSemanticVersion`: appends digit matchers while fewer than three. */
  method PadToSemanticVersion(patternParts: seq<string>, originalParts: seq<string>) returns (r: seq<string>)
    ensures r == PaddedParts(patternParts, originalParts)
  {
    if |originalParts| == 0 {
      return patternParts;
    }
    var lastPart := originalParts[|originalParts| - 1];
    if lastPart != "*" {
      return patternParts;
    }
    r := patternParts;
    while |r| < 3
      invariant PaddedParts(r, originalParts) == PaddedParts(patternParts, originalParts)
      decreases 3 - |r|
    {
      r := r + [VersionDigits];
    }
  }

  /** What `wildcardToRegex` returns. */
  function WildcardPattern(version: string): string {
    var parts := Split(version, '.');
    RegexStart + Join(PaddedParts(WildcardParts(parts), parts), VersionDot) + VersionSuffixPattern + RegexEnd
  }

  /** `wildcardToRegex`: convert the parts, pad them, join with `\.`, anchor. */
  method WildcardToRegex(version: string) returns (pattern: string)
    ensures pattern == WildcardPattern(version)
  {
    var parts := Split(version, '.');
    var patternParts := ConvertWildcardParts(parts);
    patternParts := PadToSemanticVersion(patternParts, parts);
    return RegexStart + Join(patternParts, VersionDot) + VersionSuffixPattern + RegexEnd;
  }

  /** Numerals are left alone by quoting. */
  lemma QuoteShow(n: nat)
    ensures QuoteMeta(Show(n)) == Show(n)
  {
    ShowCanonical(n);
    QuoteMetaPlain(Show(n));
  }

  /** `M.*` matches any M.x.y: the caret template of M. */
  lemma WildcardMajor(a: nat)
    ensures WildcardPattern(Show(a) + ".*") == CaretRangeTemplate(a)
  {
    ShowPlain(a);
    SplitStarOne(Show(a));
    var parts := [Show(a), "*"];
    QuoteShow(a);
    assert WildcardParts(parts) == [Show(a), VersionDigits];
    assert PaddedParts([Show(a), VersionDigits], parts) == [Show(a), VersionDigits, VersionDigits];
    AnchoredThree(Show(a), VersionDigits, VersionDigits);
  }

  lemma JoinThree(x: string, y: string, z: string, sep: string)
    ensures Join([x, y, z], sep) == x + sep + y + sep + z
  {
    assert [x, y, z][1..] == [y, z];
    assert [y, z][1..] == [z];
    assert Join([y, z], sep) == y + sep + z;
    AppendAssoc(x + sep, y + sep, z);
    AppendAssoc(x, sep, y + sep + z);
  }

  lemma SplitStarOne(x: string)
    requires '.' !in x
    ensures Split(x + ".*", '.') == [x, "*"]
  {
    assert x + ".*" == x + ['.'] + "*";
    SplitCons(x, "*", '.');
  }

  lemma SplitStarTwo(x: string, y: string)
    requires '.' !in x && '.' !in y
    ensures Split(x + "." + y + ".*", '.') == [x, y, "*"]
  {
    assert x + "." + y + ".*" == x + ['.'] + (y + ".*");
    SplitCons(x, y + ".*", '.');
    SplitStarOne(y);
  }

  /** The shape every wildcard lemma ends with. */
  lemma AnchoredThree(x: string, y: string, z: string)
    ensures RegexStart + Join([x, y, z], VersionDot) + VersionSuffixPattern + RegexEnd
      == RegexStart + x + VersionDot + y + VersionDot + z + VersionSuffixPattern + RegexEnd
  {
    JoinThree(x, y, z, VersionDot);
  }

  /** `M.m.*` matches any M.m.x: the tilde template of M and m. */
  lemma WildcardMinor(a: nat, b: nat)
    ensures WildcardPattern(Show(a) + "." + Show(b) + ".*") == TildeRangeTemplate(a, b)
  {
    ShowPlain(a);
    ShowPlain(b);
    SplitStarTwo(Show(a), Show(b));
    var parts := [Show(a), Show(b), "*"];
    QuoteShow(a);
    QuoteShow(b);
    assert WildcardParts(parts) == [Show(a), Show(b), VersionDigits];
    assert PaddedParts([Show(a), Show(b), VersionDigits], parts) == [Show(a), Show(b), VersionDigits];
    AnchoredThree(Show(a), Show(b), VersionDigits);
  }

  /** A lone `*` matches every major.minor.patch: the exact-version template. */
  lemma WildcardStar()
    ensures WildcardPattern("*") == ExactVersionTemplate
  {
    assert Split("*", '.') == ["*"];
    assert WildcardParts(["*"]) == [VersionDigits];
    assert PaddedParts([VersionDigits], ["*"]) == [VersionDigits, VersionDigits, VersionDigits];
    AnchoredThree(VersionDigits, VersionDigits, VersionDigits);
  }

  /** A `*` that is not last is still replaced by `\d+`, but nothing is
      padded: `1.*.3` keeps three parts and `1.2` stays two parts. */
  lemma WildcardNotLast(version: string)
    requires !EndsInWildcard(Split(version, '.'))
    ensures WildcardPattern(version) == RegexStart + Join(WildcardParts(Split(version, '.')), VersionDot)
      + VersionSuffixPattern + RegexEnd
  {
  }

  // ---------------------------------------------------------------------
  // exactMatchRegex

  /** A semantic version cut into its main part, its pre-release (from the
      first `-` before any `+`) and its build metadata (from the first `+`). */
  function ExactPieces(version: string): (r: (string, string, string))
    ensures r.0 + r.1 + r.2 == version
    ensures '-' !in r.0 && '+' !in r.0 && '+' !in r.1
    ensures r.1 == "" || r.1[0] == '-'
    ensures r.2 == "" || r.2[0] == '+'
  {
    var head := CutAt(version, '+');
    var main := CutAt(head, '-');
    assert head == main + head[|main|..];
    assert version == head + version[|head|..];
    (main, head[|main|..], version[|head|..])
  }

  /** The pieces are the only split with those properties. */
  lemma ExactPiecesUnique(version: string, main: string, pre: string, build: string)
    requires main + pre + build == version
    requires '-' !in main && '+' !in main && '+' !in pre
    requires pre == "" || pre[0] == '-'
    requires build == "" || build[0] == '+'
    ensures ExactPieces(version) == (main, pre, build)
  {
    assert CutAt(build, '+') == "";
    assert CutAt(pre, '-') == "";
    assert '+' !in main + pre;
    CutAtAppend(main + pre, build, '+');
    assert main + pre + "" == main + pre;
    CutAtAppend(main, pre, '-');
    assert main + "" == main;
  }

  /** The literal pattern for a semantic version: its main part quoted,
      then the quoted pre-release or the optional PRE_RELEASE_PATTERN, then
      the quoted build metadata or the optional BUILD_META_PATTERN. */
  function SemVerPattern(version: string): string {
    var (main, pre, build) := ExactPieces(version);
    RegexStart + QuoteMeta(main)
    + (if pre != "" then QuoteMeta(pre) else PreReleasePattern)
    + (if build != "" then QuoteMeta(build) else BuildMetaPattern)
    + RegexEnd
  }

  /** What `exactMatchRegex` returns: wildcards, Go module versions and C#
      versions go to their own builders, in that order. */
  function ExactMatchPattern(version: string): string {
    if '*' in version then WildcardPattern(version)
    else if IsGoModuleVersion(version) then GoModulePattern(version)
    else if IsCSharpVersion(version) then CSharpPattern(version)
    else SemVerPattern(version)
  }

  /** The pieces the method puts together make up SemVerPattern. */
  lemma SemVerAssembly(version: string, mainVersion: string, preRelease: string, buildMeta: string)
    requires (mainVersion, preRelease, buildMeta) == ExactPieces(version)
    ensures RegexStart + Join(QuoteAll(Split(mainVersion, '.')), VersionDot)
      + (if preRelease != "" then QuoteMeta(preRelease) else PreReleasePattern)
      + (if buildMeta != "" then QuoteMeta(buildMeta) else BuildMetaPattern) + RegexEnd
      == SemVerPattern(version)
  {
    QuoteMetaSplit(mainVersion);
  }

  /** `exactMatchRegex`. */
  method ExactMatchRegex(version: string) returns (pattern: string)
    ensures pattern == ExactMatchPattern(version)
  {
    if '*' in version {
      pattern := WildcardToRegex(version);
      return;
    }
    if IsGoModuleVersion(version) {
      pattern := GoModuleVersionRegex(version);
      return;
    }
    if IsCSharpVersion(version) {
      pattern := CSharpVersionRegex(version);
      return;
    }
    assert ExactMatchPattern(version) == SemVerPattern(version);

    var mainVersion := version;
    var preRelease := "";
    var buildMeta := "";
    var idx := IndexOf(version, '+');
    if idx != -1 {
      buildMeta := version[idx..];
      mainVersion := version[..idx];
    }
    idx := IndexOf(mainVersion, '-');
    if idx != -1 {
      preRelease := mainVersion[idx..];
      mainVersion := mainVersion[..idx];
    }
    ExactPiecesUnique(version, mainVersion, preRelease, buildMeta);

    var parts := Split(mainVersion, '.');
    pattern := RegexStart;
    for i := 0 to |parts|
      invariant pattern == RegexStart + Join(QuoteAll(parts[..i]), VersionDot)
    {
      ghost var before := Join(QuoteAll(parts[..i]), VersionDot);
      if i > 0 {
        pattern := pattern + VersionDot;
      }
      pattern := pattern + QuoteMeta(parts[i]);
      QuoteAllStep(parts, i, VersionDot);
      AppendAssoc(RegexStart, before, VersionDot);
      AppendAssoc(RegexStart, (if i > 0 then before + VersionDot else ""), QuoteMeta(parts[i]));
    }
    assert parts[..|parts|] == parts;
    SemVerAssembly(version, mainVersion, preRelease, buildMeta);

    if preRelease != "" {
      pattern := pattern + QuoteMeta(preRelease);
    } else {
      pattern := pattern + PreReleasePattern;
    }
    if buildMeta != "" {
      pattern := pattern + QuoteMeta(buildMeta);
    } else {
      pattern := pattern + BuildMetaPattern;
    }
    pattern := pattern + RegexEnd;
  }

  /** Without a pre-release or build metadata, the whole version is quoted
      and both suffixes stay optional. */
  lemma SemVerPlain(version: string)
    requires '-' !in version && '+' !in version
    ensures SemVerPattern(version) == RegexStart + QuoteMeta(version) + VersionSuffixPattern + RegexEnd
  {
    assert version + "" + "" == version;
    ExactPiecesUnique(version, version, "", "");
    var pieces := ExactPieces(version);
    assert pieces.0 == version && pieces.1 == "" && pieces.2 == "";
    AppendAssoc(RegexStart + QuoteMeta(version), PreReleasePattern, BuildMetaPattern);
  }

  /** With both a pre-release and build metadata, the version is matched
      literally: unquoting the anchored middle gives it back. */
  lemma SemVerLiteral(version: string)
    requires ExactPieces(version).1 != "" && ExactPieces(version).2 != ""
    ensures SemVerPattern(version) == RegexStart + QuoteMeta(version) + RegexEnd
    ensures Unquote(SemVerPattern(version)[1..|SemVerPattern(version)| - 1]) == version
  {
    var (main, pre, build) := ExactPieces(version);
    QuotedThree(main, pre, build);
    AnchoredLiteral(version);
  }

  /** With a pre-release and no build metadata (`1.2.3-dev`), the version
      is quoted whole and only the build metadata stays optional. */
  lemma SemVerPreReleaseOnly(main: string, pre: string)
    requires '-' !in main && '+' !in main && '+' !in pre
    requires pre != "" && pre[0] == '-'
    ensures SemVerPattern(main + pre) == RegexStart + QuoteMeta(main + pre) + BuildMetaPattern + RegexEnd
  {
    assert main + pre + "" == main + pre;
    ExactPiecesUnique(main + pre, main, pre, "");
    QuoteMetaAppend(main, pre);
    AppendAssoc(RegexStart, QuoteMeta(main), QuoteMeta(pre));
  }

  /** With build metadata and no pre-release (`1.2.3+build.123`), the main
      part and the build are quoted and the pre-release between them stays
      optional. */
  lemma SemVerBuildOnly(main: string, build: string)
    requires '-' !in main && '+' !in main
    requires build != "" && build[0] == '+'
    ensures SemVerPattern(main + build) == RegexStart + QuoteMeta(main) + PreReleasePattern + QuoteMeta(build) + RegexEnd
  {
    assert main + "" + build == main + build;
    ExactPiecesUnique(main + build, main, "", build);
  }

  lemma QuotedThree(x: string, y: string, z: string)
    ensures RegexStart + QuoteMeta(x) + QuoteMeta(y) + QuoteMeta(z) + RegexEnd
      == RegexStart + QuoteMeta(x + y + z) + RegexEnd
  {
    QuoteMetaAppend(x, y);
    QuoteMetaAppend(x + y, z);
    AppendAssoc(RegexStart + QuoteMeta(x), QuoteMeta(y), QuoteMeta(z));
  }

  lemma AnchoredLiteral(version: string)
    ensures var p := RegexStart + QuoteMeta(version) + RegexEnd;
      Unquote(p[1..|p| - 1]) == version
  {
    var p := RegexStart + QuoteMeta(version) + RegexEnd;
    assert p[1..|p| - 1] == QuoteMeta(version);
    UnquoteQuoteMeta(version);
  }

  /** The text of a.b.c holds only digits and dots. */
  lemma VersionStringChars(a: nat, b: nat, c: nat)
    ensures forall i | 0 <= i < |VersionString(a, b, c)| ::
      IsDigit(VersionString(a, b, c)[i]) || VersionString(a, b, c)[i] == '.'
  {
    ShowCanonical(a);
    ShowCanonical(b);
    ShowCanonical(c);
    VersionStringShape(a, b, c);
  }

  /** A plain a.b.c takes the semantic-version route. */
  lemma VersionStringRoute(a: nat, b: nat, c: nat)
    ensures ExactMatchPattern(VersionString(a, b, c)) == SemVerPattern(VersionString(a, b, c))
  {
    var v := VersionString(a, b, c);
    VersionStringChars(a, b, c);
    VersionStringPlain(a, b, c);
    assert '*' !in v;
    assert !IsGoModuleVersion(v) by {
      ShowCanonical(a);
      assert v[0] == Show(a)[0];
    }
    assert !ContainsCSharpPreRelease(v) by {
      if Contains(v, "-alpha") { ContainsHead(v, "-alpha"); }
      if Contains(v, "-beta") { ContainsHead(v, "-beta"); }
      if Contains(v, "-rc") { ContainsHead(v, "-rc"); }
      if Contains(v, "-preview") { ContainsHead(v, "-preview"); }
    }
  }

  /** The exact pattern of a.b.c is the one clause of its three literal
      numerals. */
  lemma ExactSemVer(a: nat, b: nat, c: nat)
    ensures ExactMatchPattern(VersionString(a, b, c))
      == RenderVersionPattern(Single(Clause(Exactly(a), Exactly(b), Exactly(c))))
  {
    var v := VersionString(a, b, c);
    VersionStringRoute(a, b, c);
    VersionStringPlain(a, b, c);
    SemVerPlain(v);
    QuoteMetaSplit(v);
    QuoteShow(a);
    QuoteShow(b);
    QuoteShow(c);
    assert QuoteAll([Show(a), Show(b), Show(c)]) == [Show(a), Show(b), Show(c)];
    JoinThree(Show(a), Show(b), Show(c), VersionDot);
  }

  /** That clause accepts x.y.z exactly when it is a.b.c, with any suffix
      the pattern allows. */
  lemma ExactSemVerMatches(a: nat, b: nat, c: nat, x: nat, y: nat, z: nat, t: string)
    requires t == [] || !IsDigit(t[0])
    ensures MatchesVersion(Single(Clause(Exactly(a), Exactly(b), Exactly(c))), VersionString(x, y, z) + t)
      <==> x == a && y == b && z == c && InVersionSuffix(t)
  {
    ClauseMatchesVersion(Clause(Exactly(a), Exactly(b), Exactly(c)), x, y, z, t);
    ExactlyShow(a, x);
    ExactlyShow(b, y);
    ExactlyShow(c, z);
  }

  /** Every exact pattern is anchored at both ends. */
  lemma ExactAnchored(version: string)
    ensures var p := ExactMatchPattern(version);
      |p| >= 2 && p[0] == '^' && p[|p| - 1] == '$'
  {
    if '*' !in version && IsGoModuleVersion(version) {
      GoModuleAnchored(version);
    }
  }

  // ---------------------------------------------------------------------
  // notEqualRegex

  /** The exact pattern with its `^` and `$` trimmed off: exactly what lies
      between the anchors. */
  function NotEqualCore(version: string): (core: string)
    ensures RegexStart + core + RegexEnd == ExactMatchPattern(version)
  {
    ExactAnchored(version);
    var exactPattern := ExactMatchPattern(version);
    var trimmed := TrimSuffix(exactPattern, RegexEnd);
    assert HasSuffix(exactPattern, RegexEnd);
    assert RegexStart <= trimmed;
    TrimPrefix(trimmed, RegexStart)
  }

  /** `notEqualRegex`: the exact pattern's core inside NOT_EQUAL_BASE_PATTERN's
      negative look-ahead. It never fails. */
  method NotEqualRegex(version: string) returns (pattern: string)
    ensures pattern == NotEqualBasePattern(NotEqualCore(version))
  {
    var exactPattern := ExactMatchRegex(version);
    var exactCore := TrimPrefix(TrimSuffix(exactPattern, RegexEnd), RegexStart);
    pattern := NotEqualBasePattern(exactCore);
  }
}
