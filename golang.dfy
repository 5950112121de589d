/** Go module versions, convert/golang.go: `v`-prefixed versions, with
    pseudo-versions matched literally and pre-release parts widened. */
module GoModules {
  import opened Text
  import opened Fragments

  /** `isGoModuleVersion`: a `v` followed by at least one character. */
  predicate IsGoModuleVersion(v: string) {
    "v" <= v && |v| > 1
  }

  /** A Go module version is a `v` and at least one more character:
      `v1.2.3` is one, and `1.2.3`, `v` and the empty text are not. */
  lemma GoModuleVersionShape(v: string)
    ensures IsGoModuleVersion(v) <==> |v| >= 2 && v[0] == 'v'
    ensures IsGoModuleVersion("v1.2.3") && !IsGoModuleVersion("1.2.3")
    ensures !IsGoModuleVersion("v") && !IsGoModuleVersion("")
  {
    assert "1.2.3"[0] == '1';
  }

  /** A pseudo-version after its `v`: at least three `-`-separated pieces,
      `0.0.0`, a 14-character timestamp and a 12-character commit hash. */
  predicate IsPseudoVersion(clean: string) {
    var parts := Split(clean, '-');
    '-' in clean && |parts| >= 3 && parts[0] == "0.0.0" && |parts[1]| == 14 && |parts[2]| == 12
  }

  /** The optional group that accepts a given pre-release tail and anything after it. */
  function PreReleaseGroup(tail: string): string {
    @"(?:-" + QuoteMeta(tail) + @".*)?"
  }

  /** One dot-separated part: quoted as it is, or, when it holds a `-`, the
      quoted text before the first `-` followed by the group for the rest. */
  function GoPart(part: string): string {
    if '-' in part then
      var head := CutAt(part, '-');
      QuoteMeta(head) + PreReleaseGroup(part[|head| + 1..])
    else QuoteMeta(part)
  }

  function GoParts(parts: seq<string>): (r: seq<string>)
    ensures |r| == |parts|
    ensures forall i | 0 <= i < |parts| :: r[i] == GoPart(parts[i])
  {
    if parts == [] then [] else [GoPart(parts[0])] + GoParts(parts[1..])
  }

  /** Splitting the part on `-` and re-joining all pieces but the first
      gives the head and the tail GoPart uses. */
  lemma GoPartOfSplit(part: string)
    requires '-' in part
    ensures var preParts := Split(part, '-');
      |preParts| > 1 && GoPart(part) == QuoteMeta(preParts[0]) + PreReleaseGroup(Join(preParts[1..], "-"))
  {
    var x := CutAt(part, '-');
    var y := part[|x| + 1..];
    CutAtShape(part, '-');
    SplitCons(x, y, '-');
    var rest := Split(y, '-');
    assert Split(part, '-')[1..] == rest;
    assert Join(rest, "-") == y;
  }

  /** What `goModuleVersionRegex` returns. */
  function GoModulePattern(version: string): string
    requires |version| > 0
  {
    var clean := version[1..];
    if IsPseudoVersion(clean) then RegexStart + QuoteMeta(version) + RegexEnd
    else
      RegexStart + "v" + Join(GoParts(Split(clean, '.')), VersionDot)
      + (if '-' in clean then "" else PreReleasePattern) + RegexEnd
  }

  /** `goModuleVersionRegex`: a pseudo-version literally; otherwise `^v`,
      the parts joined with `\.`, and the optional pre-release when the
      version names none. */
  method GoModuleVersionRegex(version: string) returns (pattern: string)
    requires |version| > 0
    ensures pattern == GoModulePattern(version)
  {
    var clean := version[1..];
    pattern := RegexStart + "v";

    if IsPseudoVersion(clean) {
      GoPseudoPattern(version);
      return RegexStart + QuoteMeta(version) + RegexEnd;
    }

    var parts := Split(clean, '.');
    ghost var rendered := GoParts(parts);
    ghost var release := if '-' in clean then "" else PreReleasePattern;
    GoReleasePattern(version, Join(rendered, VersionDot), release);
    for i := 0 to |parts|
      invariant pattern == RegexStart + "v" + Join(rendered[..i], VersionDot)
    {
      if i > 0 {
        pattern := pattern + VersionDot;
      }
      ghost var mid := pattern;
      var piece := GoPartRegex(parts[i]);
      pattern := pattern + piece;
      JoinedStep(RegexStart + "v", rendered, i, VersionDot, mid, pattern);
    }
    TakeAll(rendered);

    if '-' !in clean {
      pattern := pattern + PreReleasePattern;
    }
    assert pattern == RegexStart + "v" + Join(rendered, VersionDot) + release;
    return pattern + RegexEnd;
  }

  /** The body of the loop over the dot-separated parts: a part with a `-`
      is split on `-`, its first piece quoted and the rest made an optional
      group; any other part is quoted. */
  method GoPartRegex(part: string) returns (piece: string)
    ensures piece == GoPart(part)
  {
    if '-' in part {
      var preParts := Split(part, '-');
      GoPartOfSplit(part);
      piece := QuoteMeta(preParts[0]);
      if |preParts| > 1 {
        piece := piece + (@"(?:-" + QuoteMeta(Join(preParts[1..], "-")) + @".*)?");
      }
    } else {
      piece := QuoteMeta(part);
    }
  }

  lemma GoPseudoPattern(version: string)
    requires |version| > 0 && IsPseudoVersion(version[1..])
    ensures GoModulePattern(version) == RegexStart + QuoteMeta(version) + RegexEnd
  {
  }

  /** The pattern of a version that is not a pseudo-version, from its parts. */
  lemma GoReleasePattern(version: string, joined: string, release: string)
    requires |version| > 0 && !IsPseudoVersion(version[1..])
    requires joined == Join(GoParts(Split(version[1..], '.')), VersionDot)
    requires release == if '-' in version[1..] then "" else PreReleasePattern
    ensures GoModulePattern(version) == RegexStart + "v" + joined + release + RegexEnd
  {
  }

  /** Every result is anchored and starts with `^v`. */
  lemma GoModuleAnchored(version: string)
    requires IsGoModuleVersion(version)
    ensures var p := GoModulePattern(version);
      |p| >= 3 && p[..2] == "^v" && p[|p| - 1] == '$'
  {
    var clean := version[1..];
    if IsPseudoVersion(clean) {
      GoPseudoAnchored(version);
    } else {
      AnchoredShape(RegexStart + "v", Join(GoParts(Split(clean, '.')), VersionDot), (if '-' in clean then "" else PreReleasePattern));
    }
  }

  lemma GoPseudoAnchored(version: string)
    requires IsGoModuleVersion(version)
    ensures var p := RegexStart + QuoteMeta(version) + RegexEnd;
      |p| >= 3 && p[..2] == "^v" && p[|p| - 1] == '$'
  {
    var clean := version[1..];
    assert version == "v" + clean;
    QuoteMetaAppend("v", clean);
    assert QuoteMeta("v") == "v";
    AnchoredShape(RegexStart + "v", QuoteMeta(clean), "");
  }

  lemma AnchoredShape(head: string, middle: string, tail: string)
    requires head == "^v"
    ensures var p := head + middle + tail + RegexEnd;
      |p| >= 3 && p[..2] == "^v" && p[|p| - 1] == '$'
  {
  }

  /** A pseudo-version is matched literally: unquoting the anchored middle
      gives the version back. */
  lemma GoPseudoVersionLiteral(version: string)
    requires |version| > 0 && IsPseudoVersion(version[1..])
    ensures var p := GoModulePattern(version);
      p == RegexStart + QuoteMeta(version) + RegexEnd && Unquote(p[1..|p| - 1]) == version
  {
    var p := GoModulePattern(version);
    assert p[1..|p| - 1] == QuoteMeta(version);
    UnquoteQuoteMeta(version);
  }

  /** A version naming no pre-release is quoted whole and followed by the
      optional PRE_RELEASE_PATTERN. */
  lemma GoReleaseVersion(version: string)
    requires IsGoModuleVersion(version) && '-' !in version[1..]
    ensures GoModulePattern(version) == RegexStart + QuoteMeta(version) + PreReleasePattern + RegexEnd
  {
    var clean := version[1..];
    var parts := Split(clean, '.');
    GoPartsPlain(parts, clean);
    QuoteMetaSplit(clean);
    assert version == "v" + clean;
    QuoteMetaAppend("v", clean);
    QuoteMetaV();
    AppendAssoc(RegexStart, "v", QuoteMeta(clean));
  }

  lemma QuoteMetaV()
    ensures QuoteMeta("v") == "v"
  {
    assert !IsMeta('v');
    assert QuoteMeta("v") == ['v'] + QuoteMeta("");
  }

  /** The pieces of a text without `-` are quoted as they are. */
  lemma GoPartsPlain(parts: seq<string>, clean: string)
    requires Join(parts, ".") == clean && '-' !in clean
    ensures GoParts(parts) == QuoteAll(parts)
  {
    forall i | 0 <= i < |parts| ensures GoPart(parts[i]) == QuoteMeta(parts[i]) {
      JoinHoldsParts(parts, ".", i, '-');
    }
  }
}
