/** C# NuGet versions, convert/csharp.go: detection and the literal pattern
    with its optional NuGet pre-release tail. */
module CSharp {
  import opened Text
  import opened Fragments

  /** `containsCSharpPreRelease`: one of the usual NuGet pre-release tags
      occurs somewhere in the text. */
  predicate ContainsCSharpPreRelease(v: string) {
    Contains(v, "-alpha") || Contains(v, "-beta") || Contains(v, "-rc") || Contains(v, "-preview")
  }

  /** Every tag starts with `-`, so a text without `-` holds none of them:
      `1.2.3` is not a pre-release, `1.0.0-beta001` is. */
  lemma CSharpPreReleaseNeedsDash(v: string)
    ensures ContainsCSharpPreRelease(v) ==> '-' in v
    ensures ContainsCSharpPreRelease("1.0.0-beta001")
  {
    if Contains(v, "-alpha") { ContainsHead(v, "-alpha"); }
    if Contains(v, "-beta") { ContainsHead(v, "-beta"); }
    if Contains(v, "-rc") { ContainsHead(v, "-rc"); }
    if Contains(v, "-preview") { ContainsHead(v, "-preview"); }
    assert OccursAt("1.0.0-beta001", "-beta", 5);
  }

  /** `isCSharpVersion`: four dot-separated parts, or a NuGet pre-release tag. */
  predicate IsCSharpVersion(v: string) {
    |Split(v, '.')| == 4 || ContainsCSharpPreRelease(v)
  }

  /** Four parts means exactly three dots. */
  lemma CSharpVersionDots(v: string)
    ensures IsCSharpVersion(v) <==> multiset(v)['.'] == 3 || ContainsCSharpPreRelease(v)
  {
    SplitCount(v, '.');
  }

  /** The tail appended when the version names no pre-release. */
  const CSharpPreReleaseTail := @"(?:-(?:alpha|beta|rc|preview)(?:\d+)?(?:\.\d+)?)?"

  /** What `csharpVersionRegex` returns: the version quoted literally and
      anchored, with the optional NuGet tail when it holds no `-`. */
  function CSharpPattern(v: string): string {
    RegexStart + QuoteMeta(v) + (if '-' in v then "" else CSharpPreReleaseTail) + RegexEnd
  }

  /** The pieces the method puts together make up the quoted version. */
  lemma CSharpAssembly(version: string, mainVersion: string, preRelease: string)
    requires mainVersion + preRelease == version
    requires preRelease != "" <==> '-' in version
    ensures RegexStart + Join(QuoteAll(Split(mainVersion, '.')), VersionDot)
      + (if preRelease != "" then QuoteMeta(preRelease) else CSharpPreReleaseTail) + RegexEnd
      == CSharpPattern(version)
  {
    QuoteMetaSplit(mainVersion);
    QuoteMetaAppend(mainVersion, preRelease);
    if preRelease == "" {
      assert mainVersion == version;
    }
  }

  /** `csharpVersionRegex`: split at the first `-`, quote the dot-separated
      parts of the main version and join them with `\.`, then the quoted
      pre-release or the optional tail. */
  method CSharpVersionRegex(version: string) returns (pattern: string)
    ensures pattern == CSharpPattern(version)
  {
    pattern := RegexStart;

    var mainVersion := version;
    var preRelease := "";
    var idx := IndexOf(version, '-');
    if idx != -1 {
      preRelease := version[idx..];
      mainVersion := version[..idx];
    }
    assert mainVersion + preRelease == version;
    assert preRelease != "" <==> '-' in version;

    var parts := Split(mainVersion, '.');
    for i := 0 to |parts|
      invariant pattern == RegexStart + Join(QuoteAll(parts[..i]), VersionDot)
    {
      ghost var before := Join(QuoteAll(parts[..i]), VersionDot);
      if i > 0 {
        pattern := pattern + VersionDot;
      }
      pattern := pattern + QuoteMeta(parts[i]);
      QuoteAllStep(parts, i, VersionDot);
      AppendAssoc(RegexStart, before, VersionDot);
      AppendAssoc(RegexStart, (if i > 0 then before + VersionDot else ""), QuoteMeta(parts[i]));
    }
    assert parts[..|parts|] == parts;
    CSharpAssembly(version, mainVersion, preRelease);

    if preRelease != "" {
      pattern := pattern + QuoteMeta(preRelease);
    } else {
      pattern := pattern + CSharpPreReleaseTail;
    }
    return pattern + RegexEnd;
  }

  /** A version naming its pre-release is matched literally: unquoting the
      anchored middle gives the version back. */
  lemma CSharpPreReleaseLiteral(v: string)
    requires '-' in v
    ensures CSharpPattern(v) == RegexStart + QuoteMeta(v) + RegexEnd
    ensures Unquote(CSharpPattern(v)[1..|CSharpPattern(v)| - 1]) == v
  {
    var p := CSharpPattern(v);
    assert p[1..|p| - 1] == QuoteMeta(v);
    UnquoteQuoteMeta(v);
  }
}
