# version-to-regex core, modelled in Dafny

The `convert` package of version-to-regex turns a version constraint such as
`^1.2.3`, `>=1.2.3`, `~=1.4`, `v1.2.3`, `1.2.3.4567` or `[1.0,2.0)` into an
anchored regular expression. The expression matches the version strings that
satisfy the constraint, so matching needs no numeric comparison. This project
models that package as Dafny definitions and proves what the patterns mean.

The pieces, leaf first:

- `Decimal`: decimal numerals. `Show` stands for `strconv.Itoa` and `fmt.Sprintf("%d")`; `ParseNat` and `Atoi` stand for `strconv.Atoi`.
- `Text`: the `strings` and `regexp` helpers the package calls: `TrimSpace`, `Split`, `Join`, `Index`, `HasPrefix`/`TrimPrefix`/`TrimSuffix` and `QuoteMeta`, with `Unquote` as the inverse of `QuoteMeta`.
- `Fragments` (regexes.go): the pattern constants, and digit-range fragments as a datatype. A fragment has a rendering to pattern text and a matching predicate, so every pattern that is built has a stated language.
- `Synth` (regexes.go): `NumGreaterOrEqual` and `NumLessOrEqual`, written as loops over the digits of the threshold. They are proved equal to reference functions, and those functions are proved to match exactly the numerals `>= n` (`<= n`).
- `Versions` and `Comparisons`: whole-version patterns (clauses of three fragments, anchored, with the pre-release/build suffix). The `>=`, `>`, `<=` and `<` clause lists are proved to accept exactly the versions above or below the bound in lexicographic order.
- `Parsing` (convert.go): `parseVersionParts` and `parseVersionConstraint`, with the operator loop.
- `ExactMatch`, `Builders` (convert.go): the exact, wildcard, not-equal, comparison, caret, tilde and compatible-release builders.
- `GoModules`, `CSharp`, `Maven`: the ecosystem builders of golang.go, csharp.go and maven.go.
- `Convert` (convert.go): the `constraintToRegex` switch, and the composition of parsing and building that `VersionToRegex` compiles.

The source's loops (the digit loops of the synthesiser, the quoting loops of
the exact, C# and Go builders, the wildcard loops and the operator search) are
Dafny methods with loop invariants. The appends of the comparison builders,
straight-line and guarded by `if`, are Dafny methods without loops. Each
method is proved equal to a specification function. The remaining
code is pure and is modelled as functions. Regular-expression matching is
modelled by membership predicates written for the fragment shapes the package
emits: digit classes, `\d+`, `\d{k}`, `\d{k,}`, literals and the two suffix
groups.

## Model

| member | source | states |
|---|---|---|
| Fragments.DigitRangeUpMeaning | convert/regexes.go:254-259 | the class for digit d matches exactly the digits d..9; it is written `9` for d = 9 and `[d-9]` otherwise |
| Fragments.DigitRangeDownMeaning | convert/regexes.go:262-267 | the class for digit d matches exactly the digits 0..d; it is written `0` for d = 0 and `[0-d]` otherwise |
| Fragments.DigitRangeUp | convert/regexes.go:254-259 | the class of the digits d..9; what it matches and how it is written is stated by `Fragments.DigitRangeUpMeaning` |
| Fragments.DigitRangeDown | convert/regexes.go:262-267 | the class of the digits 0..d; what it matches and how it is written is stated by `Fragments.DigitRangeDownMeaning` |
| Fragments.JoinPatterns | convert/regexes.go:270-275 | one pattern is returned alone; any other number is joined by alternation inside a non-capturing group |
| Fragments.Exactly | convert/convert.go:446-449 | the literal fragment for n renders as the decimal text of n and only matches digits |
| Fragments.ExactlyMatches | convert/convert.go:446-449 | the literal fragment for n matches a canonical numeral exactly when its value is n |
| Fragments.AnyNumberMatches | convert/regexes.go:26 | VERSION_DIGITS matches every canonical numeral |
| Fragments.VersionSuffixShape | convert/regexes.go:33-42 | VERSION_SUFFIX_PATTERN accepts the empty suffix. A non-empty accepted suffix starts with `-` or `+`. A suffix is accepted iff the part before its first `+` is a pre-release tag and the rest is a build tag |
| Fragments.MatchesDigits | convert/regexes.go:142-251 | whatever a synthesised fragment matches is all digits |
| Fragments.RenderNonCapturing | convert/regexes.go:270-275 | a rendered multi-alternative fragment contains no capturing group |
| Synth.NumGreaterOrEqual | convert/regexes.go:142-172 | the loop builds exactly the `>= n` fragment: `\d+` for n <= 0; otherwise the more-digits alternative (below ten digits) and one alternative per usable digit position, in order |
| Synth.GreaterOrEqualAlternatives | convert/regexes.go:147-171 | the loop over digit positions appends the position alternatives in order after the more-digits one |
| Synth.NumLessOrEqual | convert/regexes.go:217-251 | the loop builds exactly the `<= n` fragment: the empty-match pattern for n < 0; otherwise the shorter-length alternatives and then the position alternatives |
| Synth.LessOrEqualAlternatives | convert/regexes.go:222-250 | both loops (shorter lengths, then digit positions) append their alternatives in order |
| Synth.GeFragmentMatches | convert/regexes.go:142-172 | the `>= n` fragment matches a canonical numeral x iff n <= x, except that at ten digits longer numerals are not matched |
| Synth.GeFragmentMatchesInRange | convert/regexes.go:142-172 | within the ten-digit range the `>= n` fragment matches x exactly when n <= x |
| Synth.LeFragmentMatches | convert/regexes.go:217-251 | the `<= n` fragment matches a canonical numeral x iff x <= n; for n < 0 it matches nothing |
| Synth.LeZeroOnlyZero | convert/regexes.go:217-251 | `<= 0` matches only the numeral `0` |
| Synth.DegenerateFragments | convert/regexes.go:143-145 | n <= 0 gives `\d+` for `>=`; n < 0 gives the empty-match pattern for `<=` (line 218-220) |
| Synth.GePositionsMatch | convert/regexes.go:157-169 | the position alternatives accept a same-length numeral x iff x is above the threshold's digits at some position, with an equal prefix before it |
| Synth.LePositionsMatch | convert/regexes.go:236-248 | the mirror statement for `<=` |
| Synth.FewerDigitsMatch | convert/regexes.go:227-233 | the shorter-length alternatives match exactly the numerals with 1 to d-1 digits |
| Synth.ValueOrder | convert/regexes.go:157-169 | two equal-length numerals compare by value exactly as the digit-position scan decides |
| Synth.LongerIsLarger | convert/regexes.go:150-154 | a canonical numeral with more digits is larger, so the more-digits alternative is sound |
| Synth.AllNinesNoAlternatives | convert/regexes.go:165-168 | positions whose digit is 9 contribute no alternative |
| Synth.MoreDigitsPresent | convert/regexes.go:152-154 | the `\d{d+1,}` alternative is present exactly when the numeral has fewer than ten digits |
| Synth.GeMaxThreshold | convert/regexes.go:142-172 | the fragment for 9999999999 renders as that numeral alone |
| Synth.SynthNonCapturing | convert/regexes.go:142-275 | synthesised fragments never contain a capturing group |
| Versions.ClauseMatchesVersion | convert/convert.go:443-451 | a clause matches `a.b.c` plus a suffix iff its three fragments match the three numerals and the suffix is accepted |
| Versions.GroupedMatchesVersion | convert/convert.go:451 | an alternation of clauses matches a version iff the suffix is accepted and some clause accepts the triple |
| Comparisons.ClauseCounts | convert/convert.go:440-531 | `>=` and `>` always have three clauses; `<=` has the patch clause plus one per non-zero major and minor; `<` has one per non-zero component and is empty only at 0.0.0 |
| Comparisons.GeMatches | convert/convert.go:434-453 | the `>= M.m.p` pattern matches `a.b.c`+suffix iff the suffix is accepted and (M,m,p) <= (a,b,c) lexicographically (components below 9999999999) |
| Comparisons.GtMatches | convert/convert.go:482-501 | the `> M.m.p` pattern matches iff (a,b,c) > (M,m,p) lexicographically (same bound) |
| Comparisons.LeMatches | convert/convert.go:456-479 | the `<= M.m.p` pattern matches iff (a,b,c) <= (M,m,p), for all components |
| Comparisons.LtMatches | convert/convert.go:504-533 | the `< M.m.p` pattern matches iff (a,b,c) < (M,m,p); at 0.0.0 nothing matches |
| Parsing.ParseVersionString | convert/convert.go:665-696 | parsing `a.b.c` followed by a `-` or `+` suffix gives (a, b, c) |
| Parsing.ParseVersionIgnoresExtra | convert/convert.go:675-695 | components after the third are ignored |
| Parsing.ParseVersionMajorOnly | convert/convert.go:677-695 | a missing minor and patch default to 0 |
| Parsing.ParseVersionMajorMinor | convert/convert.go:683-695 | a missing patch defaults to 0 |
| Parsing.ParseVersionBadMajor | convert/convert.go:677-681 | a non-numeric major gives "invalid major version: " and the part |
| Parsing.ParseVersionBadMinor | convert/convert.go:683-687 | a non-numeric minor after a good major gives "invalid minor version: " and the part, whether more components follow or not |
| Parsing.ParseVersionBadPatch | convert/convert.go:689-693 | a non-numeric patch after a good major and minor gives "invalid patch version: " and the part, whether more components follow or not |
| Parsing.ParseVersionParts | convert/convert.go:665-696 | cuts the pre-release and build suffix, splits on dots and reads up to three numerals, minor and patch defaulting to 0 and the first bad one named in the error; stated by `ParseVersionString`, `ParseVersionIgnoresExtra`, `ParseVersionMajorOnly`, `ParseVersionMajorMinor`, `ParseVersionBadMajor`, `ParseVersionBadMinor`, `ParseVersionBadPatch` and `NumericCoreOf` |
| Parsing.NumericCoreOf | convert/convert.go:667-673 | the pre-release and build suffix are cut before the numbers are read |
| Parsing.ParseVersionConstraint | convert/convert.go:225-251 | trims the text, sends a bracketed text to the Maven parser, otherwise takes the first operator of the list that prefixes it, with the trimmed rest; without one it returns `==` and the whole text |
| Parsing.ParsedConstraint | convert/convert.go:225-251 | the constraint the parser returns; stated by `Parsing.ParseVersionConstraint`, `Parsing.FirstOperator`, `Parsing.LongestOperator`, `Parsing.ParsedOperatorKnown`, `Convert.LeadingSpaceIgnored`, `Convert.OperatorBeforeNumeral` and `Convert.BareNumeral` |
| Parsing.FindOperator | convert/convert.go:236-244 | the loop returns the first operator of the list that prefixes the text, or none |
| Parsing.FirstOperator | convert/convert.go:234-244 | a found operator is in the list and prefixes the text; none is found iff no operator prefixes it |
| Parsing.LongestOperator | convert/convert.go:233-234 | the list order makes the chosen operator the longest one that prefixes the text |
| Parsing.ParsedOperatorKnown | convert/convert.go:225-251 | every parsed operator is one of the list or the Maven range tag |
| ExactMatch.ExactPieces | convert/convert.go:351-362 | the version splits into main part, pre-release (starting at the first `-` before any `+`) and build metadata (from the first `+`), which concatenate back to the version |
| ExactMatch.ExactPiecesUnique | convert/convert.go:351-362 | any split with those properties is the one computed |
| ExactMatch.ExactMatchRegex | convert/convert.go:334-390 | dispatches wildcard, Go-module and C# versions to their builders; otherwise quotes each dotted part, then the pre-release or PRE_RELEASE_PATTERN, then the build or BUILD_META_PATTERN |
| ExactMatch.SemVerPlain | convert/convert.go:364-388 | a version without `-` or `+` becomes its quoted text followed by the optional suffix |
| ExactMatch.SemVerLiteral | convert/convert.go:375-388 | a version with both pre-release and build becomes its quoted text alone, and unquoting the pattern gives the version back |
| ExactMatch.SemVerPreReleaseOnly | convert/convert.go:375-388 | a version with a pre-release and no build metadata is quoted whole, followed by the optional BUILD_META_PATTERN |
| ExactMatch.SemVerBuildOnly | convert/convert.go:375-388 | a version with build metadata and no pre-release becomes its quoted main part, the optional PRE_RELEASE_PATTERN, then its quoted build |
| ExactMatch.ExactSemVer | convert/convert.go:334-390 | an exact `a.b.c` becomes the single clause of three literal fragments |
| ExactMatch.ExactSemVerMatches | convert/convert.go:334-390 | that pattern matches `x.y.z`+suffix iff x.y.z = a.b.c and the suffix is accepted |
| ExactMatch.ExactAnchored | convert/convert.go:334-390 | every exact pattern starts with `^` and ends with `$` |
| ExactMatch.VersionStringRoute | convert/convert.go:336-348 | a plain `a.b.c` reaches the semantic-version branch, not the wildcard, Go or C# ones |
| ExactMatch.ConvertWildcardParts | convert/convert.go:403-413 | each `*` part becomes VERSION_DIGITS and every other part is quoted |
| ExactMatch.WildcardParts | convert/convert.go:403-413 | the converted list has the same length and maps each part independently |
| ExactMatch.PadToSemanticVersion | convert/convert.go:417-431 | the parts are padded with VERSION_DIGITS to three, only when the last original part is `*` |
| ExactMatch.PaddedParts | convert/convert.go:417-431 | the padded list keeps the given parts as a prefix and adds only VERSION_DIGITS |
| ExactMatch.WildcardToRegex | convert/convert.go:394-400 | splits on dots, converts, pads, joins with `\.` and appends the optional suffix |
| ExactMatch.WildcardMajor | convert/convert.go:394-400 | `a.*` gives the caret template for major a |
| ExactMatch.WildcardMinor | convert/convert.go:394-400 | `a.b.*` gives the tilde template for a.b |
| ExactMatch.WildcardStar | convert/convert.go:394-400 | `*` gives EXACT_VERSION_TEMPLATE |
| ExactMatch.WildcardNotLast | convert/convert.go:423-425 | without a trailing `*` no padding happens |
| ExactMatch.NotEqualCore | convert/convert.go:539-541 | the core put back between `^` and `$` is the exact pattern |
| ExactMatch.NotEqualRegex | convert/convert.go:536-545 | the not-equal pattern is NOT_EQUAL_BASE_PATTERN around the exact pattern's core |
| Builders.ComparisonOf | convert/convert.go:434-533 | a comparison builder fails exactly when the version does not parse, with the parse error |
| Builders.ComparisonOfParsed | convert/convert.go:434-533 | for a parsed version the result is the comparison pattern of its three numbers |
| Builders.GreaterThanEqualRegex | convert/convert.go:434-453 | returns the `>=` result for the version |
| Builders.GreaterEqualAlternation | convert/convert.go:440-452 | the appended clauses render the `>=` pattern |
| Builders.GreaterThanRegex | convert/convert.go:482-501 | returns the `>` result for the version |
| Builders.GreaterAlternation | convert/convert.go:488-500 | the appended clauses render the `>` pattern |
| Builders.LessThanEqualRegex | convert/convert.go:456-479 | returns the `<=` result for the version |
| Builders.LessEqualAlternation | convert/convert.go:462-478 | the conditionally appended clauses render the `<=` pattern |
| Builders.LessThanRegex | convert/convert.go:504-533 | returns the `<` result, EMPTY_MATCH_PATTERN when no clause remains |
| Builders.LessAlternation | convert/convert.go:510-532 | the conditionally appended clauses render the `<` pattern |
| Builders.CaretRangeRegex | convert/convert.go:573-588 | propagates the parse error; otherwise the caret pattern of major and minor |
| Builders.TildeRangeRegex | convert/convert.go:615-625 | propagates the parse error; otherwise the tilde pattern of major and minor |
| Builders.CompatibleReleaseRegex | convert/convert.go:628-631 | `~=` gives the same result as the tilde builder |
| Builders.CaretTemplates | convert/convert.go:580-584 | the caret pattern is CARET_RANGE_TEMPLATE for major > 0 and CARET_RANGE_ZERO_MAJOR_TEMPLATE for major 0 |
| Builders.TildeTemplate | convert/convert.go:621 | the tilde pattern is TILDE_RANGE_TEMPLATE |
| Builders.CaretMatches | convert/convert.go:573-588 | the caret pattern matches `a.b.c`+suffix iff a = major, and also b = minor when major is 0 |
| Builders.TildeMatches | convert/convert.go:615-625 | the tilde pattern matches iff a = major and b = minor |
| Builders.CaretIgnoresLowerBound | convert/convert.go:573-588 | `^M.m.p` (M > 0) also matches versions of major M below m.p |
| Builders.TildeIgnoresLowerBound | convert/convert.go:615-625 | `~M.m.p` also matches M.m.c for any c, including c < p |
| Builders.RangesOfVersion | convert/convert.go:573-625 | caret and tilde of a parsed `a.b.c` use its major and minor |
| GoModules.GoModuleVersionRegex | convert/golang.go:67-107 | the Go pattern: a pseudo-version quoted whole; otherwise `^v`, each dotted part, and PRE_RELEASE_PATTERN when there is no `-` |
| GoModules.GoPartRegex | convert/golang.go:88-98 | a part with `-` becomes its quoted head and an optional group for the rest; other parts are quoted |
| GoModules.GoPartOfSplit | convert/golang.go:88-95 | a part with `-` splits into more than one piece, and the head and re-joined tail are what the pattern uses |
| GoModules.GoPseudoVersionLiteral | convert/golang.go:74-80 | a pseudo-version becomes its quoted text, and unquoting the pattern gives the version |
| GoModules.GoReleaseVersion | convert/golang.go:83-106 | a release version without `-` becomes its quoted text followed by PRE_RELEASE_PATTERN |
| GoModules.GoModuleAnchored | convert/golang.go:67-107 | every Go pattern starts with `^v` and ends with `$` |
| GoModules.IsGoModuleVersion | convert/golang.go:30-34 | a `v` followed by at least one character; stated by `GoModules.GoModuleVersionShape` |
| GoModules.GoModuleVersionShape | convert/golang.go:24-34 | a text is a Go module version iff it has at least two characters and starts with `v`: `v1.2.3` is one, `1.2.3`, `v` and the empty text are not |
| CSharp.CSharpVersionDots | convert/csharp.go:24-28 | a C# version is one with four dotted parts or one of the pre-release markers |
| CSharp.IsCSharpVersion | convert/csharp.go:24-28 | four dot-separated parts or a NuGet pre-release tag; stated by `CSharp.CSharpVersionDots` |
| CSharp.ContainsCSharpPreRelease | convert/csharp.go:46-52 | one of `-alpha`, `-beta`, `-rc`, `-preview` occurs in the text; stated by `CSharp.CSharpPreReleaseNeedsDash` |
| CSharp.CSharpPreReleaseNeedsDash | convert/csharp.go:41-52 | a text with a pre-release tag holds a `-`, and `1.0.0-beta001` holds one |
| CSharp.CSharpVersionRegex | convert/csharp.go:77-106 | quotes the dotted parts before the first `-`, then the quoted pre-release or the optional C# pre-release group |
| CSharp.CSharpPreReleaseLiteral | convert/csharp.go:84-99 | a version with `-` becomes its quoted text, and unquoting gives it back |
| Maven.ParseMavenRange | convert/maven.go:10-33 | accepts a text of length >= 3 with an opening and a closing bracket and keeps its inside; a shorter one gives "invalid Maven range format: ", a longer one with wrong brackets "invalid Maven range brackets: " |
| Maven.MavenBracketKindLost | convert/maven.go:22-32 | the bracket kinds are not kept: `[x]`, `(x)`, `[x)` and `(x]` parse alike |
| Maven.ParseMavenRangeBounds | convert/maven.go:55-61 | succeeds iff the range holds exactly one comma |
| Maven.MavenBoundsSplit | convert/maven.go:56-60 | the bounds are the trimmed texts on either side of the comma |
| Maven.ExtractMajorOf | convert/maven.go:64-68 | the major of a numeral followed by nothing or a dotted rest is that numeral |
| Maven.ExtractMajorDefault | convert/maven.go:64-68 | a first part that does not convert gives major 0 |
| Maven.ExtractMajorVersion | convert/maven.go:64-68 | the first dotted part converted, 0 when it does not convert; stated by `Maven.ExtractMajorOf` and `Maven.ExtractMajorDefault` |
| Maven.MavenRangeRegex | convert/maven.go:36-52 | fails iff there is not exactly one comma; every result starts with `^` and ends with `\.\d+\.\d+`, the suffix pattern and `$` |
| Maven.MavenDispatch | convert/maven.go:42-51 | both bounds, lower only, upper only or neither select the four builders in that order |
| Maven.MavenBothBoundsMeaning | convert/maven.go:73-81 | with single-digit majors l <= u the pattern matches versions whose major is in l..u |
| Maven.MavenSameMajorMeaning | convert/maven.go:77-79 | equal majors give a pattern matching exactly that major |
| Maven.MavenLowerBoundMeaning | convert/maven.go:85-88 | a lower major l in 0..9 gives a pattern matching majors >= l |
| Maven.MavenUpperBoundMeaning | convert/maven.go:93-97 | an upper major u in 1..9 gives a pattern matching majors <= u |
| Maven.MavenUpperBoundZero | convert/maven.go:98 | an upper major <= 0 gives the pattern for major 0 only |
| Maven.MavenBothBoundsPattern | convert/maven.go:73-81 | one major, or the class from the lower to the upper major; stated by `Maven.MavenBothBoundsMeaning` and `Maven.MavenSameMajorMeaning` |
| Maven.MavenLowerBoundPattern | convert/maven.go:85-88 | a digit from the lower major to 9, or two digits or more; stated by `Maven.MavenLowerBoundMeaning` |
| Maven.MavenUpperBoundPattern | convert/maven.go:93-99 | a digit from 0 to the upper major, or `0` alone; stated by `Maven.MavenUpperBoundMeaning` and `Maven.MavenUpperBoundZero` |
| Convert.RouteOf | convert/convert.go:280-303 | an operator is unsupported exactly when it is outside the operator list and the Maven tag |
| Convert.RouteTable | convert/convert.go:281-299 | `==`/`=` share the exact builder, `~`/`~>` the tilde builder, `^` and `~=` their own |
| Convert.ConstraintToRegex | convert/convert.go:277-304 | the switch calls the builder of the operator's route on the version |
| Convert.UnsupportedOperator | convert/convert.go:301-302 | an unknown operator gives "unsupported operator: " and the operator |
| Convert.ExactNeverFails | convert/convert.go:281-292 | exact and not-equal never fail |
| Convert.NumericFailsOnParse | convert/convert.go:283-298 | the numeric builders fail exactly when the version does not parse |
| Convert.MavenFailsOnComma | convert/convert.go:299-300 | a Maven range fails exactly when it does not hold one comma |
| Convert.ConstraintText | convert/convert.go:91-103 | a parse error is passed on; otherwise the result is the parsed constraint's pattern |
| Convert.ParsedOperatorCompiles | convert/convert.go:225-304 | every operator the parser produces has a builder |
| Convert.LeadingSpaceIgnored | convert/convert.go:226 | leading white space does not change the parse |
| Convert.OperatorBeforeNumeral | convert/convert.go:233-243 | an operator followed by a numeral parses as that operator, never as a shorter one |
| Convert.ComparisonConstraint | convert/convert.go:91-103 | `>=a.b.c`, `>a.b.c`, `<=a.b.c` and `<a.b.c` produce their comparison patterns |
| Convert.CaretConstraint | convert/convert.go:91-103 | `^a.b.c` produces the caret pattern of a and b |
| Convert.TildeConstraints | convert/convert.go:293-298 | `~a.b.c` produces the tilde pattern, and `~>` and `~=` produce the same text |
| Convert.ExactConstraints | convert/convert.go:281-282 | `==a.b.c` and `=a.b.c` both give the exact pattern |
| Convert.BareNumeral | convert/convert.go:246-250 | a text without an operator is an exact `==` constraint |
| Text.TrimSpace | convert/convert.go:226 | the result is the text with the white space removed at both ends, and it neither starts nor ends with white space |
| Text.Split | convert/convert.go:364 | the pieces hold no separator, and joining them with it gives the text back |
| Text.SplitCount | convert/maven.go:56-57 | the number of pieces is one more than the number of separators |
| Text.QuoteMetaJoin | convert/convert.go:364-372 | quoting each dotted part and joining with `\.` is the same as quoting the whole |
| Text.UnquoteQuoteMeta | convert/convert.go:371 | quoting is undone by unquoting |
| Text.QuoteMeta | convert/convert.go:371 | puts a backslash before each regular-expression metacharacter; stated by `Text.UnquoteQuoteMeta` and `Text.QuoteMetaJoin` |
| Text.IndexOf | convert/convert.go:355-361 | the first occurrence of the character, or -1 exactly when it is absent |
| Decimal.ShowValue | convert/regexes.go:147 | a canonical numeral is the decimal text of its value |
| Decimal.ShowCanonical | convert/regexes.go:147 | the decimal text of n is canonical and has value n |
| Decimal.AtoiShowInt | convert/maven.go:66 | converting the decimal text of an integer gives it back |
| Decimal.Atoi | convert/maven.go:66 | converts an optionally signed numeral: a plain numeral to its value, and any text that is neither fails |

## Left out

- `VersionToRegex`, `VersionMatches` and `MustVersionToRegex` (convert/convert.go:91-198) compile the pattern with Go's `regexp` package, apply it or panic. Compilation, the error wrapping and the panic are not modelled. `Convert.ConstraintText` is the pattern text they compile.
- Regular-expression matching is modelled only for the fragment shapes the package emits. The meaning of NOT_EQUAL_BASE_PATTERN and EMPTY_MATCH_PATTERN needs negative look-ahead, which Go's RE2 engine rejects, so those two patterns are modelled as text only. `Versions.MatchesVersion` treats the empty-match pattern as matching nothing, as intended.
- Comparisons.GeMatches: stated for components and thresholds up to 9999999999, because NumGreaterOrEqual leaves out the longer-numeral alternative at ten digits (`Synth.GeFragmentMatches` states the behaviour outside that range).
- Comparisons.GtMatches: same bound, for the same reason.
- Go's 64-bit `int` and the range errors of `strconv.Atoi` are not modelled; numbers are unbounded.
- Strings are sequences of characters rather than bytes, and input is assumed to be ASCII. On other input the model differs from the package in three places: the length test and the first and last characters of a Maven range (convert/maven.go:15-20) are bytes there, so `[é` is "invalid Maven range brackets: " in the package and "invalid Maven range format: " in the model; the 14- and 12-character timestamp and hash of a Go pseudo-version (convert/golang.go:76) are byte counts there; and `Text.TrimSpace` follows `unicode.IsSpace` on characters, which the package applies to decoded UTF-8.
- Maven.MavenBothBoundsMeaning: the meaning is proved for majors 0..9 with l <= u only. For l > u the source builds a class such as `[5-3]`, which RE2 rejects, and for majors of 10 and more the class `[l-u]` reads digit by digit. The pattern text is modelled for every input.
- Maven.MavenLowerBoundMeaning: proved for a lower major of one digit, 0..9. From 10 on the class `[l-9]` reads digit by digit and does not mean "at least l".
- Maven.MavenUpperBoundMeaning: covers upper majors 1..9; `Maven.MavenUpperBoundZero` covers majors <= 0.
- The appends of the comparison builders are separate methods (`Builders.GreaterEqualAlternation` and the others), and so are the operator search (`Parsing.FindOperator`) and the per-part body of the Go loop (`GoModules.GoPartRegex`). The behaviour is the same.
- The command-line entry point and the package tests are not part of this model.

## Where the documentation and the code differ

The model follows the code:

- The comments describe `^1.2.3` as `>=1.2.3 <2.0.0` and `~1.2.3` as `>=1.2.3 <1.3.0`. The code ignores the patch and, for the caret, the minor lower bound (`Builders.CaretIgnoresLowerBound`, `Builders.TildeIgnoresLowerBound`).
- Maven ranges lose the kind of their brackets, so inclusive and exclusive bounds give the same pattern (`Maven.MavenBracketKindLost`). Only the majors of the bounds are used.
