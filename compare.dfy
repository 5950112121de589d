/** The clauses of the comparison builders of convert/convert.go
    (greaterThanEqualRegex, lessThanEqualRegex, greaterThanRegex,
    lessThanRegex) and what they mean: lexicographic order on
    major.minor.patch. */
module Comparisons {
  import opened Decimal
  import opened Fragments
  import opened Synth
  import opened Versions

  /** The three clauses of `>=M.m.p`: a larger major; the same major and a
      larger minor; the same major and minor and a patch of at least p. */
  function GeClauses(major: nat, minor: nat, patch: nat): seq<Clause> {
    [ Clause(GeFragment(major + 1), AnyNumber, AnyNumber),
      Clause(Exactly(major), GeFragment(minor + 1), AnyNumber),
      Clause(Exactly(major), Exactly(minor), GeFragment(patch)) ]
  }

  /** The three clauses of `>M.m.p`: as for `>=`, with a patch above p. */
  function GtClauses(major: nat, minor: nat, patch: nat): seq<Clause> {
    [ Clause(GeFragment(major + 1), AnyNumber, AnyNumber),
      Clause(Exactly(major), GeFragment(minor + 1), AnyNumber),
      Clause(Exactly(major), Exactly(minor), GeFragment(patch + 1)) ]
  }

  /** The clauses of `<=M.m.p`; the smaller-major clause only when M > 0,
      the smaller-minor clause only when m > 0. */
  function LeClauses(major: nat, minor: nat, patch: nat): seq<Clause> {
    (if major > 0 then [Clause(LeFragment(major - 1), AnyNumber, AnyNumber)] else [])
    + (if minor > 0 then [Clause(Exactly(major), LeFragment(minor - 1), AnyNumber)] else [])
    + [Clause(Exactly(major), Exactly(minor), LeFragment(patch))]
  }

  /** The clauses of `<M.m.p`; as for `<=`, and the patch clause only when p > 0. */
  function LtClauses(major: nat, minor: nat, patch: nat): seq<Clause> {
    (if major > 0 then [Clause(LeFragment(major - 1), AnyNumber, AnyNumber)] else [])
    + (if minor > 0 then [Clause(Exactly(major), LeFragment(minor - 1), AnyNumber)] else [])
    + (if patch > 0 then [Clause(Exactly(major), Exactly(minor), LeFragment(patch - 1))] else [])
  }

  function GePattern(major: nat, minor: nat, patch: nat): VersionPattern {
    Grouped(GeClauses(major, minor, patch))
  }

  function GtPattern(major: nat, minor: nat, patch: nat): VersionPattern {
    Grouped(GtClauses(major, minor, patch))
  }

  function LePattern(major: nat, minor: nat, patch: nat): VersionPattern {
    Grouped(LeClauses(major, minor, patch))
  }

  /** `<0.0.0` has no clause and becomes the pattern that matches nothing. */
  function LtPattern(major: nat, minor: nat, patch: nat): VersionPattern {
    var cs := LtClauses(major, minor, patch);
    if cs == [] then NoVersion else Grouped(cs)
  }

  /** Lexicographic order on (major, minor, patch). */
  predicate LexLessEq(a: nat, b: nat, c: nat, x: nat, y: nat, z: nat) {
    a < x || (a == x && (b < y || (b == y && c <= z)))
  }

  // ---------------------------------------------------------------------
  // Shape

  /** `>=` and `>` always have their three clauses; `<=` drops the major
      clause exactly when M = 0 and the minor clause exactly when m = 0;
      `<` also drops the patch clause exactly when p = 0. */
  lemma ClauseCounts(major: nat, minor: nat, patch: nat)
    ensures |GeClauses(major, minor, patch)| == 3 && |GtClauses(major, minor, patch)| == 3
    ensures |LeClauses(major, minor, patch)| == 1 + (if major > 0 then 1 else 0) + (if minor > 0 then 1 else 0)
    ensures |LtClauses(major, minor, patch)| ==
      (if major > 0 then 1 else 0) + (if minor > 0 then 1 else 0) + (if patch > 0 then 1 else 0)
    ensures LtPattern(major, minor, patch) == NoVersion <==> major == 0 && minor == 0 && patch == 0
  {
  }

  // ---------------------------------------------------------------------
  // Components on canonical numerals

  lemma GeShow(n: nat, a: nat)
    requires n <= MaxThreshold && a <= MaxThreshold
    ensures Matches(GeFragment(n), Show(a)) <==> n <= a
  {
    ShowCanonical(a);
    ShowLength(a, 10);
    assert Pow10(10) == 10000000000;
    GeFragmentMatchesInRange(n, Show(a));
  }

  lemma LeShow(n: int, a: nat)
    ensures Matches(LeFragment(n), Show(a)) <==> a <= n
  {
    ShowCanonical(a);
    LeFragmentMatches(n, Show(a));
  }

  lemma DigitGeClauses(major: nat, minor: nat, patch: nat)
    ensures forall c | c in GeClauses(major, minor, patch) :: DigitClause(c)
  {
    SynthDigitsOnly(major + 1);
    SynthDigitsOnly(minor + 1);
    SynthDigitsOnly(patch);
    DigitThree(Clause(GeFragment(major + 1), AnyNumber, AnyNumber),
               Clause(Exactly(major), GeFragment(minor + 1), AnyNumber),
               Clause(Exactly(major), Exactly(minor), GeFragment(patch)));
  }

  lemma DigitGtClauses(major: nat, minor: nat, patch: nat)
    ensures forall c | c in GtClauses(major, minor, patch) :: DigitClause(c)
  {
    SynthDigitsOnly(major + 1);
    SynthDigitsOnly(minor + 1);
    SynthDigitsOnly(patch + 1);
    DigitThree(Clause(GeFragment(major + 1), AnyNumber, AnyNumber),
               Clause(Exactly(major), GeFragment(minor + 1), AnyNumber),
               Clause(Exactly(major), Exactly(minor), GeFragment(patch + 1)));
  }

  lemma DigitThree(c0: Clause, c1: Clause, c2: Clause)
    requires DigitClause(c0) && DigitClause(c1) && DigitClause(c2)
    ensures forall c | c in [c0, c1, c2] :: DigitClause(c)
  {
  }

  lemma DigitLeClauses(major: nat, minor: nat, patch: nat)
    ensures forall c | c in LeClauses(major, minor, patch) :: DigitClause(c)
  {
    SynthDigitsOnly(major - 1);
    SynthDigitsOnly(minor - 1);
    SynthDigitsOnly(patch);
    DigitOptional(major > 0, minor > 0, true,
                  Clause(LeFragment(major - 1), AnyNumber, AnyNumber),
                  Clause(Exactly(major), LeFragment(minor - 1), AnyNumber),
                  Clause(Exactly(major), Exactly(minor), LeFragment(patch)));
  }

  lemma DigitLtClauses(major: nat, minor: nat, patch: nat)
    ensures forall c | c in LtClauses(major, minor, patch) :: DigitClause(c)
  {
    SynthDigitsOnly(major - 1);
    SynthDigitsOnly(minor - 1);
    SynthDigitsOnly(patch - 1);
    DigitOptional(major > 0, minor > 0, patch > 0,
                  Clause(LeFragment(major - 1), AnyNumber, AnyNumber),
                  Clause(Exactly(major), LeFragment(minor - 1), AnyNumber),
                  Clause(Exactly(major), Exactly(minor), LeFragment(patch - 1)));
  }

  /** Optional clauses of digit fragments. */
  lemma DigitOptional(b0: bool, b1: bool, b2: bool, c0: Clause, c1: Clause, c2: Clause)
    requires DigitClause(c0) && DigitClause(c1) && DigitClause(c2)
    ensures forall c | c in (if b0 then [c0] else []) + (if b1 then [c1] else []) + (if b2 then [c2] else []) :: DigitClause(c)
  {
  }

  // ---------------------------------------------------------------------
  // Which clause accepts which triple

  lemma HigherMajorAccepts(major: nat, a: nat, b: nat, c: nat)
    requires major < MaxThreshold && a <= MaxThreshold
    ensures ClauseAccepts(Clause(GeFragment(major + 1), AnyNumber, AnyNumber), a, b, c) <==> a > major
  {
    GeShow(major + 1, a);
    AnyNumberShow(b);
    AnyNumberShow(c);
  }

  lemma HigherMinorAccepts(major: nat, minor: nat, a: nat, b: nat, c: nat)
    requires minor < MaxThreshold && b <= MaxThreshold
    ensures ClauseAccepts(Clause(Exactly(major), GeFragment(minor + 1), AnyNumber), a, b, c) <==> a == major && b > minor
  {
    ExactlyShow(major, a);
    GeShow(minor + 1, b);
    AnyNumberShow(c);
  }

  lemma PatchAtLeastAccepts(major: nat, minor: nat, n: nat, a: nat, b: nat, c: nat)
    requires n <= MaxThreshold && c <= MaxThreshold
    ensures ClauseAccepts(Clause(Exactly(major), Exactly(minor), GeFragment(n)), a, b, c) <==>
      a == major && b == minor && c >= n
  {
    ExactlyShow(major, a);
    ExactlyShow(minor, b);
    GeShow(n, c);
  }

  lemma LowerMajorAccepts(major: nat, a: nat, b: nat, c: nat)
    ensures ClauseAccepts(Clause(LeFragment(major - 1), AnyNumber, AnyNumber), a, b, c) <==> a < major
  {
    LeShow(major - 1, a);
    AnyNumberShow(b);
    AnyNumberShow(c);
  }

  lemma LowerMinorAccepts(major: nat, minor: nat, a: nat, b: nat, c: nat)
    ensures ClauseAccepts(Clause(Exactly(major), LeFragment(minor - 1), AnyNumber), a, b, c) <==> a == major && b < minor
  {
    ExactlyShow(major, a);
    LeShow(minor - 1, b);
    AnyNumberShow(c);
  }

  lemma PatchAtMostAccepts(major: nat, minor: nat, n: int, a: nat, b: nat, c: nat)
    ensures ClauseAccepts(Clause(Exactly(major), Exactly(minor), LeFragment(n)), a, b, c) <==>
      a == major && b == minor && c <= n
  {
    ExactlyShow(major, a);
    ExactlyShow(minor, b);
    LeShow(n, c);
  }

  lemma ThreeAccept(c0: Clause, c1: Clause, c2: Clause, a: nat, b: nat, c: nat)
    ensures SomeClauseAccepts([c0, c1, c2], a, b, c) <==>
      ClauseAccepts(c0, a, b, c) || ClauseAccepts(c1, a, b, c) || ClauseAccepts(c2, a, b, c)
  {
    assert [c0, c1, c2] == [c0] + [c1] + [c2];
    SomeClauseAcceptsAppend([c0] + [c1], [c2], a, b, c);
    SomeClauseAcceptsAppend([c0], [c1], a, b, c);
    SomeClauseAcceptsSingle(c0, a, b, c);
    SomeClauseAcceptsSingle(c1, a, b, c);
    SomeClauseAcceptsSingle(c2, a, b, c);
  }

  lemma GeAccepts(major: nat, minor: nat, patch: nat, a: nat, b: nat, c: nat)
    requires major < MaxThreshold && minor < MaxThreshold && patch <= MaxThreshold
    requires a <= MaxThreshold && b <= MaxThreshold && c <= MaxThreshold
    ensures SomeClauseAccepts(GeClauses(major, minor, patch), a, b, c) <==> LexLessEq(major, minor, patch, a, b, c)
  {
    var cs := GeClauses(major, minor, patch);
    ThreeAccept(cs[0], cs[1], cs[2], a, b, c);
    HigherMajorAccepts(major, a, b, c);
    HigherMinorAccepts(major, minor, a, b, c);
    PatchAtLeastAccepts(major, minor, patch, a, b, c);
  }

  lemma GtAccepts(major: nat, minor: nat, patch: nat, a: nat, b: nat, c: nat)
    requires major < MaxThreshold && minor < MaxThreshold && patch < MaxThreshold
    requires a <= MaxThreshold && b <= MaxThreshold && c <= MaxThreshold
    ensures SomeClauseAccepts(GtClauses(major, minor, patch), a, b, c) <==> !LexLessEq(a, b, c, major, minor, patch)
  {
    var c0 := Clause(GeFragment(major + 1), AnyNumber, AnyNumber);
    var c1 := Clause(Exactly(major), GeFragment(minor + 1), AnyNumber);
    var c2 := Clause(Exactly(major), Exactly(minor), GeFragment(patch + 1));
    assert GtClauses(major, minor, patch) == [c0, c1, c2];
    ThreeAccept(c0, c1, c2, a, b, c);
    HigherMajorAccepts(major, a, b, c);
    HigherMinorAccepts(major, minor, a, b, c);
    PatchAtLeastAccepts(major, minor, patch + 1, a, b, c);
    assert ClauseAccepts(c2, a, b, c) <==> a == major && b == minor && c > patch;
  }

  /** The optional smaller-major and smaller-minor clauses of `<=` and `<`. */
  lemma LowerAccepts(major: nat, minor: nat, a: nat, b: nat, c: nat)
    ensures SomeClauseAccepts(if major > 0 then [Clause(LeFragment(major - 1), AnyNumber, AnyNumber)] else [], a, b, c)
      <==> a < major
    ensures SomeClauseAccepts(if minor > 0 then [Clause(Exactly(major), LeFragment(minor - 1), AnyNumber)] else [], a, b, c)
      <==> a == major && b < minor
  {
    SomeClauseAcceptsSingle(Clause(LeFragment(major - 1), AnyNumber, AnyNumber), a, b, c);
    SomeClauseAcceptsSingle(Clause(Exactly(major), LeFragment(minor - 1), AnyNumber), a, b, c);
    LowerMajorAccepts(major, a, b, c);
    LowerMinorAccepts(major, minor, a, b, c);
  }

  lemma LeAccepts(major: nat, minor: nat, patch: nat, a: nat, b: nat, c: nat)
    ensures SomeClauseAccepts(LeClauses(major, minor, patch), a, b, c) <==> LexLessEq(a, b, c, major, minor, patch)
  {
    var first := if major > 0 then [Clause(LeFragment(major - 1), AnyNumber, AnyNumber)] else [];
    var second := if minor > 0 then [Clause(Exactly(major), LeFragment(minor - 1), AnyNumber)] else [];
    var last := Clause(Exactly(major), Exactly(minor), LeFragment(patch));
    LowerAccepts(major, minor, a, b, c);
    SomeClauseAcceptsAppend(first + second, [last], a, b, c);
    SomeClauseAcceptsAppend(first, second, a, b, c);
    SomeClauseAcceptsSingle(last, a, b, c);
    PatchAtMostAccepts(major, minor, patch, a, b, c);
  }

  lemma LtAccepts(major: nat, minor: nat, patch: nat, a: nat, b: nat, c: nat)
    ensures SomeClauseAccepts(LtClauses(major, minor, patch), a, b, c) <==> !LexLessEq(major, minor, patch, a, b, c)
  {
    var first := if major > 0 then [Clause(LeFragment(major - 1), AnyNumber, AnyNumber)] else [];
    var second := if minor > 0 then [Clause(Exactly(major), LeFragment(minor - 1), AnyNumber)] else [];
    var last := Clause(Exactly(major), Exactly(minor), LeFragment(patch - 1));
    var third := if patch > 0 then [last] else [];
    LowerAccepts(major, minor, a, b, c);
    SomeClauseAcceptsAppend(first + second, third, a, b, c);
    SomeClauseAcceptsAppend(first, second, a, b, c);
    SomeClauseAcceptsSingle(last, a, b, c);
    PatchAtMostAccepts(major, minor, patch - 1, a, b, c);
  }

  // ---------------------------------------------------------------------
  // Meaning: lexicographic comparison

  /** `>=M.m.p` accepts a.b.c (with any suffix the pattern allows) exactly
      when a.b.c >= M.m.p, for components of at most ten digits. */
  lemma GeMatches(major: nat, minor: nat, patch: nat, a: nat, b: nat, c: nat, t: string)
    requires major < MaxThreshold && minor < MaxThreshold && patch <= MaxThreshold
    requires a <= MaxThreshold && b <= MaxThreshold && c <= MaxThreshold
    requires t == [] || !IsDigit(t[0])
    ensures MatchesVersion(GePattern(major, minor, patch), VersionString(a, b, c) + t) <==>
      InVersionSuffix(t) && LexLessEq(major, minor, patch, a, b, c)
  {
    DigitGeClauses(major, minor, patch);
    GroupedMatchesVersion(GeClauses(major, minor, patch), a, b, c, t);
    GeAccepts(major, minor, patch, a, b, c);
  }

  /** `>M.m.p` accepts a.b.c exactly when a.b.c > M.m.p. */
  lemma GtMatches(major: nat, minor: nat, patch: nat, a: nat, b: nat, c: nat, t: string)
    requires major < MaxThreshold && minor < MaxThreshold && patch < MaxThreshold
    requires a <= MaxThreshold && b <= MaxThreshold && c <= MaxThreshold
    requires t == [] || !IsDigit(t[0])
    ensures MatchesVersion(GtPattern(major, minor, patch), VersionString(a, b, c) + t) <==>
      InVersionSuffix(t) && !LexLessEq(a, b, c, major, minor, patch)
  {
    DigitGtClauses(major, minor, patch);
    GroupedMatchesVersion(GtClauses(major, minor, patch), a, b, c, t);
    GtAccepts(major, minor, patch, a, b, c);
  }

  /** `<=M.m.p` accepts a.b.c exactly when a.b.c <= M.m.p; no bound needed. */
  lemma LeMatches(major: nat, minor: nat, patch: nat, a: nat, b: nat, c: nat, t: string)
    requires t == [] || !IsDigit(t[0])
    ensures MatchesVersion(LePattern(major, minor, patch), VersionString(a, b, c) + t) <==>
      InVersionSuffix(t) && LexLessEq(a, b, c, major, minor, patch)
  {
    DigitLeClauses(major, minor, patch);
    GroupedMatchesVersion(LeClauses(major, minor, patch), a, b, c, t);
    LeAccepts(major, minor, patch, a, b, c);
  }

  /** `<M.m.p` accepts a.b.c exactly when a.b.c < M.m.p; `<0.0.0` nothing. */
  lemma LtMatches(major: nat, minor: nat, patch: nat, a: nat, b: nat, c: nat, t: string)
    requires t == [] || !IsDigit(t[0])
    ensures MatchesVersion(LtPattern(major, minor, patch), VersionString(a, b, c) + t) <==>
      InVersionSuffix(t) && !LexLessEq(major, minor, patch, a, b, c)
  {
    DigitLtClauses(major, minor, patch);
    LtAccepts(major, minor, patch, a, b, c);
    if LtClauses(major, minor, patch) != [] {
      GroupedMatchesVersion(LtClauses(major, minor, patch), a, b, c, t);
    }
  }
}
