/** Whole-version patterns as convert/convert.go assembles them: clauses of
    three component fragments joined by `\.`, anchored, followed by the
    optional pre-release and build suffix. A datatype with its rendering to
    pattern text and its language over version strings. */
module Versions {
  import opened Decimal
  import opened Text
  import opened Fragments

  /** One `major\.minor\.patch` alternative. */
  datatype Clause = Clause(major: Frag, minor: Frag, patch: Frag)

  /** The pattern that matches nothing, an alternation of clauses in a
      non-capturing group, or one clause on its own; the last two are
      anchored and carry VERSION_SUFFIX_PATTERN. */
  datatype VersionPattern = NoVersion | Grouped(clauses: seq<Clause>) | Single(clause: Clause)

  function RenderClause(c: Clause): string {
    Render(c.major) + VersionDot + Render(c.minor) + VersionDot + Render(c.patch)
  }

  function RenderClauses(cs: seq<Clause>): (r: seq<string>)
    ensures |r| == |cs|
    ensures forall i | 0 <= i < |cs| :: r[i] == RenderClause(cs[i])
  {
    if cs == [] then [] else [RenderClause(cs[0])] + RenderClauses(cs[1..])
  }

  function RenderVersionPattern(p: VersionPattern): string {
    match p
    case NoVersion => EmptyMatchPattern
    case Grouped(cs) => RegexStart + "(?:" + Join(RenderClauses(cs), RegexOr) + ")" + VersionSuffixPattern + RegexEnd
    case Single(c) => RegexStart + RenderClause(c) + VersionSuffixPattern + RegexEnd
  }

  /** A single clause renders as the flat concatenation of its pieces. */
  lemma RenderSingle(c: Clause)
    ensures RenderVersionPattern(Single(c)) ==
      RegexStart + Render(c.major) + VersionDot + Render(c.minor) + VersionDot + Render(c.patch)
      + VersionSuffixPattern + RegexEnd
  {
    FlatConcat(RegexStart, Render(c.major), VersionDot, Render(c.minor), VersionDot, Render(c.patch),
      VersionSuffixPattern, RegexEnd);
  }

  lemma FlatConcat(a: string, b: string, c: string, d: string, e: string, f: string, g: string, h: string)
    ensures a + (b + c + d + e + f) + g + h == a + b + c + d + e + f + g + h
  {
  }

  /** The canonical text of version a.b.c. */
  function VersionString(a: nat, b: nat, c: nat): string {
    Show(a) + "." + Show(b) + "." + Show(c)
  }

  /** c matches v with its dots at i and j and the suffix starting at k. */
  predicate ClauseMatchesAt(c: Clause, v: string, i: int, j: int, k: int) {
    && 0 <= i < j < k <= |v|
    && v[i] == '.' && v[j] == '.'
    && Matches(c.major, v[..i])
    && Matches(c.minor, v[i + 1..j])
    && Matches(c.patch, v[j + 1..k])
    && InVersionSuffix(v[k..])
  }

  predicate ClauseMatches(c: Clause, v: string) {
    exists i, j, k | 0 <= i < j < k <= |v| :: ClauseMatchesAt(c, v, i, j, k)
  }

  /** Does the anchored pattern match the whole of v? The pattern that
      matches nothing is taken at its word. */
  predicate MatchesVersion(p: VersionPattern, v: string) {
    match p
    case NoVersion => false
    case Grouped(cs) => exists c | c in cs :: ClauseMatches(c, v)
    case Single(c) => ClauseMatches(c, v)
  }

  predicate DigitClause(c: Clause) {
    DigitFrag(c.major) && DigitFrag(c.minor) && DigitFrag(c.patch)
  }

  /** In w, which starts with the digits x followed by its end or a
      non-digit, a run of digits ending at its end or at a non-digit ends
      exactly where x does. */
  lemma DigitRunEnd(w: string, x: string, i: nat)
    requires AllDigits(x) && |x| <= |w| && w[..|x|] == x && (|x| == |w| || !IsDigit(w[|x|]))
    requires i <= |w| && AllDigits(w[..i]) && (i == |w| || !IsDigit(w[i]))
    ensures i == |x|
  {
    assert forall m | 0 <= m < |x| :: w[m] == x[m];
    assert forall m | 0 <= m < i :: w[m] == w[..i][m];
  }

  /** The patch numeral ends where the suffix begins. */
  lemma SuffixStart(u: string, xc: string, t: string, rest: string, m: nat)
    requires u == xc + t && AllDigits(xc) && (t == [] || !IsDigit(t[0]))
    requires m <= |u| && AllDigits(u[..m]) && rest == u[m..] && InVersionSuffix(rest)
    ensures m == |xc|
  {
    VersionSuffixShape(rest);
    assert m < |u| ==> rest[0] == u[m];
    assert |xc| < |u| ==> u[|xc|] == t[0];
    assert u[..|xc|] == xc;
    DigitRunEnd(u, xc, m);
  }

  /** The two dots after the numerals xa and xb are the first two
      non-digits. */
  lemma DotsAt(xa: string, xb: string, u: string, v: string, i: nat, j: nat)
    requires v == xa + ("." + (xb + ("." + u))) && AllDigits(xa) && AllDigits(xb)
    requires i < j < |v| && v[i] == '.' && v[j] == '.'
    requires AllDigits(v[..i]) && AllDigits(v[i + 1..j])
    ensures i == |xa| && j == i + 1 + |xb| && v[j + 1..] == u
  {
    var r2 := xb + ("." + u);
    DigitRunEnd(v, xa, i);
    var w := v[i + 1..];
    assert w == r2;
    assert w[..j - i - 1] == v[i + 1..j];
    DigitRunEnd(w, xb, j - i - 1);
    assert v[j + 1..] == w[|xb| + 1..];
  }

  /** What a match at i, j, k says about the text, for a clause of digit
      fragments. */
  lemma MatchAtShape(c: Clause, v: string, i: int, j: int, k: int)
    requires DigitClause(c) && ClauseMatchesAt(c, v, i, j, k)
    ensures AllDigits(v[..i]) && AllDigits(v[i + 1..j]) && AllDigits(v[j + 1..k])
  {
    MatchesDigits(c.major, v[..i]);
    MatchesDigits(c.minor, v[i + 1..j]);
    MatchesDigits(c.patch, v[j + 1..k]);
  }

  /** xa.xb.xc followed by t, nested to the right. */
  lemma Nest(xa: string, xb: string, xc: string, t: string)
    ensures xa + "." + xb + "." + xc + t == xa + ("." + (xb + ("." + (xc + t))))
  {
    var d, u := ".", xc + t;
    AppendAssoc(xa + d + xb + d, xc, t);
    AppendAssoc(xa + d + xb, d, u);
    AppendAssoc(xa + d, xb, d + u);
    AppendAssoc(xa, d, xb + (d + u));
  }

  /** Where the pieces of xa.xb.xc followed by t sit. */
  lemma VersionSlices(xa: string, xb: string, xc: string, t: string, v: string, i: int, j: int, k: int)
    requires v == xa + "." + xb + "." + xc + t
    requires i == |xa| && j == i + 1 + |xb| && k == j + 1 + |xc|
    ensures |v| == k + |t|
    ensures v[..i] == xa && v[i] == '.' && v[i + 1..j] == xb && v[j] == '.'
    ensures v[j + 1..k] == xc && v[k..] == t
  {
  }

  /** In xa.xb.xc followed by t, two dots followed by digit runs and a
      suffix can only be the dots of the version. */
  lemma SplitUnique(xa: string, xb: string, xc: string, t: string, v: string, i: int, j: int, k: int)
    requires AllDigits(xa) && AllDigits(xb) && AllDigits(xc)
    requires t == [] || !IsDigit(t[0])
    requires v == xa + ("." + (xb + ("." + (xc + t))))
    requires 0 <= i < j < k <= |v| && v[i] == '.' && v[j] == '.'
    requires AllDigits(v[..i]) && AllDigits(v[i + 1..j]) && AllDigits(v[j + 1..k])
    requires InVersionSuffix(v[k..])
    ensures i == |xa| && j == i + 1 + |xb| && k == j + 1 + |xc|
  {
    var u := xc + t;
    DotsAt(xa, xb, u, v, i, j);
    assert u[..k - j - 1] == v[j + 1..k];
    assert u[k - j - 1..] == v[k..];
    SuffixStart(u, xc, t, v[k..], k - j - 1);
  }

  /** The dots pin the split down: a clause of digit fragments matches
      xa.xb.xc followed by t (t empty or not starting with a digit) exactly
      when its fragments match the three digit strings and t is a suffix
      VERSION_SUFFIX_PATTERN accepts. */
  lemma ClauseMatchesDigits(c: Clause, xa: string, xb: string, xc: string, t: string)
    requires DigitClause(c) && AllDigits(xa) && AllDigits(xb) && AllDigits(xc)
    requires t == [] || !IsDigit(t[0])
    ensures ClauseMatches(c, xa + "." + xb + "." + xc + t) <==>
      Matches(c.major, xa) && Matches(c.minor, xb) && Matches(c.patch, xc) && InVersionSuffix(t)
  {
    if Matches(c.major, xa) && Matches(c.minor, xb) && Matches(c.patch, xc) && InVersionSuffix(t) {
      ClauseMatchesPieces(c, xa, xb, xc, t);
    }
    if ClauseMatches(c, xa + "." + xb + "." + xc + t) {
      ClauseMatchesOnlyPieces(c, xa, xb, xc, t);
    }
  }

  lemma ClauseMatchesPieces(c: Clause, xa: string, xb: string, xc: string, t: string)
    requires Matches(c.major, xa) && Matches(c.minor, xb) && Matches(c.patch, xc) && InVersionSuffix(t)
    ensures ClauseMatches(c, xa + "." + xb + "." + xc + t)
  {
    var v := xa + "." + xb + "." + xc + t;
    var i, j := |xa|, |xa| + 1 + |xb|;
    VersionSlices(xa, xb, xc, t, v, i, j, j + 1 + |xc|);
    assert ClauseMatchesAt(c, v, i, j, j + 1 + |xc|);
  }

  lemma ClauseMatchesOnlyPieces(c: Clause, xa: string, xb: string, xc: string, t: string)
    requires DigitClause(c) && AllDigits(xa) && AllDigits(xb) && AllDigits(xc)
    requires t == [] || !IsDigit(t[0])
    requires ClauseMatches(c, xa + "." + xb + "." + xc + t)
    ensures Matches(c.major, xa) && Matches(c.minor, xb) && Matches(c.patch, xc) && InVersionSuffix(t)
  {
    var v := xa + "." + xb + "." + xc + t;
    var i, j, k :| 0 <= i < j < k <= |v| && ClauseMatchesAt(c, v, i, j, k);
    assert i == |xa| && j == i + 1 + |xb| && k == j + 1 + |xc| by {
      MatchAtShape(c, v, i, j, k);
      Nest(xa, xb, xc, t);
      SplitUnique(xa, xb, xc, t, v, i, j, k);
    }
    VersionSlices(xa, xb, xc, t, v, i, j, k);
    PiecesAt(c, v, i, j, k, xa, xb, xc, t);
  }

  lemma PiecesAt(c: Clause, v: string, i: int, j: int, k: int, xa: string, xb: string, xc: string, t: string)
    requires ClauseMatchesAt(c, v, i, j, k)
    requires v[..i] == xa && v[i + 1..j] == xb && v[j + 1..k] == xc && v[k..] == t
    ensures Matches(c.major, xa) && Matches(c.minor, xb) && Matches(c.patch, xc) && InVersionSuffix(t)
  {
  }

  /** The same for the canonical text of a.b.c. */
  lemma ClauseMatchesVersion(c: Clause, a: nat, b: nat, p: nat, t: string)
    requires DigitClause(c)
    requires t == [] || !IsDigit(t[0])
    ensures ClauseMatches(c, VersionString(a, b, p) + t) <==>
      Matches(c.major, Show(a)) && Matches(c.minor, Show(b)) && Matches(c.patch, Show(p)) && InVersionSuffix(t)
  {
    ShowCanonical(a);
    ShowCanonical(b);
    ShowCanonical(p);
    ClauseMatchesDigits(c, Show(a), Show(b), Show(p), t);
  }

  /** The three fragments of cl accept the numerals of a, b and c. */
  predicate ClauseAccepts(cl: Clause, a: nat, b: nat, c: nat) {
    Matches(cl.major, Show(a)) && Matches(cl.minor, Show(b)) && Matches(cl.patch, Show(c))
  }

  predicate SomeClauseAccepts(cs: seq<Clause>, a: nat, b: nat, c: nat) {
    exists cl | cl in cs :: ClauseAccepts(cl, a, b, c)
  }

  lemma SomeClauseAcceptsAppend(xs: seq<Clause>, ys: seq<Clause>, a: nat, b: nat, c: nat)
    ensures SomeClauseAccepts(xs + ys, a, b, c) <==> SomeClauseAccepts(xs, a, b, c) || SomeClauseAccepts(ys, a, b, c)
  {
    if SomeClauseAccepts(xs + ys, a, b, c) {
      var cl :| cl in xs + ys && ClauseAccepts(cl, a, b, c);
      if cl in xs { assert SomeClauseAccepts(xs, a, b, c); } else { assert SomeClauseAccepts(ys, a, b, c); }
    }
    if SomeClauseAccepts(xs, a, b, c) {
      var cl :| cl in xs && ClauseAccepts(cl, a, b, c);
      assert cl in xs + ys;
    }
    if SomeClauseAccepts(ys, a, b, c) {
      var cl :| cl in ys && ClauseAccepts(cl, a, b, c);
      assert cl in xs + ys;
    }
  }

  lemma SomeClauseAcceptsSingle(cl: Clause, a: nat, b: nat, c: nat)
    ensures SomeClauseAccepts([cl], a, b, c) <==> ClauseAccepts(cl, a, b, c)
  {
    if ClauseAccepts(cl, a, b, c) { assert cl in [cl]; }
  }

  /** An alternation of clauses matches what one of its clauses matches. */
  lemma GroupedMatchesVersion(cs: seq<Clause>, a: nat, b: nat, p: nat, t: string)
    requires forall c | c in cs :: DigitClause(c)
    requires t == [] || !IsDigit(t[0])
    ensures MatchesVersion(Grouped(cs), VersionString(a, b, p) + t) <==>
      InVersionSuffix(t) && SomeClauseAccepts(cs, a, b, p)
  {
    forall c | c in cs
      ensures ClauseMatches(c, VersionString(a, b, p) + t) <==> ClauseAccepts(c, a, b, p) && InVersionSuffix(t)
    {
      ClauseMatchesVersion(c, a, b, p, t);
    }
  }

  // ---------------------------------------------------------------------
  // Component fragments on canonical numerals

  /** The literal `%d` of a number matches exactly that number. */
  lemma ExactlyShow(n: nat, a: nat)
    ensures Matches(Exactly(n), Show(a)) <==> a == n
  {
    ShowCanonical(a);
    ExactlyMatches(n, Show(a));
  }

  lemma AnyNumberShow(a: nat)
    ensures Matches(AnyNumber, Show(a))
  {
    ShowCanonical(a);
  }
}
