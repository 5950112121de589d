/** The numeric range synthesiser of convert/regexes.go: NumGreaterOrEqual
    and NumLessOrEqual build, digit position by digit position, the
    alternatives of a fragment whose numerals are exactly those >= n (or <= n). */
module Synth {
  import opened Decimal
  import opened Fragments

  // ---------------------------------------------------------------------
  // The alternatives, as functions of the numeral s of n

  /** `\d{d+1,}` for the numerals with more digits, omitted at ten digits. */
  function MoreDigits(s: string): seq<Alternative> {
    if |s| < 10 then [[AtLeast(|s| + 1)]] else []
  }

  /** The alternative for digit position i of the >= fragment (if any). */
  function GePosition(s: string, i: nat): seq<Alternative>
    requires AllDigits(s) && i < |s|
  {
    var digit := DigitValue(s[i]);
    if i == |s| - 1 then [[Lit(s[..i]), DigitRangeUp(digit)]]
    else if digit < 9 then [[Lit(s[..i]), DigitRangeUp(digit + 1), AnyDigits(|s| - i - 1)]]
    else []
  }

  /** The alternatives for positions 0 .. i-1 of the >= fragment, in order. */
  function GePositions(s: string, i: nat): seq<Alternative>
    requires AllDigits(s) && i <= |s|
  {
    if i == 0 then [] else GePositions(s, i - 1) + GePosition(s, i - 1)
  }

  /** What NumGreaterOrEqual(n) returns. */
  function GeFragment(n: int): Frag {
    if n <= 0 then AnyNumber
    else
      ShowCanonical(n);
      var s := Show(n);
      Alts(MoreDigits(s) + GePositions(s, |s|))
  }

  /** `\d` or `\d{j}`: the numerals with exactly j digits. */
  function ShorterAlternative(j: nat): Alternative {
    if j == 1 then [AnyDigit] else [AnyDigits(j)]
  }

  /** The alternatives for 1 .. d-1 digits of the <= fragment, in order. */
  function FewerDigits(d: nat): seq<Alternative> {
    if d <= 1 then [] else FewerDigits(d - 1) + [ShorterAlternative(d - 1)]
  }

  /** The alternative for digit position i of the <= fragment (if any). */
  function LePosition(s: string, i: nat): seq<Alternative>
    requires AllDigits(s) && i < |s|
  {
    var digit := DigitValue(s[i]);
    if i == |s| - 1 then [[Lit(s[..i]), DigitRangeDown(digit)]]
    else if digit > 0 then [[Lit(s[..i]), DigitRangeDown(digit - 1), AnyDigits(|s| - i - 1)]]
    else []
  }

  function LePositions(s: string, i: nat): seq<Alternative>
    requires AllDigits(s) && i <= |s|
  {
    if i == 0 then [] else LePositions(s, i - 1) + LePosition(s, i - 1)
  }

  /** What NumLessOrEqual(n) returns. */
  function LeFragment(n: int): Frag {
    if n < 0 then NoMatch
    else
      ShowCanonical(n);
      var s := Show(n);
      Alts(FewerDigits(|s|) + LePositions(s, |s|))
  }

  // ---------------------------------------------------------------------
  // Same-length numerals: order by the first differing digit

  /** x and s have the same length, agree before position k, and at k the
      digit of x is larger, or k is the last position and the digits agree. */
  predicate UpAt(x: string, s: string, k: int)
    requires AllDigits(x) && AllDigits(s)
  {
    && |x| == |s| && 0 <= k < |s|
    && x[..k] == s[..k]
    && (DigitValue(x[k]) > DigitValue(s[k]) || (k == |s| - 1 && x[k] == s[k]))
  }

  /** Positional weights: a larger leading part outweighs any smaller tail. */
  lemma Outweighs(a: nat, b: nat, t: nat, u: nat, v: nat)
    requires a > b && v < t
    ensures a * t + u > b * t + v
  {
    assert a * t >= (b + 1) * t;
    assert (b + 1) * t == b * t + t;
  }

  /** Value of a numeral split after position k. */
  lemma ValueAround(x: string, k: nat)
    requires AllDigits(x) && k < |x|
    ensures Value(x[..k + 1]) == Value(x[..k]) * 10 + DigitValue(x[k])
    ensures Value(x) == Value(x[..k + 1]) * Pow10(|x| - k - 1) + Value(x[k + 1..])
  {
    var head, tail := x[..k + 1], x[k + 1..];
    assert x == head + tail;
    assert head[..|head| - 1] == x[..k] && head[|head| - 1] == x[k];
    ValueAppend(head, tail);
  }

  /** Agreeing up to k and a larger digit at k means a larger value. */
  lemma StrictAt(x: string, s: string, k: nat)
    requires AllDigits(x) && AllDigits(s) && |x| == |s| && k < |s|
    requires x[..k] == s[..k] && DigitValue(x[k]) > DigitValue(s[k])
    ensures Value(x) > Value(s)
  {
    ValueAround(x, k);
    ValueAround(s, k);
    ValueUpperBound(s[k + 1..]);
    Outweighs(Value(x[..k + 1]), Value(s[..k + 1]), Pow10(|s| - k - 1), Value(x[k + 1..]), Value(s[k + 1..]));
  }

  lemma {:induction false} FirstDifference(x: string, s: string) returns (k: nat)
    requires |x| == |s| && x != s
    ensures k < |x| && x[..k] == s[..k] && x[k] != s[k]
  {
    if x[0] != s[0] {
      k := 0;
    } else {
      var k' := FirstDifference(x[1..], s[1..]);
      k := k' + 1;
      assert x[..k] == [x[0]] + x[1..][..k'];
      assert s[..k] == [s[0]] + s[1..][..k'];
    }
  }

  predicate SomeUpAt(x: string, s: string, i: int)
    requires AllDigits(x) && AllDigits(s)
  {
    exists k | 0 <= k < i :: UpAt(x, s, k)
  }

  lemma UpAtOrder(x: string, s: string, k: int)
    requires AllDigits(x) && AllDigits(s) && UpAt(x, s, k)
    ensures Value(x) >= Value(s)
  {
    if DigitValue(x[k]) > DigitValue(s[k]) {
      StrictAt(x, s, k);
    } else {
      assert x == x[..k] + [x[k]] && s == s[..k] + [s[k]];
    }
  }

  lemma OrderUpAt(x: string, s: string) returns (k: nat)
    requires AllDigits(x) && AllDigits(s) && |x| == |s| && |s| > 0
    requires Value(x) >= Value(s)
    ensures UpAt(x, s, k)
  {
    if x == s {
      k := |s| - 1;
    } else {
      k := FirstDifference(x, s);
      if DigitValue(x[k]) < DigitValue(s[k]) {
        StrictAt(s, x, k);
      }
    }
  }

  /** Same-length digit strings: x >= s exactly when some position k is an UpAt. */
  lemma ValueOrder(x: string, s: string)
    requires AllDigits(x) && AllDigits(s) && |x| == |s| && |s| > 0
    ensures Value(x) >= Value(s) <==> SomeUpAt(x, s, |s|)
  {
    if SomeUpAt(x, s, |s|) {
      var k :| 0 <= k < |s| && UpAt(x, s, k);
      UpAtOrder(x, s, k);
    }
    if Value(x) >= Value(s) {
      var k := OrderUpAt(x, s);
    }
  }

  /** A numeral with more digits than a canonical numeral s is larger. */
  lemma LongerIsLarger(x: string, s: string)
    requires Canonical(x) && Canonical(s) && |x| > |s|
    ensures Value(x) > Value(s)
  {
    ValueLowerBound(x);
    ValueUpperBound(s);
    Pow10Monotone(|s|, |x| - 1);
  }

  // ---------------------------------------------------------------------
  // What each alternative matches

  /** An alternation of A + B matches what A or B matches. */
  lemma MatchesAppend(a: seq<Alternative>, b: seq<Alternative>, x: string)
    ensures Matches(Alts(a + b), x) <==> Matches(Alts(a), x) || Matches(Alts(b), x)
  {
    if Matches(Alts(a + b), x) {
      var alt :| alt in a + b && MatchAlt(alt, x);
      if alt in a { assert Matches(Alts(a), x); } else { assert Matches(Alts(b), x); }
    }
    if Matches(Alts(a), x) {
      var alt :| alt in a && MatchAlt(alt, x);
      assert alt in a + b;
    }
    if Matches(Alts(b), x) {
      var alt :| alt in b && MatchAlt(alt, x);
      assert alt in a + b;
    }
  }

  lemma MatchesSingle(alt: Alternative, x: string)
    ensures Matches(Alts([alt]), x) <==> MatchAlt(alt, x)
  {
    if MatchAlt(alt, x) { assert alt in [alt]; }
  }

  lemma MatchLit(t: string, rest: Alternative, x: string)
    ensures MatchAlt([Lit(t)] + rest, x) <==> |t| <= |x| && x[..|t|] == t && MatchAlt(rest, x[|t|..])
  {
    assert ([Lit(t)] + rest)[1..] == rest;
  }

  lemma MatchRange(lo: Digit, hi: Digit, rest: Alternative, x: string)
    ensures MatchAlt([Range(lo, hi)] + rest, x) <==>
      |x| > 0 && IsDigit(x[0]) && lo <= DigitValue(x[0]) <= hi && MatchAlt(rest, x[1..])
  {
    assert ([Range(lo, hi)] + rest)[1..] == rest;
  }

  lemma MatchAnyDigits(r: nat, x: string)
    ensures MatchAlt([AnyDigits(r)], x) <==> |x| == r && AllDigits(x)
  {
    assert [AnyDigits(r)][1..] == [];
    if |x| >= r { assert x[..r] == x <==> |x| == r; }
  }

  lemma MatchPrefixRange(p: string, lo: Digit, hi: Digit, x: string)
    ensures MatchAlt([Lit(p), Range(lo, hi)], x) <==>
      |x| == |p| + 1 && x[..|p|] == p && IsDigit(x[|p|]) && lo <= DigitValue(x[|p|]) <= hi
  {
    assert [Lit(p), Range(lo, hi)] == [Lit(p)] + [Range(lo, hi)];
    assert [Range(lo, hi)] == [Range(lo, hi)] + [];
    MatchLit(p, [Range(lo, hi)], x);
    if |p| <= |x| {
      var y := x[|p|..];
      MatchRange(lo, hi, [], y);
      if |y| > 0 { assert y[0] == x[|p|] && |y[1..]| == |x| - |p| - 1; }
    }
  }

  lemma MatchPrefixRangeDigits(p: string, lo: Digit, hi: Digit, r: nat, x: string)
    ensures MatchAlt([Lit(p), Range(lo, hi), AnyDigits(r)], x) <==>
      |x| == |p| + 1 + r && x[..|p|] == p && IsDigit(x[|p|]) && lo <= DigitValue(x[|p|]) <= hi
      && AllDigits(x[|p| + 1..])
  {
    assert [Lit(p), Range(lo, hi), AnyDigits(r)] == [Lit(p)] + [Range(lo, hi), AnyDigits(r)];
    assert [Range(lo, hi), AnyDigits(r)] == [Range(lo, hi)] + [AnyDigits(r)];
    MatchLit(p, [Range(lo, hi), AnyDigits(r)], x);
    if |p| <= |x| {
      var y := x[|p|..];
      MatchRange(lo, hi, [AnyDigits(r)], y);
      if |y| > 0 {
        assert y[0] == x[|p|] && y[1..] == x[|p| + 1..];
        MatchAnyDigits(r, y[1..]);
      }
    }
  }

  lemma MatchAtLeastAlone(k: nat, x: string)
    ensures MatchAlt([AtLeast(k)], x) <==> |x| >= k && AllDigits(x)
  {
    var a := [AtLeast(k)];
    assert a[1..] == [];
    if |x| >= k && AllDigits(x) {
      assert x[..|x|] == x && x[|x|..] == [];
    }
  }

  lemma MatchShorter(j: nat, x: string)
    requires j >= 1
    ensures MatchAlt(ShorterAlternative(j), x) <==> |x| == j && AllDigits(x)
  {
    var a := ShorterAlternative(j);
    assert a[1..] == [];
    if |x| == j { assert x[..j] == x; }
    if j == 1 && |x| == 1 { assert x[1..] == [] && x == [x[0]]; }
  }

  lemma {:induction false} FewerDigitsMatch(d: nat, x: string)
    requires AllDigits(x)
    ensures Matches(Alts(FewerDigits(d)), x) <==> 1 <= |x| < d
  {
    if d > 1 {
      FewerDigitsMatch(d - 1, x);
      MatchShorter(d - 1, x);
      MatchesAppend(FewerDigits(d - 1), [ShorterAlternative(d - 1)], x);
    }
  }

  lemma GePositionMatch(s: string, k: nat, x: string)
    requires AllDigits(s) && AllDigits(x) && k < |s|
    ensures Matches(Alts(GePosition(s, k)), x) <==> UpAt(x, s, k)
  {
    var digit := DigitValue(s[k]);
    if k == |s| - 1 {
      MatchPrefixRange(s[..k], digit, 9, x);
    } else if digit < 9 {
      MatchPrefixRangeDigits(s[..k], digit + 1, 9, |s| - k - 1, x);
    }
  }

  lemma {:induction false} GePositionsMatch(s: string, i: nat, x: string)
    requires AllDigits(s) && AllDigits(x) && i <= |s|
    ensures Matches(Alts(GePositions(s, i)), x) <==> SomeUpAt(x, s, i)
  {
    if i > 0 {
      GePositionsMatch(s, i - 1, x);
      GePositionMatch(s, i - 1, x);
      MatchesAppend(GePositions(s, i - 1), GePosition(s, i - 1), x);
      if SomeUpAt(x, s, i) {
        var k :| 0 <= k < i && UpAt(x, s, k);
        if k < i - 1 { assert SomeUpAt(x, s, i - 1); }
      }
    }
  }

  lemma LePositionMatch(s: string, k: nat, x: string)
    requires AllDigits(s) && AllDigits(x) && k < |s|
    ensures Matches(Alts(LePosition(s, k)), x) <==> UpAt(s, x, k)
  {
    var digit := DigitValue(s[k]);
    if k == |s| - 1 {
      MatchPrefixRange(s[..k], 0, digit, x);
    } else if digit > 0 {
      MatchPrefixRangeDigits(s[..k], 0, digit - 1, |s| - k - 1, x);
    }
  }

  lemma {:induction false} LePositionsMatch(s: string, i: nat, x: string)
    requires AllDigits(s) && AllDigits(x) && i <= |s|
    ensures Matches(Alts(LePositions(s, i)), x) <==> SomeUpAt(s, x, i)
  {
    if i > 0 {
      LePositionsMatch(s, i - 1, x);
      LePositionMatch(s, i - 1, x);
      MatchesAppend(LePositions(s, i - 1), LePosition(s, i - 1), x);
      if SomeUpAt(s, x, i) {
        var k :| 0 <= k < i && UpAt(s, x, k);
        if k < i - 1 { assert SomeUpAt(s, x, i - 1); }
      }
    }
  }

  // ---------------------------------------------------------------------
  // The correctness theorems

  /** The two kinds of alternative of the >= fragment: longer numerals, and
      numerals of n's length that are at least n. */
  lemma GeFragmentCases(n: nat, x: string)
    requires n > 0 && Canonical(x)
    ensures Canonical(Show(n)) && Value(Show(n)) == n
    ensures Matches(GeFragment(n), x) <==>
      (|Show(n)| < 10 && |x| > |Show(n)|) || (|x| == |Show(n)| && Value(x) >= n)
  {
    ShowCanonical(n);
    var s := Show(n);
    assert GeFragment(n) == Alts(MoreDigits(s) + GePositions(s, |s|));
    MatchesAppend(MoreDigits(s), GePositions(s, |s|), x);
    assert Matches(Alts(MoreDigits(s)), x) <==> |s| < 10 && |x| > |s| by {
      if |s| < 10 {
        MatchesSingle([AtLeast(|s| + 1)], x);
        MatchAtLeastAlone(|s| + 1, x);
      }
    }
    GePositionsMatch(s, |s|, x);
    if |x| == |s| {
      ValueOrder(x, s);
    }
  }

  /** The >= fragment matches a numeral x exactly when x >= n, except that
      for n of ten or more digits the longer numerals are not covered. */
  lemma GeFragmentMatches(n: int, x: string)
    requires Canonical(x)
    ensures Matches(GeFragment(n), x) <==>
      n <= Value(x) && (n <= 0 || |Show(n)| < 10 || |x| == |Show(n)|)
  {
    if n > 0 {
      GeFragmentCases(n, x);
      var s := Show(n);
      if |x| > |s| {
        LongerIsLarger(x, s);
      } else if |x| < |s| {
        LongerIsLarger(s, x);
      }
    }
  }

  /** The <= fragment matches a numeral x exactly when x <= n. */
  lemma LeFragmentMatches(n: int, x: string)
    requires Canonical(x)
    ensures Matches(LeFragment(n), x) <==> Value(x) <= n
  {
    if n >= 0 {
      ShowCanonical(n);
      var s := Show(n);
      MatchesAppend(FewerDigits(|s|), LePositions(s, |s|), x);
      FewerDigitsMatch(|s|, x);
      LePositionsMatch(s, |s|, x);
      if |x| == |s| {
        ValueOrder(s, x);
      } else if |x| > |s| {
        LongerIsLarger(x, s);
      } else {
        LongerIsLarger(s, x);
      }
    }
  }

  /** Within the designed range (n and x of at most ten digits) the >=
      fragment matches x exactly when x >= n. */
  lemma GeFragmentMatchesInRange(n: int, x: string)
    requires n <= MaxThreshold && Canonical(x) && |x| <= 10
    ensures Matches(GeFragment(n), x) <==> n <= Value(x)
  {
    GeFragmentMatches(n, x);
    if n > 0 {
      ShowLength(n, 10);
      assert Pow10(10) == 10000000000;
      if n <= Value(x) && |Show(n)| == 10 {
        ShowCanonical(n);
        if |x| < 10 { LongerIsLarger(Show(n), x); }
      }
    }
  }

  /** NumLessOrEqual(0) accepts the numeral "0" and nothing else. */
  lemma LeZeroOnlyZero(x: string)
    requires Canonical(x)
    ensures Matches(LeFragment(0), x) <==> x == "0"
  {
    LeFragmentMatches(0, x);
    ShowValue(x);
    ShowCanonical(0);
  }

  // ---------------------------------------------------------------------
  // The synthesiser as the source writes it: a slice of alternatives grown
  // position by position

  /** NumGreaterOrEqual: the fragment whose numerals are those >= n, as
      GeFragmentMatches states. */
  method NumGreaterOrEqual(n: int) returns (f: Frag)
    ensures f == GeFragment(n)
  {
    if n <= 0 {
      f := AnyNumber;
    } else {
      ShowCanonical(n);
      f := GreaterOrEqualAlternatives(Show(n));
    }
  }

  lemma Associative(a: seq<Alternative>, b: seq<Alternative>, c: seq<Alternative>)
    ensures (a + b) + c == a + (b + c)
  {
  }

  /** The loops of NumGreaterOrEqual, on the numeral s of n > 0. */
  method GreaterOrEqualAlternatives(s: string) returns (f: Frag)
    requires |s| > 0 && AllDigits(s)
    ensures f == Alts(MoreDigits(s) + GePositions(s, |s|))
  {
    var numDigits := |s|;
    var patterns: seq<Alternative> := [];
    if numDigits < 10 {
      patterns := patterns + [[AtLeast(numDigits + 1)]];
    }
    for i := 0 to numDigits
      invariant patterns == MoreDigits(s) + GePositions(s, i)
    {
      var digit := DigitValue(s[i]);
      var prefix := s[..i];
      var suffixLen := numDigits - i - 1;
      ghost var before := patterns;
      if i == numDigits - 1 {
        assert GePosition(s, i) == [[Lit(prefix), DigitRangeUp(digit)]];
        patterns := patterns + [[Lit(prefix), DigitRangeUp(digit)]];
      } else if digit < 9 {
        assert GePosition(s, i) == [[Lit(prefix), DigitRangeUp(digit + 1), AnyDigits(suffixLen)]];
        patterns := patterns + [[Lit(prefix), DigitRangeUp(digit + 1), AnyDigits(suffixLen)]];
      } else {
        assert GePosition(s, i) == [];
      }
      assert patterns == before + GePosition(s, i);
      assert GePositions(s, i + 1) == GePositions(s, i) + GePosition(s, i);
      Associative(MoreDigits(s), GePositions(s, i), GePosition(s, i));
    }
    f := Alts(patterns);
  }

  /** NumLessOrEqual: the fragment whose numerals are those <= n, as
      LeFragmentMatches states. */
  method NumLessOrEqual(n: int) returns (f: Frag)
    ensures f == LeFragment(n)
  {
    if n < 0 {
      f := NoMatch;
    } else {
      ShowCanonical(n);
      f := LessOrEqualAlternatives(Show(n));
    }
  }

  /** One pass of the first loop of NumLessOrEqual appends the alternative for d digits. */
  lemma ShorterStep(d: nat, before: seq<Alternative>, after: seq<Alternative>)
    requires d >= 1 && before == FewerDigits(d)
    requires after == before + (if d == 1 then [[AnyDigit]] else [[AnyDigits(d)]])
    ensures after == FewerDigits(d + 1)
  {
  }

  /** One pass of the second loop of NumLessOrEqual appends LePosition(s, i). */
  lemma LeStep(s: string, i: nat, shorter: seq<Alternative>, before: seq<Alternative>, added: seq<Alternative>, after: seq<Alternative>)
    requires AllDigits(s) && i < |s|
    requires before == shorter + LePositions(s, i)
    requires added == LePosition(s, i) && after == before + added
    ensures after == shorter + LePositions(s, i + 1)
  {
    Associative(shorter, LePositions(s, i), LePosition(s, i));
  }

  /** The loops of NumLessOrEqual, on the numeral s of n >= 0. */
  method LessOrEqualAlternatives(s: string) returns (f: Frag)
    requires |s| > 0 && AllDigits(s)
    ensures f == Alts(FewerDigits(|s|) + LePositions(s, |s|))
  {
    var numDigits := |s|;
    var patterns: seq<Alternative> := [];
    for d := 1 to numDigits
      invariant patterns == FewerDigits(d)
    {
      ghost var before := patterns;
      if d == 1 {
        patterns := patterns + [[AnyDigit]];
      } else {
        patterns := patterns + [[AnyDigits(d)]];
      }
      ShorterStep(d, before, patterns);
    }
    for i := 0 to numDigits
      invariant patterns == FewerDigits(numDigits) + LePositions(s, i)
    {
      var digit := DigitValue(s[i]);
      var prefix := s[..i];
      var suffixLen := numDigits - i - 1;
      ghost var before, added := patterns, [];
      if i == numDigits - 1 {
        added := [[Lit(prefix), DigitRangeDown(digit)]];
        patterns := patterns + [[Lit(prefix), DigitRangeDown(digit)]];
      } else if digit > 0 {
        added := [[Lit(prefix), DigitRangeDown(digit - 1), AnyDigits(suffixLen)]];
        patterns := patterns + [[Lit(prefix), DigitRangeDown(digit - 1), AnyDigits(suffixLen)]];
      }
      LeStep(s, i, FewerDigits(numDigits), before, added, patterns);
    }
    f := Alts(patterns);
  }

  // ---------------------------------------------------------------------
  // Shape of the output

  /** n <= 0 gives the bare `\d+`; n < 0 gives the pattern that matches nothing. */
  lemma DegenerateFragments(n: int)
    ensures n <= 0 ==> Render(GeFragment(n)) == VersionDigits
    ensures n < 0 ==> Render(LeFragment(n)) == EmptyMatchPattern
  {
  }

  lemma {:induction false} GePositionsStartWithLiteral(s: string, i: nat)
    requires AllDigits(s) && i <= |s|
    ensures forall a: Alternative | a in GePositions(s, i) :: |a| > 0 && a[0].Lit?
  {
    if i > 0 {
      GePositionsStartWithLiteral(s, i - 1);
    }
  }

  /** The more-digits alternative `\d{d+1,}` is there exactly when n has
      fewer than ten digits. */
  lemma MoreDigitsPresent(n: int)
    requires n > 0
    ensures Canonical(Show(n))
    ensures GeFragment(n).Alts? && ([AtLeast(|Show(n)| + 1)] in GeFragment(n).alts <==> |Show(n)| < 10)
  {
    ShowCanonical(n);
    var s := Show(n);
    GePositionsStartWithLiteral(s, |s|);
    assert GeFragment(n).alts == MoreDigits(s) + GePositions(s, |s|);
  }

  lemma {:induction false} AllNinesNoAlternatives(s: string, i: nat)
    requires AllDigits(s) && i < |s|
    requires forall k | 0 <= k < i :: s[k] == '9'
    ensures GePositions(s, i) == []
  {
    if i > 0 {
      AllNinesNoAlternatives(s, i - 1);
    }
  }

  /** Ten nines is the numeral of MaxThreshold. */
  lemma ShowMaxThreshold()
    ensures Show(MaxThreshold) == "9999999999"
  {
    var s := "9999999999";
    assert Value(s[..1]) == 9;
    assert s[..2][..1] == s[..1];
    assert Value(s[..2]) == 99;
    assert s[..3][..2] == s[..2];
    assert Value(s[..3]) == 999;
    assert s[..4][..3] == s[..3];
    assert Value(s[..4]) == 9999;
    assert s[..5][..4] == s[..4];
    assert Value(s[..5]) == 99999;
    assert s[..6][..5] == s[..5];
    assert Value(s[..6]) == 999999;
    assert s[..7][..6] == s[..6];
    assert Value(s[..7]) == 9999999;
    assert s[..8][..7] == s[..7];
    assert Value(s[..8]) == 99999999;
    assert s[..9][..8] == s[..8];
    assert Value(s[..9]) == 999999999;
    assert s[..9] == s[..|s| - 1];
    assert Value(s) == MaxThreshold;
    ShowValue(s);
  }

  lemma GeMaxThresholdAlternatives()
    ensures GeFragment(MaxThreshold) == Alts([[Lit("999999999"), Range(9, 9)]])
  {
    var s := "9999999999";
    ShowMaxThreshold();
    assert MoreDigits(s) == [];
    AllNinesNoAlternatives(s, 9);
    assert GePosition(s, 9) == [[Lit("999999999"), Range(9, 9)]] by {
      assert s[..9] == "999999999";
      assert DigitValue(s[9]) == 9;
    }
    assert GePositions(s, 10) == GePositions(s, 9) + GePosition(s, 9);
  }

  /** At the top of the range the fragment is the single unwrapped numeral. */
  lemma GeMaxThreshold()
    ensures Render(GeFragment(MaxThreshold)) == "9999999999"
  {
    GeMaxThresholdAlternatives();
    var last := [Lit("999999999"), Range(9, 9)];
    assert last[1..] == [Range(9, 9)] && last[1..][1..] == [];
    assert Show(9) == "9";
    assert RenderAtom(Range(9, 9)) == "9";
    assert RenderAlternative([Range(9, 9)]) == "9";
    assert RenderAlternative(last) == "999999999" + "9";
    assert RenderAll([last]) == [RenderAlternative(last)];
  }

  // ---------------------------------------------------------------------
  // Only digits, only non-capturing groups

  lemma {:induction false} GePositionsDigits(s: string, i: nat)
    requires AllDigits(s) && i <= |s|
    ensures forall a | a in GePositions(s, i) :: DigitLiterals(a)
  {
    if i > 0 {
      GePositionsDigits(s, i - 1);
      assert AllDigits(s[..i - 1]);
    }
  }

  lemma {:induction false} LePositionsDigits(s: string, i: nat)
    requires AllDigits(s) && i <= |s|
    ensures forall a | a in LePositions(s, i) :: DigitLiterals(a)
  {
    if i > 0 {
      LePositionsDigits(s, i - 1);
      assert AllDigits(s[..i - 1]);
    }
  }

  lemma {:induction false} FewerDigitsDigits(d: nat)
    ensures forall a | a in FewerDigits(d) :: DigitLiterals(a)
  {
    if d > 1 {
      FewerDigitsDigits(d - 1);
    }
  }

  /** Both fragments denote digit strings only. */
  lemma SynthDigitsOnly(n: int)
    ensures DigitFrag(GeFragment(n)) && DigitFrag(LeFragment(n))
  {
    if n >= 0 {
      ShowCanonical(n);
      var s := Show(n);
      GePositionsDigits(s, |s|);
      LePositionsDigits(s, |s|);
      FewerDigitsDigits(|s|);
      assert LeFragment(n).alts == FewerDigits(|s|) + LePositions(s, |s|);
      if n > 0 {
        assert GeFragment(n).alts == MoreDigits(s) + GePositions(s, |s|);
      }
    }
  }

  /** Their rendering opens no capturing group. */
  lemma SynthNonCapturing(n: int)
    ensures n > 0 ==> NonCapturing(Render(GeFragment(n)))
    ensures n >= 0 ==> NonCapturing(Render(LeFragment(n)))
  {
    SynthDigitsOnly(n);
    if n > 0 {
      RenderNonCapturing(GeFragment(n));
    }
    if n >= 0 {
      RenderNonCapturing(LeFragment(n));
    }
  }
}
