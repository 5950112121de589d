/** Decimal numerals over naturals: the model of `strconv.Itoa`, `%d` and
    `strconv.Atoi` on the values the converter feeds them. */
module Decimal {
  import opened Wrappers

  type Digit = d: nat | d < 10

  /** The largest threshold the synthesiser is designed for: ten nines. */
  const MaxThreshold: nat := 9999999999

  predicate IsDigit(c: char) { '0' <= c <= '9' }

  function DigitValue(c: char): Digit
    requires IsDigit(c)
  {
    c as int - '0' as int
  }

  function DigitChar(d: Digit): (c: char)
    ensures IsDigit(c) && DigitValue(c) == d
  {
    (d + '0' as int) as char
  }

  predicate AllDigits(s: string) {
    forall i | 0 <= i < |s| :: IsDigit(s[i])
  }

  /** A numeral as `strconv.Itoa` prints a natural: non-empty, digits only,
      no leading zero unless it is "0" itself. */
  predicate Canonical(s: string) {
    |s| > 0 && AllDigits(s) && (s[0] == '0' ==> |s| == 1)
  }

  function Pow10(k: nat): (p: nat)
    ensures p >= 1
  {
    if k == 0 then 1 else 10 * Pow10(k - 1)
  }

  /** The value of a digit string, most significant digit first. */
  function Value(s: string): nat
    requires AllDigits(s)
  {
    if s == [] then 0 else Value(s[..|s| - 1]) * 10 + DigitValue(s[|s| - 1])
  }

  /** `strconv.Itoa` / `%d` on a natural. */
  function Show(n: nat): string
  {
    if n < 10 then [DigitChar(n)] else Show(n / 10) + [DigitChar(n % 10)]
  }

  /** `strconv.Atoi` on strings that hold no sign (the only ones the
      converter passes it): a non-empty run of digits. */
  function ParseNat(s: string): (r: Option<nat>)
    ensures r.Some? <==> |s| > 0 && AllDigits(s)
  {
    if |s| > 0 && AllDigits(s) then Some(Value(s)) else None
  }

  lemma Pow10Monotone(i: nat, j: nat)
    requires i <= j
    ensures Pow10(i) <= Pow10(j)
  {
  }

  /** Printing a natural gives a canonical numeral denoting it. */
  lemma {:induction false} ShowCanonical(n: nat)
    ensures Canonical(Show(n)) && Value(Show(n)) == n
  {
    if n >= 10 {
      ShowCanonical(n / 10);
      var p := Show(n / 10);
      var s := Show(n);
      assert s == p + [DigitChar(n % 10)];
      assert s[..|s| - 1] == p;
      assert AllDigits(s) by {
        forall i | 0 <= i < |s| ensures IsDigit(s[i]) {
          if i < |p| { assert s[i] == p[i]; }
        }
      }
      assert s[0] == p[0];
    }
  }

  /** Reading a canonical numeral back and printing it gives the numeral. */
  lemma {:induction false} ShowValue(s: string)
    requires Canonical(s)
    ensures Show(Value(s)) == s
  {
    if |s| == 1 {
      assert s == [s[0]];
    } else {
      var p := s[..|s| - 1];
      assert p[0] == s[0];
      assert Canonical(p);
      ValueLowerBound(p);
      var v := Value(s);
      assert v == Value(p) * 10 + DigitValue(s[|s| - 1]);
      assert v / 10 == Value(p) && v % 10 == DigitValue(s[|s| - 1]);
      ShowValue(p);
      assert s == p + [s[|s| - 1]];
    }
  }

  /** A numeral without a leading zero has at least its length's worth of value. */
  lemma {:induction false} ValueLowerBound(s: string)
    requires |s| > 0 && AllDigits(s) && s[0] != '0'
    ensures Value(s) >= Pow10(|s| - 1)
  {
    if |s| > 1 {
      var p := s[..|s| - 1];
      assert p[0] == s[0];
      ValueLowerBound(p);
    } else {
      assert s == [s[0]];
    }
  }

  /** k digits denote less than 10^k. */
  lemma {:induction false} ValueUpperBound(s: string)
    requires AllDigits(s)
    ensures Value(s) < Pow10(|s|)
  {
    if s != [] {
      ValueUpperBound(s[..|s| - 1]);
    }
  }

  /** Positional notation: the value of a concatenation. */
  lemma {:induction false} ValueAppend(a: string, b: string)
    requires AllDigits(a) && AllDigits(b)
    ensures AllDigits(a + b)
    ensures Value(a + b) == Value(a) * Pow10(|b|) + Value(b)
  {
    assert forall i | 0 <= i < |a + b| :: (a + b)[i] == if i < |a| then a[i] else b[i - |a|];
    if b == [] {
      assert a + b == a;
    } else {
      var b' := b[..|b| - 1];
      assert (a + b)[..|a + b| - 1] == a + b';
      assert (a + b)[|a + b| - 1] == b[|b| - 1];
      ValueAppend(a, b');
      var d := DigitValue(b[|b| - 1]);
      assert Value(a + b) == Value(a + b') * 10 + d;
      assert Value(b) == Value(b') * 10 + d;
      assert Pow10(|b|) == 10 * Pow10(|b'|);
      ShiftDigit(Value(a), Pow10(|b'|), Value(b'), d);
    }
  }

  /** Appending a digit to x * p + y multiplies both terms by ten. */
  lemma ShiftDigit(x: int, p: int, y: int, d: int)
    ensures (x * p + y) * 10 + d == x * (10 * p) + (y * 10 + d)
  {
    assert (x * p + y) * 10 == x * (p * 10) + y * 10;
  }

  /** `%d` of n has at most k digits exactly when n < 10^k. */
  lemma ShowLength(n: nat, k: nat)
    requires k >= 1
    ensures |Show(n)| <= k <==> n < Pow10(k)
  {
    var s := Show(n);
    ShowCanonical(n);
    ValueUpperBound(s);
    if |s| <= k {
      Pow10Monotone(|s|, k);
    } else {
      if |s| > 1 { ValueLowerBound(s); }
      Pow10Monotone(k, |s| - 1);
    }
  }

  /** `Atoi(Itoa(n)) == n`. */
  lemma ParseShow(n: nat)
    ensures ParseNat(Show(n)) == Some(n)
  {
    ShowCanonical(n);
  }
  /** `strconv.Atoi` with its optional sign, for the inputs where the
      converter keeps whatever sign is there. */
  function Atoi(s: string): (r: Option<int>)
    ensures ParseNat(s).Some? ==> r == Some(ParseNat(s).value as int)
    ensures r.Some? <==> ParseNat(s).Some? || (|s| > 1 && (s[0] == '+' || s[0] == '-') && AllDigits(s[1..]))
  {
    if |s| > 0 && (s[0] == '+' || s[0] == '-') then
      match ParseNat(s[1..])
      case None => None
      case Some(n) => if s[0] == '-' then Some(-(n as int)) else Some(n as int)
    else
      match ParseNat(s)
      case None => None
      case Some(n) => Some(n as int)
  }

  /** `%d` on an integer of either sign. */
  function ShowInt(i: int): string {
    if i < 0 then "-" + Show(-i) else Show(i)
  }

  /** `Atoi` reads back what `%d` prints, negative numbers included. */
  lemma AtoiShowInt(i: int)
    ensures Atoi(ShowInt(i)) == Some(i)
  {
    if i < 0 {
      ShowCanonical(-i);
      var s := ShowInt(i);
      assert s[1..] == Show(-i);
      assert s[0] == '-';
    } else {
      ShowCanonical(i);
      assert Show(i)[0] != '+' && Show(i)[0] != '-';
    }
  }
}
