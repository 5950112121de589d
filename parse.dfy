/** The two parsers of convert/convert.go: `parseVersionParts`, which reads
    major.minor.patch, and `parseVersionConstraint`, which splits off the
    operator. */
module Parsing {
  import opened Wrappers
  import opened Decimal
  import opened Text
  import opened Versions
  import opened Constraints
  import opened Maven

  // ---------------------------------------------------------------------
  // parseVersionParts

  /** The text `parseVersionParts` reads numbers from: everything before the
      first `-`, and of that everything before the first `+`. */
  function NumericCore(version: string): string {
    CutAt(CutAt(version, '-'), '+')
  }

  /** `parseVersionParts`: the first three dot-separated components of the
      numeric core as numbers; a missing minor or patch is 0, components
      after the third are not read, and the first one that is not a number
      is named in the error. */
  function ParseVersionParts(version: string): Result<(nat, nat, nat)> {
    var parts := Split(NumericCore(version), '.');
    var major := ParseNat(parts[0]);
    var minor := if |parts| >= 2 then ParseNat(parts[1]) else Some(0);
    var patch := if |parts| >= 3 then ParseNat(parts[2]) else Some(0);
    if major.None? then Err("invalid major version: " + parts[0])
    else if minor.None? then Err("invalid minor version: " + parts[1])
    else if patch.None? then Err("invalid patch version: " + parts[2])
    else Ok((major.value, minor.value, patch.value))
  }

  /** Text that starts where a pre-release or build suffix starts. */
  predicate SuffixLead(t: string) {
    t == [] || t[0] == '-' || t[0] == '+'
  }

  /** Cutting at `-` and `+` leaves a numeral-and-dots prefix untouched and
      removes a suffix that starts with either. */
  lemma NumericCoreOf(x: string, t: string)
    requires '-' !in x && '+' !in x && SuffixLead(t)
    ensures NumericCore(x + t) == x
  {
    CutAtAppend(x, t, '-');
    if t != [] && t[0] == '-' {
      assert CutAt(t, '-') == [];
    } else if t != [] {
      assert t[0] == '+';
      assert CutAt(t, '-')[0] == '+' by {
        assert CutAt(t, '-') != [];
      }
    }
    CutAtAppend(x, CutAt(t, '-'), '+');
    assert CutAt(CutAt(t, '-'), '+') == [];
  }

  /** The same when the text goes on with a dot and anything at all. */
  lemma NumericCoreDot(x: string, w: string)
    requires '-' !in x && '+' !in x
    ensures NumericCore(x + "." + w) == x + "." + NumericCore(w)
  {
    assert x + "." + w == (x + ".") + w;
    assert '-' !in x + "." && '+' !in x + ".";
    CutAtAppend(x + ".", w, '-');
    CutAtAppend(x + ".", CutAt(w, '-'), '+');
  }

  lemma ShowPlain(n: nat)
    ensures '-' !in Show(n) && '+' !in Show(n) && '.' !in Show(n)
  {
    ShowCanonical(n);
    assert forall i | 0 <= i < |Show(n)| :: IsDigit(Show(n)[i]);
  }

  lemma VersionStringPlain(a: nat, b: nat, c: nat)
    ensures '-' !in VersionString(a, b, c) && '+' !in VersionString(a, b, c)
    ensures Split(VersionString(a, b, c), '.') == [Show(a), Show(b), Show(c)]
  {
    ShowPlain(a);
    ShowPlain(b);
    ShowPlain(c);
    VersionStringShape(a, b, c);
    VersionStringSplit(Show(a), Show(b), Show(c));
  }

  lemma VersionStringShape(a: nat, b: nat, c: nat)
    ensures VersionString(a, b, c) == Show(a) + ['.'] + (Show(b) + ['.'] + Show(c))
  {
  }

  lemma VersionStringSplit(x: string, y: string, z: string)
    requires '.' !in x && '.' !in y && '.' !in z
    requires '-' !in x && '-' !in y && '-' !in z
    requires '+' !in x && '+' !in y && '+' !in z
    ensures Split(x + ['.'] + (y + ['.'] + z), '.') == [x, y, z]
    ensures '-' !in x + ['.'] + (y + ['.'] + z) && '+' !in x + ['.'] + (y + ['.'] + z)
  {
    SplitCons(x, y + ['.'] + z, '.');
    SplitCons(y, z, '.');
    SplitNone(z, '.');
  }

  /** `parseVersionParts` reads back the canonical text of a.b.c, whatever
      pre-release or build suffix follows it. */
  lemma ParseVersionString(a: nat, b: nat, c: nat, t: string)
    requires SuffixLead(t)
    ensures ParseVersionParts(VersionString(a, b, c) + t) == Ok((a, b, c))
  {
    VersionStringPlain(a, b, c);
    NumericCoreOf(VersionString(a, b, c), t);
    ParseShow(a);
    ParseShow(b);
    ParseShow(c);
  }

  /** Components after the third are not inspected, whatever they hold. */
  lemma ParseVersionIgnoresExtra(a: nat, b: nat, c: nat, w: string)
    ensures ParseVersionParts(VersionString(a, b, c) + "." + w) == Ok((a, b, c))
  {
    var v := VersionString(a, b, c);
    VersionStringPlain(a, b, c);
    NumericCoreDot(v, w);
    ShowPlain(a);
    ShowPlain(b);
    ShowPlain(c);
    DottedShape(Show(a), Show(b), Show(c), NumericCore(w));
    GoodPartsOf(v + "." + w, a, b, c);
  }

  lemma GoodPartsOf(v: string, a: nat, b: nat, c: nat)
    requires |Split(NumericCore(v), '.')| >= 3 && Split(NumericCore(v), '.')[..3] == [Show(a), Show(b), Show(c)]
    ensures ParseVersionParts(v) == Ok((a, b, c))
  {
    var parts := Split(NumericCore(v), '.');
    assert parts[0] == Show(a) && parts[1] == Show(b) && parts[2] == Show(c) by {
      assert parts[..3][0] == parts[0] && parts[..3][1] == parts[1] && parts[..3][2] == parts[2];
    }
    ParseShow(a);
    ParseShow(b);
    ParseShow(c);
  }

  lemma DottedShape(x: string, y: string, z: string, w: string)
    requires '.' !in x && '.' !in y && '.' !in z
    ensures var s := x + "." + y + "." + z + "." + w;
      |Split(s, '.')| >= 3 && Split(s, '.')[..3] == [x, y, z]
  {
    var d := ['.'];
    var q := x + d + y + d;
    AppendAssoc(q, z + d, w);
    AppendAssoc(q, z, d);
    AppendAssoc(x + d, y + d, z + d + w);
    AppendAssoc(x + d, y, d);
    AppendAssoc(x, d, y + d + (z + d + w));
    AppendAssoc(y, d, z + d + w);
    SplitCons(x, y + d + (z + d + w), '.');
    SplitCons(y, z + d + w, '.');
    SplitCons(z, w, '.');
    FirstThree(Split(x + "." + y + "." + z + "." + w, '.'), x, y, z, Split(w, '.'));
  }

  lemma FirstThree(parts: seq<string>, x: string, y: string, z: string, rest: seq<string>)
    requires parts == [x] + ([y] + ([z] + rest))
    ensures |parts| >= 3 && parts[..3] == [x, y, z]
  {
    assert parts[0] == x && parts[1] == y && parts[2] == z;
  }

  /** A missing minor and patch default to 0. */
  lemma ParseVersionMajorOnly(a: nat, t: string)
    requires SuffixLead(t)
    ensures ParseVersionParts(Show(a) + t) == Ok((a, 0, 0))
  {
    ShowPlain(a);
    NumericCoreOf(Show(a), t);
    SplitNone(Show(a), '.');
    ParseShow(a);
  }

  /** A missing patch defaults to 0. */
  lemma ParseVersionMajorMinor(a: nat, b: nat, t: string)
    requires SuffixLead(t)
    ensures ParseVersionParts(Show(a) + "." + Show(b) + t) == Ok((a, b, 0))
  {
    ShowPlain(a);
    ShowPlain(b);
    var x := Show(a) + "." + Show(b);
    assert x == Show(a) + ['.'] + Show(b);
    assert '-' !in x && '+' !in x;
    NumericCoreOf(x, t);
    SplitCons(Show(a), Show(b), '.');
    SplitNone(Show(b), '.');
    ParseShow(a);
    ParseShow(b);
  }

  /** A major that is not a numeral is reported by name, with its text. */
  lemma ParseVersionBadMajor(x: string, w: string)
    requires '-' !in x && '+' !in x && '.' !in x
    requires ParseNat(x).None?
    ensures ParseVersionParts(x + "." + w) == Err("invalid major version: " + x)
    ensures ParseVersionParts(x) == Err("invalid major version: " + x)
  {
    NumericCoreDot(x, w);
    assert x + "." + NumericCore(w) == x + ['.'] + NumericCore(w);
    SplitCons(x, NumericCore(w), '.');
    NumericCoreOf(x, []);
    assert x + [] == x;
    SplitNone(x, '.');
  }

  /** A minor that is not a numeral is reported by name after a good major,
      whether components follow it or not. */
  lemma ParseVersionBadMinor(a: nat, y: string, w: string)
    requires '-' !in y && '+' !in y && '.' !in y
    requires ParseNat(y).None?
    ensures ParseVersionParts(Show(a) + "." + y + "." + w) == Err("invalid minor version: " + y)
    ensures ParseVersionParts(Show(a) + "." + y) == Err("invalid minor version: " + y)
  {
    BadMinorDotted(a, y, w);
    BadMinorPlain(a, y);
  }

  lemma BadMinorDotted(a: nat, y: string, w: string)
    requires '-' !in y && '+' !in y && '.' !in y
    requires ParseNat(y).None?
    ensures ParseVersionParts(Show(a) + "." + y + "." + w) == Err("invalid minor version: " + y)
  {
    ShowPlain(a);
    var x := Show(a) + "." + y;
    assert x == Show(a) + ['.'] + y;
    assert '-' !in x && '+' !in x;
    NumericCoreDot(x, w);
    assert x + "." + NumericCore(w) == Show(a) + ['.'] + (y + ['.'] + NumericCore(w));
    SplitCons(Show(a), y + ['.'] + NumericCore(w), '.');
    SplitCons(y, NumericCore(w), '.');
    ParseShow(a);
  }

  lemma BadMinorPlain(a: nat, y: string)
    requires '-' !in y && '+' !in y && '.' !in y
    requires ParseNat(y).None?
    ensures ParseVersionParts(Show(a) + "." + y) == Err("invalid minor version: " + y)
  {
    ShowPlain(a);
    var x := Show(a) + "." + y;
    assert x == Show(a) + ['.'] + y;
    assert '-' !in x && '+' !in x;
    NumericCoreOf(x, []);
    assert x + [] == x;
    SplitCons(Show(a), y, '.');
    SplitNone(y, '.');
    ParseShow(a);
  }

  /** A patch that is not a numeral is reported by name after a good major
      and minor, whether components follow it or not. */
  lemma ParseVersionBadPatch(a: nat, b: nat, z: string, w: string)
    requires '-' !in z && '+' !in z && '.' !in z
    requires ParseNat(z).None?
    ensures ParseVersionParts(Show(a) + "." + Show(b) + "." + z + "." + w) == Err("invalid patch version: " + z)
    ensures ParseVersionParts(Show(a) + "." + Show(b) + "." + z) == Err("invalid patch version: " + z)
  {
    BadPatchDotted(a, b, z, w);
    BadPatchPlain(a, b, z);
  }

  lemma BadPatchDotted(a: nat, b: nat, z: string, w: string)
    requires '-' !in z && '+' !in z && '.' !in z
    requires ParseNat(z).None?
    ensures ParseVersionParts(Show(a) + "." + Show(b) + "." + z + "." + w) == Err("invalid patch version: " + z)
  {
    ShowPlain(a);
    ShowPlain(b);
    var x := Show(a) + "." + Show(b) + "." + z;
    DotsRegroup(Show(a), Show(b), z);
    VersionStringSplit(Show(a), Show(b), z);
    NumericCoreDot(x, w);
    DottedShape(Show(a), Show(b), z, NumericCore(w));
    BadPatchOf(x + "." + w, a, b, z);
  }

  lemma BadPatchPlain(a: nat, b: nat, z: string)
    requires '-' !in z && '+' !in z && '.' !in z
    requires ParseNat(z).None?
    ensures ParseVersionParts(Show(a) + "." + Show(b) + "." + z) == Err("invalid patch version: " + z)
  {
    ShowPlain(a);
    ShowPlain(b);
    var x := Show(a) + "." + Show(b) + "." + z;
    DotsRegroup(Show(a), Show(b), z);
    VersionStringSplit(Show(a), Show(b), z);
    NumericCoreOf(x, []);
    assert x + [] == x;
    BadPatchOf(x, a, b, z);
  }

  lemma DotsRegroup(x: string, y: string, z: string)
    ensures x + "." + y + "." + z == x + ['.'] + (y + ['.'] + z)
  {
  }

  lemma BadPatchOf(v: string, a: nat, b: nat, z: string)
    requires |Split(NumericCore(v), '.')| >= 3 && Split(NumericCore(v), '.')[..3] == [Show(a), Show(b), z]
    requires ParseNat(z).None?
    ensures ParseVersionParts(v) == Err("invalid patch version: " + z)
  {
    var parts := Split(NumericCore(v), '.');
    assert parts[0] == Show(a) && parts[1] == Show(b) && parts[2] == z by {
      assert parts[..3][0] == parts[0] && parts[..3][1] == parts[1] && parts[..3][2] == parts[2];
    }
    ParseShow(a);
    ParseShow(b);
  }

  // ---------------------------------------------------------------------
  // parseVersionConstraint

  /** The operators in the order they are tried: every two-character
      operator before every one-character one. */
  const Operators: seq<string> := [OpGreaterEqual, OpLessEqual, OpNotEqual, OpEqualEqual, OpPessimistic,
                                   OpCompatible, OpGreater, OpLess, OpEqual, OpCaret, OpTilde]

  /** The first operator of ops that is a prefix of t. */
  function FirstOperator(t: string, ops: seq<string>): (r: Option<string>)
    ensures r.Some? ==> r.value in ops && r.value <= t
    ensures r.None? <==> forall op | op in ops :: !(op <= t)
  {
    if ops == [] then None
    else if ops[0] <= t then Some(ops[0])
    else
      assert forall op | op in ops :: op == ops[0] || op in ops[1..];
      FirstOperator(t, ops[1..])
  }

  /** What `parseVersionConstraint` returns. */
  function ParsedConstraint(versionStr: string): Result<VersionConstraint> {
    ParsedTrimmed(TrimSpace(versionStr))
  }

  /** The same, on the trimmed text. */
  function ParsedTrimmed(s: string): Result<VersionConstraint> {
    if "[" <= s || "(" <= s then ParseMavenRange(s)
    else match FirstOperator(s, Operators)
      case Some(op) => Ok(VersionConstraint(op, TrimSpace(s[|op|..])))
      case None => Ok(VersionConstraint(OpEqualEqual, s))
  }

  /** `parseVersionConstraint`: trim, send a bracketed range to the Maven
      parser, otherwise try the operators in order and stop at the first
      prefix; with none, the whole text is an exact `==` version. */
  method ParseVersionConstraint(versionStr: string) returns (r: Result<VersionConstraint>)
    ensures r == ParsedConstraint(versionStr)
  {
    var s := TrimSpace(versionStr);

    if "[" <= s || "(" <= s {
      return ParseMavenRange(s);
    }

    var found := FindOperator(s, Operators);
    if found.Some? {
      var op := found.value;
      var version := TrimSpace(s[|op|..]);
      return Ok(VersionConstraint(op, version));
    }
    return Ok(VersionConstraint(OpEqualEqual, s));
  }

  /** The loop of `parseVersionConstraint` over the operator list: the
      first operator that is a prefix of s, if any. */
  method FindOperator(s: string, operators: seq<string>) returns (found: Option<string>)
    ensures found == FirstOperator(s, operators)
  {
    for i := 0 to |operators|
      invariant forall j | 0 <= j < i :: !(operators[j] <= s)
    {
      var op := operators[i];
      if op <= s {
        FirstOperatorAt(s, operators, i);
        return Some(op);
      }
    }
    NoOperator(s, operators);
    return None;
  }

  /** The search stops at the first operator of the list in front of t. */
  lemma {:induction false} FirstOperatorAt(t: string, ops: seq<string>, i: nat)
    requires i < |ops| && ops[i] <= t
    requires forall j | 0 <= j < i :: !(ops[j] <= t)
    ensures FirstOperator(t, ops) == Some(ops[i])
  {
    if i > 0 {
      assert !(ops[0] <= t);
      FirstOperatorAt(t, ops[1..], i - 1);
    }
  }

  /** When no operator of the list is in front of t, the search finds none. */
  lemma NoOperator(t: string, ops: seq<string>)
    requires forall j | 0 <= j < |ops| :: !(ops[j] <= t)
    ensures FirstOperator(t, ops) == None
  {
    forall op | op in ops ensures !(op <= t) {
      var j :| 0 <= j < |ops| && ops[j] == op;
    }
  }

  /** The operator found is the longest one the text starts with, so `>=`
      wins over `>` and `~>` over `~`. */
  lemma LongestOperator(t: string)
    requires FirstOperator(t, Operators).Some?
    ensures forall op | op in Operators && op <= t :: |op| <= |FirstOperator(t, Operators).value|
  {
    var found := FirstOperator(t, Operators).value;
    var longOps := Operators[..6];
    assert Operators == longOps + Operators[6..];
    assert forall op | op in longOps :: |op| == 2;
    assert forall op | op in Operators[6..] :: |op| == 1;
    if |found| == 1 {
      assert forall op | op in longOps :: !(op <= t) by {
        FirstOperatorPrefix(t, longOps, Operators[6..]);
      }
    }
  }

  /** When no operator of xs is a prefix, the search goes on in ys; when
      one is, it ends in xs. */
  lemma {:induction false} FirstOperatorPrefix(t: string, xs: seq<string>, ys: seq<string>)
    ensures (forall op | op in xs :: !(op <= t)) ==> FirstOperator(t, xs + ys) == FirstOperator(t, ys)
    ensures FirstOperator(t, xs).Some? ==> FirstOperator(t, xs + ys) == FirstOperator(t, xs)
    ensures FirstOperator(t, xs + ys).Some? && FirstOperator(t, xs + ys).value !in xs ==>
      forall op | op in xs :: !(op <= t)
  {
    if xs != [] {
      var zs := xs + ys;
      assert xs[0] in xs;
      assert zs[1..] == xs[1..] + ys;
      assert zs[0] == xs[0];
      assert forall op | op in xs[1..] :: op in xs;
      FirstOperatorPrefix(t, xs[1..], ys);
      if xs[0] <= t {
        assert FirstOperator(t, zs) == Some(xs[0]);
      } else {
        assert FirstOperator(t, zs) == FirstOperator(t, xs[1..] + ys);
        assert FirstOperator(t, xs) == FirstOperator(t, xs[1..]);
      }
    } else {
      assert xs + ys == ys;
    }
  }

  /** Every constraint the parser accepts carries an operator the compiler
      knows. */
  lemma ParsedOperatorKnown(versionStr: string)
    requires ParsedConstraint(versionStr).Ok?
    ensures ParsedConstraint(versionStr).value.operator in Operators + [OpMavenRange]
  {
    var s := TrimSpace(versionStr);
    var op := ParsedTrimmed(s).value.operator;
    if !("[" <= s || "(" <= s) {
      var found := FirstOperator(s, Operators);
      assert found.Some? ==> op == found.value && op in Operators;
      assert found.None? ==> op == OpEqualEqual;
    }
  }
}
