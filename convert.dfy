/** The two stages of convert/convert.go put together: `constraintToRegex`
    sends a parsed constraint to the builder of its operator, and the
    pattern a constraint text stands for is that of its parse. */
module Convert {
  import opened Wrappers
  import opened Text
  import opened Decimal
  import opened Fragments
  import opened Versions
  import opened Constraints
  import opened Parsing
  import opened Maven
  import opened ExactMatch
  import opened Builders

  /** The operators `constraintToRegex` knows: those the parser tries and
      the tag of a Maven range. */
  const CompiledOperators: seq<string> := Operators + [OpMavenRange]

  /** The operators whose builder parses the version into three numbers. */
  predicate NeedsParts(op: string) {
    op in [OpGreaterEqual, OpLessEqual, OpGreater, OpLess, OpCaret, OpTilde, OpPessimistic, OpCompatible]
  }

  /** The builder `constraintToRegex` picks for an operator. */
  datatype Route =
    | ExactRoute
    | CompareRoute(k: Comparison)
    | NotEqualRoute
    | CaretRoute
    | TildeRoute
    | CompatibleRoute
    | MavenRoute
    | Unsupported

  /** The cases of the switch: `==` and `=` share the exact builder, `~`
      and `~>` the tilde builder. */
  function RouteOf(op: string): (r: Route)
    ensures r == Unsupported <==> op !in CompiledOperators
  {
    if op == OpEqualEqual || op == OpEqual then ExactRoute
    else if op == OpGreaterEqual then CompareRoute(GreaterEqual)
    else if op == OpLessEqual then CompareRoute(LessEqual)
    else if op == OpGreater then CompareRoute(Greater)
    else if op == OpLess then CompareRoute(Less)
    else if op == OpNotEqual then NotEqualRoute
    else if op == OpCaret then CaretRoute
    else if op == OpTilde || op == OpPessimistic then TildeRoute
    else if op == OpCompatible then CompatibleRoute
    else if op == OpMavenRange then MavenRoute
    else Unsupported
  }

  /** The route of each operator. */
  lemma RouteTable()
    ensures RouteOf(OpEqualEqual) == ExactRoute && RouteOf(OpEqual) == ExactRoute
    ensures RouteOf(OpCaret) == CaretRoute
    ensures RouteOf(OpTilde) == TildeRoute && RouteOf(OpPessimistic) == TildeRoute
    ensures RouteOf(OpCompatible) == CompatibleRoute
  {
  }

  /** What `constraintToRegex` returns for a parsed constraint. */
  function ConstraintRegex(c: VersionConstraint): Result<string> {
    var version := c.version;
    match RouteOf(c.operator)
    case ExactRoute => Ok(ExactMatchPattern(version))
    case CompareRoute(k) => ComparisonOf(k, version)
    case NotEqualRoute => Ok(NotEqualBasePattern(NotEqualCore(version)))
    case CaretRoute => CaretRangeRegex(version)
    case TildeRoute => TildeRangeRegex(version)
    case CompatibleRoute => CompatibleReleaseRegex(version)
    case MavenRoute => MavenRangeRegex(version)
    case Unsupported => Err("unsupported operator: " + c.operator)
  }

  /** An operator the switch does not know is reported as unsupported. */
  lemma UnsupportedOperator(c: VersionConstraint)
    requires c.operator !in CompiledOperators
    ensures ConstraintRegex(c) == Err("unsupported operator: " + c.operator)
  {
  }

  /** The exact and not-equal builders never fail. */
  lemma ExactNeverFails(c: VersionConstraint)
    requires c.operator in [OpEqualEqual, OpEqual, OpNotEqual]
    ensures ConstraintRegex(c).Ok?
  {
    assert RouteOf(c.operator) in [ExactRoute, NotEqualRoute];
  }

  /** The numeric builders fail exactly when the version does not parse,
      and then with the parse error. */
  lemma NumericFailsOnParse(c: VersionConstraint)
    requires NeedsParts(c.operator)
    ensures ConstraintRegex(c).Ok? <==> ParseVersionParts(c.version).Ok?
    ensures ConstraintRegex(c).Err? ==> ConstraintRegex(c) == Err(ParseVersionParts(c.version).msg)
  {
    var route := RouteOf(c.operator);
    assert route.CompareRoute? || route == CaretRoute || route == TildeRoute || route == CompatibleRoute;
  }

  /** The Maven builder fails exactly when the range does not hold one comma. */
  lemma MavenFailsOnComma(c: VersionConstraint)
    requires c.operator == OpMavenRange
    ensures ConstraintRegex(c).Ok? <==> multiset(c.version)[','] == 1
  {
    assert RouteOf(c.operator) == MavenRoute;
  }

  /** `constraintToRegex`: the switch on the operator, each case calling
      its builder on the version. */
  method ConstraintToRegex(c: VersionConstraint) returns (r: Result<string>)
    ensures r == ConstraintRegex(c)
  {
    var version := c.version;
    match RouteOf(c.operator)
    case ExactRoute =>
      var pattern := ExactMatchRegex(version);
      r := Ok(pattern);
    case CompareRoute(k) =>
      match k {
        case GreaterEqual => r := GreaterThanEqualRegex(version);
        case LessEqual => r := LessThanEqualRegex(version);
        case Greater => r := GreaterThanRegex(version);
        case Less => r := LessThanRegex(version);
      }
    case NotEqualRoute =>
      var pattern := NotEqualRegex(version);
      r := Ok(pattern);
    case CaretRoute => r := CaretRangeRegex(version);
    case TildeRoute => r := TildeRangeRegex(version);
    case CompatibleRoute => r := CompatibleReleaseRegex(version);
    case MavenRoute => r := MavenRangeRegex(version);
    case Unsupported => r := Err("unsupported operator: " + c.operator);
  }

  /** The pattern text `VersionToRegex` compiles: the parse of the
      constraint, then its regular expression. */
  function ConstraintText(versionStr: string): (r: Result<string>)
    ensures ParsedConstraint(versionStr).Err? ==> r == Err(ParsedConstraint(versionStr).msg)
    ensures ParsedConstraint(versionStr).Ok? ==> r == ConstraintRegex(ParsedConstraint(versionStr).value)
  {
    match ParsedConstraint(versionStr)
    case Err(e) => Err(e)
    case Ok(c) => ConstraintRegex(c)
  }

  /** A constraint the parser accepts is never reported as unsupported:
      its operator is one the dispatch knows. */
  lemma ParsedOperatorCompiles(versionStr: string)
    requires ParsedConstraint(versionStr).Ok?
    ensures var c := ParsedConstraint(versionStr).value;
      c.operator in CompiledOperators && (c.operator != OpMavenRange ==> c.operator in Operators)
  {
    ParsedOperatorKnown(versionStr);
  }

  // ---------------------------------------------------------------------
  // Operators written in front of a version

  /** Text with no white space at either end is left as it is. */
  lemma TrimPlain(s: string)
    requires s != [] && !IsSpace(s[0]) && !IsSpace(s[|s| - 1])
    ensures TrimSpace(s) == s
  {
    assert TrimRight(s) == s;
  }

  lemma {:induction false} TrimLeftLeading(w: string, s: string)
    requires forall i | 0 <= i < |w| :: IsSpace(w[i])
    ensures TrimLeft(w + s) == TrimLeft(s)
  {
    if w != [] {
      assert (w + s)[0] == w[0] && IsSpace(w[0]);
      assert (w + s)[1..] == w[1..] + s;
      TrimLeftLeading(w[1..], s);
    } else {
      assert w + s == s;
    }
  }

  lemma TrimSpaceSides(s: string)
    ensures TrimSpace(s) == TrimRight(TrimLeft(s))
  {
  }

  /** White space in front of the constraint is ignored. */
  lemma LeadingSpaceIgnored(w: string, s: string)
    requires forall i | 0 <= i < |w| :: IsSpace(w[i])
    ensures ParsedConstraint(w + s) == ParsedConstraint(s)
  {
    assert TrimSpace(w + s) == TrimSpace(s) by {
      TrimLeftLeading(w, s);
      TrimSpaceSides(w + s);
      TrimSpaceSides(s);
    }
  }

  /** The operators before the i-th one in the list that are as long are
      different from it, and the longer ones have a non-digit where the
      i-th one ends; then none of them is a prefix of the i-th one followed
      by a digit. */
  lemma NoEarlierPrefix(ops: seq<string>, i: nat, v: string)
    requires i < |ops| && v != [] && IsDigit(v[0])
    requires forall j | 0 <= j < i :: EarlierOperator(ops[j], ops[i])
    ensures forall j | 0 <= j < i :: !(ops[j] <= ops[i] + v)
  {
    var s := ops[i] + v;
    forall j | 0 <= j < i ensures !(ops[j] <= s) {
      var x := ops[j];
      assert EarlierOperator(x, ops[i]);
      assert |x| > |ops[i]| ==> s[|ops[i]|] == v[0];
    }
  }

  /** x may be tried before op: x is as long as op and different, or one
      longer with a non-digit at the position after op. */
  predicate EarlierOperator(x: string, op: string) {
    (|x| == |op| && x != op) || (|x| == |op| + 1 && !IsDigit(x[|op|]))
  }

  /** The order of the operator list: longer first, no repeats, and every
      two-character operator ends in `=` or `>`. */
  lemma OperatorOrder()
    ensures forall i, j | 0 <= j < i < |Operators| :: EarlierOperator(Operators[j], Operators[i])
  {
  }

  /** An operator written in front of a numeral is the operator read back. */
  lemma OperatorBeforeNumeral(op: string, v: string)
    requires op in Operators && v != [] && IsDigit(v[0]) && !IsSpace(v[|v| - 1])
    ensures ParsedConstraint(op + v) == Ok(VersionConstraint(op, v))
  {
    var s := op + v;
    assert s[0] == op[0] && s[|s| - 1] == v[|v| - 1];
    TrimPlain(s);
    assert !("[" <= s) && !("(" <= s);
    var i :| 0 <= i < |Operators| && Operators[i] == op;
    OperatorOrder();
    NoEarlierPrefix(Operators, i, v);
    FirstOperatorAt(s, Operators, i);
    assert s[|op|..] == v;
    TrimPlain(v);
  }

  /** A numeral ends in a digit and starts with one. */
  lemma VersionStringEnds(a: nat, b: nat, c: nat)
    ensures var v := VersionString(a, b, c);
      v != [] && IsDigit(v[0]) && IsDigit(v[|v| - 1])
  {
    ShowCanonical(a);
    ShowCanonical(c);
  }

  /** The operator of a comparison. */
  function ComparisonOperator(k: Comparison): (op: string)
    ensures op in Operators && RouteOf(op) == CompareRoute(k)
  {
    match k
    case GreaterEqual => OpGreaterEqual
    case Greater => OpGreater
    case LessEqual => OpLessEqual
    case Less => OpLess
  }

  /** `>=M.m.p`, `>M.m.p`, `<=M.m.p` and `<M.m.p` stand for the rendered
      comparison patterns, whose meaning the Comparisons module proves. */
  lemma ComparisonConstraint(k: Comparison, major: nat, minor: nat, patch: nat)
    ensures ConstraintText(ComparisonOperator(k) + VersionString(major, minor, patch))
      == Ok(RenderVersionPattern(ComparisonPattern(k, major, minor, patch)))
  {
    var v := VersionString(major, minor, patch);
    VersionStringEnds(major, minor, patch);
    OperatorBeforeNumeral(ComparisonOperator(k), v);
    ParseVersionString(major, minor, patch, []);
    assert v + [] == v;
    ComparisonOfParsed(k, v, major, minor, patch);
  }

  /** An operator in front of a numeral is dispatched on that numeral. */
  lemma OperatorConstraintText(op: string, v: string)
    requires op in Operators && v != [] && IsDigit(v[0]) && !IsSpace(v[|v| - 1])
    ensures ConstraintText(op + v) == ConstraintRegex(VersionConstraint(op, v))
  {
    OperatorBeforeNumeral(op, v);
  }

  /** `^M.m.p` stands for the caret pattern. */
  lemma CaretConstraint(major: nat, minor: nat, patch: nat)
    ensures ConstraintText(OpCaret + VersionString(major, minor, patch)) == Ok(RenderVersionPattern(CaretPattern(major, minor)))
  {
    var v := VersionString(major, minor, patch);
    RouteTable();
    VersionStringEnds(major, minor, patch);
    OperatorConstraintText(OpCaret, v);
    RangesOfVersion(major, minor, patch, []);
    assert v + [] == v;
  }

  /** `~M.m.p`, `~>M.m.p` and `~=M.m.p` all stand for the tilde pattern. */
  lemma TildeConstraints(major: nat, minor: nat, patch: nat)
    ensures var v := VersionString(major, minor, patch);
      && ConstraintText(OpTilde + v) == Ok(RenderVersionPattern(TildePattern(major, minor)))
      && ConstraintText(OpPessimistic + v) == ConstraintText(OpTilde + v)
      && ConstraintText(OpCompatible + v) == ConstraintText(OpTilde + v)
  {
    var v := VersionString(major, minor, patch);
    VersionStringEnds(major, minor, patch);
    TildeConstraint(major, minor, patch);
    PessimisticAlias(v);
    CompatibleAlias(v);
  }

  lemma TildeConstraint(major: nat, minor: nat, patch: nat)
    ensures ConstraintText(OpTilde + VersionString(major, minor, patch)) == Ok(RenderVersionPattern(TildePattern(major, minor)))
  {
    var v := VersionString(major, minor, patch);
    RouteTable();
    VersionStringEnds(major, minor, patch);
    OperatorConstraintText(OpTilde, v);
    RangesOfVersion(major, minor, patch, []);
    assert v + [] == v;
  }

  /** `~>` in front of a numeral does what `~` does. */
  lemma PessimisticAlias(v: string)
    requires v != [] && IsDigit(v[0]) && !IsSpace(v[|v| - 1])
    ensures ConstraintText(OpPessimistic + v) == ConstraintText(OpTilde + v)
  {
    OperatorConstraintText(OpPessimistic, v);
    OperatorConstraintText(OpTilde, v);
    RouteTable();
    TildeResult(VersionConstraint(OpTilde, v));
    TildeResult(VersionConstraint(OpPessimistic, v));
  }

  /** `~=` in front of a numeral does what `~` does. */
  lemma CompatibleAlias(v: string)
    requires v != [] && IsDigit(v[0]) && !IsSpace(v[|v| - 1])
    ensures ConstraintText(OpCompatible + v) == ConstraintText(OpTilde + v)
  {
    OperatorConstraintText(OpCompatible, v);
    OperatorConstraintText(OpTilde, v);
    RouteTable();
    TildeResult(VersionConstraint(OpTilde, v));
    CompatibleResult(VersionConstraint(OpCompatible, v));
  }

  lemma TildeResult(c: VersionConstraint)
    requires RouteOf(c.operator) == TildeRoute
    ensures ConstraintRegex(c) == TildeRangeRegex(c.version)
  {
  }

  lemma CompatibleResult(c: VersionConstraint)
    requires RouteOf(c.operator) == CompatibleRoute
    ensures ConstraintRegex(c) == TildeRangeRegex(c.version)
  {
  }

  /** `==M.m.p` and `=M.m.p` are exact matches of M.m.p. */
  lemma ExactConstraints(major: nat, minor: nat, patch: nat)
    ensures var v := VersionString(major, minor, patch);
      && ConstraintText(OpEqualEqual + v) == Ok(ExactMatchPattern(v))
      && ConstraintText(OpEqual + v) == Ok(ExactMatchPattern(v))
  {
    var v := VersionString(major, minor, patch);
    RouteTable();
    VersionStringEnds(major, minor, patch);
    OperatorConstraintText(OpEqualEqual, v);
    OperatorConstraintText(OpEqual, v);
  }

  /** A bare numeral is parsed as `==` of itself. */
  lemma BareNumeral(major: nat, minor: nat, patch: nat)
    ensures var v := VersionString(major, minor, patch);
      ParsedConstraint(v) == Ok(VersionConstraint(OpEqualEqual, v))
  {
    var v := VersionString(major, minor, patch);
    VersionStringEnds(major, minor, patch);
    TrimPlain(v);
    assert !("[" <= v) && !("(" <= v);
    forall x | x in Operators ensures !(x <= v) {
      assert x[0] != v[0];
    }
  }
}
