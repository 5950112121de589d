/** The operator tags and the parsed-constraint record of convert/type.go. */
module Constraints {

  const OpGreaterEqual := ">="
  const OpLessEqual := "<="
  const OpNotEqual := "!="
  const OpEqualEqual := "=="
  /** Ruby's pessimistic operator. */
  const OpPessimistic := "~>"
  /** Python's compatible-release operator. */
  const OpCompatible := "~="
  const OpGreater := ">"
  const OpLess := "<"
  const OpEqual := "="
  /** npm's caret range. */
  const OpCaret := "^"
  /** npm's tilde range. */
  const OpTilde := "~"
  /** The tag of a bracketed Maven range; never written by users. */
  const OpMavenRange := "maven-range"

  /** An operator tag and the version text it applies to. The operator is
      kept as text, as in the record it models: any other tag can reach the
      compiler and is rejected there. */
  datatype VersionConstraint = VersionConstraint(operator: string, version: string)
}
