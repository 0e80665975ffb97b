/**
 * The regular-expression engine, kept abstract. A compiled pattern is known
 * only through what the matcher asks of it: whether it matches somewhere in a
 * string (Go's MatchString, unanchored search) and the list of submatches of
 * its leftmost match (FindStringSubmatch: the whole match followed by every
 * capture group, unmatched groups as empty strings). Nothing ties the two
 * fields together; `Consistent` says when they agree as Go's do.
 */
module Regex {

  datatype Regexp = Regexp(matches: string -> bool, findSubmatch: string -> seq<string>)

  /** Go's FindStringSubmatch is empty exactly when MatchString fails. */
  ghost predicate Consistent(r: Regexp)
  {
    forall s :: r.matches(s) <==> r.findSubmatch(s) != []
  }

  /** One -attr filter: a pattern for the attribute's local name and one for its value. */
  datatype AttrReg = AttrReg(key: Regexp, value: Regexp)
}
