/**
  The part of java.util.regex that the selector relies on, as an oracle.
  The engine itself is not modelled: a compiled pattern is known only through
  its group count and its anchored full-match routine.
 */
module Regex {
  import opened Wrappers

  /**
    A compiled `Pattern`: the source text it was compiled from, the number of
    capturing groups it declares (`Matcher.groupCount()`), and its full-match
    routine. `fullMatch(s)` is `None` when `Matcher.matches()` fails on `s`;
    otherwise it holds `group(0)`, `group(1)`, ..., with `None` for a group
    that did not take part in the match (where `group(i)` returns `null`).
   */
  datatype Pattern = Pattern(
    regex: string,
    groupCount: nat,
    fullMatch: string -> Option<seq<Option<string>>>)

  /**
    What the engine guarantees of every successful full match: one capture per
    group plus group 0, and group 0 is the whole input.
   */
  ghost predicate WellFormed(p: Pattern) {
    forall s :: p.fullMatch(s).Some? ==>
      |p.fullMatch(s).value| == p.groupCount + 1 && p.fullMatch(s).value[0] == Some(s)
  }

  /** A pattern as `Pattern.compile` hands it back. */
  type CompiledPattern = p: Pattern | WellFormed(p)
    witness Pattern("", 0, s => if s == "" then Some([Some(s)]) else None)

  /** `Matcher.matches()`: does the pattern match the whole of `s`? */
  predicate FullyMatches(p: CompiledPattern, s: string) {
    p.fullMatch(s).Some?
  }
}
