/** The completion match types of command.c, in the order of the C enumeration: the
    engine compares them with `<`. */
module MatchTypes {
  type MatchType = t: nat | t <= 9

  const NO_MATCH: MatchType := 0
  const EXTEND_MATCH: MatchType := 1
  const IPV4_PREFIX_MATCH: MatchType := 2
  const IPV4_MATCH: MatchType := 3
  const IPV6_PREFIX_MATCH: MatchType := 4
  const IPV6_MATCH: MatchType := 5
  const RANGE_MATCH: MatchType := 6
  const VARARG_MATCH: MatchType := 7
  const PARTLY_MATCH: MatchType := 8
  const EXACT_MATCH: MatchType := 9
}
