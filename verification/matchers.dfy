/**
  The matcher the view is driven by: a literal parser `bp::lit(pattern)`,
  optionally run with the whitespace skipper `bp::ws`, and the leftmost
  search the view performs with it.
*/
module Matchers {
  import opened Options

  /** The code points the `ws` skipper consumes: the Unicode White_Space property. */
  predicate IsWs(c: char) {
    var n := c as int;
    || 0x09 <= n <= 0x0D
    || n == 0x20
    || n == 0x85
    || n == 0xA0
    || n == 0x1680
    || 0x2000 <= n <= 0x200A
    || n == 0x2028
    || n == 0x2029
    || n == 0x202F
    || n == 0x205F
    || n == 0x3000
  }

  /**
    `lit(pattern)` with the `ws` skipper when `skipWs` holds, without a
    skipper otherwise.
  */
  datatype Matcher = Matcher(pattern: seq<char>, skipWs: bool)

  /**
    A match of `m` starts at position `i` of `s`. With the skipper, whitespace
    is skipped before every match attempt, so an attempt is only ever made at
    a position holding a non-whitespace character. An empty literal would
    match an empty extent, which the view never treats as a match.
  */
  predicate MatchAt(m: Matcher, s: seq<char>, i: nat) {
    && 0 < |m.pattern|
    && i + |m.pattern| <= |s|
    && s[i..i + |m.pattern|] == m.pattern
    && (m.skipWs ==> !IsWs(s[i]))
  }

  /** No match of `m` starts in `[lo, hi)`. */
  ghost predicate NoMatchIn(m: Matcher, s: seq<char>, lo: nat, hi: nat) {
    forall i: nat :: lo <= i < hi ==> !MatchAt(m, s, i)
  }

  /**
    The search the view runs from its cursor: the leftmost position at or
    after `from` where a match starts, or `None` when there is none before
    the end of the input.
  */
  function FindMatch(m: Matcher, s: seq<char>, from: nat): (r: Option<nat>)
    requires from <= |s|
    decreases |s| - from
    ensures r.Some? ==> from <= r.value < |s| && MatchAt(m, s, r.value) && NoMatchIn(m, s, from, r.value)
    ensures r.None? ==> NoMatchIn(m, s, from, |s| + 1)
  {
    if from == |s| then None
    else if MatchAt(m, s, from) then Some(from)
    else FindMatch(m, s, from + 1)
  }
}
