/**
  What the view's output means, independently of how the view computes it.
  A materialised subrange is a `Chunk`: a pass-through slice of the input or
  a copy of the replacement. `Describes` characterises the chunk lists that
  are a correct result of replacing every leftmost, non-overlapping match.
*/
module Chunks {
  import opened Matchers

  datatype Chunk = Pass(text: seq<char>) | Sub(text: seq<char>)

  /** The flattened output: the chunks' characters one after another (what joining the view yields). */
  function Flatten(cs: seq<Chunk>): seq<char>
    decreases |cs|
  {
    if |cs| == 0 then [] else cs[0].text + Flatten(cs[1..])
  }

  /** Joining is piecewise: joining two chunk lists one after the other is joining each and concatenating. */
  lemma {:induction false} FlattenAppend(a: seq<Chunk>, b: seq<Chunk>)
    ensures Flatten(a + b) == Flatten(a) + Flatten(b)
    decreases |a|
  {
    if |a| == 0 {
      assert a + b == b;
    } else {
      assert (a + b)[1..] == a[1..] + b;
      FlattenAppend(a[1..], b);
    }
  }

  /** The chunks with every substitution put back as the matched literal. */
  function Restore(cs: seq<Chunk>, pattern: seq<char>): seq<char>
    decreases |cs|
  {
    if |cs| == 0 then []
    else (if cs[0].Pass? then cs[0].text else pattern) + Restore(cs[1..], pattern)
  }

  /**
    `cs` is the correct result of the view over `s[from..]`:
    - a substitution stands at a position where a match starts, holds the
      replacement and resumes after the matched extent;
    - a pass-through is a non-empty slice of the input in which no match
      starts, and is followed by a substitution or by the end of the input;
    - the chunks end exactly at the end of the input.
  */
  ghost predicate Describes(m: Matcher, s: seq<char>, repl: seq<char>, from: nat, cs: seq<Chunk>)
    decreases |cs|
  {
    if |cs| == 0 then from == |s|
    else match cs[0]
      case Sub(t) =>
        && t == repl
        && MatchAt(m, s, from)
        && Describes(m, s, repl, from + |m.pattern|, cs[1..])
      case Pass(t) =>
        && 0 < |t|
        && from + |t| <= |s|
        && s[from..from + |t|] == t
        && NoMatchIn(m, s, from, from + |t|)
        && (1 < |cs| ==> cs[1].Sub?)
        && Describes(m, s, repl, from + |t|, cs[1..])
  }

  /**
    Reference definition of the flattened result: scan the input one
    character at a time, writing the replacement for every match and
    skipping past it, and copying every other character.
  */
  function SubstituteFrom(m: Matcher, s: seq<char>, repl: seq<char>, from: nat): seq<char>
    requires from <= |s|
    decreases |s| - from
  {
    if from == |s| then []
    else if MatchAt(m, s, from) then repl + SubstituteFrom(m, s, repl, from + |m.pattern|)
    else [s[from]] + SubstituteFrom(m, s, repl, from + 1)
  }

  function Substitute(m: Matcher, s: seq<char>, repl: seq<char>): seq<char> {
    SubstituteFrom(m, s, repl, 0)
  }

  /** A description never starts past the end of the input. */
  lemma {:induction false} DescribesInBounds(m: Matcher, s: seq<char>, repl: seq<char>, from: nat, cs: seq<Chunk>)
    requires Describes(m, s, repl, from, cs)
    ensures from <= |s|
    ensures from < |s| <==> 0 < |cs|
  {
    if 0 < |cs| {
      match cs[0]
      case Sub(t) =>
      case Pass(t) =>
    }
  }

  /**
    The description is unique: at every position there is only one correct
    way to continue, so two correct results over the same input are equal.
  */
  lemma {:induction false} DescribesUnique(m: Matcher, s: seq<char>, repl: seq<char>, from: nat, a: seq<Chunk>, b: seq<Chunk>)
    requires Describes(m, s, repl, from, a)
    requires Describes(m, s, repl, from, b)
    ensures a == b
    decreases |a|
  {
    DescribesInBounds(m, s, repl, from, a);
    DescribesInBounds(m, s, repl, from, b);
    if |a| == 0 || |b| == 0 {
      return;
    }
    match (a[0], b[0])
    case (Sub(t), Sub(u)) =>
      DescribesUnique(m, s, repl, from + |m.pattern|, a[1..], b[1..]);
      assert a == [a[0]] + a[1..];
      assert b == [b[0]] + b[1..];
    case (Sub(t), Pass(u)) =>
      assert false;
    case (Pass(t), Sub(u)) =>
      assert false;
    case (Pass(t), Pass(u)) =>
      if |t| < |u| {
        assert false;
      } else if |u| < |t| {
        assert false;
      }
      assert t == s[from..from + |t|] == u;
      DescribesUnique(m, s, repl, from + |t|, a[1..], b[1..]);
      assert a == [a[0]] + a[1..];
      assert b == [b[0]] + b[1..];
  }

  /** A substitution at a match, followed by a description of what comes after the match. */
  lemma SubThen(m: Matcher, s: seq<char>, repl: seq<char>, from: nat, rest: seq<Chunk>)
    requires MatchAt(m, s, from)
    requires Describes(m, s, repl, from + |m.pattern|, rest)
    ensures Describes(m, s, repl, from, [Sub(repl)] + rest)
  {
    assert ([Sub(repl)] + rest)[1..] == rest;
  }

  /**
    A non-empty slice without a match, followed by the end of the input or by
    a description that starts with a substitution.
  */
  lemma PassThen(m: Matcher, s: seq<char>, repl: seq<char>, from: nat, t: seq<char>, rest: seq<Chunk>)
    requires 0 < |t| && from + |t| <= |s| && s[from..from + |t|] == t
    requires NoMatchIn(m, s, from, from + |t|)
    requires 0 < |rest| ==> rest[0].Sub?
    requires Describes(m, s, repl, from + |t|, rest)
    ensures Describes(m, s, repl, from, [Pass(t)] + rest)
  {
    assert ([Pass(t)] + rest)[1..] == rest;
  }

  /** Putting every substitution back as the matched literal reconstructs the input. */
  lemma {:induction false} DescribesRestores(m: Matcher, s: seq<char>, repl: seq<char>, from: nat, cs: seq<Chunk>)
    requires Describes(m, s, repl, from, cs)
    ensures from <= |s|
    ensures Restore(cs, m.pattern) == s[from..]
    decreases |cs|
  {
    DescribesInBounds(m, s, repl, from, cs);
    if |cs| == 0 {
      return;
    }
    var k := if cs[0].Pass? then |cs[0].text| else |m.pattern|;
    assert from + k <= |s| && s[from..from + k] == (if cs[0].Pass? then cs[0].text else m.pattern);
    assert Describes(m, s, repl, from + k, cs[1..]);
    DescribesRestores(m, s, repl, from + k, cs[1..]);
    SplitSuffix(s, from, from + k);
  }

  /** A suffix is the slice up to `mid` followed by the suffix from `mid`. */
  lemma SplitSuffix<T>(s: seq<T>, from: nat, mid: nat)
    requires from <= mid <= |s|
    ensures s[from..] == s[from..mid] + s[mid..]
  {
  }

  /** Characters in which no match starts are copied unchanged by the reference definition. */
  lemma {:induction false} SubstituteCopies(m: Matcher, s: seq<char>, repl: seq<char>, from: nat, to: nat)
    requires from <= to <= |s|
    requires NoMatchIn(m, s, from, to)
    ensures SubstituteFrom(m, s, repl, from) == s[from..to] + SubstituteFrom(m, s, repl, to)
    decreases |s| - from
  {
    if from < to {
      assert !MatchAt(m, s, from);
      SubstituteCopies(m, s, repl, from + 1, to);
      assert s[from..to] == [s[from]] + s[from + 1..to];
    }
  }

  /** A correct result flattens to the reference substitution of the input. */
  lemma {:induction false} DescribesFlattens(m: Matcher, s: seq<char>, repl: seq<char>, from: nat, cs: seq<Chunk>)
    requires Describes(m, s, repl, from, cs)
    ensures from <= |s|
    ensures Flatten(cs) == SubstituteFrom(m, s, repl, from)
    decreases |cs|
  {
    DescribesInBounds(m, s, repl, from, cs);
    if |cs| == 0 {
      return;
    }
    match cs[0]
    case Sub(t) =>
      assert MatchAt(m, s, from) && Describes(m, s, repl, from + |m.pattern|, cs[1..]);
      DescribesFlattens(m, s, repl, from + |m.pattern|, cs[1..]);
      FlattensSub(m, s, repl, from, cs);
    case Pass(t) =>
      assert NoMatchIn(m, s, from, from + |t|) && Describes(m, s, repl, from + |t|, cs[1..]);
      DescribesFlattens(m, s, repl, from + |t|, cs[1..]);
      FlattensPass(m, s, repl, from, cs);
  }

  /** A substitution at a match contributes the replacement, as the reference definition does. */
  lemma FlattensSub(m: Matcher, s: seq<char>, repl: seq<char>, from: nat, cs: seq<Chunk>)
    requires 0 < |cs| && cs[0] == Sub(repl) && MatchAt(m, s, from)
    requires Flatten(cs[1..]) == SubstituteFrom(m, s, repl, from + |m.pattern|)
    ensures Flatten(cs) == SubstituteFrom(m, s, repl, from)
  {
  }

  /** A match-free pass-through contributes its own text, as the reference definition does. */
  lemma FlattensPass(m: Matcher, s: seq<char>, repl: seq<char>, from: nat, cs: seq<Chunk>)
    requires 0 < |cs| && cs[0].Pass?
    requires from + |cs[0].text| <= |s| && s[from..from + |cs[0].text|] == cs[0].text
    requires NoMatchIn(m, s, from, from + |cs[0].text|)
    requires Flatten(cs[1..]) == SubstituteFrom(m, s, repl, from + |cs[0].text|)
    ensures Flatten(cs) == SubstituteFrom(m, s, repl, from)
  {
    SubstituteCopies(m, s, repl, from, from + |cs[0].text|);
  }

  /**
    The shape of a correct result: pass-throughs are never empty,
    substitutions all hold the replacement, and two pass-throughs are never
    adjacent.
  */
  lemma {:induction false} DescribesShape(m: Matcher, s: seq<char>, repl: seq<char>, from: nat, cs: seq<Chunk>)
    requires Describes(m, s, repl, from, cs)
    ensures forall k :: 0 <= k < |cs| && cs[k].Pass? ==> 0 < |cs[k].text|
    ensures forall k :: 0 <= k < |cs| && cs[k].Sub? ==> cs[k].text == repl
    ensures forall k :: 0 <= k < |cs| - 1 && cs[k].Pass? ==> cs[k + 1].Sub?
    decreases |cs|
  {
    if |cs| == 0 {
      return;
    }
    var next := match cs[0] case Sub(_) => from + |m.pattern| case Pass(t) => from + |t|;
    DescribesShape(m, s, repl, next, cs[1..]);
    forall k | 0 < k < |cs| - 1
      ensures cs[k] == cs[1..][k - 1] && cs[k + 1] == cs[1..][k]
    {
    }
  }
}
