/** Properties of the replace view that relate several calls or several matchers. */
module ReplaceProperties {
  import opened Matchers
  import opened Chunks
  import opened ReplaceEngine

  /**
    The view's result is characterised by `Describes`: a chunk list is the
    view's result exactly when it is a correct description of the input.
  */
  lemma ReplaceCharacterised(m: Matcher, s: seq<char>, repl: seq<char>, cs: seq<Chunk>)
    ensures Describes(m, s, repl, 0, cs) <==> cs == Replace(m, s, repl)
  {
    if Describes(m, s, repl, 0, cs) {
      DescribesUnique(m, s, repl, 0, Replace(m, s, repl), cs);
    }
  }

  /**
    Joining the view's subranges gives the input with every leftmost,
    non-overlapping match replaced, as the character-by-character reference
    definition computes it.
  */
  lemma ReplaceJoins(m: Matcher, s: seq<char>, repl: seq<char>)
    ensures Flatten(Replace(m, s, repl)) == Substitute(m, s, repl)
  {
    DescribesFlattens(m, s, repl, 0, Replace(m, s, repl));
  }

  /** Putting the matched literal back in place of every substitution gives the input back. */
  lemma ReplaceRestores(m: Matcher, s: seq<char>, repl: seq<char>)
    ensures Restore(Replace(m, s, repl), m.pattern) == s
  {
    DescribesRestores(m, s, repl, 0, Replace(m, s, repl));
  }

  /** A slice that does not contain the literal's first character holds no match. */
  lemma NoMatchInText(m: Matcher, s: seq<char>, from: nat, t: seq<char>)
    requires 0 < |m.pattern| && from + |t| <= |s| && s[from..from + |t|] == t
    requires m.pattern[0] !in t
    ensures NoMatchIn(m, s, from, from + |t|)
  {
    forall i: nat | from <= i < from + |t|
      ensures !MatchAt(m, s, i)
    {
      assert s[i] == t[i - from];
    }
  }

  /**
    A chunk list whose pass-throughs are non-empty, never adjacent and free
    of the character `first`, and whose substitutions hold `repl`.
  */
  predicate Separated(first: char, repl: seq<char>, cs: seq<Chunk>)
    decreases |cs|
  {
    if |cs| == 0 then true
    else match cs[0]
      case Sub(t) => t == repl && Separated(first, repl, cs[1..])
      case Pass(t) =>
        && 0 < |t|
        && first !in t
        && (1 < |cs| ==> cs[1].Sub?)
        && Separated(first, repl, cs[1..])
  }

  /** An input assembled from separated chunks, substitutions spelled as the literal, is described by those chunks. */
  lemma {:induction false} SeparatedDescribes(m: Matcher, s: seq<char>, repl: seq<char>, from: nat, cs: seq<Chunk>)
    requires 0 < |m.pattern| && (m.skipWs ==> !IsWs(m.pattern[0]))
    requires Separated(m.pattern[0], repl, cs)
    requires from <= |s| && s[from..] == Restore(cs, m.pattern)
    ensures Describes(m, s, repl, from, cs)
    decreases |cs|
  {
    if |cs| == 0 {
      return;
    }
    var p := m.pattern;
    var head := if cs[0].Pass? then cs[0].text else p;
    var rest := cs[1..];
    assert Separated(p[0], repl, rest) && s[from..] == head + Restore(rest, p) by {
      assert Restore(cs, p) == head + Restore(rest, p);
    }
    SplitConcat(s, from, head, Restore(rest, p));
    SeparatedDescribes(m, s, repl, from + |head|, rest);
    SeparatedStep(m, s, repl, from, cs, head);
  }

  /** One step of `SeparatedDescribes`: the head chunk, spelled out as `head`, extends the description of the rest. */
  lemma SeparatedStep(m: Matcher, s: seq<char>, repl: seq<char>, from: nat, cs: seq<Chunk>, head: seq<char>)
    requires 0 < |m.pattern| && (m.skipWs ==> !IsWs(m.pattern[0]))
    requires 0 < |cs| && Separated(m.pattern[0], repl, cs)
    requires head == if cs[0].Pass? then cs[0].text else m.pattern
    requires from + |head| <= |s| && s[from..from + |head|] == head
    requires Describes(m, s, repl, from + |head|, cs[1..])
    ensures Describes(m, s, repl, from, cs)
  {
    var p := m.pattern;
    if cs[0].Pass? {
      assert cs == [Pass(head)] + cs[1..];
      NoMatchInText(m, s, from, head);
      PassThen(m, s, repl, from, head, cs[1..]);
    } else {
      assert cs == [Sub(repl)] + cs[1..];
      assert s[from] == s[from..from + |p|][0] == p[0];
      SubThen(m, s, repl, from, cs[1..]);
    }
  }

  /** A suffix that is `head + rest` starts with `head` and continues with `rest`. */
  lemma SplitConcat<T>(s: seq<T>, from: nat, head: seq<T>, rest: seq<T>)
    requires from <= |s| && s[from..] == head + rest
    ensures from + |head| <= |s|
    ensures s[from..from + |head|] == head
    ensures s[from + |head|..] == rest
  {
    assert s[from..from + |head|] == (head + rest)[..|head|];
    assert s[from + |head|..] == (head + rest)[|head|..];
  }

  /**
    The converse of undoing the substitutions: assembling an input from
    separated chunks and running the view over it gives those chunks back.
  */
  lemma ReplaceOfRestored(m: Matcher, cs: seq<Chunk>, repl: seq<char>)
    requires 0 < |m.pattern| && (m.skipWs ==> !IsWs(m.pattern[0]))
    requires Separated(m.pattern[0], repl, cs)
    ensures Replace(m, Restore(cs, m.pattern), repl) == cs
  {
    var s := Restore(cs, m.pattern);
    assert s[0..] == s;
    SeparatedDescribes(m, s, repl, 0, cs);
    ReplaceCharacterised(m, s, repl, cs);
  }

  /**
    Without any match the view yields the whole input as one pass-through
    subrange, or nothing at all when the input is empty.
  */
  lemma NoMatchPassesThrough(m: Matcher, s: seq<char>, repl: seq<char>)
    requires NoMatchIn(m, s, 0, |s|)
    ensures Replace(m, s, repl) == if |s| == 0 then [] else [Pass(s)]
  {
    var cs: seq<Chunk> := if |s| == 0 then [] else [Pass(s)];
    if 0 < |s| {
      assert s[0..|s|] == s;
      assert Describes(m, s, repl, |s|, cs[1..]);
    }
    ReplaceCharacterised(m, s, repl, cs);
  }

  /** A description depends on the matcher only through where its matches start and how long they are. */
  lemma {:induction false} DescribesTransfer(m1: Matcher, m2: Matcher, s: seq<char>, repl: seq<char>, from: nat, cs: seq<Chunk>)
    requires |m1.pattern| == |m2.pattern|
    requires forall i: nat :: MatchAt(m1, s, i) <==> MatchAt(m2, s, i)
    requires Describes(m1, s, repl, from, cs)
    ensures Describes(m2, s, repl, from, cs)
    decreases |cs|
  {
    if 0 < |cs| {
      match cs[0]
      case Sub(t) =>
        DescribesTransfer(m1, m2, s, repl, from + |m1.pattern|, cs[1..]);
      case Pass(t) =>
        DescribesTransfer(m1, m2, s, repl, from + |t|, cs[1..]);
    }
  }

  /**
    The `ws` skipper only keeps match attempts off whitespace positions. A
    literal that does not start with whitespace never matches there, so the
    view gives the same subranges with and without the skipper; skipped
    whitespace stays inside the neighbouring pass-through subranges.
  */
  lemma SkipperIrrelevantForLiteral(pattern: seq<char>, s: seq<char>, repl: seq<char>)
    requires 0 < |pattern| && !IsWs(pattern[0])
    ensures Replace(Matcher(pattern, true), s, repl) == Replace(Matcher(pattern, false), s, repl)
  {
    var skipping := Matcher(pattern, true);
    var plain := Matcher(pattern, false);
    forall i: nat
      ensures MatchAt(skipping, s, i) <==> MatchAt(plain, s, i)
    {
      if MatchAt(plain, s, i) {
        assert s[i] == s[i..i + |pattern|][0] == pattern[0];
      }
    }
    DescribesTransfer(skipping, plain, s, repl, 0, Replace(skipping, s, repl));
    ReplaceCharacterised(plain, s, repl, Replace(skipping, s, repl));
  }

  /** A match at the very start is substituted first: there is no leading empty pass-through. */
  lemma MatchAtStartSubstitutesFirst(m: Matcher, s: seq<char>, repl: seq<char>)
    requires MatchAt(m, s, 0)
    ensures 0 < |Replace(m, s, repl)| && Replace(m, s, repl)[0] == Sub(repl)
  {
    var r := Replace(m, s, repl);
    assert 0 < |r|;
  }
}
