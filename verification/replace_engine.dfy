/**
  Model of the replace view `bp::replace(input, parser, [skip], replacement)`:
  a lazily advanced scan that yields, in input order, subranges bounded by
  either_iterators over (input, replacement). A pass-through subrange walks
  the input; a substitution subrange walks the whole replacement.
*/
module ReplaceEngine {
  import opened Options
  import opened EitherIterators
  import opened Matchers
  import opened Chunks

  /** One element of the view: a half-open range of either_iterators. */
  datatype Subrange = Subrange(first: EitherIterator, last: EitherIterator)

  /**
    The view's iteration state: the input cursor, and whether a match found
    at the cursor still awaits its substitution subrange (it is emitted on
    the advance after the pass-through that precedes it).
  */
  datatype State = State(cursor: nat, matchPending: bool)

  /** The state a fresh iteration of the view starts from. */
  const Start := State(0, false)

  predicate Inv(m: Matcher, s: seq<char>, st: State) {
    && st.cursor <= |s|
    && (st.matchPending ==> MatchAt(m, s, st.cursor))
  }

  /** Work left: every advance lowers it. */
  function Measure(s: seq<char>, st: State): nat
    requires st.cursor <= |s|
  {
    2 * (|s| - st.cursor) + (if st.matchPending then 0 else 1)
  }

  /**
    A subrange the view may yield: a non-empty slice of the input, or the
    entire replacement.
  */
  predicate WellFormed(s: seq<char>, repl: seq<char>, sr: Subrange) {
    || (sr.first.L? && sr.last.L? && sr.first.i < sr.last.i <= |s|)
    || (sr.first == R(0) && sr.last == R(|repl|))
  }

  /**
    One advance of the view. At the end of the input with nothing pending
    there is no further subrange. A pending match yields the replacement and
    moves past the matched extent. Otherwise the view searches from the
    cursor: a match right at the cursor is substituted at once; a match
    further on first yields the input up to it and leaves the match pending;
    no match yields the rest of the input.
  */
  function Advance(m: Matcher, s: seq<char>, repl: seq<char>, st: State): (r: Option<(Subrange, State)>)
    requires Inv(m, s, st)
    ensures r.None? <==> !st.matchPending && st.cursor == |s|
    ensures r.Some? ==> WellFormed(s, repl, r.value.0) && Inv(m, s, r.value.1)
    ensures r.Some? ==> st.cursor < r.value.1.cursor || (st.cursor == r.value.1.cursor && r.value.1.matchPending && !st.matchPending)
    ensures r.Some? && r.value.0.first.R? ==>
      MatchAt(m, s, st.cursor) && r.value.1 == State(st.cursor + |m.pattern|, false)
    ensures r.Some? && r.value.0.first.L? ==>
      && !st.matchPending
      && r.value.0 == Subrange(L(st.cursor), L(r.value.1.cursor))
      && NoMatchIn(m, s, st.cursor, r.value.1.cursor)
      && (r.value.1.matchPending || r.value.1.cursor == |s|)
  {
    var substitution := Subrange(R(0), R(|repl|));
    if st.matchPending then
      Some((substitution, State(st.cursor + |m.pattern|, false)))
    else if st.cursor == |s| then
      None
    else
      match FindMatch(m, s, st.cursor)
      case Some(p) =>
        if p == st.cursor then Some((substitution, State(p + |m.pattern|, false)))
        else Some((Subrange(L(st.cursor), L(p)), State(p, true)))
      case None =>
        Some((Subrange(L(st.cursor), L(|s|)), State(|s|, false)))
  }

  /** Every subrange the view yields from `st` on, in order. */
  function Run(m: Matcher, s: seq<char>, repl: seq<char>, st: State): (r: seq<Subrange>)
    requires Inv(m, s, st)
    decreases Measure(s, st)
    ensures forall k :: 0 <= k < |r| ==> WellFormed(s, repl, r[k])
    ensures |r| == 0 <==> !st.matchPending && st.cursor == |s|
    ensures st.matchPending ==> r[0].first.R?
  {
    match Advance(m, s, repl, st)
    case None => []
    case Some((sr, next)) => [sr] + Run(m, s, repl, next)
  }

  /** The subranges of `bp::replace(s, m, repl)`. */
  function Subranges(m: Matcher, s: seq<char>, repl: seq<char>): (r: seq<Subrange>)
    ensures forall k :: 0 <= k < |r| ==> WellFormed(s, repl, r[k])
  {
    Run(m, s, repl, Start)
  }

  /**
    `std::string(subrange.begin(), subrange.end())`, tagged with the
    subrange's kind: an input subrange copies out a non-empty slice of the
    input, a replacement subrange copies out the whole replacement.
  */
  function Materialize(s: seq<char>, repl: seq<char>, sr: Subrange): (c: Chunk)
    requires WellFormed(s, repl, sr)
    ensures c.Pass? <==> sr.first.L?
    ensures c.Pass? ==> 0 < |c.text| && c.text == s[sr.first.i..sr.last.i]
    ensures c.Sub? ==> c.text == repl
  {
    var text := Elements(s, repl, sr.first, sr.last);
    if sr.first.L? then Pass(text) else Sub(text)
  }

  /** Every subrange of a run copied out, in order. */
  function MaterializeAll(s: seq<char>, repl: seq<char>, srs: seq<Subrange>): (cs: seq<Chunk>)
    requires forall k :: 0 <= k < |srs| ==> WellFormed(s, repl, srs[k])
    ensures |cs| == |srs|
    decreases |srs|
  {
    if |srs| == 0 then [] else [Materialize(s, repl, srs[0])] + MaterializeAll(s, repl, srs[1..])
  }

  /** The `k`-th chunk copied out is the `k`-th subrange materialised: one chunk per subrange, in order. */
  lemma {:induction false} MaterializeAllAt(s: seq<char>, repl: seq<char>, srs: seq<Subrange>, k: nat)
    requires forall j :: 0 <= j < |srs| ==> WellFormed(s, repl, srs[j])
    requires k < |srs|
    ensures MaterializeAll(s, repl, srs)[k] == Materialize(s, repl, srs[k])
    decreases k
  {
    if 0 < k {
      MaterializeAllAt(s, repl, srs[1..], k - 1);
    }
  }

  /** The chunks the view yields from `st` on describe the input from the cursor on. */
  lemma {:induction false} RunDescribes(m: Matcher, s: seq<char>, repl: seq<char>, st: State)
    requires Inv(m, s, st)
    ensures Describes(m, s, repl, st.cursor, MaterializeAll(s, repl, Run(m, s, repl, st)))
    decreases Measure(s, st)
  {
    match Advance(m, s, repl, st)
    case None =>
    case Some((sr, next)) =>
      var srs := Run(m, s, repl, next);
      var rest := MaterializeAll(s, repl, srs);
      RunDescribes(m, s, repl, next);
      RunUnfolds(m, s, repl, st, sr, next);
      if sr.first.L? && 0 < |srs| {
        MaterializeAllAt(s, repl, srs, 0);
      }
      StepDescribes(m, s, repl, st, sr, next, rest);
  }

  /** One advance extends a description of the rest by the subrange it yields. */
  lemma StepDescribes(m: Matcher, s: seq<char>, repl: seq<char>, st: State, sr: Subrange, next: State, rest: seq<Chunk>)
    requires Inv(m, s, st) && Advance(m, s, repl, st) == Some((sr, next))
    requires Describes(m, s, repl, next.cursor, rest)
    requires sr.first.L? && 0 < |rest| ==> rest[0].Sub?
    ensures Describes(m, s, repl, st.cursor, [Materialize(s, repl, sr)] + rest)
  {
    if sr.first.L? {
      PassThen(m, s, repl, st.cursor, s[st.cursor..next.cursor], rest);
    } else {
      SubThen(m, s, repl, st.cursor, rest);
    }
  }

  /**
    `bp::replace(s, m, repl)` with every subrange materialised. The result is
    a correct description of the input: it holds no empty pass-through and
    no two adjacent pass-throughs, every substitution holds the replacement,
    and it is empty exactly when the input is.
  */
  function Replace(m: Matcher, s: seq<char>, repl: seq<char>): (r: seq<Chunk>)
    ensures Describes(m, s, repl, 0, r)
    ensures forall k :: 0 <= k < |r| && r[k].Pass? ==> 0 < |r[k].text|
    ensures forall k :: 0 <= k < |r| && r[k].Sub? ==> r[k].text == repl
    ensures forall k :: 0 <= k < |r| - 1 && r[k].Pass? ==> r[k + 1].Sub?
    ensures |r| == 0 <==> |s| == 0
  {
    var r := MaterializeAll(s, repl, Subranges(m, s, repl));
    RunDescribes(m, s, repl, Start);
    DescribesShape(m, s, repl, 0, r);
    DescribesInBounds(m, s, repl, 0, r);
    r
  }

  /** One advance contributes its materialised subrange in front of the rest of the run. */
  lemma RunUnfolds(m: Matcher, s: seq<char>, repl: seq<char>, st: State, sr: Subrange, next: State)
    requires Inv(m, s, st)
    requires Advance(m, s, repl, st) == Some((sr, next))
    ensures WellFormed(s, repl, sr) && Inv(m, s, next)
    ensures Measure(s, next) < Measure(s, st)
    ensures MaterializeAll(s, repl, Run(m, s, repl, st))
         == [Materialize(s, repl, sr)] + MaterializeAll(s, repl, Run(m, s, repl, next))
  {
    var rest := Run(m, s, repl, next);
    assert Run(m, s, repl, st) == [sr] + rest;
    assert ([sr] + rest)[1..] == rest;
  }

  /**
    The range-for loop over the view that copies every subrange out through
    its either_iterators: it yields exactly `Replace(m, s, repl)`.
  */
  method Iterate(m: Matcher, s: seq<char>, repl: seq<char>) returns (chunks: seq<Chunk>)
    ensures chunks == Replace(m, s, repl)
  {
    chunks := [];
    var st := Start;
    ghost var all := MaterializeAll(s, repl, Run(m, s, repl, Start));
    while true
      invariant Inv(m, s, st)
      invariant chunks + MaterializeAll(s, repl, Run(m, s, repl, st)) == all
      decreases Measure(s, st)
    {
      var step := Advance(m, s, repl, st);
      if step.None? {
        assert chunks + [] == chunks;
        return;
      }
      var sr, next := step.value.0, step.value.1;
      var text := Collect(s, repl, sr.first, sr.last);
      var chunk := if sr.first.L? then Pass(text) else Sub(text);
      CopiedStep(m, s, repl, st, sr, next, chunks, chunk);
      chunks := chunks + [chunk];
      st := next;
    }
  }

  /** Appending the subrange just copied out keeps what is done plus what remains unchanged. */
  lemma CopiedStep(m: Matcher, s: seq<char>, repl: seq<char>, st: State, sr: Subrange, next: State, done: seq<Chunk>, chunk: Chunk)
    requires Inv(m, s, st)
    requires Advance(m, s, repl, st) == Some((sr, next))
    requires WellFormed(s, repl, sr) && chunk == Materialize(s, repl, sr)
    ensures Inv(m, s, next) && Measure(s, next) < Measure(s, st)
    ensures done + MaterializeAll(s, repl, Run(m, s, repl, st))
         == (done + [chunk]) + MaterializeAll(s, repl, Run(m, s, repl, next))
  {
    RunUnfolds(m, s, repl, st, sr, next);
    ghost var rest := MaterializeAll(s, repl, Run(m, s, repl, next));
    assert (done + [chunk]) + rest == done + ([chunk] + rest);
  }
}
