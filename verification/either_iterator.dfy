/**
  Model of `bp::detail::either_iterator<A, B>`: a single position type that
  holds either a position in a sequence `a` or a position in a sequence `b`,
  and forwards dereference, increment and comparison to the one it holds.

  The two sequences are fixed parameters of every operation; an iterator is
  only a tag (which sequence) and an index into that sequence.
*/
module EitherIterators {

  datatype EitherIterator = L(i: nat) | R(i: nat)

  /** `it` is a position of the sequence it walks, from its begin up to and including its end. */
  predicate Valid<T>(a: seq<T>, b: seq<T>, it: EitherIterator) {
    match it
    case L(i) => i <= |a|
    case R(i) => i <= |b|
  }

  /** `it` is the end position of the sequence it walks. */
  predicate AtEnd<T>(a: seq<T>, b: seq<T>, it: EitherIterator) {
    match it
    case L(i) => i == |a|
    case R(i) => i == |b|
  }

  /** `*it`: the element at the held position, read from whichever sequence the iterator walks. */
  function Deref<T>(a: seq<T>, b: seq<T>, it: EitherIterator): (x: T)
    requires Valid(a, b, it) && !AtEnd(a, b, it)
    ensures it.L? ==> x == a[it.i]
    ensures it.R? ==> x == b[it.i]
  {
    match it
    case L(i) => a[i]
    case R(i) => b[i]
  }

  /** `++it`: one step forward. An iterator never changes which sequence it walks. */
  function Next<T>(a: seq<T>, b: seq<T>, it: EitherIterator): (r: EitherIterator)
    requires Valid(a, b, it) && !AtEnd(a, b, it)
    ensures Valid(a, b, r)
    ensures r.L? == it.L? && r.i == it.i + 1
  {
    match it
    case L(i) => L(i + 1)
    case R(i) => R(i + 1)
  }

  /**
    `x == y`: iterators over different sequences are never equal, whatever
    their indices; iterators over the same sequence are equal exactly when
    they hold the same index.
  */
  function Equal(x: EitherIterator, y: EitherIterator): (r: bool)
    ensures x.L? != y.L? ==> !r
    ensures x.L? == y.L? ==> (r <==> x.i == y.i)
    ensures r <==> x == y
  {
    match (x, y)
    case (L(i), L(j)) => i == j
    case (R(i), R(j)) => i == j
    case _ => false
  }

  /** `[first, last)` is a range: both ends walk the same sequence and `last` is reachable from `first`. */
  predicate IsRange<T>(a: seq<T>, b: seq<T>, first: EitherIterator, last: EitherIterator) {
    && Valid(a, b, first)
    && Valid(a, b, last)
    && first.L? == last.L?
    && first.i <= last.i
  }

  /** The elements a range denotes: a slice of the sequence both ends walk. */
  function Elements<T>(a: seq<T>, b: seq<T>, first: EitherIterator, last: EitherIterator): seq<T>
    requires IsRange(a, b, first, last)
  {
    if first.L? then a[first.i..last.i] else b[first.i..last.i]
  }

  /**
    The iteration loop `for (it = first; it != last; ++it) out.push_back(*it)`,
    written only with `Equal`, `Deref` and `Next`: it yields the range's
    elements in order.
  */
  method Collect<T>(a: seq<T>, b: seq<T>, first: EitherIterator, last: EitherIterator) returns (out: seq<T>)
    requires IsRange(a, b, first, last)
    ensures |out| == last.i - first.i
    ensures first.L? ==> out == a[first.i..last.i]
    ensures first.R? ==> out == b[first.i..last.i]
  {
    out := [];
    var it := first;
    while !Equal(it, last)
      invariant IsRange(a, b, it, last)
      invariant it.L? == first.L? && first.i <= it.i
      invariant out == Elements(a, b, first, it)
      decreases last.i - it.i
    {
      out := out + [Deref(a, b, it)];
      it := Next(a, b, it);
    }
  }
}
