/**
  The concrete scenarios the replace view is expected to reproduce: the
  either_iterator walks, and the subranges `bp::replace(input, lit("XYZ"),
  [ws], "foo")` yields for each input. Every scenario about the view holds
  with and without the `ws` skipper.
*/
module ReplaceScenarios {
  import opened EitherIterators
  import opened Ranges
  import opened Matchers
  import opened Chunks
  import opened ReplaceEngine
  import opened ReplaceProperties

  /**
    Either_iterators over a list {1, 2, 3} and a vector {4, 5, 6} each walk
    their own sequence; over the ranges of the literals "" and "foo", begin
    equals end for the first and the second yields "foo".
  */
  method EitherIteratorWalks() returns (fromList: seq<int>, fromVector: seq<int>, emptyIsEmpty: bool, copy: seq<char>)
    ensures fromList == [1, 2, 3]
    ensures fromVector == [4, 5, 6]
    ensures emptyIsEmpty
    ensures copy == "foo"
  {
    var l, v := [1, 2, 3], [4, 5, 6];
    fromList := Collect(l, v, L(0), L(|l|));
    fromVector := Collect(l, v, R(0), R(|v|));
    var r1, r2 := ToRange(Literal("")), ToRange(Literal("foo"));
    ToRangeOfLiteral("");
    ToRangeOfLiteral("foo");
    emptyIsEmpty := Equal(L(0), L(|r1|));
    copy := Collect(r1, r2, R(0), R(|r2|));
  }

  /** An empty input yields no subrange. */
  lemma EmptyInput(skipWs: bool)
    ensures Replace(Matcher("XYZ", skipWs), "", "foo") == []
  {
  }

  /** "aaXYZb": pass-through, substitution, pass-through, in input order. */
  lemma MatchInMiddle(skipWs: bool)
    ensures Replace(Matcher("XYZ", skipWs), "aaXYZb", "foo")
         == [Pass("aa"), Sub("foo"), Pass("b")]
  {
    assert Restore([Pass("aa"), Sub("foo"), Pass("b")], "XYZ") == "aaXYZb";
    ReplaceOfRestored(Matcher("XYZ", skipWs), [Pass("aa"), Sub("foo"), Pass("b")], "foo");
  }

  /** Whitespace around a match stays in the neighbouring pass-throughs. */
  lemma WhitespaceStaysInPassThrough(skipWs: bool)
    ensures Replace(Matcher("XYZ", skipWs), "a a XYZ baa ba XYZ", "foo")
         == [Pass("a a "), Sub("foo"), Pass(" baa ba "), Sub("foo")]
  {
    assert Restore([Pass("a a "), Sub("foo"), Pass(" baa ba "), Sub("foo")], "XYZ") == "a a XYZ baa ba XYZ";
    ReplaceOfRestored(Matcher("XYZ", skipWs), [Pass("a a "), Sub("foo"), Pass(" baa ba "), Sub("foo")], "foo");
  }

  /** A match at the very end leaves no trailing pass-through. */
  lemma MatchAtEnd(skipWs: bool)
    ensures Replace(Matcher("XYZ", skipWs), "aaXYZbaabaXYZ", "foo")
         == [Pass("aa"), Sub("foo"), Pass("baaba"), Sub("foo")]
  {
    assert Restore([Pass("aa"), Sub("foo"), Pass("baaba"), Sub("foo")], "XYZ") == "aaXYZbaabaXYZ";
    ReplaceOfRestored(Matcher("XYZ", skipWs), [Pass("aa"), Sub("foo"), Pass("baaba"), Sub("foo")], "foo");
  }

  /** Adjacent matches at the end give adjacent substitutions. */
  lemma AdjacentMatchesAtEnd(skipWs: bool)
    ensures Replace(Matcher("XYZ", skipWs), "aaXYZbaabaXYZXYZ", "foo")
         == [Pass("aa"), Sub("foo"), Pass("baaba"), Sub("foo"), Sub("foo")]
  {
    assert Restore([Pass("aa"), Sub("foo"), Pass("baaba"), Sub("foo"), Sub("foo")], "XYZ") == "aaXYZbaabaXYZXYZ";
    ReplaceOfRestored(Matcher("XYZ", skipWs), [Pass("aa"), Sub("foo"), Pass("baaba"), Sub("foo"), Sub("foo")], "foo");
  }

  /** A match at the very start leaves no leading pass-through. */
  lemma MatchAtStart(skipWs: bool)
    ensures Replace(Matcher("XYZ", skipWs), "XYZaaXYZbaabaXYZXYZ", "foo")
         == [Sub("foo"), Pass("aa"), Sub("foo"), Pass("baaba"), Sub("foo"), Sub("foo")]
  {
    assert Restore([Sub("foo"), Pass("aa"), Sub("foo"), Pass("baaba"), Sub("foo"), Sub("foo")], "XYZ") == "XYZaaXYZbaabaXYZXYZ";
    ReplaceOfRestored(Matcher("XYZ", skipWs), [Sub("foo"), Pass("aa"), Sub("foo"), Pass("baaba"), Sub("foo"), Sub("foo")], "foo");
  }

  /** Adjacent matches at both ends give adjacent substitutions. */
  lemma AdjacentMatchesAtStart(skipWs: bool)
    ensures Replace(Matcher("XYZ", skipWs), "XYZXYZaaXYZbaabaXYZXYZ", "foo")
         == [Sub("foo"), Sub("foo"), Pass("aa"), Sub("foo"), Pass("baaba"), Sub("foo"), Sub("foo")]
  {
    assert Restore([Sub("foo"), Sub("foo"), Pass("aa"), Sub("foo"), Pass("baaba"), Sub("foo"), Sub("foo")], "XYZ") == "XYZXYZaaXYZbaabaXYZXYZ";
    ReplaceOfRestored(Matcher("XYZ", skipWs), [Sub("foo"), Sub("foo"), Pass("aa"), Sub("foo"), Pass("baaba"), Sub("foo"), Sub("foo")], "foo");
  }

  /** Joining the subranges gives the input with every "XYZ" replaced by "foo". */
  lemma JoinedResult(skipWs: bool)
    ensures Flatten(Replace(Matcher("XYZ", skipWs), "XYZXYZaaXYZbaabaXYZXYZ", "foo")) == "foofooaafoobaabafoofoo"
  {
    var cs := [Sub("foo"), Sub("foo"), Pass("aa"), Sub("foo"), Pass("baaba"), Sub("foo"), Sub("foo")];
    assert Flatten(cs) == "foofooaafoobaabafoofoo" by {
    }
    AdjacentMatchesAtStart(skipWs);
  }
}
