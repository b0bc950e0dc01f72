# Boost.Parser `replace` view, modelled in Dafny

This project models the substitution engine of Boost.Parser. The call is
`bp::replace(input, parser, [skip], replacement)`. It produces a lazy
sequence of subranges. Each subrange is one of two kinds:

- a pass-through slice of the input;
- a copy of the replacement, standing where a match of the parser was.

Joined together, the subranges give the input with every leftmost,
non-overlapping match replaced. The helper `bp::detail::either_iterator<A, B>`
is also modelled. It is the single position type that bounds both kinds of
subrange: it holds a position in either A or B.

The engine's header, boost/parser/replace.hpp, is not part of this model.
The behaviour modelled here is the behaviour the test suite test/replace.cpp
pins down, input by input.

Modules:

- `EitherIterators` (either_iterator.dfy): the iterator as `L(i) | R(i)` over two
  fixed sequences, with dereference, increment and equality. `Collect` is the
  test suite's `for (it = first; it != last; ++it)` loop.
- `Ranges` (ranges.dfy): `to_range` of a string literal drops the terminating NUL.
- `Matchers` (matchers.dfy): the matcher is `lit(pattern)`, with or without the
  `ws` skipper. Also the leftmost search from a cursor.
- `Chunks` (chunks.dfy): materialised subranges (`Pass` / `Sub`). It has:
  - `Describes`, a declarative description of a correct result, and the proof
    that this description is unique;
  - `Flatten`, what `std::views::join` over the view yields;
  - `Restore`, which undoes the substitutions;
  - `Substitute`, a character-by-character reference definition of the joined result.
- `ReplaceEngine` (replace_engine.dfy): the view's iteration state, one advance
  step, the full run, and the range-for loop over the view. A subrange is a pair
  of either_iterators over (input, replacement).
- `ReplaceProperties` (replace_properties.dfy): the characterisation, the
  round-trip in both directions, the effect of the skipper, and the case
  with no matches.
- `ReplaceScenarios` (replace_scenarios.dfy): the test suite's concrete inputs
  and expected subranges.

How the skipper behaves. With `bp::ws`, whitespace is skipped before every
match attempt. So an attempt is made only at a non-whitespace position.
Skipped whitespace is NOT dropped from the output. It stays inside the
neighbouring pass-through subranges: `"a a XYZ baa ba XYZ"` gives
`["a a ", "foo", " baa ba ", "foo"]`, as the test at test/replace.cpp:112-122
expects. `ws` is the set of Unicode White_Space code points.

An empty literal would match an empty extent. `MatchAt` never counts that as a
match, so an empty literal passes the input through unchanged. This is a
policy: the test suite does not exercise it.

The test suite repeats several inputs through UTF-8, UTF-16 and UTF-32 views
(test/replace.cpp:241-379). Those cases expect the same subranges as the plain
`char` cases. The model treats the input as already-decoded characters, so
each scenario lemma covers both. Every scenario lemma also takes the skipper
flag as a parameter and holds either way.

## Model

| member | source | states |
|---|---|---|
| EitherIterators.Deref | test/replace.cpp:56 | `*it` reads the element at the held position of whichever sequence the iterator walks |
| EitherIterators.Next | test/replace.cpp:54-55 | `++it` stays valid, moves one position forward, and never switches to the other sequence |
| EitherIterators.Equal | test/replace.cpp:79 | iterators over different sequences are never equal; over the same sequence they are equal exactly when their positions are |
| EitherIterators.Collect | test/replace.cpp:54-64 | walking from `first` to `last` with `!=`, `*` and `++` yields exactly the range's elements, in order, for either alternative |
| Ranges.Literal | test/replace.cpp:67-68 | the array a string literal such as `""` or `"foo"` denotes is its characters followed by exactly one terminating NUL |
| Ranges.ToRange | test/replace.cpp:67-68 | the range over a NUL-terminated character array is the array without its terminating NUL |
| Ranges.ToRangeOfLiteral | test/replace.cpp:67-84 | the range of a string literal is exactly the literal's characters (`""` is empty, `"foo"` is `foo`) |
| ReplaceScenarios.EitherIteratorWalks | test/replace.cpp:38-86 | list {1,2,3} and vector {4,5,6} are each walked in order; begin equals end over `""`; walking `"foo"` yields `foo` |
| Matchers.FindMatch | test/replace.cpp:100-109 | the search returns the leftmost position at or after the cursor where a match starts, with no match before it; or reports that there is none |
| ReplaceEngine.Advance | test/replace.cpp:100-122 | one advance: nothing at the end; a pending match yields the whole replacement and skips the match; otherwise a match-free, non-empty input slice up to the next match (left pending) or to the end; the cursor never moves backwards |
| ReplaceEngine.Run | test/replace.cpp:104-105 | every subrange the view yields is a non-empty input slice or the whole replacement; a pending match is yielded first |
| ReplaceEngine.Subranges | test/replace.cpp:104-105 | every subrange of `bp::replace` is bounded by either_iterators that form a valid range |
| ReplaceEngine.Materialize | test/replace.cpp:104-105 | copying a subrange out through its iterators gives a non-empty slice of the input for an input subrange, and exactly the replacement for a replacement subrange |
| ReplaceEngine.MaterializeAll | test/replace.cpp:104-108 | the range-for copies out one string per subrange |
| ReplaceEngine.MaterializeAllAt | test/replace.cpp:104-108 | the `count`-th string copied out is the `count`-th subrange's characters, so the strings come in the view's order |
| ReplaceEngine.RunDescribes | test/replace.cpp:88-219 | the subranges yielded from any reachable state, materialised, are a correct description of the rest of the input |
| ReplaceEngine.Replace | test/replace.cpp:88-219 | the result correctly describes the input; has no empty or adjacent pass-throughs; every substitution is the replacement; is empty exactly for empty input |
| ReplaceEngine.Iterate | test/replace.cpp:104-109 | the range-for over the view, copying each subrange out through its iterators, yields exactly `Replace`'s chunks |
| Chunks.FlattenAppend | test/replace.cpp:399-406 | `std::views::join` over the subranges is piecewise: joining two runs of subranges one after the other gives the two joins concatenated, with nothing added or dropped between subranges |
| Chunks.DescribesUnique | test/replace.cpp:100-218 | two correct descriptions of the same input are equal, so the expected subranges of every input are determined |
| Chunks.DescribesRestores | test/replace.cpp:100-218 | putting the literal back in place of each substitution reconstructs the input; an inverse the model states itself, of which every test input is an instance (each is its expected pass-throughs with `XYZ` where `foo` stands) |
| Chunks.DescribesFlattens | test/replace.cpp:387-406 | joining a correct description gives the input with every leftmost non-overlapping match replaced (the reference definition) |
| Chunks.DescribesShape | test/replace.cpp:154-189 | pass-throughs are non-empty, substitutions hold the replacement, and a pass-through is always followed by a substitution or the end |
| ReplaceProperties.ReplaceCharacterised | test/replace.cpp:100-218 | a chunk list is the view's result if and only if it correctly describes the input |
| ReplaceProperties.ReplaceJoins | test/replace.cpp:387-406 | joining the view's subranges gives the input with every leftmost non-overlapping match replaced (the reference definition) |
| ReplaceProperties.ReplaceRestores | test/replace.cpp:100-218 | putting the literal back in place of each substitution the view yields reconstructs the input; an inverse the model states itself, of which every test input is an instance |
| ReplaceProperties.ReplaceOfRestored | test/replace.cpp:100-109 | assembling an input from separated chunks (substitutions spelled as the literal) and replacing gives the chunks back |
| ReplaceProperties.NoMatchPassesThrough | test/replace.cpp:91-109 | with no match, the view yields the whole input as one pass-through, or nothing for empty input; the empty input (91-97) and the match-free `"b"` after the last match (100-109) are the tests' instances, the general statement is the model's own |
| ReplaceProperties.SkipperIrrelevantForLiteral | test/replace.cpp:112-122 | for a literal not starting with whitespace, the `ws` skipper changes no subrange; skipped whitespace stays in the pass-throughs |
| ReplaceProperties.MatchAtStartSubstitutesFirst | test/replace.cpp:166-176 | a match at position 0 yields a substitution first, never a leading empty pass-through |
| ReplaceScenarios.EmptyInput | test/replace.cpp:91-97 | `""` yields zero subranges (also the UTF-8 case at 243-252) |
| ReplaceScenarios.MatchInMiddle | test/replace.cpp:100-109 | `"aaXYZb"` yields `["aa","foo","b"]` (also the UTF-16 case at 255-265) |
| ReplaceScenarios.WhitespaceStaysInPassThrough | test/replace.cpp:112-122 | `"a a XYZ baa ba XYZ"` with `ws` yields `["a a ","foo"," baa ba ","foo"]` |
| ReplaceScenarios.MatchAtEnd | test/replace.cpp:141-152 | `"aaXYZbaabaXYZ"` yields `["aa","foo","baaba","foo"]`, with no trailing pass-through |
| ReplaceScenarios.AdjacentMatchesAtEnd | test/replace.cpp:154-163 | `"aaXYZbaabaXYZXYZ"` yields `["aa","foo","baaba","foo","foo"]` |
| ReplaceScenarios.MatchAtStart | test/replace.cpp:166-176 | `"XYZaaXYZbaabaXYZXYZ"` yields `["foo","aa","foo","baaba","foo","foo"]`, with no leading pass-through |
| ReplaceScenarios.AdjacentMatchesAtStart | test/replace.cpp:179-189 | `"XYZXYZaaXYZbaabaXYZXYZ"` yields `["foo","foo","aa","foo","baaba","foo","foo"]` |
| ReplaceScenarios.JoinedResult | test/replace.cpp:399-406 | joining the subranges of `"XYZXYZaaXYZbaabaXYZXYZ"` gives `"foofooaafoobaabafoofoo"` |

## Left out

- Encoding-format legality check: this is a compile-time gate whose rule lives in replace.hpp, which is not part of this model. The tests show only specific pairs:
  - rejected: plain input with a UTF-8 or UTF-16 replacement, and UTF-8 input with a plain replacement (test/replace.cpp:222-239);
  - accepted: UTF-16 input with a plain, UTF-8 or UTF-32 replacement (test/replace.cpp:297-308, 351-378).
  
  These pairs do not determine a general rule, so none is modelled.
- UTF transcoding views (`as_utf8`, `as_utf16`, `as_utf32`): these are external codecs. The input is modelled as already-decoded characters.
- The general parser-combinator engine: the matcher is modelled as a literal, with an optional whitespace skip.
- Trace output (`bp::trace::on/off`): it is diagnostic output and does not change the subranges.
- Template-argument deduction checks and the `range_utf_format` static assertion (test/replace.cpp:21-36): these are compile-time only.
- Lifetime and ownership of temporaries, including the GCC workarounds (test/replace.cpp:124-140, 426-434): sequences here are immutable values.
- `std::views::join` plumbing: only the joined content is modelled (`Flatten`). The doc example's printing to `std::cout` (test/replace.cpp:438-451) is also left out.
- Pipe-style versus free-function construction: both forms build the same view from the same arguments, so one function models both.
- Replacement rules that compute a different replacement per match: the tests use only fixed replacements.
- Ranges.ToRange: a character array without a terminating NUL is kept whole. The tests exercise only string literals, which always end in a NUL.
