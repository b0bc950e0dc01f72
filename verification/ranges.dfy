/**
  Model of `bp::detail::to_range` for character arrays. A string literal
  such as `"foo"` is an array whose last element is the terminating NUL; the
  range made from it stops before that NUL.
*/
module Ranges {

  /** The array a string literal denotes: its characters followed by a NUL. */
  function Literal(s: seq<char>): (arr: seq<char>)
    ensures |arr| == |s| + 1 && arr[|s|] == '\0'
    ensures arr[..|s|] == s
  {
    s + ['\0']
  }

  /** The range over an array: the array without its terminating NUL, if it has one. */
  function ToRange(arr: seq<char>): (r: seq<char>)
    ensures |arr| > 0 && arr[|arr| - 1] == '\0' ==> arr == r + ['\0']
    ensures |arr| == 0 || arr[|arr| - 1] != '\0' ==> r == arr
  {
    if |arr| > 0 && arr[|arr| - 1] == '\0' then arr[..|arr| - 1] else arr
  }

  /** Turning a literal into a range gives back exactly the literal's characters. */
  lemma ToRangeOfLiteral(s: seq<char>)
    ensures ToRange(Literal(s)) == s
  {
  }
}
