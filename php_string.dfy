/** The PHP string builtins the repository uses: `strpos` and `substr`. */
module PhpString {

  datatype Option<T> = None | Some(value: T)

  /** `needle` occurs in `haystack` starting at index `i`. */
  predicate OccursAt(haystack: string, needle: string, i: nat) {
    i + |needle| <= |haystack| && haystack[i..i + |needle|] == needle
  }

  /** `needle` occurs nowhere in `haystack`. */
  ghost predicate Absent(haystack: string, needle: string) {
    forall i: nat :: !OccursAt(haystack, needle, i)
  }

  /** The first occurrence of `needle` at or after `from`. */
  function StrPosFrom(haystack: string, needle: string, from: nat): (r: Option<nat>)
    requires from <= |haystack|
    ensures r.Some? ==> from <= r.value && OccursAt(haystack, needle, r.value)
    ensures forall j: nat :: from <= j && (r.None? || j < r.value) ==> !OccursAt(haystack, needle, j)
    decreases |haystack| - from
  {
    if OccursAt(haystack, needle, from) then Some(from)
    else if from + |needle| >= |haystack| then None
    else StrPosFrom(haystack, needle, from + 1)
  }

  /** `strpos($haystack, $needle)`: the index of the first occurrence, `None` for PHP's `false`.
      An empty needle is found at 0, as in PHP 8. */
  function StrPos(haystack: string, needle: string): (r: Option<nat>)
    ensures r.Some? ==> OccursAt(haystack, needle, r.value)
    ensures r.Some? ==> forall j: nat :: j < r.value ==> !OccursAt(haystack, needle, j)
    ensures r.None? <==> Absent(haystack, needle)
  {
    StrPosFrom(haystack, needle, 0)
  }

  /** `substr($s, $start)` for a non-negative start. Past the end PHP gives
      `false` or `""` depending on its version; both read as `""` here, and
      both cast to the integer 0. */
  function SubstrFrom(s: string, start: nat): (r: string)
    ensures |r| == if start <= |s| then |s| - start else 0
    ensures r == s[|s| - |r|..]
  {
    if start <= |s| then s[start..] else []
  }

  /** `substr($s, 0, 0 - $length)` for `0 <= $length <= strlen($s)`: the string
      without its last `length` characters, except that a length of 0 asks for
      zero characters and gives `""`. */
  function SubstrDropTail(s: string, length: nat): (r: string)
    requires length <= |s|
    ensures |r| == if length == 0 then 0 else |s| - length
    ensures r == s[..|r|]
  {
    if length == 0 then [] else s[..|s| - length]
  }
}
