/**
 * First occurrence in a sequence: `std::string::find` for a character
 * (Assignment2/Collatz_Code/sequential_collatz.cpp:35,
 * parallel_collatz.cpp:179) and `std::find` over `argv`
 * (Assignment3/Miniz_Code/utility.hpp:172).
 */
module Search {
  import opened Outcomes

  /** The position of the first `x` in `s`; `None` stands for `npos` or the end iterator. */
  function Find<T(==)>(s: seq<T>, x: T): (r: Option<nat>)
    ensures r.Some? ==> r.value < |s| && s[r.value] == x && x !in s[..r.value]
    ensures r.None? <==> x !in s
    decreases |s|
  {
    if |s| == 0 then None
    else if s[0] == x then Some(0)
    else
      match Find(s[1..], x)
      case None => None
      case Some(k) =>
        assert s[..k + 1] == [s[0]] + s[1..][..k];
        Some(k + 1)
  }

  /** The first `x` is the one right after a prefix that has none. */
  lemma FindAfter<T>(pre: seq<T>, x: T, post: seq<T>)
    requires x !in pre
    ensures Find(pre + [x] + post, x) == Some(|pre|)
  {
    var s := pre + [x] + post;
    assert s[|pre|] == x;
  }
}
