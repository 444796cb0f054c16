/**
 * Key order over record sequences, and what a stable sort by key is.
 *
 * `KeyRun(s, k)` is the subsequence of records of `s` whose key is `k`, in
 * their order in `s`.  A stable sort of `input` is a sequence sorted by key
 * whose key runs are exactly those of `input`: records with equal keys keep
 * their relative order.  That specification determines the output uniquely
 * (`StableSortUnique`), which is why every configuration of the engine
 * produces the same array.
 */
module Order {
  import opened Records

  /** Keys never decrease from left to right. */
  predicate Sorted(s: seq<Record>) {
    forall i, j :: 0 <= i < j < |s| ==> s[i].key <= s[j].key
  }

  /** In a sorted sequence no record has a smaller key than the first. */
  lemma SortedLowerBound(s: seq<Record>)
    requires Sorted(s) && |s| > 0
    ensures forall x :: x in s ==> s[0].key <= x.key
  {
  }

  /** Prefixing a record whose key bounds a sorted sequence from below keeps it sorted. */
  lemma SortedCons(x: Record, t: seq<Record>)
    requires Sorted(t) && forall y :: y in t ==> x.key <= y.key
    ensures Sorted([x] + t)
  {
    var s := [x] + t;
    forall i, j | 0 <= i < j < |s| ensures s[i].key <= s[j].key {
      if i == 0 {
        assert s[j] == t[j - 1];
        assert s[j] in t;
      } else {
        assert s[i] == t[i - 1] && s[j] == t[j - 1];
      }
    }
  }

  /** The records of `s` with key `k`, in order. */
  function KeyRun(s: seq<Record>, k: nat): seq<Record>
    decreases |s|
  {
    if |s| == 0 then []
    else (if s[0].key == k then [s[0]] else []) + KeyRun(s[1..], k)
  }

  /** The key run of a sequence with a record prefixed. */
  lemma KeyRunCons(x: Record, s: seq<Record>, k: nat)
    ensures KeyRun([x] + s, k) == (if x.key == k then [x] else []) + KeyRun(s, k)
  {
    assert ([x] + s)[0] == x && ([x] + s)[1..] == s;
  }

  /** `out` is `input` stably sorted by key. */
  ghost predicate StableSortOf(out: seq<Record>, input: seq<Record>) {
    Sorted(out) && forall k :: KeyRun(out, k) == KeyRun(input, k)
  }

  lemma {:induction false} KeyRunAppend(a: seq<Record>, b: seq<Record>, k: nat)
    ensures KeyRun(a + b, k) == KeyRun(a, k) + KeyRun(b, k)
    decreases |a|
  {
    if |a| == 0 {
      assert a + b == b;
    } else {
      assert (a + b)[1..] == a[1..] + b;
      KeyRunAppend(a[1..], b, k);
    }
  }

  /** Every record of a key run has that key and comes from the sequence. */
  lemma {:induction false} KeyRunMembers(s: seq<Record>, k: nat)
    ensures forall r :: r in KeyRun(s, k) ==> r.key == k && r in s
    decreases |s|
  {
    if |s| > 0 {
      KeyRunMembers(s[1..], k);
    }
  }

  /** A record whose key is `k` appears in `KeyRun(s, k)` as often as in `s`. */
  lemma {:induction false} KeyRunCount(s: seq<Record>, x: Record)
    ensures multiset(KeyRun(s, x.key))[x] == multiset(s)[x]
    decreases |s|
  {
    if |s| > 0 {
      KeyRunCount(s[1..], x);
      assert s == [s[0]] + s[1..];
    }
  }

  /** Sequences with the same key runs are permutations of each other. */
  lemma SameRunsSameMultiset(a: seq<Record>, b: seq<Record>)
    requires forall k :: KeyRun(a, k) == KeyRun(b, k)
    ensures multiset(a) == multiset(b)
  {
    forall x | true
      ensures multiset(a)[x] == multiset(b)[x]
    {
      KeyRunCount(a, x);
      KeyRunCount(b, x);
      assert KeyRun(a, x.key) == KeyRun(b, x.key);
    }
  }

  /** The key run of a sorted sequence at its first key starts with its first record. */
  lemma SortedHeadRun(s: seq<Record>)
    requires |s| > 0
    ensures KeyRun(s, s[0].key) == [s[0]] + KeyRun(s[1..], s[0].key)
  {
  }

  /** In a sorted sequence every key run at a key below the first key is empty. */
  lemma {:induction false} SortedRunBelowHead(s: seq<Record>, k: nat)
    requires Sorted(s) && |s| > 0 && k < s[0].key
    ensures KeyRun(s, k) == []
    decreases |s|
  {
    if |s| > 1 {
      SortedRunBelowHead(s[1..], k);
    }
  }

  /** Two nonempty sorted sequences with the same key runs share their first record and their tails' key runs. */
  lemma SortedSameRunsHead(a: seq<Record>, b: seq<Record>)
    requires Sorted(a) && Sorted(b) && |a| > 0 && |b| > 0
    requires forall k :: KeyRun(a, k) == KeyRun(b, k)
    ensures a[0] == b[0]
    ensures forall k :: KeyRun(a[1..], k) == KeyRun(b[1..], k)
  {
    var m := a[0].key;
    KeyRunMembers(b, m);
    KeyRunMembers(a, b[0].key);
    SortedHeadRun(a);
    SortedHeadRun(b);
    assert a[0] in KeyRun(b, m);
    assert b[0] in KeyRun(a, b[0].key);
    assert m == b[0].key;
    var ra, rb := KeyRun(a, m), KeyRun(b, m);
    assert ra[0] == a[0] && rb[0] == b[0];
    assert ra[1..] == KeyRun(a[1..], m) && rb[1..] == KeyRun(b[1..], m);
    forall k | true
      ensures KeyRun(a[1..], k) == KeyRun(b[1..], k)
    {
      if k != m {
        assert KeyRun(a, k) == KeyRun(a[1..], k);
        assert KeyRun(b, k) == KeyRun(b[1..], k);
      }
    }
  }

  /**
   * Two sorted sequences with the same key runs are equal: a stable sort is
   * determined by its input.
   */
  lemma {:induction false} SortedSameRunsEqual(a: seq<Record>, b: seq<Record>)
    requires Sorted(a) && Sorted(b)
    requires forall k :: KeyRun(a, k) == KeyRun(b, k)
    ensures a == b
    decreases |a|
  {
    SameRunsSameMultiset(a, b);
    assert |a| == |multiset(a)| == |multiset(b)| == |b|;
    if |a| > 0 {
      SortedSameRunsHead(a, b);
      SortedSameRunsEqual(a[1..], b[1..]);
      assert a == [a[0]] + a[1..];
      assert b == [b[0]] + b[1..];
    }
  }

  /** Any two stable sorts of the same input are the same sequence. */
  lemma StableSortUnique(a: seq<Record>, b: seq<Record>, input: seq<Record>)
    requires StableSortOf(a, input) && StableSortOf(b, input)
    ensures a == b
  {
    SortedSameRunsEqual(a, b);
  }

  /** A stable sort is a permutation of its input. */
  lemma StableSortIsPermutation(out: seq<Record>, input: seq<Record>)
    requires StableSortOf(out, input)
    ensures multiset(out) == multiset(input) && |out| == |input|
  {
    SameRunsSameMultiset(out, input);
    assert |multiset(out)| == |multiset(input)|;
  }

  /** Stable sorts of two adjacent slices, merged stably, form a stable sort of the whole. */
  lemma StableConcat(a: seq<Record>, b: seq<Record>, ia: seq<Record>, ib: seq<Record>, out: seq<Record>)
    requires forall k :: KeyRun(a, k) == KeyRun(ia, k)
    requires forall k :: KeyRun(b, k) == KeyRun(ib, k)
    requires Sorted(out) && forall k :: KeyRun(out, k) == KeyRun(a, k) + KeyRun(b, k)
    ensures StableSortOf(out, ia + ib)
  {
    forall k | true
      ensures KeyRun(out, k) == KeyRun(ia + ib, k)
    {
      KeyRunAppend(ia, ib, k);
    }
  }
}
