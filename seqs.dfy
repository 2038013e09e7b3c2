/**
 * The JavaScript array combinators the form code is built from: `filter` with a
 * predicate, `map`, and `filter((_, i) => i !== index)` used to delete by position.
 */
module Seqs {

  /** `s.filter(p)`: the elements satisfying `p`, in their original order. */
  function Filter<T>(p: T -> bool, s: seq<T>): (r: seq<T>)
    ensures |r| <= |s|
    ensures forall k :: 0 <= k < |r| ==> p(r[k]) && r[k] in s
    ensures forall k :: 0 <= k < |s| && p(s[k]) ==> s[k] in r
  {
    if s == [] then [] else (if p(s[0]) then [s[0]] else []) + Filter(p, s[1..])
  }

  /** Filtering distributes over concatenation, so it keeps relative order. */
  lemma {:induction false} FilterConcat<T>(p: T -> bool, a: seq<T>, b: seq<T>)
    ensures Filter(p, a + b) == Filter(p, a) + Filter(p, b)
  {
    if a == [] {
      assert a + b == b;
    } else {
      assert (a + b)[0] == a[0] && (a + b)[1..] == a[1..] + b;
      FilterConcat(p, a[1..], b);
    }
  }

  /** A filter that every element passes returns its input unchanged. */
  lemma {:induction false} FilterKeepsAll<T>(p: T -> bool, s: seq<T>)
    requires forall k :: 0 <= k < |s| ==> p(s[k])
    ensures Filter(p, s) == s
  {
    if s != [] {
      FilterKeepsAll(p, s[1..]);
    }
  }

  /** `s.map(f)`: `f` applied to every element, position by position. */
  function Map<T, U>(f: T -> U, s: seq<T>): (r: seq<U>)
    ensures |r| == |s|
    ensures forall i :: 0 <= i < |s| ==> r[i] == f(s[i])
  {
    if s == [] then [] else [f(s[0])] + Map(f, s[1..])
  }

  /** Mapping distributes over concatenation. */
  lemma MapConcat<T, U>(f: T -> U, a: seq<T>, b: seq<T>)
    ensures Map(f, a + b) == Map(f, a) + Map(f, b)
  {
    assert forall i :: 0 <= i < |a + b| ==> Map(f, a + b)[i] == (Map(f, a) + Map(f, b))[i];
  }

  /**
   * `s.filter((_, k) => k !== i)`: the element at position `i` is dropped and the later
   * ones shift left; an `i` outside the indices of `s` leaves `s` unchanged.
   */
  function RemoveAt<T>(s: seq<T>, i: int): (r: seq<T>)
    ensures !(0 <= i < |s|) ==> r == s
    ensures 0 <= i < |s| ==> |r| == |s| - 1
    ensures 0 <= i < |s| ==> forall k :: 0 <= k < i ==> r[k] == s[k]
    ensures 0 <= i < |s| ==> forall k :: i <= k < |r| ==> r[k] == s[k + 1]
  {
    if s == [] then [] else (if i == 0 then [] else [s[0]]) + RemoveAt(s[1..], i - 1)
  }
}
