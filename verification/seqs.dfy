/** Stable filtering of sequences (JavaScript `Array.prototype.filter`,
    Python list comprehensions with an `if`) and the order-preserving
    subsequence relation it establishes. */
module Seqs {

  /** `a` can be obtained from `b` by deleting elements, without
      reordering or duplicating any. */
  predicate IsSubsequence<T(==)>(a: seq<T>, b: seq<T>)
    decreases |b|
  {
    if |a| == 0 then true
    else if |b| == 0 then false
    else (a[0] == b[0] && IsSubsequence(a[1..], b[1..])) || IsSubsequence(a, b[1..])
  }

  /** The elements of `s` that satisfy `p`, in their original order. The
      result is a subsequence of `s`, holds exactly the elements of `s`
      satisfying `p`, each as many times as `s` does. */
  function Keep<T(==,!new)>(s: seq<T>, p: T -> bool): (r: seq<T>)
    ensures |r| <= |s|
    ensures IsSubsequence(r, s)
    ensures forall x :: x in r <==> x in s && p(x)
    ensures forall x :: multiset(r)[x] == if p(x) then multiset(s)[x] else 0
    decreases |s|
  {
    if |s| == 0 then []
    else
      assert s == [s[0]] + s[1..];
      var rest := Keep(s[1..], p);
      if p(s[0]) then
        assert ([s[0]] + rest)[1..] == rest;
        [s[0]] + rest
      else
        rest
  }

  /** Filtering with a predicate every element satisfies changes nothing. */
  lemma {:induction false} KeepAll<T(!new)>(s: seq<T>, p: T -> bool)
    requires forall x :: x in s ==> p(x)
    ensures Keep(s, p) == s
    decreases |s|
  {
    if |s| > 0 {
      KeepAll(s[1..], p);
    }
  }

  /** Filtering twice with the same predicate equals filtering once. */
  lemma KeepIdempotent<T(!new)>(s: seq<T>, p: T -> bool)
    ensures Keep(Keep(s, p), p) == Keep(s, p)
  {
    KeepAll(Keep(s, p), p);
  }

  /** Filtering distributes over concatenation. */
  lemma {:induction false} KeepAppend<T(!new)>(a: seq<T>, b: seq<T>, p: T -> bool)
    ensures Keep(a + b, p) == Keep(a, p) + Keep(b, p)
    decreases |a|
  {
    if |a| > 0 {
      assert (a + b)[0] == a[0];
      assert (a + b)[1..] == a[1..] + b;
      KeepAppend(a[1..], b, p);
    } else {
      assert a + b == b;
    }
  }

  /** A stronger predicate keeps a subsequence of what a weaker one keeps. */
  lemma {:induction false} KeepMonotone<T(!new)>(s: seq<T>, strong: T -> bool, weak: T -> bool)
    requires forall x :: x in s && strong(x) ==> weak(x)
    ensures IsSubsequence(Keep(s, strong), Keep(s, weak))
    decreases |s|
  {
    if |s| > 0 {
      KeepMonotone(s[1..], strong, weak);
      var a := Keep(s[1..], strong);
      var b := Keep(s[1..], weak);
      if strong(s[0]) {
        assert ([s[0]] + a)[1..] == a;
        assert ([s[0]] + b)[1..] == b;
      } else if weak(s[0]) {
        assert ([s[0]] + b)[1..] == b;
      }
    }
  }

  /** `s` without any occurrence of `x`, the others in order
      (`s.filter(item => item !== x)`). */
  function RemoveAll<T(==,!new)>(s: seq<T>, x: T): (r: seq<T>)
    ensures x !in r
    ensures IsSubsequence(r, s)
    ensures multiset(r) == multiset(s)[x := 0]
  {
    Keep(s, y => y != x)
  }

  /** Removing an element that was just appended to a list not holding it
      gives the list back. */
  lemma AppendThenRemove<T(!new)>(s: seq<T>, x: T)
    requires x !in s
    ensures RemoveAll(s + [x], x) == s
  {
    KeepAppend(s, [x], y => y != x);
    KeepAll(s, y => y != x);
  }

  /** A checkbox callback on a list of selected values: checking appends
      the value (without deduplication), unchecking removes every
      occurrence of it. Either way the box then shows what was clicked. */
  function Toggle<T(==,!new)>(prev: seq<T>, value: T, checked: bool): (r: seq<T>)
    ensures checked ==> |r| == |prev| + 1 && r[..|prev|] == prev && r[|prev|] == value
    ensures !checked ==> IsSubsequence(r, prev) && multiset(r) == multiset(prev)[value := 0]
    ensures value in r <==> checked
  {
    if checked then prev + [value] else RemoveAll(prev, value)
  }

  /** Checking a value the list does not hold and unchecking it again
      gives the list back. */
  lemma ToggleRoundTrip<T(!new)>(prev: seq<T>, value: T)
    requires value !in prev
    ensures Toggle(Toggle(prev, value, true), value, false) == prev
  {
    AppendThenRemove(prev, value);
  }

  /** `s.filter((_, i) => i !== index)`: the element at `index` is dropped
      when there is one; any other index leaves the list as it is. */
  function WithoutIndex<T>(s: seq<T>, index: int): (r: seq<T>)
    ensures 0 <= index < |s| ==> r == s[..index] + s[index + 1..]
    ensures !(0 <= index < |s|) ==> r == s
    decreases |s|
  {
    if |s| == 0 then []
    else
      var rest := WithoutIndex(s[1..], index - 1);
      assert s == [s[0]] + s[1..];
      (if index == 0 then [] else [s[0]]) + rest
  }

  /** `b.map((y, j) => f(a[j], y))`: `f` applied to the elements of `b`
      and the elements of `a` at the same positions. */
  function MapWith<A, B, C>(f: (A, B) -> C, a: seq<A>, b: seq<B>): (r: seq<C>)
    requires |b| <= |a|
    ensures |r| == |b|
    ensures forall j :: 0 <= j < |b| ==> r[j] == f(a[j], b[j])
  {
    if |b| == 0 then [] else [f(a[0], b[0])] + MapWith(f, a[1..], b[1..])
  }
}
