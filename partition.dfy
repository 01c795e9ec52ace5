/** The in-place split of a slice around its first element, as done by
    `partition` in the quicksort test. The slice `xs` of the source is the
    window `a[lo..hi]` of an array; the two sub-slices it hands back are
    `Range` values over the same array. */
module Partition {

  /** The sub-slice `a[lo..hi]` of a buffer: the model of a `&mut [T]`. */
  datatype Range = Range(lo: nat, hi: nat)

  /** How many of the elements `s[1..i]` are at most the pivot `s[0]`. */
  function CountAtMost(s: seq<int>, i: nat): (n: nat)
    requires 1 <= i <= |s|
    ensures n <= i - 1
  {
    if i == 1 then 0 else CountAtMost(s, i - 1) + (if s[i - 1] <= s[0] then 1 else 0)
  }

  /** How many of the elements `s[1..i]` are greater than the pivot `s[0]`. */
  function CountAbove(s: seq<int>, i: nat): (n: nat)
    requires 1 <= i <= |s|
    ensures n <= i - 1
  {
    if i == 1 then 0 else CountAbove(s, i - 1) + (if s[i - 1] > s[0] then 1 else 0)
  }

  /** Every element after the pivot is counted on exactly one side. */
  lemma {:induction false} CountsCover(s: seq<int>, i: nat)
    requires 1 <= i <= |s|
    ensures CountAtMost(s, i) + CountAbove(s, i) == i - 1
  {
    if i > 1 {
      CountsCover(s, i - 1);
    }
  }

  /** The elements of a buffer are those before, inside and after a window. */
  lemma MultisetOfParts(s: seq<int>, lo: nat, hi: nat)
    requires lo <= hi <= |s|
    ensures multiset(s) == multiset(s[..lo]) + multiset(s[lo..hi]) + multiset(s[hi..])
  {
    assert s == s[..lo] + s[lo..hi] + s[hi..];
  }

  /** A permutation of a whole buffer that leaves everything outside
      `[lo, hi)` in place permutes the window `[lo, hi)`. */
  lemma WindowPermutation(s: seq<int>, t: seq<int>, lo: nat, hi: nat)
    requires lo <= hi <= |s| == |t|
    requires multiset(s) == multiset(t)
    requires forall k :: 0 <= k < lo ==> s[k] == t[k]
    requires forall k :: hi <= k < |s| ==> s[k] == t[k]
    ensures multiset(s[lo..hi]) == multiset(t[lo..hi])
  {
    MultisetOfParts(s, lo, hi);
    MultisetOfParts(t, lo, hi);
    assert s[..lo] == t[..lo];
    assert s[hi..] == t[hi..];
    forall x
      ensures multiset(s[lo..hi])[x] == multiset(t[lo..hi])[x]
    {
      assert multiset(s)[x] == multiset(s[..lo])[x] + multiset(s[lo..hi])[x] + multiset(s[hi..])[x];
      assert multiset(t)[x] == multiset(t[..lo])[x] + multiset(t[lo..hi])[x] + multiset(t[hi..])[x];
    }
  }

  /** `xs.swap(x, y)` on the buffer. */
  method SwapAt(a: array<int>, x: nat, y: nat)
    requires x < a.Length && y < a.Length
    modifies a
    ensures a[x] == old(a[y]) && a[y] == old(a[x])
    ensures forall k :: 0 <= k < a.Length && k != x && k != y ==> a[k] == old(a[k])
    ensures multiset(a[..]) == multiset(old(a[..]))
  {
    a[x], a[y] := a[y], a[x];
  }

  /** The state of the buffer after the loop of `partition` has visited
      `s[1..i]` of the slice `s`, which started at `lo` in the buffer `orig`:
      the pivot is still first, the `lCount` small elements come next, then
      the large ones, and the unvisited rest and everything outside the slice
      are untouched. */
  ghost predicate Scanned(a: array<int>, lo: nat, hi: nat, s: seq<int>, orig: seq<int>, i: nat, lCount: nat)
    reads a
  {
    lo < hi <= a.Length == |orig| && s == orig[lo..hi] && 1 <= i <= hi - lo && lCount < i
    && a[lo] == s[0]
    && (forall k :: lo < k <= lo + lCount ==> a[k] <= s[0])
    && (forall k :: lo + lCount < k < lo + i ==> a[k] > s[0])
    && (forall k :: lo + i <= k < hi ==> a[k] == s[k - lo])
    && (forall k :: 0 <= k < lo ==> a[k] == orig[k])
    && (forall k :: hi <= k < a.Length ==> a[k] == orig[k])
    && multiset(a[..]) == multiset(orig)
  }

  /** One turn of the loop of `partition`, visiting `xs[i]`: an element at
      most the pivot is swapped into the slot after the small ones. */
  method Visit(a: array<int>, lo: nat, hi: nat, ghost s: seq<int>, ghost orig: seq<int>, i: nat, lCount: nat)
    returns (moved: bool)
    requires lo + i < hi
    requires Scanned(a, lo, hi, s, orig, i, lCount)
    modifies a
    ensures moved == (s[i] <= s[0])
    ensures Scanned(a, lo, hi, s, orig, i + 1, if moved then lCount + 1 else lCount)
  {
    moved := a[lo + i] <= a[lo];
    if moved {
      SwapAt(a, lo + i, lo + lCount + 1);
    }
  }

  /** The loop of `partition`: walks `a[lo+1..hi]` once, moving every
      element at most the pivot `a[lo]` forward past the larger ones.
      Afterwards `a[lo+1..lo+lCount+1]` holds the small elements and
      `a[lo+lCount+1..hi]` the large ones. */
  method Scatter(a: array<int>, lo: nat, hi: nat) returns (lCount: nat, rCount: nat)
    requires lo < hi <= a.Length
    modifies a
    ensures lCount + rCount + 1 == hi - lo
    ensures lCount == CountAtMost(old(a[lo..hi]), hi - lo)
    ensures rCount == CountAbove(old(a[lo..hi]), hi - lo)
    ensures Scanned(a, lo, hi, old(a[lo..hi]), old(a[..]), hi - lo, lCount)
  {
    ghost var s := a[lo..hi];
    ghost var orig := a[..];
    lCount, rCount := 0, 0;
    for i := 1 to hi - lo
      invariant lCount + rCount + 1 == i
      invariant lCount == CountAtMost(s, i) && rCount == CountAbove(s, i)
      invariant Scanned(a, lo, hi, s, orig, i, lCount)
    {
      var moved := Visit(a, lo, hi, s, orig, i, lCount);
      if moved {
        lCount := lCount + 1;
      } else {
        rCount := rCount + 1;
      }
    }
  }

  /** `partition(xs)` on the slice `a[lo..hi]`, whose first element is the
      pivot. Returns the left part `a[lo..lo+lCount]` and the right part
      `a[lo+lCount+1..hi]`; the pivot is left in between, at index
      `left.hi`. */
  method Partition(a: array<int>, lo: nat, hi: nat) returns (left: Range, right: Range)
    requires lo < hi <= a.Length
    modifies a
    ensures left.lo == lo && right.lo == left.hi + 1 && right.hi == hi
    ensures left.hi - left.lo == CountAtMost(old(a[lo..hi]), hi - lo)
    ensures right.hi - right.lo == CountAbove(old(a[lo..hi]), hi - lo)
    ensures a[left.hi] == old(a[lo])
    ensures forall k :: left.lo <= k < left.hi ==> a[k] <= a[left.hi]
    ensures forall k :: right.lo <= k < right.hi ==> a[k] > a[left.hi]
    ensures multiset(a[lo..hi]) == multiset(old(a[lo..hi]))
    ensures multiset(a[..]) == multiset(old(a[..]))
    ensures forall k :: 0 <= k < lo ==> a[k] == old(a[k])
    ensures forall k :: hi <= k < a.Length ==> a[k] == old(a[k])
  {
    ghost var orig := a[..];
    var lCount, rCount := Scatter(a, lo, hi);
    assert Scanned(a, lo, hi, orig[lo..hi], orig, hi - lo, lCount);
    SwapAt(a, lo, lo + lCount);
    left := Range(lo, lo + lCount);
    right := Range(lo + lCount + 1, hi);
    WindowPermutation(a[..], orig, lo, hi);
  }
}
