/** The quicksort driver of the test: a work queue of sub-slices, started
    with the whole buffer; a worker repeatedly takes a sub-slice, splits it
    around its first element when it holds more than one element, sends both
    parts back, and reports the taken sub-slice done. Here a single worker
    runs the loop. */
module QuickSort {
  import opened Partition
  import opened WorkQueue

  ghost predicate Sorted(s: seq<int>)
  {
    forall i, j :: 0 <= i < j < |s| ==> s[i] <= s[j]
  }

  /** The range holds both positions `i` and `j`. */
  ghost predicate Holds(r: Range, i: int, j: int)
  {
    r.lo <= i && j < r.hi
  }

  /** Some range of `rs` holds both positions `i` and `j`. */
  ghost predicate Covers(rs: seq<Range>, i: int, j: int)
  {
    exists k :: 0 <= k < |rs| && Holds(rs[k], i, j)
  }

  /** Every pair of positions that no range of `rs` holds together is
      already in order: all that is left to sort lies inside the ranges. */
  ghost predicate SortedOutside(s: seq<int>, rs: seq<Range>)
  {
    forall i, j :: 0 <= i < j < |s| && !Covers(rs, i, j) ==> s[i] <= s[j]
  }

  /** The ranges lie within a buffer of length `n` and no two overlap, as
      the disjoint `&mut` sub-slices of the source do. */
  ghost predicate Separate(rs: seq<Range>, n: nat)
  {
    (forall k :: 0 <= k < |rs| ==> rs[k].lo <= rs[k].hi <= n)
    && (forall k, m :: 0 <= k < m < |rs| ==> rs[k].hi <= rs[m].lo || rs[m].hi <= rs[k].lo)
  }

  /** The sub-slices still to be worked on: those queued and the one the
      worker holds. */
  function Pending(items: seq<Range>, received: Received<Range>): seq<Range>
  {
    items + (if received.Item? then [received.value] else [])
  }

  /** A measure that every turn of the driver loop lowers. */
  function Weight(r: Range): nat
  {
    if r.lo <= r.hi then 2 * (r.hi - r.lo) + 1 else 1
  }

  function Work(rs: seq<Range>): nat
  {
    if rs == [] then 0 else Work(rs[..|rs| - 1]) + Weight(rs[|rs| - 1])
  }

  lemma WorkAppend(rs: seq<Range>, r: Range)
    ensures Work(rs + [r]) == Work(rs) + Weight(r)
  {
    assert (rs + [r])[..|rs|] == rs;
  }

  /** Splitting a range of more than one element into the parts on each
      side of a pivot lowers the work left. */
  lemma {:induction false} SplitLowersWork(rest: seq<Range>, x: Range, left: Range, right: Range)
    requires x.lo <= left.hi < x.hi
    requires left == Range(x.lo, left.hi) && right == Range(left.hi + 1, x.hi)
    ensures Work(rest + [left, right]) < Work(rest + [x])
  {
    WorkAppend(rest, x);
    WorkAppend(rest, left);
    WorkAppend(rest + [left], right);
    assert rest + [left, right] == rest + [left] + [right];
  }

  /** Appending a range adds exactly the pairs it holds. */
  lemma CoversAppend(rs: seq<Range>, x: Range, i: int, j: int)
    ensures Covers(rs + [x], i, j) <==> Covers(rs, i, j) || Holds(x, i, j)
  {
    if Covers(rs + [x], i, j) {
      var k :| 0 <= k < |rs| + 1 && Holds((rs + [x])[k], i, j);
      if k < |rs| {
        assert Holds(rs[k], i, j);
      }
    }
    if Covers(rs, i, j) {
      var k :| 0 <= k < |rs| && Holds(rs[k], i, j);
      assert (rs + [x])[k] == rs[k];
    }
    if Holds(x, i, j) {
      assert (rs + [x])[|rs|] == x;
    }
  }

  /** No range separate from `x` holds a pair with one or both positions
      inside `x`. */
  lemma NotAcross(rest: seq<Range>, x: Range, n: nat, i: int, j: int)
    requires Separate(rest + [x], n)
    requires i < j
    requires x.lo <= i < x.hi || x.lo <= j < x.hi
    ensures !Covers(rest, i, j)
  {
    forall k | 0 <= k < |rest|
      ensures !Holds(rest[k], i, j)
    {
      assert (rest + [x])[k] == rest[k] && (rest + [x])[|rest|] == x;
    }
  }

  /** An element of the window after a permutation of it was an element of
      the window before. */
  lemma ElementFrom(s: seq<int>, t: seq<int>, lo: nat, hi: nat, i: nat) returns (src: nat)
    requires lo <= i < hi <= |s| == |t|
    requires multiset(t[lo..hi]) == multiset(s[lo..hi])
    ensures lo <= src < hi && s[src] == t[i]
  {
    assert t[i] == t[lo..hi][i - lo];
    assert t[i] in multiset(s[lo..hi]);
    var k :| 0 <= k < hi - lo && s[lo..hi][k] == t[i];
    src := lo + k;
  }

  /** Partitioning the pending range `x` of `s` into `t` and replacing it by
      its two parts keeps everything outside the pending ranges in order. */
  lemma PartitionKeepsOrder(s: seq<int>, t: seq<int>, rest: seq<Range>, x: Range, left: Range, right: Range)
    requires |s| == |t| && x.hi <= |s|
    requires Separate(rest + [x], |s|)
    requires SortedOutside(s, rest + [x])
    requires x.lo <= left.hi < x.hi
    requires left == Range(x.lo, left.hi) && right == Range(left.hi + 1, x.hi)
    requires forall k :: 0 <= k < x.lo ==> t[k] == s[k]
    requires forall k :: x.hi <= k < |t| ==> t[k] == s[k]
    requires multiset(t[x.lo..x.hi]) == multiset(s[x.lo..x.hi])
    requires forall k :: left.lo <= k < left.hi ==> t[k] <= t[left.hi]
    requires forall k :: right.lo <= k < right.hi ==> t[k] > t[left.hi]
    ensures SortedOutside(t, rest + [left, right])
  {
    assert rest + [left, right] == rest + [left] + [right];
    var p := left.hi;
    forall i, j | 0 <= i < j < |t| && !Covers(rest + [left, right], i, j)
      ensures t[i] <= t[j]
    {
      CoversAppend(rest + [left], right, i, j);
      CoversAppend(rest, left, i, j);
      var inI := x.lo <= i < x.hi;
      var inJ := x.lo <= j < x.hi;
      if !inI && !inJ {
        CoversAppend(rest, x, i, j);
      } else if inI && !inJ {
        var src := ElementFrom(s, t, x.lo, x.hi, i);
        NotAcross(rest, x, |s|, src, j);
        CoversAppend(rest, x, src, j);
      } else if !inI && inJ {
        var src := ElementFrom(s, t, x.lo, x.hi, j);
        NotAcross(rest, x, |s|, i, src);
        CoversAppend(rest, x, i, src);
      }
    }
  }

  /** Replacing a range by its two parts keeps the ranges separate. */
  lemma SplitKeepsSeparate(rest: seq<Range>, x: Range, left: Range, right: Range, n: nat)
    requires Separate(rest + [x], n)
    requires x.lo <= left.hi < x.hi
    requires left == Range(x.lo, left.hi) && right == Range(left.hi + 1, x.hi)
    ensures Separate(rest + [left, right], n)
  {
    var rs := rest + [left, right];
    forall k, m | 0 <= k < m < |rs|
      ensures rs[k].hi <= rs[m].lo || rs[m].hi <= rs[k].lo
    {
      if m < |rest| {
        assert (rest + [x])[k] == rs[k] && (rest + [x])[m] == rs[m];
      } else if k < |rest| {
        assert (rest + [x])[k] == rs[k] && (rest + [x])[|rest|] == x;
      }
    }
    forall k | 0 <= k < |rs|
      ensures rs[k].lo <= rs[k].hi <= n
    {
      if k < |rest| {
        assert (rest + [x])[k] == rs[k];
      } else {
        assert (rest + [x])[|rest|] == x;
      }
    }
  }

  /** Retiring a range of at most one element leaves nothing unsorted
      behind. */
  lemma DropShort(s: seq<int>, rest: seq<Range>, x: Range, n: nat)
    requires x.hi - x.lo <= 1
    requires Separate(rest + [x], n)
    requires SortedOutside(s, rest + [x])
    ensures Separate(rest, n)
    ensures SortedOutside(s, rest)
  {
    forall i, j | 0 <= i < j < |s| && !Covers(rest, i, j)
      ensures s[i] <= s[j]
    {
      CoversAppend(rest, x, i, j);
    }
    forall k, m | 0 <= k < m < |rest|
      ensures rest[k].hi <= rest[m].lo || rest[m].hi <= rest[k].lo
    {
      assert (rest + [x])[k] == rest[k] && (rest + [x])[m] == rest[m];
    }
    forall k | 0 <= k < |rest|
      ensures rest[k].lo <= rest[k].hi <= n
    {
      assert (rest + [x])[k] == rest[k];
    }
  }

  /** The buffer `s` holds `elements`, the `pending` sub-slices are
      separate, and everything outside them is in order. */
  ghost predicate Settled(s: seq<int>, pending: seq<Range>, elements: multiset<int>)
  {
    Separate(pending, |s|) && SortedOutside(s, pending) && multiset(s) == elements
  }

  /** The invariant of the worker loop over the buffer `a`, the queue and
      the last value received: every pending sub-slice is counted as sent
      and not done, the worker never has to wait, and the buffer is
      settled outside the pending sub-slices. */
  ghost predicate Driving(a: array<int>, queue: Queue<Range>, received: Received<Range>, elements: multiset<int>)
    reads a, queue
  {
    var pending := Pending(queue.items, received);
    queue.sent == queue.done + |pending|
    && (!received.Item? ==> queue.items == [])
    && !received.WouldBlock?
    && Settled(a[..], pending, elements)
  }

  /** The body of the worker loop before `done`: a received sub-slice of
      more than one element is partitioned and both parts are sent; a
      shorter one is already sorted and nothing is sent. */
  method Process(a: array<int>, queue: Queue<Range>, slice: Range, ghost elements: multiset<int>)
    requires Settled(a[..], queue.items + [slice], elements)
    modifies a, queue
    ensures Settled(a[..], queue.items, elements)
    ensures queue.sent == old(queue.sent) + |queue.items| - |old(queue.items)|
    ensures queue.done == old(queue.done)
    ensures Work(queue.items) < Work(old(queue.items) + [slice])
    ensures slice.hi - slice.lo <= 1 ==> queue.items == old(queue.items) && a[..] == old(a[..])
    ensures slice.hi - slice.lo > 1 ==>
      exists p :: slice.lo <= p < slice.hi &&
        queue.items == old(queue.items) + [Range(slice.lo, p), Range(p + 1, slice.hi)]
  {
    ghost var rest := queue.items;
    assert (rest + [slice])[|rest|] == slice;
    if slice.hi - slice.lo > 1 {
      ghost var before := a[..];
      var left, right := Partition.Partition(a, slice.lo, slice.hi);
      PartitionKeepsOrder(before, a[..], rest, slice, left, right);
      SplitKeepsSeparate(rest, slice, left, right, a.Length);
      SplitLowersWork(rest, slice, left, right);
      queue.Send(left);
      queue.Send(right);
      assert queue.items == rest + [Range(slice.lo, left.hi), Range(left.hi + 1, slice.hi)];
    } else {
      DropShort(a[..], rest, slice, a.Length);
      WorkAppend(rest, slice);
    }
  }

  /** One turn of the worker loop: the received sub-slice is processed, it
      is reported done, and the next one is received. */
  method Turn(a: array<int>, queue: Queue<Range>, received: Received<Range>, ghost elements: multiset<int>)
    returns (next: Received<Range>)
    requires received.Item?
    requires Driving(a, queue, received, elements)
    modifies a, queue
    ensures Driving(a, queue, next, elements)
    ensures Work(Pending(queue.items, next)) < old(Work(Pending(queue.items, received)))
  {
    assert Pending(queue.items, received) == queue.items + [received.value];
    Process(a, queue, received.value, elements);
    queue.Done();
    ghost var queued := queue.items;
    next := queue.Recv();
    assert Pending(queue.items, next) == queued;
  }

  /** `par_quick_sort` run by one worker: sorts the buffer in place. The
      worker never has to wait, and the loop ends once every sub-slice sent
      has been reported done: the last `recv` reports the end of the work. */
  method ParQuickSort(a: array<int>) returns (last: Received<Range>)
    modifies a
    ensures last == Finished
    ensures Sorted(a[..])
    ensures multiset(a[..]) == multiset(old(a[..]))
  {
    var queue := new Queue<Range>();
    queue.Send(Range(0, a.Length));
    var received := queue.Recv();
    forall i, j | 0 <= i < j < a.Length
      ensures Covers([Range(0, a.Length)], i, j)
    {
      assert Holds([Range(0, a.Length)][0], i, j);
    }
    while received.Item?
      invariant fresh(queue)
      invariant Driving(a, queue, received, multiset(old(a[..])))
      decreases Work(Pending(queue.items, received))
    {
      received := Turn(a, queue, received, multiset(old(a[..])));
    }
    last := received;
  }

  /** The bytes of "Hello, world!". */
  const HelloWorld: seq<int> := [72, 101, 108, 108, 111, 44, 32, 119, 111, 114, 108, 100, 33]

  /** The bytes of " !,Hdellloorw". */
  const HelloWorldSorted: seq<int> := [32, 33, 44, 72, 100, 101, 108, 108, 108, 111, 111, 114, 119]

  lemma HelloWorldElements()
    ensures multiset(HelloWorld) == multiset{72, 101, 108, 108, 111, 44, 32, 119, 111, 114, 108, 100, 33}
  {
  }

  lemma HelloWorldSortedElements()
    ensures multiset(HelloWorldSorted) == multiset{32, 33, 44, 72, 100, 101, 108, 108, 108, 111, 111, 114, 119}
  {
  }

  /** The two byte strings are anagrams. */
  lemma {:induction false} HelloWorldAnagram()
    ensures multiset(HelloWorldSorted) == multiset(HelloWorld)
  {
    HelloWorldElements();
    HelloWorldSortedElements();
    SameLetters();
  }

  lemma SameLetters()
    ensures multiset{72, 101, 108, 108, 111, 44, 32, 119, 111, 114, 108, 100, 33}
         == multiset{32, 33, 44, 72, 100, 101, 108, 108, 108, 111, 111, 114, 119}
  {
  }

  lemma HelloWorldSortedInOrder()
    ensures Sorted(HelloWorldSorted)
  {
  }

  /** The test `quick_sort`: sorting the bytes of "Hello, world!" gives the
      bytes of " !,Hdellloorw". */
  method SortHelloWorld() returns (sorted: seq<int>)
    ensures sorted == HelloWorldSorted
  {
    var a := new int[] [72, 101, 108, 108, 111, 44, 32, 119, 111, 114, 108, 100, 33];
    assert a[..] == HelloWorld;
    var last := ParQuickSort(a);
    sorted := a[..];
    HelloWorldAnagram();
    HelloWorldSortedInOrder();
    SortedUnique(sorted, HelloWorldSorted);
  }

  /** A sorted sequence is determined by its elements. */
  lemma {:induction false} SortedUnique(s: seq<int>, t: seq<int>)
    requires Sorted(s) && Sorted(t)
    requires multiset(s) == multiset(t)
    ensures s == t
  {
    assert |s| == |multiset(s)| == |multiset(t)| == |t|;
    if s != [] {
      SameFirst(s, t);
      SameRest(s, t);
      SortedRest(s);
      SortedRest(t);
      SortedUnique(s[1..], t[1..]);
      assert s == [s[0]] + s[1..] && t == [t[0]] + t[1..];
    }
  }

  /** Two sorted sequences with the same elements start alike: both start
      with the least element. */
  lemma SameFirst(s: seq<int>, t: seq<int>)
    requires Sorted(s) && Sorted(t) && s != []
    requires multiset(s) == multiset(t)
    ensures t != [] && s[0] == t[0]
  {
    assert s[0] in multiset(t);
    var i :| 0 <= i < |t| && t[i] == s[0];
    assert t[0] in multiset(s);
    var j :| 0 <= j < |s| && s[j] == t[0];
    assert t[0] <= t[i] && s[0] <= s[j];
  }

  /** Taking the same first element off two sequences with the same
      elements leaves the same elements. */
  lemma SameRest(s: seq<int>, t: seq<int>)
    requires s != [] && t != [] && s[0] == t[0]
    requires multiset(s) == multiset(t)
    ensures multiset(s[1..]) == multiset(t[1..])
  {
    SplitFirst(s);
    SplitFirst(t);
    forall v
      ensures multiset(s[1..])[v] == multiset(t[1..])[v]
    {
      assert multiset(s)[v] == multiset{s[0]}[v] + multiset(s[1..])[v];
      assert multiset(t)[v] == multiset{t[0]}[v] + multiset(t[1..])[v];
    }
  }

  lemma SortedRest(s: seq<int>)
    requires Sorted(s) && s != []
    ensures Sorted(s[1..])
  {
    forall i, j | 0 <= i < j < |s| - 1
      ensures s[1..][i] <= s[1..][j]
    {
      assert s[1..][i] == s[i + 1] && s[1..][j] == s[j + 1];
    }
  }

  lemma SplitFirst(s: seq<int>)
    requires s != []
    ensures multiset(s) == multiset{s[0]} + multiset(s[1..])
  {
    assert s == [s[0]] + s[1..];
  }
}
