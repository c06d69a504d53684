/** The merge sort of merge_sort/main.cpp, specialised to int arrays ordered
    by <: ranges below ten elements go to a selection sort ("InsertionSort"
    in the source), longer ones are split in half, sorted recursively and
    merged through a scratch buffer. */
module MergeSorting {

  /** Ranges shorter than this are sorted by InsertionSort. */
  const Cutoff: int := 10

  ghost predicate Sorted(s: seq<int>) {
    forall i, j :: 0 <= i < j < |s| ==> s[i] <= s[j]
  }

  /** after is before with the range [lo, hi) sorted: that range holds a
      sorted permutation of what it held, every other position is
      unchanged. */
  ghost predicate SortsRange(before: seq<int>, after: seq<int>, lo: int, hi: int) {
    0 <= lo <= hi <= |before| == |after| &&
    after[..lo] == before[..lo] && after[hi..] == before[hi..] &&
    multiset(after[lo..hi]) == multiset(before[lo..hi]) &&
    Sorted(after[lo..hi])
  }

  /** The output of Merge for input ranges xs and ys, step by step as its
      loop produces it: while xs has elements, take the head of xs when ys is
      exhausted or xs's head is strictly smaller, else the head of ys (so on
      a tie the right element goes first); then the rest of ys. */
  function Merged(xs: seq<int>, ys: seq<int>): (r: seq<int>)
    ensures |r| == |xs| + |ys|
    decreases |xs| + |ys|
  {
    if xs == [] then ys
    else if ys == [] || xs[0] < ys[0] then [xs[0]] + Merged(xs[1..], ys)
    else [ys[0]] + Merged(xs, ys[1..])
  }

  /** Merging loses and invents nothing: the output is a permutation of the
      two inputs together. */
  lemma {:induction false} MergedPermutation(xs: seq<int>, ys: seq<int>)
    ensures multiset(Merged(xs, ys)) == multiset(xs) + multiset(ys)
    decreases |xs| + |ys|
  {
    if xs != [] {
      if ys == [] || xs[0] < ys[0] {
        var rest := xs[1..];
        MergedPermutation(rest, ys);
        assert xs == [xs[0]] + rest;
        assert multiset(xs) == multiset([xs[0]]) + multiset(rest);
        assert Merged(xs, ys) == [xs[0]] + Merged(rest, ys);
        assert multiset(Merged(xs, ys)) == multiset([xs[0]]) + multiset(Merged(rest, ys));
      } else {
        var rest := ys[1..];
        MergedPermutation(xs, rest);
        assert ys == [ys[0]] + rest;
        assert multiset(ys) == multiset([ys[0]]) + multiset(rest);
        assert Merged(xs, ys) == [ys[0]] + Merged(xs, rest);
        assert multiset(Merged(xs, ys)) == multiset([ys[0]]) + multiset(Merged(xs, rest));
      }
    }
  }

  /** A lower bound of both inputs bounds every element of the merge. */
  lemma {:induction false} MergedBounded(b: int, xs: seq<int>, ys: seq<int>)
    requires forall k :: 0 <= k < |xs| ==> b <= xs[k]
    requires forall k :: 0 <= k < |ys| ==> b <= ys[k]
    ensures forall k :: 0 <= k < |Merged(xs, ys)| ==> b <= Merged(xs, ys)[k]
    decreases |xs| + |ys|
  {
    if xs != [] {
      if ys == [] || xs[0] < ys[0] {
        MergedBounded(b, xs[1..], ys);
        assert Merged(xs, ys) == [xs[0]] + Merged(xs[1..], ys);
      } else {
        MergedBounded(b, xs, ys[1..]);
        assert Merged(xs, ys) == [ys[0]] + Merged(xs, ys[1..]);
      }
    }
  }

  /** Merging two sorted ranges yields a sorted range. */
  lemma {:induction false} MergedSorted(xs: seq<int>, ys: seq<int>)
    requires Sorted(xs) && Sorted(ys)
    ensures Sorted(Merged(xs, ys))
    decreases |xs| + |ys|
  {
    if xs != [] {
      if ys == [] || xs[0] < ys[0] {
        MergedSorted(xs[1..], ys);
        MergedBounded(xs[0], xs[1..], ys);
        HeadThenSorted(xs[0], Merged(xs[1..], ys));
        assert Merged(xs, ys) == [xs[0]] + Merged(xs[1..], ys);
      } else {
        MergedSorted(xs, ys[1..]);
        MergedBounded(ys[0], xs, ys[1..]);
        HeadThenSorted(ys[0], Merged(xs, ys[1..]));
        assert Merged(xs, ys) == [ys[0]] + Merged(xs, ys[1..]);
      }
    }
  }

  lemma HeadThenSorted(x: int, tail: seq<int>)
    requires Sorted(tail) && forall k :: 0 <= k < |tail| ==> x <= tail[k]
    ensures Sorted([x] + tail)
  {
  }

  /** std::min_element: the first position of a least element of
      a[lo..hi]. */
  method MinElement(a: array<int>, lo: int, hi: int) returns (m: int)
    requires 0 <= lo < hi <= a.Length
    ensures lo <= m < hi
    ensures forall k :: lo <= k < hi ==> a[m] <= a[k]
    ensures forall k :: lo <= k < m ==> a[m] < a[k]
  {
    m := lo;
    var i := lo + 1;
    while i < hi
      invariant lo <= m < i <= hi
      invariant forall k :: lo <= k < i ==> a[m] <= a[k]
      invariant forall k :: lo <= k < m ==> a[m] < a[k]
    {
      if a[i] < a[m] {
        m := i;
      }
      i := i + 1;
    }
  }

  /** InsertionSort: repeatedly swap the least remaining element to the
      front of the unsorted part, which is a selection sort. */
  method InsertionSort(a: array<int>, lo: int, hi: int)
    requires 0 <= lo <= hi <= a.Length
    modifies a
    ensures SortsRange(old(a[..]), a[..], lo, hi)
  {
    ghost var initial := a[..];
    var left := lo;
    while left < hi
      invariant lo <= left <= hi
      invariant SelectedPrefix(initial, a[..], lo, left, hi)
    {
      var m := MinElement(a, left, hi);
      ghost var before := a[..];
      a[m], a[left] := a[left], a[m];
      SelectionStep(initial, before, a[..], lo, left, m, hi);
      left := left + 1;
    }
    SelectionDone(initial, a[..], lo, hi);
  }

  /** The state of InsertionSort's loop: current is initial with a[lo..hi]
      permuted, a[lo..left] sorted and no larger than anything in
      a[left..hi]. */
  ghost predicate SelectedPrefix(initial: seq<int>, current: seq<int>, lo: int, left: int, hi: int) {
    0 <= lo <= left <= hi <= |initial| == |current| &&
    (forall i, j :: lo <= i < j < left ==> current[i] <= current[j]) &&
    (forall i, j :: lo <= i < left <= j < hi ==> current[i] <= current[j]) &&
    multiset(current[lo..hi]) == multiset(initial[lo..hi]) &&
    current[..lo] == initial[..lo] && current[hi..] == initial[hi..]
  }

  /** Swapping a least element of current[left..hi] to position left extends
      the sorted prefix by one. */
  lemma SelectionStep(initial: seq<int>, current: seq<int>, next: seq<int>, lo: int, left: int, m: int, hi: int)
    requires SelectedPrefix(initial, current, lo, left, hi) && left <= m < hi
    requires forall k :: left <= k < hi ==> current[m] <= current[k]
    requires next == current[m := current[left]][left := current[m]]
    ensures SelectedPrefix(initial, next, lo, left + 1, hi)
  {
    SwapInRange(current, next, m, left, lo, hi);
  }

  /** With the whole range selected, it is sorted. */
  lemma SelectionDone(initial: seq<int>, current: seq<int>, lo: int, hi: int)
    requires SelectedPrefix(initial, current, lo, hi, hi)
    ensures SortsRange(initial, current, lo, hi)
  {
  }

  /** Exchanging two positions inside [lo, hi) keeps the multiset of the
      range and everything outside it. */
  lemma SwapInRange(s: seq<int>, t: seq<int>, i: int, j: int, lo: int, hi: int)
    requires 0 <= lo <= j <= i < hi <= |s| && t == s[i := s[j]][j := s[i]]
    ensures multiset(t[lo..hi]) == multiset(s[lo..hi])
    ensures t[..lo] == s[..lo] && t[hi..] == s[hi..]
  {
    SwapPermutes(s, t, i, j, lo, hi);
    assert t[..lo] == s[..lo];
    assert t[hi..] == s[hi..];
  }

  lemma SwapPermutes(s: seq<int>, t: seq<int>, i: int, j: int, lo: int, hi: int)
    requires 0 <= lo <= j <= i < hi <= |s| && t == s[i := s[j]][j := s[i]]
    ensures multiset(t[lo..hi]) == multiset(s[lo..hi])
  {
    var u := s[lo..hi];
    var w := u[i - lo := s[j]];
    assert t[lo..hi] == w[j - lo := s[i]];
    assert u[i - lo] == s[i] && w[j - lo] == s[j];
    assert multiset(w) == multiset(u) - multiset{s[i]} + multiset{s[j]};
    assert multiset(t[lo..hi]) == multiset(w) - multiset{s[j]} + multiset{s[i]};
    assert s[i] in multiset(u);
  }

  /** std::move over ints: copy src[first..last] to dst from dFirst on and
      return the end of the written range. */
  method Move(src: array<int>, first: int, last: int, dst: array<int>, dFirst: int) returns (dLast: int)
    requires src != dst
    requires 0 <= first <= last <= src.Length
    requires 0 <= dFirst && dFirst + (last - first) <= dst.Length
    modifies dst
    ensures dLast == dFirst + (last - first)
    ensures dst[dFirst..dLast] == old(src[first..last])
    ensures dst[..dFirst] == old(dst[..dFirst]) && dst[dLast..] == old(dst[dLast..])
  {
    var i := first;
    dLast := dFirst;
    while i < last
      invariant first <= i <= last && dLast == dFirst + (i - first)
      invariant forall t :: dFirst <= t < dLast ==> dst[t] == src[first + (t - dFirst)]
      invariant forall t :: 0 <= t < dFirst || dFirst + (last - first) <= t < dst.Length ==> dst[t] == old(dst[t])
    {
      dst[dLast] := src[i];
      i := i + 1;
      dLast := dLast + 1;
    }
  }

  /** Merge: merge src[left..leftEnd] and src[right..rightEnd] into out from
      result on, returning the end of the written range. */
  method Merge(src: array<int>, left: int, leftEnd: int, right: int, rightEnd: int,
               out: array<int>, result: int) returns (resultEnd: int)
    requires src != out
    requires 0 <= left <= leftEnd <= src.Length && 0 <= right <= rightEnd <= src.Length
    requires 0 <= result && result + (leftEnd - left) + (rightEnd - right) <= out.Length
    modifies out
    ensures resultEnd == result + (leftEnd - left) + (rightEnd - right)
    ensures out[result..resultEnd] == Merged(src[left..leftEnd], src[right..rightEnd])
  {
    var r, k;
    ghost var done;
    r, k, done := MergeHeads(src, left, leftEnd, right, rightEnd, out, result);
    ghost var beforeMove := out[..];
    resultEnd := Move(src, r, rightEnd, out, k);
    LeftExhausted(src[..], left, leftEnd, right, rightEnd, r, done);
    Assemble(out[..], beforeMove, result, k, resultEnd, done, src[r..rightEnd],
             Merged(src[left..leftEnd], src[right..rightEnd]));
  }

  /** The loop of Merge: while the left range has elements, copy the smaller
      head to out (the right one on a tie); done is what has been copied. */
  method MergeHeads(src: array<int>, left: int, leftEnd: int, right: int, rightEnd: int,
                    out: array<int>, result: int) returns (r: int, k: int, ghost done: seq<int>)
    requires src != out
    requires 0 <= left <= leftEnd <= src.Length && 0 <= right <= rightEnd <= src.Length
    requires 0 <= result && result + (leftEnd - left) + (rightEnd - right) <= out.Length
    modifies out
    ensures MergeProgress(src[..], left, leftEnd, right, rightEnd, leftEnd, r, done)
    ensures k == result + |done|
    ensures forall t :: result <= t < k ==> out[t] == done[t - result]
  {
    var l := left;
    r, k, done := right, result, [];
    while l < leftEnd
      invariant MergeProgress(src[..], left, leftEnd, right, rightEnd, l, r, done)
      invariant k == result + |done|
      invariant forall t :: result <= t < k ==> out[t] == done[t - result]
      decreases (leftEnd - l) + (rightEnd - r)
    {
      l, r, k, done := MergeStep(src, left, leftEnd, right, rightEnd, out, result, l, r, k, done);
    }
  }

  /** One iteration of Merge's loop: copy the head of the left range when the
      right one is exhausted or the left head is strictly smaller, else the
      head of the right range. */
  method MergeStep(src: array<int>, left: int, leftEnd: int, right: int, rightEnd: int,
                   out: array<int>, result: int, l: int, r: int, k: int, ghost done: seq<int>)
    returns (l': int, r': int, k': int, ghost done': seq<int>)
    requires src != out
    requires MergeProgress(src[..], left, leftEnd, right, rightEnd, l, r, done) && l < leftEnd
    requires 0 <= result && result + (leftEnd - left) + (rightEnd - right) <= out.Length
    requires k == result + |done|
    requires forall t :: result <= t < k ==> out[t] == done[t - result]
    modifies out
    ensures MergeProgress(src[..], left, leftEnd, right, rightEnd, l', r', done')
    ensures k' == result + |done'|
    ensures forall t :: result <= t < k' ==> out[t] == done'[t - result]
    ensures (leftEnd - l') + (rightEnd - r') < (leftEnd - l) + (rightEnd - r)
  {
    var next;
    if r == rightEnd || src[l] < src[r] {
      next := src[l];
      l', r' := l + 1, r;
    } else {
      next := src[r];
      l', r' := l, r + 1;
    }
    out[k] := next;
    done' := done + [next];
    k' := k + 1;
    Take(src[..], left, leftEnd, right, rightEnd, l, r, done, l', r', next);
  }

  /** One step of Merge's loop, whichever head it takes. */
  lemma Take(input: seq<int>, left: int, leftEnd: int, right: int, rightEnd: int,
             l: int, r: int, done: seq<int>, l': int, r': int, next: int)
    requires MergeProgress(input, left, leftEnd, right, rightEnd, l, r, done) && l < leftEnd
    requires (l' == l + 1 && r' == r && next == input[l] && (r == rightEnd || input[l] < input[r])) ||
             (l' == l && r' == r + 1 && r < rightEnd && next == input[r] && input[r] <= input[l])
    ensures MergeProgress(input, left, leftEnd, right, rightEnd, l', r', done + [next])
  {
    if l' == l + 1 {
      TakeLeft(input, left, leftEnd, right, rightEnd, l, r, done);
    } else {
      TakeRight(input, left, leftEnd, right, rightEnd, l, r, done);
    }
  }



  /** The state of Merge's loop: done is what it has written so far, and
      merging what is left of both ranges completes it to the full merge. */
  ghost predicate MergeProgress(input: seq<int>, left: int, leftEnd: int, right: int, rightEnd: int,
                                l: int, r: int, done: seq<int>) {
    0 <= left <= l <= leftEnd <= |input| && 0 <= right <= r <= rightEnd <= |input| &&
    |done| == (l - left) + (r - right) &&
    done + Merged(input[l..leftEnd], input[r..rightEnd]) == Merged(input[left..leftEnd], input[right..rightEnd])
  }

  /** One step of Merge's loop that takes the head of the left range. */
  lemma TakeLeft(input: seq<int>, left: int, leftEnd: int, right: int, rightEnd: int,
                 l: int, r: int, done: seq<int>)
    requires MergeProgress(input, left, leftEnd, right, rightEnd, l, r, done) && l < leftEnd
    requires r == rightEnd || input[l] < input[r]
    ensures MergeProgress(input, left, leftEnd, right, rightEnd, l + 1, r, done + [input[l]])
  {
    assert input[l..leftEnd][1..] == input[l + 1..leftEnd];
    Shift(done, input[l], Merged(input[l + 1..leftEnd], input[r..rightEnd]),
          Merged(input[left..leftEnd], input[right..rightEnd]));
  }

  /** One step of Merge's loop that takes the head of the right range. */
  lemma TakeRight(input: seq<int>, left: int, leftEnd: int, right: int, rightEnd: int,
                  l: int, r: int, done: seq<int>)
    requires MergeProgress(input, left, leftEnd, right, rightEnd, l, r, done) && l < leftEnd
    requires r < rightEnd && input[r] <= input[l]
    ensures MergeProgress(input, left, leftEnd, right, rightEnd, l, r + 1, done + [input[r]])
  {
    assert input[r..rightEnd][1..] == input[r + 1..rightEnd];
    Shift(done, input[r], Merged(input[l..leftEnd], input[r + 1..rightEnd]),
          Merged(input[left..leftEnd], input[right..rightEnd]));
  }

  /** Once the left range is used up, the rest of the merge is the rest of
      the right range. */
  lemma LeftExhausted(input: seq<int>, left: int, leftEnd: int, right: int, rightEnd: int,
                      r: int, done: seq<int>)
    requires MergeProgress(input, left, leftEnd, right, rightEnd, leftEnd, r, done)
    ensures done + input[r..rightEnd] == Merged(input[left..leftEnd], input[right..rightEnd])
  {
    assert input[leftEnd..leftEnd] == [];
  }

  /** Appending the next output element to what is done. */
  lemma Shift(done: seq<int>, x: int, rest: seq<int>, total: seq<int>)
    requires done + ([x] + rest) == total
    ensures (done + [x]) + rest == total
  {
    assert done + ([x] + rest) == (done + [x]) + rest;
  }

  /** After Move, the written range is what the loop produced followed by
      what Move copied. */
  lemma Assemble(o: seq<int>, before: seq<int>, result: int, k: int, end: int,
                 done: seq<int>, pending: seq<int>, total: seq<int>)
    requires 0 <= result <= k <= end <= |o| == |before|
    requires o[..k] == before[..k] && o[k..end] == pending
    requires |done| == k - result && forall t :: result <= t < k ==> before[t] == done[t - result]
    requires done + pending == total
    ensures o[result..end] == total
  {
    assert o[result..end] == o[result..k] + o[k..end];
    assert o[result..k] == done by {
      forall t | result <= t < k ensures o[t] == before[t] {
        assert o[t] == o[..k][t];
      }
    }
  }

  /** MergeSort: sort a[lo..hi] using buffer[0..hi - lo] as scratch. */
  method MergeSort(a: array<int>, lo: int, hi: int, buffer: array<int>)
    requires a != buffer
    requires 0 <= lo <= hi <= a.Length && hi - lo <= buffer.Length
    modifies a, buffer
    ensures SortsRange(old(a[..]), a[..], lo, hi)
    decreases hi - lo
  {
    var size := hi - lo;
    if size < Cutoff {
      InsertionSort(a, lo, hi);
      return;
    }
    var middle := lo + size / 2;
    ghost var a0 := a[..];
    MergeSort(a, lo, middle, buffer);
    ghost var a1 := a[..];
    MergeSort(a, middle, hi, buffer);
    ghost var a2 := a[..];
    var _ := Merge(a, lo, middle, middle, hi, buffer, 0);
    ghost var a3, b3 := a[..], buffer[..];
    assert a3 == a2;
    assert b3[0..size] == Merged(a3[lo..middle], a3[middle..hi]);
    var end := Move(buffer, 0, size, a, lo);
    ghost var a4 := a[..];
    assert end == hi;
    assert a4[lo..hi] == b3[0..size];
    MergeSortStep(a0, a1, a2, a4, lo, middle, hi);
  }

  /** Sorting both halves in turn and then merging them sorts the range. */
  lemma MergeSortStep(a0: seq<int>, a1: seq<int>, a2: seq<int>, a4: seq<int>, lo: int, mid: int, hi: int)
    requires SortsRange(a0, a1, lo, mid) && SortsRange(a1, a2, mid, hi) && |a4| == |a2|
    requires a4[lo..hi] == Merged(a2[lo..mid], a2[mid..hi])
    requires a4[..lo] == a2[..lo] && a4[hi..] == a2[hi..]
    ensures SortsRange(a0, a4, lo, hi)
  {
    HalvesStep(a0, a1, a2, lo, mid, hi);
    MergedSorted(a2[lo..mid], a2[mid..hi]);
    MergedPermutation(a2[lo..mid], a2[mid..hi]);
    FrameStep(a0, a1, a2, a4, lo, mid, hi);
  }

  /** After sorting both halves in turn, the two halves together hold what
      the range held. */
  lemma HalvesStep(a0: seq<int>, a1: seq<int>, a2: seq<int>, lo: int, mid: int, hi: int)
    requires 0 <= lo <= mid <= hi <= |a0| == |a1| == |a2|
    requires multiset(a1[lo..mid]) == multiset(a0[lo..mid]) && a1[mid..] == a0[mid..]
    requires multiset(a2[mid..hi]) == multiset(a1[mid..hi]) && a2[..mid] == a1[..mid]
    ensures multiset(a2[lo..mid]) + multiset(a2[mid..hi]) == multiset(a0[lo..hi])
  {
    assert a0[lo..hi] == a0[lo..mid] + a0[mid..hi];
    assert a1[mid..hi] == a0[mid..hi] by {
      assert a1[mid..hi] == a1[mid..][..hi - mid];
      assert a0[mid..hi] == a0[mid..][..hi - mid];
    }
    assert a2[lo..mid] == a1[lo..mid] by {
      assert a2[lo..mid] == a2[..mid][lo..];
      assert a1[lo..mid] == a1[..mid][lo..];
    }
  }

  /** What lies outside [lo, hi) is never written. */
  lemma FrameStep(a0: seq<int>, a1: seq<int>, a2: seq<int>, a4: seq<int>, lo: int, mid: int, hi: int)
    requires 0 <= lo <= mid <= hi <= |a0| == |a1| == |a2| == |a4|
    requires a1[..lo] == a0[..lo] && a1[mid..] == a0[mid..]
    requires a2[..mid] == a1[..mid] && a2[hi..] == a1[hi..]
    requires a4[..lo] == a2[..lo] && a4[hi..] == a2[hi..]
    ensures a4[..lo] == a0[..lo] && a4[hi..] == a0[hi..]
  {
    assert a1[hi..] == a1[mid..][hi - mid..];
    assert a0[hi..] == a0[mid..][hi - mid..];
    assert a2[..lo] == a2[..mid][..lo];
    assert a1[..lo] == a1[..mid][..lo];
  }

  /** Sort: allocate a buffer of exactly hi - lo elements and merge sort the
      range. */
  method Sort(a: array<int>, lo: int, hi: int)
    requires 0 <= lo <= hi <= a.Length
    modifies a
    ensures SortsRange(old(a[..]), a[..], lo, hi)
  {
    var buffer := new int[hi - lo];
    MergeSort(a, lo, hi, buffer);
  }
}
