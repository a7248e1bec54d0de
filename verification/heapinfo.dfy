/** The user-space heap-information test (`p-heapinfo.c`): the explicit-stack
    quicksort it carries (`_quicksort`, after the C library's `qsort.c`), the
    comparator that orders allocation records largest first, and the lookup
    it checks the kernel's report against.

    The sort works on a sequence of elements rather than on raw bytes: a
    pointer into the array is an element index, `SWAP` exchanges two
    elements, and the byte-wise rotation of the insertion pass moves whole
    elements.  The comparator is any function that orders elements as some
    integer rank does; `rank` is a ghost witness of that. */
module HeapInfo {
  import opened Wrappers
  import opened X86
  import SharedLib

  /** Segments of at most this many elements beyond their first are left
      to the insertion pass. */
  const MAX_THRESH: nat := 4
  /** `CHAR_BIT * sizeof(size_t)` stack nodes. */
  const STACK_SIZE: nat := 64

  // ---------------------------------------------------------------- orders

  /** `cmp` compares as the ranks do: negative for a smaller rank, positive
      for a larger one, zero for equal ranks. */
  ghost predicate RankedBy<T(!new)>(cmp: (T, T) -> int, rank: T -> int)
  {
    forall x, y {:trigger cmp(x, y)} :: (cmp(x, y) < 0 <==> rank(x) < rank(y)) && (cmp(x, y) > 0 <==> rank(x) > rank(y))
  }

  ghost predicate SortedBy<T>(a: seq<T>, rank: T -> int)
  {
    forall i, j | 0 <= i < j < |a| :: rank(a[i]) <= rank(a[j])
  }

  /** The first `m` elements are in order. */
  ghost predicate SortedPrefix<T>(a: seq<T>, rank: T -> int, m: int)
  {
    forall i, j | 0 <= i < j < m && j < |a| :: rank(a[i]) <= rank(a[j])
  }

  /** No element up to `b` ranks above an element after `b`. */
  ghost predicate Cut<T>(a: seq<T>, rank: T -> int, b: int)
  {
    forall i, j | 0 <= i <= b < j < |a| :: rank(a[i]) <= rank(a[j])
  }

  /** Within `[lo, hi]`, nothing up to `r` ranks above anything after it. */
  ghost predicate Split<T>(a: seq<T>, rank: T -> int, lo: int, r: int, hi: int)
  {
    forall i, j | lo <= i <= r < j <= hi && 0 <= i && j < |a| :: rank(a[i]) <= rank(a[j])
  }

  /** The first element ranks lowest. */
  ghost predicate LeastFirst<T>(a: seq<T>, rank: T -> int)
  {
    |a| > 0 && forall k | 0 <= k < |a| :: rank(a[0]) <= rank(a[k])
  }

  // ---------------------------------------------------------------- moving elements

  /** `SWAP(a, b, size)`. */
  function Swap<T>(a: seq<T>, i: nat, j: nat): (r: seq<T>)
    requires i < |a| && j < |a|
    ensures |r| == |a| && r[i] == a[j] && r[j] == a[i]
    ensures forall k | 0 <= k < |a| && k != i && k != j :: r[k] == a[k]
  {
    a[i := a[j]][j := a[i]]
  }

  /** Only `[lo, hi]` has changed, and only by reordering. */
  ghost predicate Rearranged<T>(a: seq<T>, a0: seq<T>, lo: nat, hi: nat)
  {
    && |a| == |a0| && lo <= hi < |a|
    && (forall k | 0 <= k < |a| && (k < lo || hi < k) :: a[k] == a0[k])
    && multiset(a[lo..hi + 1]) == multiset(a0[lo..hi + 1])
  }

  lemma SwapRearranges<T>(a: seq<T>, a0: seq<T>, lo: nat, hi: nat, i: nat, j: nat)
    requires Rearranged(a, a0, lo, hi) && lo <= i <= hi && lo <= j <= hi
    ensures Rearranged(Swap(a, i, j), a0, lo, hi)
  {
    var s := a[lo..hi + 1];
    assert Swap(a, i, j)[lo..hi + 1] == s[i - lo := s[j - lo]][j - lo := s[i - lo]];
  }

  lemma RearrangedTrans<T>(a2: seq<T>, a1: seq<T>, a0: seq<T>, lo: nat, hi: nat)
    requires Rearranged(a2, a1, lo, hi) && Rearranged(a1, a0, lo, hi)
    ensures Rearranged(a2, a0, lo, hi)
  {
  }

  /** Reordering a segment reorders the whole sequence. */
  lemma RearrangedWhole<T>(a: seq<T>, a0: seq<T>, lo: nat, hi: nat)
    requires Rearranged(a, a0, lo, hi)
    ensures multiset(a) == multiset(a0)
  {
    assert a[..lo] == a0[..lo];
    assert a[hi + 1..] == a0[hi + 1..];
    assert a == a[..lo] + a[lo..hi + 1] + a[hi + 1..];
    assert a0 == a0[..lo] + a0[lo..hi + 1] + a0[hi + 1..];
  }

  /** Where an element of a rearranged sequence came from. */
  lemma Origin<T>(a: seq<T>, a0: seq<T>, lo: nat, hi: nat, j: nat) returns (k: nat)
    requires Rearranged(a, a0, lo, hi) && j < |a|
    ensures lo <= j <= hi ==> lo <= k <= hi
    ensures !(lo <= j <= hi) ==> k == j
    ensures k < |a0| && a0[k] == a[j]
  {
    if lo <= j <= hi {
      assert a[j] == a[lo..hi + 1][j - lo];
      assert a[j] in multiset(a0[lo..hi + 1]);
      var m :| 0 <= m < hi + 1 - lo && a0[lo..hi + 1][m] == a[j];
      k := lo + m;
    } else {
      k := j;
    }
  }

  /** Reordering a segment that lies on one side of a cut keeps the cut. */
  lemma CutKept<T>(a: seq<T>, a0: seq<T>, rank: T -> int, lo: nat, hi: nat, b: int)
    requires Rearranged(a, a0, lo, hi) && Cut(a0, rank, b) && (hi <= b || b < lo)
    ensures Cut(a, rank, b)
  {
    forall i, j | 0 <= i <= b < j < |a|
      ensures rank(a[i]) <= rank(a[j])
    {
      var i0 := Origin(a, a0, lo, hi, i);
      var j0 := Origin(a, a0, lo, hi, j);
      assert 0 <= i0 <= b < j0 < |a0|;
    }
  }

  /** Splitting the segment before a cut moves the cut to the split. */
  lemma CutRefined<T>(a: seq<T>, a0: seq<T>, rank: T -> int, b: nat, r: nat)
    requires Rearranged(a, a0, 0, b) && Cut(a0, rank, b) && r < b
    requires Split(a, rank, 0, r, b)
    ensures Cut(a, rank, r)
  {
    CutKept(a, a0, rank, 0, b, b);
  }

  // ---------------------------------------------------------------- partitioning

  /** Lines 73-81: order the first, middle and last elements of `[lo, hi]`,
      which leaves their median in the middle as the pivot. */
  method MedianOfThree<T(!new)>(a0: seq<T>, lo: nat, hi: nat, cmp: (T, T) -> int, ghost rank: T -> int)
    returns (a: seq<T>, mid: nat)
    requires RankedBy(cmp, rank) && lo + 2 <= hi < |a0|
    ensures mid == lo + (hi - lo) / 2 && lo < mid < hi
    ensures Rearranged(a, a0, lo, hi)
    ensures rank(a[lo]) <= rank(a[mid]) <= rank(a[hi])
  {
    mid := lo + (hi - lo) / 2;
    a := a0;
    if cmp(a[mid], a[lo]) < 0 {
      SwapRearranges(a, a0, lo, hi, mid, lo);
      a := Swap(a, mid, lo);
    }
    if cmp(a[hi], a[mid]) < 0 {
      SwapRearranges(a, a0, lo, hi, mid, hi);
      a := Swap(a, mid, hi);
      if cmp(a[mid], a[lo]) < 0 {
        SwapRearranges(a, a0, lo, hi, mid, lo);
        a := Swap(a, mid, lo);
      }
    }
  }

  /** Line 90: move `left` past the elements ranking below the pivot at
      `mid`; the element at `stop` ends the scan at the latest. */
  method ScanUp<T(!new)>(a: seq<T>, lo: nat, left: nat, mid: nat, cmp: (T, T) -> int, ghost rank: T -> int,
                         ghost stop: nat) returns (l: nat)
    requires RankedBy(cmp, rank) && left <= stop < |a| && mid < |a| && rank(a[mid]) <= rank(a[stop])
    requires forall i | lo <= i < left :: rank(a[i]) <= rank(a[mid])
    ensures left <= l <= stop && rank(a[mid]) <= rank(a[l])
    ensures forall i | lo <= i < l :: rank(a[i]) <= rank(a[mid])
  {
    l := left;
    while cmp(a[l], a[mid]) < 0
      invariant left <= l <= stop
      invariant forall i | lo <= i < l :: rank(a[i]) <= rank(a[mid])
      decreases stop - l
    {
      l := l + 1;
    }
  }

  /** Line 92: move `right` back past the elements ranking above the
      pivot at `mid`; the element at `stop` ends the scan at the latest. */
  method ScanDown<T(!new)>(a: seq<T>, hi: nat, right: nat, mid: nat, cmp: (T, T) -> int, ghost rank: T -> int,
                           ghost stop: nat) returns (r: nat)
    requires RankedBy(cmp, rank) && stop <= right < |a| && mid < |a| && rank(a[stop]) <= rank(a[mid])
    requires forall j | right < j <= hi && j < |a| :: rank(a[mid]) <= rank(a[j])
    ensures stop <= r <= right && rank(a[r]) <= rank(a[mid])
    ensures forall j | r < j <= hi && j < |a| :: rank(a[mid]) <= rank(a[j])
  {
    r := right;
    while cmp(a[mid], a[r]) < 0
      invariant stop <= r <= right
      invariant forall j | r < j <= hi && j < |a| :: rank(a[mid]) <= rank(a[j])
      decreases r - stop
    {
      r := r - 1;
    }
  }

  /** Lines 83-111, "collapse the walls": scan from both ends towards the
      pivot `a0[mid0]`, swapping pairs on the wrong side.  The pivot's own
      position is followed as it is swapped, and the scans need no bounds
      because an element on the far side always stops them. */
  method CollapseWalls<T(!new)>(a0: seq<T>, lo: nat, hi: nat, mid0: nat, cmp: (T, T) -> int, ghost rank: T -> int)
    returns (a: seq<T>, left: nat, right: nat)
    requires RankedBy(cmp, rank) && lo < mid0 < hi < |a0|
    requires rank(a0[lo]) <= rank(a0[mid0]) <= rank(a0[hi])
    ensures Rearranged(a, a0, lo, hi)
    ensures lo <= right < left <= hi && lo < left && right < hi
    ensures forall i | lo <= i <= right :: rank(a[i]) <= rank(a0[mid0])
    ensures forall j | right < j <= hi :: rank(a0[mid0]) <= rank(a[j])
  {
    a, left, right := a0, lo + 1, hi - 1;
    var mid := mid0;
    ghost var p := a0[mid0];
    ghost var stopL, stopR := mid0, mid0;
    var go := true;
    while go
      invariant Rearranged(a, a0, lo, hi)
      invariant lo <= mid <= hi && a[mid] == p
      invariant lo < left <= hi + 1 && lo <= right + 1 && right < hi
      invariant go ==> left <= right + 1 && left <= stopL <= hi && rank(p) <= rank(a[stopL])
      invariant go ==> lo <= stopR <= right && rank(a[stopR]) <= rank(p)
      invariant forall i | lo <= i < left :: rank(a[i]) <= rank(p)
      invariant forall j | right < j <= hi :: rank(p) <= rank(a[j])
      invariant !go ==> lo <= right < left <= hi
      decreases if go then right - left + 2 else 0
    {
      left := ScanUp(a, lo, left, mid, cmp, rank, stopL);
      right := ScanDown(a, hi, right, mid, cmp, rank, stopR);
      if left < right {
        SwapRearranges(a, a0, lo, hi, left, right);
        a := Swap(a, left, right);
        if mid == left {
          mid := right;
        } else if mid == right {
          mid := left;
        }
        stopL, stopR := right, left;
        left, right := left + 1, right - 1;
        go := left <= right;
      } else if left == right {
        left, right := left + 1, right - 1;
        go := false;
      } else {
        go := false;
      }
    }
  }

  /** One partitioning step on `[lo, hi]`: afterwards nothing in
      `[lo, right]` ranks above anything in `(right, hi]`, and the two
      pieces left to sort, `[lo, right]` and `[left, hi]`, are both shorter
      than the segment. */
  method PartitionSegment<T(!new)>(a0: seq<T>, lo: nat, hi: nat, cmp: (T, T) -> int, ghost rank: T -> int)
    returns (a: seq<T>, left: nat, right: nat)
    requires RankedBy(cmp, rank) && lo + 2 <= hi < |a0|
    ensures Rearranged(a, a0, lo, hi)
    ensures lo <= right < left <= hi && lo < left && right < hi
    ensures Split(a, rank, lo, right, hi)
  {
    var a1, mid := MedianOfThree(a0, lo, hi, cmp, rank);
    a, left, right := CollapseWalls(a1, lo, hi, mid, cmp, rank);
    RearrangedTrans(a, a1, a0, lo, hi);
  }

  // ---------------------------------------------------------------- the stack

  /** A stack node: the first and last index of a segment still to sort. */
  datatype Segment = Segment(lo: nat, hi: nat)

  function Size(s: Segment): int
  {
    s.hi - s.lo + 1
  }

  /** The number of elements the segments on the stack still cover. */
  function Total(stack: seq<Segment>): int
  {
    if |stack| == 0 then 0 else Total(stack[..|stack| - 1]) + Size(stack[|stack| - 1])
  }

  lemma TotalPush(stack: seq<Segment>, s: Segment)
    ensures Total(stack + [s]) == Total(stack) + Size(s)
  {
    assert (stack + [s])[..|stack|] == stack;
  }

  /** A segment worth pushing: more than `MAX_THRESH + 1` elements. */
  predicate Wide(s: Segment, n: nat)
  {
    s.lo + MAX_THRESH < s.hi < n
  }

  lemma Pow2Values()
    ensures 4 * Pow2(62) == TWO_64
  {
    assert Pow2(2) == 4;
    assert Pow2(8) == 256 by {
      assert Pow2(4) == 16;
      assert Pow2(8) == 2 * 2 * 2 * 2 * Pow2(4);
    }
    Pow2Add(8, 8);
    assert Pow2(16) == 0x1_0000;
    Pow2Add(16, 16);
    assert Pow2(32) == TWO_32;
    Pow2Add(32, 32);
    assert Pow2(64) == TWO_64;
    Pow2Add(62, 2);
  }

  lemma {:induction false} Pow2Add(x: nat, y: nat)
    ensures Pow2(x + y) == Pow2(x) * Pow2(y)
  {
    if x > 0 {
      Pow2Add(x - 1, y);
      assert Pow2(x + y) == 2 * Pow2(x - 1 + y);
    }
  }

  lemma {:induction false} Pow2Monotone(x: nat, y: nat)
    requires x <= y
    ensures Pow2(x) <= Pow2(y)
  {
    if x < y {
      Pow2Monotone(x, y - 1);
    }
  }

  /** A segment of at least `MAX_THRESH` elements, halved `d` times within
      fewer than 2^64 elements, leaves room for `d` nodes and the sentinel. */
  lemma StackFits(s: nat, d: nat, n: nat)
    requires s >= MAX_THRESH && s * Pow2(d) <= n < TWO_64
    ensures d < 62
  {
    if d >= 62 {
      Pow2Monotone(62, d);
      Pow2Values();
      MulMono(4, s, Pow2(d));
      assert false;
    }
  }

  /** Pushing the larger piece and keeping the smaller one at most halves
      the segment in hand for each node on the stack. */
  lemma PushHalves(s: int, big: int, small: int, d: nat, n: nat)
    requires 1 <= small <= big && small + big <= s && s * Pow2(d) <= n
    ensures big * Pow2(d) <= n && small * Pow2(d + 1) <= n
  {
    MulMono(big, s, Pow2(d));
    MulMono(2 * small, s, Pow2(d));
    assert small * Pow2(d + 1) == 2 * small * Pow2(d);
  }

  lemma Shrinks(s: int, s': int, d: nat, n: nat)
    requires 1 <= s' <= s && s * Pow2(d) <= n
    ensures s' * Pow2(d) <= n
  {
    MulMono(s', s, Pow2(d));
  }

  /** The state of the loop of lines 64-140: the segment in hand and the
      segments pushed; `active` turns false when the sentinel node that
      line 63 pushed is popped. */
  datatype Phase = Phase(lo: nat, hi: nat, stack: seq<Segment>, active: bool)

  /** `POP(lo, hi)`. */
  function Pop(stack: seq<Segment>): Phase
  {
    if |stack| == 0 then Phase(0, 0, [], false)
    else Phase(stack[|stack| - 1].lo, stack[|stack| - 1].hi, stack[..|stack| - 1], true)
  }

  /** Lines 116-139: after `[lo, hi]` is split into `[lo, right]` and
      `[left, hi]`, drop the pieces of at most `MAX_THRESH + 1` elements,
      push the larger piece when both are long and keep the smaller. */
  function Next(st: Phase, left: nat, right: nat): Phase
  {
    if right - st.lo <= MAX_THRESH then
      if st.hi - left <= MAX_THRESH then Pop(st.stack) else st.(lo := left)
    else if st.hi - left <= MAX_THRESH then st.(hi := right)
    else if right - st.lo > st.hi - left then Phase(left, st.hi, st.stack + [Segment(st.lo, right)], true)
    else Phase(st.lo, right, st.stack + [Segment(left, st.hi)], true)
  }

  /** Segments are well formed, and the stack is empty once done. */
  ghost predicate Shape(st: Phase, n: nat)
  {
    && (st.active ==> st.lo + MAX_THRESH <= st.hi < n)
    && (forall k | 0 <= k < |st.stack| :: Wide(st.stack[k], n))
    && (!st.active ==> |st.stack| == 0)
  }

  /** The `k`-th node covers at most `n / 2^k` elements, and the segment in
      hand at most `n / 2^depth`. */
  ghost predicate Depth(st: Phase, n: nat)
  {
    && (forall k | 0 <= k < |st.stack| :: Size(st.stack[k]) * Pow2(k) <= n)
    && (st.active ==> (st.hi - st.lo + 1) * Pow2(|st.stack|) <= n)
  }

  /** Where the segment starting at index 0 is: in hand (`home == -1`),
      at stack node `home`, or finished, and then it is the first `b + 1`
      elements with `b <= MAX_THRESH`.  Every other segment lies after `b`. */
  ghost predicate Frontier(st: Phase, b: nat, home: int)
  {
    && (st.active ==> (home == -1 && st.lo == 0 && st.hi == b) || b < st.lo)
    && -1 <= home < |st.stack|
    && (0 <= home ==> st.stack[home] == Segment(0, b))
    && (forall k | 0 <= k < |st.stack| :: k == home || b < st.stack[k].lo)
    && (home == -1 && !(st.active && st.lo == 0) ==> b <= MAX_THRESH)
  }

  /** Twice the elements still to partition, less the nodes on the stack. */
  function Measure(st: Phase): int
  {
    if st.active then 2 * (Total(st.stack) + st.hi - st.lo + 1) - |st.stack| else 0
  }

  /** The cut after splitting: it moves to `right` when the segment in
      hand was the one at index 0. */
  function NextCut(st: Phase, b: nat, right: nat): nat
  {
    if st.lo == 0 then right else b
  }

  ghost function NextHome(st: Phase, home: int, left: nat, right: nat): int
  {
    if right - st.lo <= MAX_THRESH && st.hi - left <= MAX_THRESH then
      (if home == |st.stack| - 1 then -1 else home)
    else if right - st.lo > MAX_THRESH && st.hi - left > MAX_THRESH && right - st.lo > st.hi - left && st.lo == 0 then
      |st.stack|
    else home
  }

  /** The conditions a split leaves the segment in hand in. */
  predicate Splits(st: Phase, left: nat, right: nat)
  {
    st.active && st.lo <= right < left <= st.hi && st.lo < left && right < st.hi
  }

  /** Every node covers at least one element. */
  lemma {:induction false} TotalAtLeast(stack: seq<Segment>, n: nat)
    requires forall k | 0 <= k < |stack| :: Wide(stack[k], n)
    ensures Total(stack) >= |stack|
  {
    if |stack| > 0 {
      TotalAtLeast(stack[..|stack| - 1], n);
    }
  }

  lemma NextShape(st: Phase, n: nat, left: nat, right: nat)
    requires Shape(st, n) && Splits(st, left, right)
    ensures Shape(Next(st, left, right), n)
    ensures 0 <= Measure(Next(st, left, right)) < Measure(st)
  {
    TotalAtLeast(st.stack, n);
    if right - st.lo <= MAX_THRESH && st.hi - left <= MAX_THRESH {
      PopShape(st.stack, n);
    } else if right - st.lo > MAX_THRESH && st.hi - left > MAX_THRESH {
      if right - st.lo > st.hi - left {
        PushShape(st.stack, Segment(st.lo, right), n);
      } else {
        PushShape(st.stack, Segment(left, st.hi), n);
      }
    }
  }

  /** Resuming the segment on top of the stack. */
  lemma PopShape(stack: seq<Segment>, n: nat)
    requires forall k | 0 <= k < |stack| :: Wide(stack[k], n)
    ensures Shape(Pop(stack), n)
    ensures 0 <= Measure(Pop(stack)) <= 2 * Total(stack) - |stack| + 1
  {
    if |stack| > 0 {
      TotalAtLeast(stack[..|stack| - 1], n);
    }
  }

  /** Pushing a wide segment. */
  lemma PushShape(stack: seq<Segment>, s: Segment, n: nat)
    requires forall k | 0 <= k < |stack| :: Wide(stack[k], n)
    requires Wide(s, n)
    ensures forall k | 0 <= k < |stack + [s]| :: Wide((stack + [s])[k], n)
    ensures Total(stack + [s]) == Total(stack) + Size(s)
  {
    TotalPush(stack, s);
  }

  /** Pushing a node that covers at most `n / 2^depth` elements keeps the
      bound on every node. */
  lemma DepthPush(stack: seq<Segment>, s: Segment, n: nat)
    requires forall k | 0 <= k < |stack| :: Size(stack[k]) * Pow2(k) <= n
    requires Size(s) * Pow2(|stack|) <= n
    ensures forall k | 0 <= k < |stack| + 1 :: Size((stack + [s])[k]) * Pow2(k) <= n
  {
  }

  lemma DepthPop(stack: seq<Segment>, n: nat)
    requires forall k | 0 <= k < |stack| :: Size(stack[k]) * Pow2(k) <= n
    ensures Depth(Pop(stack), n)
  {
  }

  /** Keeping a shorter part of the segment in hand. */
  lemma DepthKeep(stack: seq<Segment>, keep: Segment, s: int, n: nat)
    requires forall k | 0 <= k < |stack| :: Size(stack[k]) * Pow2(k) <= n
    requires 1 <= Size(keep) <= s && s * Pow2(|stack|) <= n
    ensures Depth(Phase(keep.lo, keep.hi, stack, true), n)
  {
    Shrinks(s, Size(keep), |stack|, n);
  }

  /** Pushing the larger piece and keeping the smaller. */
  lemma DepthSplit(stack: seq<Segment>, pushed: Segment, keep: Segment, s: int, n: nat)
    requires forall k | 0 <= k < |stack| :: Size(stack[k]) * Pow2(k) <= n
    requires 1 <= Size(keep) <= Size(pushed) && Size(keep) + Size(pushed) <= s && s * Pow2(|stack|) <= n
    ensures Depth(Phase(keep.lo, keep.hi, stack + [pushed], true), n)
  {
    PushHalves(s, Size(pushed), Size(keep), |stack|, n);
    DepthPush(stack, pushed, n);
  }

  lemma NextDepth(st: Phase, n: nat, left: nat, right: nat)
    requires Shape(st, n) && Depth(st, n) && Splits(st, left, right)
    ensures Depth(Next(st, left, right), n)
  {
    var s := st.hi - st.lo + 1;
    if right - st.lo <= MAX_THRESH {
      if st.hi - left <= MAX_THRESH {
        DepthPop(st.stack, n);
      } else {
        DepthKeep(st.stack, Segment(left, st.hi), s, n);
      }
    } else if st.hi - left <= MAX_THRESH {
      DepthKeep(st.stack, Segment(st.lo, right), s, n);
    } else if right - st.lo > st.hi - left {
      DepthSplit(st.stack, Segment(st.lo, right), Segment(left, st.hi), s, n);
    } else {
      DepthSplit(st.stack, Segment(left, st.hi), Segment(st.lo, right), s, n);
    }
  }

  lemma NextFrontier(st: Phase, n: nat, b: nat, home: int, left: nat, right: nat)
    requires Shape(st, n) && Frontier(st, b, home) && Splits(st, left, right)
    requires st.lo == 0 ==> right < b
    ensures Frontier(Next(st, left, right), NextCut(st, b, right), NextHome(st, home, left, right))
  {
  }

  /** A stack whose nodes halve a segment of fewer than 2^64 elements has
      fewer than 62 nodes. */
  lemma PhaseStackFits(st: Phase, n: nat)
    requires Shape(st, n) && Depth(st, n) && n < TWO_64
    ensures |st.stack| < 62
  {
    if st.active {
      StackFits(st.hi - st.lo + 1, |st.stack|, n);
    }
  }

  /** Lines 57-141: partition segments longer than `MAX_THRESH + 1`
      elements, pushing the larger piece of each split and carrying on with
      the smaller, until the stack is empty.  What is left is not sorted,
      but nothing up to some `b <= MAX_THRESH` ranks above anything after
      `b`, so the smallest element is among the first `MAX_THRESH + 1`; and
      the stack never holds more than `STACK_SIZE` nodes. */
  method PartitionPhase<T(!new)>(a0: seq<T>, cmp: (T, T) -> int, ghost rank: T -> int)
    returns (a: seq<T>, peak: nat, ghost b: nat)
    requires RankedBy(cmp, rank) && MAX_THRESH < |a0| < TWO_64
    ensures |a| == |a0| && multiset(a) == multiset(a0)
    ensures b <= MAX_THRESH && b < |a| && Cut(a, rank, b)
    ensures 1 <= peak <= STACK_SIZE
  {
    var n := |a0|;
    a := a0;
    var st := Phase(0, n - 1, [], true);
    peak := 1;
    b := n - 1;
    ghost var home: int := -1;
    while st.active
      invariant |a| == n && multiset(a) == multiset(a0)
      invariant b < n && Cut(a, rank, b)
      invariant Shape(st, n) && Depth(st, n) && Frontier(st, b, home)
      invariant |st.stack| + 1 <= peak <= STACK_SIZE
      decreases Measure(st)
    {
      ghost var a1 := a;
      var left, right;
      a, left, right := PartitionSegment(a, st.lo, st.hi, cmp, rank);
      RearrangedWhole(a, a1, st.lo, st.hi);
      if st.lo == 0 {
        CutRefined(a, a1, rank, b, right);
      } else {
        CutKept(a, a1, rank, st.lo, st.hi, b);
      }
      NextShape(st, n, left, right);
      NextDepth(st, n, left, right);
      NextFrontier(st, n, b, home, left, right);
      b, home := NextCut(st, b, right), NextHome(st, home, left, right);
      st := Next(st, left, right);
      PhaseStackFits(st, n);
      peak := SharedLib.Max(peak, |st.stack| + 1);
    }
  }

  // ---------------------------------------------------------------- insertion

  /** Lines 149-160: move the smallest of the first `MAX_THRESH + 1`
      elements to the front.  Because nothing there up to `b` ranks above
      anything after `b`, it is the smallest element of all. */
  method SmallestToFront<T(!new)>(a0: seq<T>, cmp: (T, T) -> int, ghost rank: T -> int, ghost b: nat)
    returns (a: seq<T>)
    requires RankedBy(cmp, rank) && 0 < |a0| && b <= MAX_THRESH && b < |a0| && Cut(a0, rank, b)
    ensures |a| == |a0| && multiset(a) == multiset(a0)
    ensures LeastFirst(a, rank)
  {
    a := a0;
    var end := |a| - 1;
    var thresh := SharedLib.Min(end, MAX_THRESH);
    var tmp := 0;
    var run := 1;
    while run <= thresh
      invariant 1 <= run <= thresh + 1 && tmp < run
      invariant forall k | 0 <= k < run :: rank(a[tmp]) <= rank(a[k])
    {
      if cmp(a[run], a[tmp]) < 0 {
        tmp := run;
      }
      run := run + 1;
    }
    assert forall k | 0 <= k < |a| :: rank(a[tmp]) <= rank(a[k]) by {
      forall k | 0 <= k < |a|
        ensures rank(a[tmp]) <= rank(a[k])
      {
        if k > thresh {
          assert rank(a[0]) <= rank(a[k]);
        }
      }
    }
    if tmp != 0 {
      SwapRearranges(a, a0, 0, end, tmp, 0);
      a := Swap(a, tmp, 0);
      RearrangedWhole(a, a0, 0, end);
    }
  }

  /** Lines 169-181: the element at `run` moves back to `t` and those from
      `t` on move up by one, copied one at a time from the top. */
  method ShiftIn<T>(a0: seq<T>, t: nat, run: nat) returns (a: seq<T>)
    requires t < run < |a0|
    ensures a == a0[..t] + [a0[run]] + a0[t..run] + a0[run + 1..]
  {
    a := a0;
    var c := a[run];
    var hi := run;
    while hi > t
      invariant t <= hi <= run && |a| == |a0|
      invariant forall k | 0 <= k < |a| && (k <= hi || run < k) :: a[k] == a0[k]
      invariant forall k | hi < k <= run :: a[k] == a0[k - 1]
    {
      a := a[hi := a[hi - 1]];
      hi := hi - 1;
    }
    a := a[hi := c];
    var r := a0[..t] + [a0[run]] + a0[t..run] + a0[run + 1..];
    assert |a| == |r|;
    forall k | 0 <= k < |a|
      ensures a[k] == r[k]
    {
      if k < t {
        assert r[k] == a0[..t][k];
      } else if k == t {
        assert r[k] == a0[run];
      } else if k <= run {
        assert r[k] == a0[t..run][k - t - 1];
      } else {
        assert r[k] == a0[run + 1..][k - run - 1];
      }
    }
  }

  lemma ShiftInReorders<T>(a0: seq<T>, t: nat, run: nat)
    requires t < run < |a0|
    ensures multiset(a0[..t] + [a0[run]] + a0[t..run] + a0[run + 1..]) == multiset(a0)
  {
    assert a0 == a0[..t] + a0[t..run] + [a0[run]] + a0[run + 1..];
  }

  /** Placing the element at `run` after the last element of the sorted
      prefix that does not rank above it extends the sorted prefix. */
  lemma InsertSorted<T>(a: seq<T>, rank: T -> int, t: nat, run: nat)
    requires 0 < t < run < |a| && SortedPrefix(a, rank, run)
    requires rank(a[t - 1]) <= rank(a[run])
    requires forall k | t <= k < run :: rank(a[run]) < rank(a[k])
    ensures SortedPrefix(a[..t] + [a[run]] + a[t..run] + a[run + 1..], rank, run + 1)
    ensures (a[..t] + [a[run]] + a[t..run] + a[run + 1..])[0] == a[0]
  {
    var r := a[..t] + [a[run]] + a[t..run] + a[run + 1..];
    assert forall k | 0 <= k < t :: r[k] == a[k];
    assert r[t] == a[run];
    assert forall k | t < k <= run :: r[k] == a[k - 1];
    forall i, j | 0 <= i < j < run + 1 && j < |r|
      ensures rank(r[i]) <= rank(r[j])
    {
      if i < t && j == t {
        assert rank(a[i]) <= rank(a[t - 1]);
      }
    }
  }

  /** Lines 165-168: scan back from `run` past the elements ranking above
      it; the least element at the front always stops the scan.  The result
      is the position `run`'s element belongs at. */
  method ScanBack<T(!new)>(a: seq<T>, run: nat, cmp: (T, T) -> int, ghost rank: T -> int) returns (t: nat)
    requires RankedBy(cmp, rank) && LeastFirst(a, rank) && 0 < run < |a|
    ensures 0 < t <= run && rank(a[t - 1]) <= rank(a[run])
    ensures forall k | t <= k < run :: rank(a[run]) < rank(a[k])
  {
    var tmp := run - 1;
    while cmp(a[run], a[tmp]) < 0
      invariant 0 <= tmp < run
      invariant forall k | tmp < k < run :: rank(a[run]) < rank(a[k])
      decreases tmp
    {
      tmp := tmp - 1;
    }
    t := tmp + 1;
  }

  /** Lines 163-181, one round: insert the element at `run` into the
      sorted prefix before it. */
  method InsertOne<T(!new)>(a0: seq<T>, run: nat, cmp: (T, T) -> int, ghost rank: T -> int) returns (a: seq<T>)
    requires RankedBy(cmp, rank) && LeastFirst(a0, rank) && 0 < run < |a0| && SortedPrefix(a0, rank, run)
    ensures |a| == |a0| && multiset(a) == multiset(a0)
    ensures LeastFirst(a, rank) && SortedPrefix(a, rank, run + 1)
  {
    var t := ScanBack(a0, run, cmp, rank);
    if t != run {
      InsertSorted(a0, rank, t, run);
      ShiftInReorders(a0, t, run);
      a := ShiftIn(a0, t, run);
      LeastStaysFirst(a0, a, rank);
    } else {
      a := a0;
      SortedExtends(a, rank, run);
    }
  }

  /** A rearrangement that keeps the first element keeps it least. */
  lemma LeastStaysFirst<T>(a0: seq<T>, a: seq<T>, rank: T -> int)
    requires LeastFirst(a0, rank) && |a| == |a0| && multiset(a) == multiset(a0) && a[0] == a0[0]
    ensures LeastFirst(a, rank)
  {
    forall k | 0 <= k < |a|
      ensures rank(a[0]) <= rank(a[k])
    {
      assert a[k] in multiset(a0);
    }
  }

  /** An element ranking at least the last of a sorted prefix extends it. */
  lemma SortedExtends<T>(a: seq<T>, rank: T -> int, run: nat)
    requires 0 < run < |a| && SortedPrefix(a, rank, run) && rank(a[run - 1]) <= rank(a[run])
    ensures SortedPrefix(a, rank, run + 1)
  {
    forall i | 0 <= i < run
      ensures rank(a[i]) <= rank(a[run])
    {
      if i < run - 1 {
        assert rank(a[i]) <= rank(a[run - 1]);
      }
    }
  }

  /** Lines 161-182: insertion sort from the third element on, the first
      two being in order already since the least element leads. */
  method InsertionPass<T(!new)>(a0: seq<T>, cmp: (T, T) -> int, ghost rank: T -> int) returns (a: seq<T>)
    requires RankedBy(cmp, rank) && LeastFirst(a0, rank)
    ensures |a| == |a0| && multiset(a) == multiset(a0)
    ensures SortedBy(a, rank)
  {
    a := a0;
    var n := |a|;
    var run := 2;
    while run <= n - 1
      invariant |a| == n && multiset(a) == multiset(a0)
      invariant LeastFirst(a, rank)
      invariant 2 <= run
      invariant SortedPrefix(a, rank, run)
      decreases n - run
    {
      a := InsertOne(a, run, cmp, rank);
      run := run + 1;
    }
  }

  /** `_quicksort`: sorts by `cmp` and only reorders.  Nothing is
      partitioned, and no stack is used, for `MAX_THRESH` elements or
      fewer; an empty array is left as it is. */
  method Quicksort<T(!new)>(a0: seq<T>, cmp: (T, T) -> int, ghost rank: T -> int) returns (a: seq<T>, peak: nat)
    requires RankedBy(cmp, rank) && |a0| < TWO_64
    ensures |a| == |a0| && multiset(a) == multiset(a0)
    ensures forall i, j | 0 <= i < j < |a| :: cmp(a[i], a[j]) <= 0
    ensures peak <= STACK_SIZE
    ensures peak == 0 <==> |a0| <= MAX_THRESH
  {
    if |a0| == 0 {
      return a0, 0;
    }
    ghost var b: nat := |a0| - 1;
    if |a0| > MAX_THRESH {
      a, peak, b := PartitionPhase(a0, cmp, rank);
    } else {
      a, peak := a0, 0;
    }
    a := SmallestToFront(a, cmp, rank, b);
    a := InsertionPass(a, cmp, rank);
  }

  // ---------------------------------------------------------------- records

  type I64 = x: int | -0x8000_0000_0000_0000 <= x < 0x8000_0000_0000_0000

  /** `ptr_with_size`: an allocation and the size asked for it. */
  datatype PtrWithSize = PtrWithSize(ptr: U64, size: I64)

  /** `(int)x` for a `long`: the low 32 bits as two's complement. */
  function LongToInt(x: I64): (r: I32)
    ensures -0x8000_0000 <= x < 0x8000_0000 ==> r == x
  {
    LowWord(x);
    ToI32(x % TWO_64)
  }

  /** A `long` that fits an `int` keeps its value in the low 32 bits. */
  lemma LowWord(x: I64)
    ensures 0 <= x ==> x % TWO_64 == x
    ensures -0x8000_0000 <= x < 0 ==> x % TWO_64 == x + TWO_64 && (x + TWO_64) % TWO_32 == x + TWO_32
  {
    if -0x8000_0000 <= x < 0 {
      assert x + TWO_64 == (TWO_32 - 1) * TWO_32 + (x + TWO_32);
    }
  }

  /** `ptr_comparator` as written: `(int)b->size - (int)a->size`; `None`
      where the subtraction overflows `int`, which C leaves undefined. For
      sizes below 2^30, such as those the test allocates, it is defined and
      puts larger sizes first, equal sizes tied. */
  function PtrComparatorAsWritten(a: PtrWithSize, b: PtrWithSize): (r: Option<I32>)
    ensures 0 <= a.size < 0x4000_0000 && 0 <= b.size < 0x4000_0000 ==>
      r.Some? && (r.value < 0 <==> a.size > b.size) && (r.value > 0 <==> a.size < b.size)
  {
    var d := LongToInt(b.size) - LongToInt(a.size);
    if -0x8000_0000 <= d < 0x8000_0000 then Some(d) else None
  }

  /** The comparison `ptr_comparator` is meant to make: larger sizes
      first, equal sizes tied. */
  function PtrComparator(a: PtrWithSize, b: PtrWithSize): (r: int)
    ensures r < 0 <==> a.size > b.size
    ensures r > 0 <==> a.size < b.size
  {
    if a.size > b.size then -1 else if a.size < b.size then 1 else 0
  }

  function NegatedSize(e: PtrWithSize): int
  {
    -(e.size as int)
  }

  /** The intended comparator orders records by falling size. */
  lemma PtrComparatorRanked()
    ensures RankedBy(PtrComparator, NegatedSize)
  {
  }

  /** A 2 GiB record against an empty one: the cast to `int` makes the
      larger size look negative, so the comparator as written puts the
      smaller record first. */
  lemma PtrComparatorTruncates()
    ensures var a, b := PtrWithSize(0, 0), PtrWithSize(0, 0x8000_0000);
      && PtrComparatorAsWritten(a, b) == Some(-0x8000_0000)
      && PtrComparator(a, b) > 0
  {
    assert LongToInt(0x8000_0000) == -0x8000_0000;
  }

  /** A record the test makes: `ALLOC` gives sizes of at most 1999 * 4
      bytes, far below 2^30. */
  type TestRecord = e: PtrWithSize | 0 <= e.size < 0x4000_0000 witness PtrWithSize(0, 0)

  /** `ptr_comparator` as written, on the test's records, where the
      subtraction never overflows: larger sizes first. */
  function TestComparator(a: TestRecord, b: TestRecord): (r: int)
    ensures PtrComparatorAsWritten(a, b) == Some(r)
    ensures r < 0 <==> a.size > b.size
    ensures r > 0 <==> a.size < b.size
  {
    PtrComparatorAsWritten(a, b).value
  }

  function TestRank(e: TestRecord): int
  {
    -(e.size as int)
  }

  /** On the test's records the comparator as written orders by falling
      size. */
  lemma TestComparatorRanked()
    ensures RankedBy(TestComparator, TestRank)
  {
  }

  /** Line 239: the test's sort of its records with `ptr_comparator` as
      written; on those records it leaves them largest first. */
  method SortBySize(ptrs: seq<TestRecord>) returns (r: seq<TestRecord>)
    requires |ptrs| < TWO_64
    ensures |r| == |ptrs| && multiset(r) == multiset(ptrs)
    ensures forall i, j | 0 <= i < j < |r| :: r[i].size >= r[j].size
  {
    TestComparatorRanked();
    var peak;
    r, peak := Quicksort(ptrs, TestComparator, TestRank);
  }

  /** The same sort with the intended comparator, which orders any records
      largest first. */
  method SortBySizeIntended(ptrs: seq<PtrWithSize>) returns (r: seq<PtrWithSize>)
    requires |ptrs| < TWO_64
    ensures |r| == |ptrs| && multiset(r) == multiset(ptrs)
    ensures forall i, j | 0 <= i < j < |r| :: r[i].size >= r[j].size
  {
    PtrComparatorRanked();
    var peak;
    r, peak := Quicksort(ptrs, PtrComparator, NegatedSize);
  }

  // ---------------------------------------------------------------- lookup

  /** The index of the first of the first `len` records holding `ptr`. */
  function FirstHolding(ptrs: seq<PtrWithSize>, ptr: U64, len: nat): (r: Option<nat>)
    requires len <= |ptrs|
    ensures r.Some? ==> r.value < len && ptrs[r.value].ptr == ptr
    ensures r.Some? ==> forall k | 0 <= k < r.value :: ptrs[k].ptr != ptr
    ensures r.None? <==> forall k | 0 <= k < len :: ptrs[k].ptr != ptr
  {
    if len == 0 then None
    else match FirstHolding(ptrs, ptr, len - 1)
      case Some(i) => Some(i)
      case None => if ptrs[len - 1].ptr == ptr then Some(len - 1) else None
  }

  /** `exists_in_between`: 1 when the first record holding `ptr` has a size
      of at most `size`, 0 when it is larger or no record holds `ptr`. */
  method ExistsInBetween(ptrs: seq<PtrWithSize>, ptr: U64, size: I64, len: I32) returns (r: I32)
    requires len <= |ptrs|
    ensures r == 0 || r == 1
    ensures r == 1 <==> (0 < len && FirstHolding(ptrs, ptr, len).Some?
                         && ptrs[FirstHolding(ptrs, ptr, len).value].size <= size)
  {
    var i := 0;
    while i < len
      invariant 0 <= i <= |ptrs| && (i == 0 || i <= len)
      invariant FirstHolding(ptrs, ptr, i).None?
    {
      if ptrs[i].ptr == ptr {
        if ptrs[i].size <= size {
          return 1;
        }
        // The second test of the source always holds here.
        assert ptrs[i].size != size;
        return 0;
      }
      i := i + 1;
    }
    return 0;
  }
}
