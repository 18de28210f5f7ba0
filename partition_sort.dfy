/** The in-place three-way quicksort of the sorting view: a partition step
    counts the elements below and equal to a middle pivot, moves every
    pivot-valued element into a reserved block, sweeps the two remaining
    sides with two pointers, and recurses on the strictly smaller sides. */
module PartitionSort {

  /** Where a value lies relative to the pivot. */
  datatype Side = Below | At | Above

  function SideOf(x: int, pivot: int): Side {
    if x < pivot then Below else if x == pivot then At else Above
  }

  /** Number of elements of `s` lying on `side` of `pivot`. */
  function Count(s: seq<int>, pivot: int, side: Side): (n: nat)
    ensures n <= |s|
  {
    if s == [] then 0
    else Count(s[..|s| - 1], pivot, side) + (if SideOf(s[|s| - 1], pivot) == side then 1 else 0)
  }

  ghost predicate SortedBetween(s: seq<int>, lo: int, hi: int) {
    forall i, j :: lo <= i < j < hi && 0 <= i && j < |s| ==> s[i] <= s[j]
  }

  ghost predicate Sorted(s: seq<int>) {
    SortedBetween(s, 0, |s|)
  }

  /** After a partition step: `[start, lo)` below the pivot, `[lo, hi)` equal
      to it, `[hi, end)` above it. */
  ghost predicate Partitioned(s: seq<int>, start: int, lo: int, hi: int, end: int, pivot: int) {
    && 0 <= start <= lo <= hi <= end <= |s|
    && (forall k :: start <= k < lo ==> s[k] < pivot)
    && (forall k :: lo <= k < hi ==> s[k] == pivot)
    && (forall k :: hi <= k < end ==> s[k] > pivot)
  }

  /** `s` is `t` with only the elements of `[lo, hi)` rearranged. */
  ghost predicate PermutedWithin(s: seq<int>, t: seq<int>, lo: int, hi: int) {
    && |s| == |t|
    && 0 <= lo <= hi <= |s|
    && multiset(s[lo..hi]) == multiset(t[lo..hi])
    && forall k :: 0 <= k < |s| && !(lo <= k < hi) ==> s[k] == t[k]
  }

  // ---------------------------------------------------------------------------
  // Counting lemmas

  lemma {:induction false} CountAppend(s: seq<int>, t: seq<int>, pivot: int, side: Side)
    ensures Count(s + t, pivot, side) == Count(s, pivot, side) + Count(t, pivot, side)
    decreases |t|
  {
    if t == [] {
      assert s + t == s;
    } else {
      assert (s + t)[..|s + t| - 1] == s + t[..|t| - 1];
      CountAppend(s, t[..|t| - 1], pivot, side);
    }
  }

  /** Counting from the front: the first element plus the rest. */
  lemma CountFront(s: seq<int>, pivot: int, side: Side)
    requires |s| > 0
    ensures Count(s, pivot, side) == (if SideOf(s[0], pivot) == side then 1 else 0) + Count(s[1..], pivot, side)
  {
    assert s == [s[0]] + s[1..];
    CountAppend([s[0]], s[1..], pivot, side);
  }

  /** Counting a range in three consecutive pieces. */
  lemma CountSplit3(s: seq<int>, a: int, b: int, c: int, d: int, pivot: int, side: Side)
    requires 0 <= a <= b <= c <= d <= |s|
    ensures Count(s[a..d], pivot, side)
         == Count(s[a..b], pivot, side) + Count(s[b..c], pivot, side) + Count(s[c..d], pivot, side)
  {
    assert s[a..d] == s[a..b] + s[b..c] + s[c..d];
    CountAppend(s[a..b] + s[b..c], s[c..d], pivot, side);
    CountAppend(s[a..b], s[b..c], pivot, side);
  }

  /** Every element lies on exactly one side. */
  lemma {:induction false} CountSides(s: seq<int>, pivot: int)
    ensures Count(s, pivot, Below) + Count(s, pivot, At) + Count(s, pivot, Above) == |s|
  {
    if s != [] {
      CountSides(s[..|s| - 1], pivot);
    }
  }

  /** No element on `side` if and only if the count is zero. */
  lemma {:induction false} CountZero(s: seq<int>, pivot: int, side: Side)
    ensures Count(s, pivot, side) == 0 <==> forall k :: 0 <= k < |s| ==> SideOf(s[k], pivot) != side
  {
    if s != [] {
      var init := s[..|s| - 1];
      CountZero(init, pivot, side);
      assert forall k :: 0 <= k < |init| ==> init[k] == s[k];
    }
  }

  /** An element on `side` makes the count positive. */
  lemma CountPositive(s: seq<int>, k: int, pivot: int, side: Side)
    requires 0 <= k < |s| && SideOf(s[k], pivot) == side
    ensures Count(s, pivot, side) >= 1
  {
    CountZero(s, pivot, side);
  }

  /** Every element on `side` if and only if the count is the length. */
  lemma {:induction false} CountFull(s: seq<int>, pivot: int, side: Side)
    ensures Count(s, pivot, side) == |s| <==> forall k :: 0 <= k < |s| ==> SideOf(s[k], pivot) == side
  {
    if s != [] {
      var init := s[..|s| - 1];
      CountFull(init, pivot, side);
      assert forall k :: 0 <= k < |init| ==> init[k] == s[k];
    }
  }

  /** Counting with one element taken out. */
  lemma CountRemove(t: seq<int>, k: int, pivot: int, side: Side)
    requires 0 <= k < |t|
    ensures Count(t, pivot, side)
         == Count(t[..k] + t[k + 1..], pivot, side) + (if SideOf(t[k], pivot) == side then 1 else 0)
  {
    assert t == t[..k] + [t[k]] + t[k + 1..];
    CountAppend(t[..k] + [t[k]], t[k + 1..], pivot, side);
    CountAppend(t[..k], [t[k]], pivot, side);
    CountAppend(t[..k], t[k + 1..], pivot, side);
    assert [t[k]][..0] == [];
  }

  lemma MultisetRemove(t: seq<int>, k: int)
    requires 0 <= k < |t|
    ensures multiset(t[..k] + t[k + 1..]) == multiset(t) - multiset{t[k]}
  {
    assert t == t[..k] + [t[k]] + t[k + 1..];
  }

  /** Removing the last element of `s` and an equal element of `t` keeps the
      two multisets equal. */
  lemma RemoveMatching(s: seq<int>, t: seq<int>) returns (k: int)
    requires multiset(s) == multiset(t) && |s| > 0
    ensures 0 <= k < |t| && t[k] == s[|s| - 1]
    ensures multiset(s[..|s| - 1]) == multiset(t[..k] + t[k + 1..])
  {
    var x := s[|s| - 1];
    assert s == s[..|s| - 1] + [x];
    assert x in multiset(t);
    k :| 0 <= k < |t| && t[k] == x;
    MultisetRemove(t, k);
  }

  /** Counts depend only on the multiset of elements. */
  lemma {:induction false} CountPerm(s: seq<int>, t: seq<int>, pivot: int, side: Side)
    requires multiset(s) == multiset(t)
    ensures Count(s, pivot, side) == Count(t, pivot, side)
    decreases |s|
  {
    if s == [] {
      assert |t| == |multiset(t)| == 0;
    } else {
      var k := RemoveMatching(s, t);
      CountPerm(s[..|s| - 1], t[..k] + t[k + 1..], pivot, side);
      CountRemove(t, k, pivot, side);
    }
  }

  /** A rearrangement keeps every element on the side all of them were on. */
  lemma SideKept(s: seq<int>, t: seq<int>, pivot: int, side: Side)
    requires multiset(s) == multiset(t)
    requires forall k :: 0 <= k < |t| ==> SideOf(t[k], pivot) == side
    ensures forall k :: 0 <= k < |s| ==> SideOf(s[k], pivot) == side
  {
    assert |s| == |multiset(s)| == |t|;
    CountFull(t, pivot, side);
    CountPerm(s, t, pivot, side);
    CountFull(s, pivot, side);
  }

  // ---------------------------------------------------------------------------
  // Rearrangements

  lemma PermutedWithinRefl(s: seq<int>, lo: int, hi: int)
    requires 0 <= lo <= hi <= |s|
    ensures PermutedWithin(s, s, lo, hi)
  {
  }

  lemma PermutedWithinTrans(s: seq<int>, t: seq<int>, u: seq<int>, lo: int, hi: int)
    requires PermutedWithin(s, t, lo, hi) && PermutedWithin(t, u, lo, hi)
    ensures PermutedWithin(s, u, lo, hi)
  {
  }

  /** A rearrangement of a sub-range is a rearrangement of any range around it. */
  lemma PermutedWithinWiden(s: seq<int>, t: seq<int>, lo: int, hi: int, lo': int, hi': int)
    requires PermutedWithin(s, t, lo', hi')
    requires 0 <= lo <= lo' && hi' <= hi <= |s|
    ensures PermutedWithin(s, t, lo, hi)
  {
    assert s[lo..hi] == s[lo..lo'] + s[lo'..hi'] + s[hi'..hi];
    assert t[lo..hi] == t[lo..lo'] + t[lo'..hi'] + t[hi'..hi];
    assert s[lo..lo'] == t[lo..lo'];
    assert s[hi'..hi] == t[hi'..hi];
  }

  /** Exchanging two positions of a range rearranges that range. */
  lemma SwapPermutes(s: seq<int>, lo: int, hi: int, i: int, j: int)
    requires 0 <= lo <= i < hi <= |s| && lo <= j < hi
    ensures PermutedWithin(s[i := s[j]][j := s[i]], s, lo, hi)
  {
    var r := s[i := s[j]][j := s[i]];
    assert r[lo..hi] == s[lo..hi][i - lo := s[j]][j - lo := s[i]];
  }

  // ---------------------------------------------------------------------------
  // The partition step, phase by phase

  /** Counts the elements of `numbers[start..end]` equal to and below the pivot. */
  method CountAroundPivot(numbers: array<int>, start: nat, end: nat, pivot: int)
    returns (pivotCount: nat, lessThanPivotCount: nat)
    requires start <= end <= numbers.Length
    ensures pivotCount == Count(numbers[start..end], pivot, At)
    ensures lessThanPivotCount == Count(numbers[start..end], pivot, Below)
  {
    pivotCount, lessThanPivotCount := 0, 0;
    for i := start to end
      invariant pivotCount == Count(numbers[start..i], pivot, At)
      invariant lessThanPivotCount == Count(numbers[start..i], pivot, Below)
    {
      assert numbers[start..i + 1][..i - start] == numbers[start..i];
      if numbers[i] == pivot {
        pivotCount := pivotCount + 1;
      } else if numbers[i] < pivot {
        lessThanPivotCount := lessThanPivotCount + 1;
      }
    }
  }

  /** Some slot of the not-yet-filled part of the pivot block does not hold
      the pivot while a pivot-valued element is still outside the block. */
  lemma NonPivotInBlock(s: seq<int>, start: int, end: int, lo: int, hi: int, placement: int, i: int, pivot: int)
    returns (w: int)
    requires 0 <= start <= lo <= placement <= hi <= end <= |s|
    requires Count(s[start..end], pivot, At) == hi - lo
    requires forall k :: lo <= k < placement ==> s[k] == pivot
    requires start <= i < end && !(lo <= i < hi) && s[i] == pivot
    ensures placement <= w < hi && s[w] != pivot
  {
    if forall k :: placement <= k < hi ==> s[k] == pivot {
      CountFull(s[lo..hi], pivot, At);
      CountSplit3(s, start, lo, hi, end, pivot, At);
      if i < lo {
        assert s[start..lo][i - start] == s[i];
        CountPositive(s[start..lo], i - start, pivot, At);
      } else {
        assert s[hi..end][i - hi] == s[i];
        CountPositive(s[hi..end], i - hi, pivot, At);
      }
      assert false;
    }
    w :| placement <= w < hi && s[w] != pivot;
  }

  /** Once no pivot-valued element is left outside the block, the block is
      full of them. */
  lemma BlockFilled(s: seq<int>, start: int, end: int, lo: int, hi: int, pivot: int)
    requires 0 <= start <= lo <= hi <= end <= |s|
    requires Count(s[start..end], pivot, At) == hi - lo
    requires forall k :: start <= k < end && !(lo <= k < hi) ==> s[k] != pivot
    ensures forall k :: lo <= k < hi ==> s[k] == pivot
  {
    CountSplit3(s, start, lo, hi, end, pivot, At);
    assert forall k :: 0 <= k < lo - start ==> s[start..lo][k] == s[start + k];
    assert forall k :: 0 <= k < end - hi ==> s[hi..end][k] == s[hi + k];
    CountZero(s[start..lo], pivot, At);
    CountZero(s[hi..end], pivot, At);
    CountFull(s[lo..hi], pivot, At);
    assert forall k :: lo <= k < hi ==> s[lo..hi][k - lo] == s[k];
  }

  /** One relocation: the pivot-valued element at `i`, outside the block, is
      exchanged with the first slot at or after `pivotPlacementIndex` that
      does not hold the pivot. That scan has no bounds test of its own; it
      never leaves the block. */
  method MovePivot(numbers: array<int>, start: nat, end: nat, lo: nat, hi: nat, pivotPlacementIndex: nat, i: nat, pivot: int)
    returns (pivotPlacement: nat)
    requires start <= lo <= pivotPlacementIndex <= hi <= end <= numbers.Length
    requires Count(numbers[start..end], pivot, At) == hi - lo
    requires forall k :: lo <= k < pivotPlacementIndex ==> numbers[k] == pivot
    requires start <= i < end && !(lo <= i < hi) && numbers[i] == pivot
    modifies numbers
    ensures pivotPlacementIndex <= pivotPlacement < hi
    ensures numbers[..] == old(numbers[..])[i := old(numbers[pivotPlacement])][pivotPlacement := pivot]
    ensures numbers[i] != pivot
    ensures forall k :: lo <= k <= pivotPlacement ==> numbers[k] == pivot
  {
    ghost var w := NonPivotInBlock(numbers[..], start, end, lo, hi, pivotPlacementIndex, i, pivot);
    pivotPlacement := pivotPlacementIndex;
    while numbers[pivotPlacement] == pivot
      invariant pivotPlacementIndex <= pivotPlacement <= w
      invariant forall k :: pivotPlacementIndex <= k < pivotPlacement ==> numbers[k] == pivot
      decreases w - pivotPlacement
    {
      pivotPlacement := pivotPlacement + 1;
    }
    numbers[i] := numbers[pivotPlacement];
    numbers[pivotPlacement] := pivot;
  }

  /** Within `[start, end)`, exactly the positions of `[lo, hi)` hold the pivot. */
  ghost predicate PivotBlock(s: seq<int>, start: int, end: int, lo: int, hi: int, pivot: int)
    requires 0 <= start <= end <= |s|
  {
    forall k :: start <= k < end ==> (s[k] == pivot <==> lo <= k < hi)
  }

  /** The state of the relocation loop before position `i`: `[lo, placed)`
      already holds the pivot, and no element before `i` outside the block
      does. */
  ghost predicate Placing(s: seq<int>, orig: seq<int>, start: int, end: int, lo: int, hi: int, placed: int, i: int, pivot: int) {
    && start <= lo <= placed <= hi <= end && start <= i <= end
    && PermutedWithin(s, orig, start, end)
    && Count(orig[start..end], pivot, At) == hi - lo
    && (forall k :: lo <= k < placed ==> s[k] == pivot)
    && (forall k :: start <= k < i && !(lo <= k < hi) ==> s[k] != pivot)
  }

  /** One iteration of the relocation loop at position `i`. */
  method PlaceAt(numbers: array<int>, start: nat, end: nat, lo: nat, hi: nat, pivotPlacementIndex: nat, i: nat, pivot: int, ghost orig: seq<int>)
    returns (next: nat)
    requires i < end && Placing(numbers[..], orig, start, end, lo, hi, pivotPlacementIndex, i, pivot)
    modifies numbers
    ensures Placing(numbers[..], orig, start, end, lo, hi, next, i + 1, pivot)
  {
    next := pivotPlacementIndex;
    if i >= lo && i < hi {
      // the pivot block itself is skipped
    } else {
      if numbers[i] == pivot {
        assert numbers[start..end] == numbers[..][start..end];
        CountPerm(numbers[start..end], orig[start..end], pivot, At);
        ghost var before := numbers[..];
        var pivotPlacement := MovePivot(numbers, start, end, lo, hi, pivotPlacementIndex, i, pivot);
        SwapPermutes(before, start, end, i, pivotPlacement);
        PermutedWithinTrans(numbers[..], before, orig, start, end);
        // not just one step on: the scan may have passed several pivots
        next := pivotPlacement + 1;
      }
    }
  }

  /** Moves every pivot-valued element of `numbers[start..end]` into the block
      reserved for them, `[start + less, start + less + pivots)`. */
  method PlacePivots(numbers: array<int>, start: nat, end: nat, pivot: int, less: nat, pivots: nat)
    requires start + less + pivots <= end <= numbers.Length
    requires Count(numbers[start..end], pivot, At) == pivots
    modifies numbers
    ensures PermutedWithin(numbers[..], old(numbers[..]), start, end)
    ensures PivotBlock(numbers[..], start, end, start + less, start + less + pivots, pivot)
  {
    var lo, hi := start + less, start + less + pivots;
    var pivotPlacementIndex := lo;
    ghost var orig := numbers[..];
    assert numbers[start..end] == orig[start..end];
    PermutedWithinRefl(orig, start, end);
    for i := start to end
      invariant Placing(numbers[..], orig, start, end, lo, hi, pivotPlacementIndex, i, pivot)
    {
      pivotPlacementIndex := PlaceAt(numbers, start, end, lo, hi, pivotPlacementIndex, i, pivot, orig);
    }
    CountPerm(numbers[start..end], orig[start..end], pivot, At);
    BlockFilled(numbers[..], start, end, lo, hi, pivot);
  }

  /** The left part still to be swept holds as many elements above the pivot
      as the right part still to be swept holds below it. */
  ghost predicate Balanced(s: seq<int>, a: int, b: int, lo: int, hi: int, pivot: int)
    requires 0 <= a <= lo <= hi <= b + 1 <= |s|
  {
    Count(s[a..lo], pivot, Above) == Count(s[hi..b + 1], pivot, Below)
  }

  /** Before the sweep the sides are balanced. */
  lemma SweepBalanced(s: seq<int>, start: int, end: int, lo: int, hi: int, pivot: int)
    requires 0 <= start <= lo <= hi <= end <= |s|
    requires Count(s[start..end], pivot, Below) == lo - start
    requires PivotBlock(s, start, end, lo, hi, pivot)
    ensures Balanced(s, start, end - 1, lo, hi, pivot)
  {
    CountSplit3(s, start, lo, hi, end, pivot, Below);
    assert forall k :: 0 <= k < hi - lo ==> s[lo..hi][k] == s[lo + k];
    assert forall k :: 0 <= k < lo - start ==> s[start..lo][k] == s[start + k];
    CountZero(s[lo..hi], pivot, Below);
    CountZero(s[start..lo], pivot, At);
    CountSides(s[start..lo], pivot);
  }

  /** One iteration of the sweep keeps the sides balanced: `a` moves past an
      element below the pivot, `b` past one above it, and an element above
      the pivot at `a` is exchanged with one below it at `b`. */
  lemma SweepStep(s: seq<int>, r: seq<int>, a: int, b: int, a': int, b': int, lo: int, hi: int, pivot: int)
    requires 0 <= a < lo <= hi <= b < |s|
    requires s[a] != pivot && s[b] != pivot
    requires Balanced(s, a, b, lo, hi, pivot)
    requires r == if s[a] > pivot && s[b] < pivot then s[a := s[b]][b := s[a]] else s
    requires a' == if s[a] < pivot || s[b] < pivot then a + 1 else a
    requires b' == if s[a] > pivot || s[b] > pivot then b - 1 else b
    ensures Balanced(r, a', b', lo, hi, pivot)
  {
    CountFront(s[a..lo], pivot, Above);
    assert s[a..lo][1..] == s[a + 1..lo];
    assert s[hi..b + 1][..b - hi] == s[hi..b];
    assert r[a + 1..lo] == s[a + 1..lo];
    assert r[hi..b] == s[hi..b];
    if s[a] > pivot && s[b] < pivot {
    } else {
      assert r == s;
    }
  }

  /** The state of the sweep: `[start, a)` is below the pivot, `(b, end)`
      above it, the pivot block stays in place and the two parts still to be
      swept are balanced. */
  ghost predicate Sweeping(s: seq<int>, orig: seq<int>, start: int, end: int, lo: int, hi: int, a: int, b: int, pivot: int) {
    && start <= a <= lo <= hi <= b + 1 <= end
    && PermutedWithin(s, orig, start, end)
    && PivotBlock(s, start, end, lo, hi, pivot)
    && (forall k :: start <= k < a ==> s[k] < pivot)
    && (forall k :: b < k < end ==> s[k] > pivot)
    && Balanced(s, a, b, lo, hi, pivot)
  }

  /** One iteration of the sweep, on values, keeps its state. */
  lemma SweepKeeps(s: seq<int>, r: seq<int>, orig: seq<int>, start: int, end: int, lo: int, hi: int, a: int, b: int, a': int, b': int, pivot: int)
    requires Sweeping(s, orig, start, end, lo, hi, a, b, pivot) && a < lo && hi <= b
    requires r == if s[a] > pivot && s[b] < pivot then s[a := s[b]][b := s[a]] else s
    requires a' == if s[a] < pivot || s[b] < pivot then a + 1 else a
    requires b' == if s[a] > pivot || s[b] > pivot then b - 1 else b
    ensures Sweeping(r, orig, start, end, lo, hi, a', b', pivot)
  {
    SweepStep(s, r, a, b, a', b', lo, hi, pivot);
    if s[a] > pivot && s[b] < pivot {
      SwapPermutes(s, start, end, a, b);
      PermutedWithinTrans(r, s, orig, start, end);
    }
  }

  /** One iteration of the two-pointer sweep: `a` moves past an element below
      the pivot, `b` past one above it, and an element above the pivot at `a`
      is exchanged with one below it at `b`. */
  method SweepIteration(numbers: array<int>, start: nat, end: nat, lo: nat, hi: nat, pivot: int, a: int, b: int, ghost orig: seq<int>)
    returns (a': int, b': int)
    requires Sweeping(numbers[..], orig, start, end, lo, hi, a, b, pivot) && a < lo && hi <= b
    modifies numbers
    ensures a <= a' <= a + 1 && b - 1 <= b' <= b && (a' - a) + (b - b') >= 1
    ensures Sweeping(numbers[..], orig, start, end, lo, hi, a', b', pivot)
  {
    a', b' := a, b;
    if numbers[a] < pivot && numbers[b] > pivot {
      // no exchange needed
      a' := a + 1;
      b' := b - 1;
    } else if numbers[a] < pivot && numbers[b] < pivot {
      a' := a + 1;
    } else if numbers[a] > pivot && numbers[b] > pivot {
      b' := b - 1;
    } else if numbers[a] > pivot && numbers[b] < pivot {
      var temp := numbers[a];
      numbers[a] := numbers[b];
      numbers[b] := temp;
      a' := a + 1;
      b' := b - 1;
    } else {
      assert false;
    }
    SweepKeeps(old(numbers[..]), numbers[..], orig, start, end, lo, hi, a, b, a', b', pivot);
  }

  /** The sweep starts with both pointers at the ends of the range. */
  lemma SweepStart(s: seq<int>, start: int, end: int, lo: int, hi: int, pivot: int)
    requires 0 <= start <= lo <= hi <= end <= |s|
    requires Count(s[start..end], pivot, Below) == lo - start
    requires PivotBlock(s, start, end, lo, hi, pivot)
    ensures Sweeping(s, s, start, end, lo, hi, start, end - 1, pivot)
  {
    SweepBalanced(s, start, end, lo, hi, pivot);
    PermutedWithinRefl(s, start, end);
  }

  /** The sweep ends when one pointer reaches the pivot block: the other
      side then holds nothing out of place either, so the range is
      partitioned. */
  lemma SweepEnd(s: seq<int>, orig: seq<int>, start: int, end: int, lo: int, hi: int, a: int, b: int, pivot: int)
    requires Sweeping(s, orig, start, end, lo, hi, a, b, pivot) && !(a < lo && b >= hi)
    ensures PermutedWithin(s, orig, start, end)
    ensures Partitioned(s, start, lo, hi, end, pivot)
  {
    if a == lo {
      CountZero(s[hi..b + 1], pivot, Below);
      assert forall k :: hi <= k <= b ==> s[hi..b + 1][k - hi] == s[k];
    } else {
      CountZero(s[a..lo], pivot, Above);
      assert forall k :: a <= k < lo ==> s[a..lo][k - a] == s[k];
    }
  }

  /** The two-pointer sweep over the parts below and above the pivot block. */
  method SweepOutOfPlace(numbers: array<int>, start: nat, end: nat, pivot: int, less: nat, pivots: nat)
    requires start + less + pivots <= end <= numbers.Length
    requires Count(numbers[start..end], pivot, Below) == less
    requires PivotBlock(numbers[..], start, end, start + less, start + less + pivots, pivot)
    modifies numbers
    ensures PermutedWithin(numbers[..], old(numbers[..]), start, end)
    ensures Partitioned(numbers[..], start, start + less, start + less + pivots, end, pivot)
  {
    var lo, hi := start + less, start + less + pivots;
    ghost var orig := numbers[..];
    assert numbers[start..end] == orig[start..end];
    SweepStart(orig, start, end, lo, hi, pivot);
    var a: int := start;
    var b: int := end - 1;
    while a < lo && b >= hi
      invariant Sweeping(numbers[..], orig, start, end, lo, hi, a, b, pivot)
      decreases (lo - a) + (b - hi)
    {
      a, b := SweepIteration(numbers, start, end, lo, hi, pivot, a, b, orig);
    }
    SweepEnd(numbers[..], orig, start, end, lo, hi, a, b, pivot);
  }

  /** Everything of `s[lo..mid)` lies below every element of `s[mid..hi)`, and
      both pieces are sorted: then the whole range is. */
  lemma SortedJoin(s: seq<int>, lo: int, mid: int, hi: int, pivot: int)
    requires 0 <= lo <= mid <= hi <= |s|
    requires SortedBetween(s, lo, mid) && SortedBetween(s, mid, hi)
    requires forall k :: lo <= k < mid ==> s[k] <= pivot
    requires forall k :: mid <= k < hi ==> s[k] >= pivot
    ensures SortedBetween(s, lo, hi)
  {
  }

  /** The pivot is one of the elements of the range, so at least one element
      equals it and the two sides left for the recursion are strictly
      shorter than the range. */
  lemma PivotCounted(s: seq<int>, middle: int, pivot: int)
    requires 0 <= middle < |s| && s[middle] == pivot
    ensures Count(s, pivot, At) >= 1
    ensures Count(s, pivot, Below) + Count(s, pivot, At) <= |s|
  {
    CountPositive(s, middle, pivot, At);
    CountSides(s, pivot);
  }

  /** Sorting the part below the pivot block and the part above it, each in
      place, sorts the whole partitioned range. */
  lemma SidesSorted(swept: seq<int>, leftDone: seq<int>, final: seq<int>, start: int, lo: int, hi: int, end: int, pivot: int)
    requires Partitioned(swept, start, lo, hi, end, pivot)
    requires PermutedWithin(leftDone, swept, start, lo) && SortedBetween(leftDone, start, lo)
    requires PermutedWithin(final, leftDone, hi, end) && SortedBetween(final, hi, end)
    ensures PermutedWithin(final, swept, start, end) && SortedBetween(final, start, end)
  {
    assert final[start..lo] == leftDone[start..lo];
    assert forall k :: 0 <= k < lo - start ==> swept[start..lo][k] == swept[start + k];
    SideKept(leftDone[start..lo], swept[start..lo], pivot, Below);
    assert forall k :: start <= k < lo ==> leftDone[start..lo][k - start] == final[k];
    assert forall k :: 0 <= k < end - hi ==> leftDone[hi..end][k] == leftDone[hi + k];
    SideKept(final[hi..end], leftDone[hi..end], pivot, Above);
    assert forall k :: hi <= k < end ==> final[hi..end][k - hi] == final[k];
    SortedJoin(final, lo, hi, end, pivot);
    SortedJoin(final, start, lo, end, pivot);
    PermutedWithinWiden(leftDone, swept, start, end, start, lo);
    PermutedWithinWiden(final, leftDone, start, end, hi, end);
    PermutedWithinTrans(final, leftDone, swept, start, end);
  }

  /** One partition step on a range of at least three elements: the middle
      element is the pivot; afterwards the elements below it, equal to it and
      above it occupy three consecutive blocks, counted by the two results. */
  method PartitionStep(numbers: array<int>, start: nat, end: nat)
    returns (pivotElement: int, lessThanPivotCount: nat, pivotCount: nat)
    requires start + 3 <= end <= numbers.Length
    modifies numbers
    ensures pivotElement == old(numbers[(start + end) / 2])
    ensures pivotCount >= 1 && start + lessThanPivotCount + pivotCount <= end
    ensures PermutedWithin(numbers[..], old(numbers[..]), start, end)
    ensures Partitioned(numbers[..], start, start + lessThanPivotCount, start + lessThanPivotCount + pivotCount, end, pivotElement)
  {
    // the middle element is the pivot
    var middle := (end + start) / 2;
    pivotElement := numbers[middle];

    pivotCount, lessThanPivotCount := CountAroundPivot(numbers, start, end, pivotElement);
    assert numbers[start..end][middle - start] == pivotElement;
    PivotCounted(numbers[start..end], middle - start, pivotElement);

    PlacePivots(numbers, start, end, pivotElement, lessThanPivotCount, pivotCount);
    ghost var placed := numbers[..];
    CountPerm(numbers[start..end], old(numbers[start..end]), pivotElement, Below);

    SweepOutOfPlace(numbers, start, end, pivotElement, lessThanPivotCount, pivotCount);
    PermutedWithinTrans(numbers[..], placed, old(numbers[..]), start, end);
  }

  /** The base cases of `partition`: a range of at most two elements is left
      alone, except that two elements out of order are swapped. */
  method SortSmall(numbers: array<int>, start: nat, end: nat)
    requires start <= end <= numbers.Length && end - start <= 2
    modifies numbers
    ensures PermutedWithin(numbers[..], old(numbers[..]), start, end)
    ensures SortedBetween(numbers[..], start, end)
    ensures end - start < 2 || old(numbers[start]) <= old(numbers[start + 1]) ==> numbers[..] == old(numbers[..])
  {
    var count := end - start;
    if count == 0 || count == 1 {
      PermutedWithinRefl(numbers[..], start, end);
      return;
    }
    var temp := numbers[start];
    if numbers[start] > numbers[start + 1] {
      numbers[start] := numbers[start + 1];
      numbers[start + 1] := temp;
      SwapPermutes(old(numbers[..]), start, end, start, start + 1);
    } else {
      PermutedWithinRefl(numbers[..], start, end);
    }
  }

  /** Sorts `numbers[start..end]` in place, as the recursive `partition` does. */
  method Partition(numbers: array<int>, start: nat, end: nat)
    requires start <= end <= numbers.Length
    modifies numbers
    ensures PermutedWithin(numbers[..], old(numbers[..]), start, end)
    ensures SortedBetween(numbers[..], start, end)
    decreases end - start, 1
  {
    var count := end - start;
    if count <= 2 {
      SortSmall(numbers, start, end);
      return;
    }

    var pivotElement, lessThanPivotCount, pivotCount := PartitionStep(numbers, start, end);
    ghost var swept := numbers[..];
    SortAroundBlock(numbers, start, start + lessThanPivotCount, start + lessThanPivotCount + pivotCount, end, pivotElement);
    PermutedWithinTrans(numbers[..], swept, old(numbers[..]), start, end);
  }

  /** The two recursive calls that end `partition`: the part below the pivot
      block and the part above it are sorted, each in place. */
  method SortAroundBlock(numbers: array<int>, start: nat, lo: nat, hi: nat, end: nat, ghost pivot: int)
    requires lo < hi && Partitioned(numbers[..], start, lo, hi, end, pivot)
    modifies numbers
    ensures PermutedWithin(numbers[..], old(numbers[..]), start, end)
    ensures SortedBetween(numbers[..], start, end)
    decreases end - start, 0
  {
    Partition(numbers, start, lo);
    ghost var leftDone := numbers[..];
    Partition(numbers, hi, end);
    SidesSorted(old(numbers[..]), leftDone, numbers[..], start, lo, hi, end, pivot);
  }

  /** Sorts the whole array; an absent array is handed back as it is. */
  method QuickSort(currentNumbers: array?<int>) returns (r: array?<int>)
    modifies currentNumbers
    ensures r == currentNumbers
    ensures r != null ==> Sorted(r[..]) && multiset(r[..]) == old(multiset(r[..]))
  {
    if currentNumbers != null {
      Partition(currentNumbers, 0, currentNumbers.Length);
      assert currentNumbers[..] == currentNumbers[0..currentNumbers.Length];
      assert old(currentNumbers[..]) == old(currentNumbers[..])[0..currentNumbers.Length];
    }
    return currentNumbers;
  }

  // ---------------------------------------------------------------------------
  // What sortedness and rearrangement determine

  /** A sorted sequence starts with its smallest element. */
  lemma SortedHeadIsMin(s: seq<int>, x: int)
    requires Sorted(s) && x in multiset(s)
    ensures |s| > 0 && s[0] <= x
  {
  }

  /** Equal heads leave equal multisets behind. */
  lemma TailsMatch(s: seq<int>, t: seq<int>)
    requires |s| > 0 && |t| > 0 && s[0] == t[0] && multiset(s) == multiset(t)
    ensures multiset(s[1..]) == multiset(t[1..])
  {
    assert s == [s[0]] + s[1..];
    assert t == [t[0]] + t[1..];
    assert multiset(s[1..]) == multiset(s) - multiset{s[0]};
    assert multiset(t[1..]) == multiset(t) - multiset{t[0]};
  }

  /** Two sorted rearrangements of the same elements are equal, so sorting is
      deterministic and an already sorted array is left as it was. */
  lemma {:induction false} SortedUnique(s: seq<int>, t: seq<int>)
    requires Sorted(s) && Sorted(t) && multiset(s) == multiset(t)
    ensures s == t
    decreases |s|
  {
    if s == [] {
      assert |t| == |multiset(t)| == 0;
    } else {
      assert s[0] in multiset(s);
      SortedHeadIsMin(t, s[0]);
      assert t[0] in multiset(t);
      SortedHeadIsMin(s, t[0]);
      TailsMatch(s, t);
      SortedUnique(s[1..], t[1..]);
      assert s == [s[0]] + s[1..] && t == [t[0]] + t[1..];
    }
  }
}
