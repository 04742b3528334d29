/** The sort of betterTableFlex.js: `quickSort` and `quickSortSwap`, an
    in-place partition-exchange sort that walks the pivot back and forth
    between two pointers, run with the comparator `__sortRows` builds for one
    column. */
module Sorting {
  import opened Optional
  import opened Text
  import opened Records

  /** The comparator's `modifier`: 1 for `'asc'`, -1 otherwise. */
  type Modifier = m: int | m == 1 || m == -1 witness 1

  /** JavaScript's `a > b` on two field values: string comparison when both
      are present; `undefined` is neither greater nor smaller than anything. */
  predicate Greater(a: Option<string>, b: Option<string>): (r: bool)
    ensures a.None? || b.None? ==> !r
  {
    a.Some? && b.Some? && Less(b.value, a.value)
  }

  /** The comparator `__sortRows` hands to `quickSort` for column `col`. */
  function Compare(x: Record, y: Record, col: string, modifier: Modifier): (r: int)
    ensures -1 <= r <= 1
    ensures col !in x || col !in y ==> r == 0
  {
    if Greater(Field(x, col), Field(y, col)) then 1 * modifier
    else if Greater(Field(y, col), Field(x, col)) then -1 * modifier
    else 0
  }

  /** The comparator as the function value `quickSort` receives. */
  function ByColumn(col: string, modifier: Modifier): (r: (Record, Record) -> int)
    ensures forall x, y :: r(x, y) == -r(y, x)
  {
    CompareAntisymmetricAll(col, modifier);
    (x, y) => Compare(x, y, col, modifier)
  }

  /** Swapping the arguments negates the comparator. */
  lemma CompareAntisymmetric(x: Record, y: Record, col: string, m: Modifier)
    ensures Compare(x, y, col, m) == -Compare(y, x, col, m)
  {
    if col in x && col in y && Less(y[col], x[col]) {
      LessAsymmetric(y[col], x[col]);
    }
  }

  /** On rows that all have the column, the comparator orders consistently:
      `x` at least `y` and `y` above `z` put `x` above `z`. */
  lemma CompareTransitive(x: Record, y: Record, z: Record, col: string, m: Modifier)
    requires col in x && col in y && col in z
    requires Compare(x, y, col, m) >= 0 && Compare(y, z, col, m) > 0
    ensures Compare(x, z, col, m) > 0
  {
    var a, b, c := x[col], y[col], z[col];
    if m == 1 {
      // a >= b and b > c
      if a != b { LessTotal(a, b); LessTransitive(c, b, a); }
      if Less(a, c) { LessAsymmetric(c, a); }
    } else {
      // a <= b and b < c
      if a != b { LessTotal(a, b); LessTransitive(a, b, c); }
      if Less(c, a) { LessAsymmetric(a, c); }
    }
  }

  /** What the comparator says about two rows that have the column: with
      modifier 1 (`'asc'`), `Compare(x, y) >= 0` means `x`'s value is not
      smaller than `y`'s; with -1 (`'desc'`), not greater. */
  lemma CompareMeaning(x: Record, y: Record, col: string, m: Modifier)
    requires col in x && col in y
    ensures m == 1 ==> (Compare(x, y, col, m) >= 0 <==> !Less(x[col], y[col]))
    ensures m == -1 ==> (Compare(x, y, col, m) >= 0 <==> !Less(y[col], x[col]))
  {
    var a, b := x[col], y[col];
    if a == b {
      LessIrreflexive(a);
    } else {
      LessTotal(a, b);
      if Less(a, b) { LessAsymmetric(a, b); } else { LessAsymmetric(b, a); }
    }
  }

  /** Every row of `s` has the column being sorted. */
  ghost predicate AllHave(s: seq<Record>, col: string) {
    forall r :: r in s ==> col in r
  }

  /** Swapping a comparator's arguments negates it on the elements of `s`. */
  ghost predicate Antisymmetric<T>(cmp: (T, T) -> int, s: seq<T>) {
    forall x, y :: x in s && y in s ==> cmp(x, y) == -cmp(y, x)
  }

  /** A comparator orders the elements of `s` consistently: swapping its
      arguments negates it, and "at least" followed by "above" is "above". */
  ghost predicate Consistent<T>(cmp: (T, T) -> int, s: seq<T>) {
    && Antisymmetric(cmp, s)
    && (forall x, y, z :: x in s && y in s && z in s && cmp(x, y) >= 0 && cmp(y, z) > 0 ==> cmp(x, z) > 0)
  }

  /** The column comparator is antisymmetric on all rows, whether or not
      they have the column. */
  lemma CompareAntisymmetricAll(col: string, m: Modifier)
    ensures forall x, y :: Compare(x, y, col, m) == -Compare(y, x, col, m)
  {
    forall x, y
      ensures Compare(x, y, col, m) == -Compare(y, x, col, m)
    {
      CompareAntisymmetric(x, y, col, m);
    }
  }

  /** The column comparator is consistent on rows that all have the column. */
  lemma CompareConsistent(s: seq<Record>, col: string, m: Modifier)
    requires AllHave(s, col)
    ensures Consistent(ByColumn(col, m), s)
  {
    forall x, y, z | x in s && y in s && z in s && Compare(x, y, col, m) >= 0 && Compare(y, z, col, m) > 0
      ensures Compare(x, z, col, m) > 0
    {
      CompareTransitive(x, y, z, col, m);
    }
  }

  /** Consistency on `s` carries over to any `t` made of elements of `s`. */
  lemma ConsistentOnPart<T>(cmp: (T, T) -> int, s: seq<T>, t: seq<T>)
    requires Consistent(cmp, s)
    requires forall x :: x in t ==> x in s
    ensures Consistent(cmp, t)
  {
  }

  /** `s` is in the order `quickSort` leaves it in: every element compares at
      least as large as every element after it (so, in particular,
      `compare(s[i+1], s[i]) <= 0` for neighbours). */
  ghost predicate Sorted<T>(s: seq<T>, cmp: (T, T) -> int) {
    forall i, j :: 0 <= i < j < |s| ==> cmp(s[i], s[j]) >= 0
  }

  /** What `Sorted` means for the column comparator on rows that all have
      the column: with modifier 1 (`'asc'`) no value is smaller than a later
      one, so the rows come out with non-increasing values; with -1
      (`'desc'`) no value is greater than a later one. */
  lemma SortedByColumn(s: seq<Record>, col: string, m: Modifier)
    requires AllHave(s, col)
    ensures m == 1 ==> (Sorted(s, ByColumn(col, m)) <==>
                        forall i, j :: 0 <= i < j < |s| ==> !Less(s[i][col], s[j][col]))
    ensures m == -1 ==> (Sorted(s, ByColumn(col, m)) <==>
                         forall i, j :: 0 <= i < j < |s| ==> !Less(s[j][col], s[i][col]))
  {
    forall i, j | 0 <= i < j < |s|
      ensures m == 1 ==> (Compare(s[i], s[j], col, m) >= 0 <==> !Less(s[i][col], s[j][col]))
      ensures m == -1 ==> (Compare(s[i], s[j], col, m) >= 0 <==> !Less(s[j][col], s[i][col]))
    {
      assert s[i] in s && s[j] in s;
      CompareMeaning(s[i], s[j], col, m);
    }
  }

  /** Neighbours are in order: `compare(s[i + 1], s[i]) <= 0`. */
  ghost predicate AdjacentSorted<T>(s: seq<T>, cmp: (T, T) -> int) {
    forall i :: 0 <= i < |s| - 1 ==> cmp(s[i + 1], s[i]) <= 0
  }

  /** Every element of `s` compares at least as large as the pivot `p`. */
  ghost predicate NotBelow<T>(s: seq<T>, p: T, cmp: (T, T) -> int) {
    forall x :: x in s ==> cmp(p, x) <= 0
  }

  /** Every element of `s` compares smaller than the pivot `p`. */
  ghost predicate Below<T>(s: seq<T>, p: T, cmp: (T, T) -> int) {
    forall x :: x in s ==> cmp(p, x) > 0
  }

  /** A sorted left part, the pivot and a sorted right part, with the left
      part not below the pivot and the right part below it, make a sorted
      whole under a consistent comparator. */
  lemma SortedAroundPivot<T>(left: seq<T>, p: T, right: seq<T>, cmp: (T, T) -> int)
    requires Sorted(left, cmp) && Sorted(right, cmp)
    requires NotBelow(left, p, cmp) && Below(right, p, cmp)
    requires Consistent(cmp, left + [p] + right)
    ensures Sorted(left + [p] + right, cmp)
  {
    var s := left + [p] + right;
    var n := |left|;
    forall i, j | 0 <= i < j < |s|
      ensures cmp(s[i], s[j]) >= 0
    {
      if j < n {
        assert s[i] == left[i] && s[j] == left[j];
      } else if i > n {
        assert s[i] == right[i - n - 1] && s[j] == right[j - n - 1];
      } else if i == n {
        assert s[j] in right;
      } else {
        assert s[i] in left && s[i] in s && p in s;
        if j > n {
          assert s[j] in right && s[j] in s;
        }
      }
    }
  }

  /** `quickSortSwap`: exchanges two elements of the array. */
  method Swap<T>(a: array<T>, i: int, j: int)
    requires 0 <= i < a.Length && 0 <= j < a.Length
    modifies a
    ensures multiset(a[..]) == multiset(old(a[..]))
    ensures a[i] == old(a[j]) && a[j] == old(a[i])
    ensures forall k :: 0 <= k < a.Length && k != i && k != j ==> a[k] == old(a[k])
  {
    var swapped := a[i];
    a[i] := a[j];
    a[j] := swapped;
  }

  /** Two arrays that agree outside `[lo, hi]` and hold the same multiset
      hold the same multiset inside `[lo, hi]`. */
  lemma SameRangeMultiset<T>(s: seq<T>, t: seq<T>, lo: int, hi: int)
    requires 0 <= lo <= hi + 1 <= |s| == |t|
    requires forall k :: 0 <= k < |s| && !(lo <= k <= hi) ==> s[k] == t[k]
    requires multiset(s) == multiset(t)
    ensures multiset(s[lo..hi + 1]) == multiset(t[lo..hi + 1])
  {
    var before, inS, after, inT := s[..lo], s[lo..hi + 1], s[hi + 1..], t[lo..hi + 1];
    assert s == before + inS + after;
    assert t == before + inT + after by {
      assert t[..lo] == before && t[hi + 1..] == after;
      assert t == t[..lo] + t[lo..hi + 1] + t[hi + 1..];
    }
    MultisetCancel(before, inS, inT, after);
  }

  /** Equal multisets of `before + x + after` and `before + y + after` give
      equal multisets of `x` and `y`. */
  lemma MultisetCancel<T>(before: seq<T>, x: seq<T>, y: seq<T>, after: seq<T>)
    requires multiset(before + x + after) == multiset(before + y + after)
    ensures multiset(x) == multiset(y)
  {
    var mb, mx, my, ma := multiset(before), multiset(x), multiset(y), multiset(after);
    assert mb + mx + ma == mb + my + ma;
    forall e
      ensures mx[e] == my[e]
    {
      assert (mb + mx + ma)[e] == (mb + my + ma)[e];
    }
  }

  /** The state of the partition loop on `[lo, hi]` of the array `s`, which
      was `s0` before the loop: the pointers lie within the range with the
      pivot `p` at the one `direction` names, everything left of `leftPos`
      is not below the pivot and everything right of `rightPos` is below
      it, nothing outside the range has moved and the array is a
      permutation of `s0`. */
  ghost predicate PivotWalk<T>(s: seq<T>, s0: seq<T>, lo: int, hi: int, leftPos: int, rightPos: int,
                               pivot: int, direction: bool, p: T, cmp: (T, T) -> int) {
    && 0 <= lo <= leftPos <= rightPos <= hi < |s| == |s0|
    && pivot == (if direction then rightPos else leftPos)
    && s[pivot] == p
    && (forall k :: lo <= k < leftPos ==> cmp(p, s[k]) <= 0)
    && (forall k :: rightPos < k <= hi ==> cmp(p, s[k]) > 0)
    && (forall k :: 0 <= k < |s| && !(lo <= k <= hi) ==> s[k] == s0[k])
    && multiset(s) == multiset(s0)
  }

  /** One turn of the partition loop: the side in `direction` is compared
      against the pivot; an element on the wrong side is swapped with the
      pivot, which moves to its place while the far pointer steps in and the
      direction flips, and otherwise the near pointer steps past it. The
      loop's state is kept and the pointers come closer. */
  method PivotWalkStep<T>(a: array<T>, lo: int, hi: int, leftPos: int, rightPos: int, pivot: int, direction: bool,
                     compare: (T, T) -> int, ghost p: T, ghost a0: seq<T>)
    returns (leftPos': int, rightPos': int, pivot': int, direction': bool)
    requires PivotWalk(a[..], a0, lo, hi, leftPos, rightPos, pivot, direction, p, compare) && leftPos < rightPos
    modifies a
    ensures PivotWalk(a[..], a0, lo, hi, leftPos', rightPos', pivot', direction', p, compare)
    ensures rightPos' - leftPos' < rightPos - leftPos
  {
    leftPos', rightPos', pivot', direction' := leftPos, rightPos, pivot, direction;
    if direction {
      if compare(a[pivot], a[leftPos]) > 0 {
        Swap(a, pivot, leftPos);
        pivot' := leftPos;
        rightPos' := rightPos - 1;
        direction' := !direction;
      } else {
        leftPos' := leftPos + 1;
      }
    } else {
      if compare(a[pivot], a[rightPos]) > 0 {
        rightPos' := rightPos - 1;
      } else {
        Swap(a, pivot, rightPos);
        leftPos' := leftPos + 1;
        pivot' := rightPos;
        direction' := !direction;
      }
    }
  }

  /** The partition loop of `quickSort` on `arr[lo..hi]`: the pivot starts at
      `hi`; while the pointers have not met, the side in `direction` is
      compared against the pivot, and an element on the wrong side is swapped
      with the pivot, which then moves to that element's place and the
      direction flips. It ends with the pivot where the pointers meet. */
  method Partition<T>(a: array<T>, lo: int, hi: int, compare: (T, T) -> int) returns (pivot: int)
    requires 0 <= lo <= hi < a.Length
    modifies a
    ensures lo <= pivot <= hi
    ensures forall k :: 0 <= k < a.Length && !(lo <= k <= hi) ==> a[k] == old(a[k])
    ensures multiset(a[lo..hi + 1]) == multiset(old(a[lo..hi + 1]))
    ensures NotBelow(a[lo..pivot], a[pivot], compare)
    ensures Below(a[pivot + 1..hi + 1], a[pivot], compare)
  {
    var leftPos, rightPos := lo, hi;
    var direction := true;
    pivot := hi;
    ghost var p := a[hi];
    while leftPos - rightPos < 0
      invariant PivotWalk(a[..], old(a[..]), lo, hi, leftPos, rightPos, pivot, direction, p, compare)
      decreases rightPos - leftPos
    {
      leftPos, rightPos, pivot, direction := PivotWalkStep(a, lo, hi, leftPos, rightPos, pivot, direction, compare, p, old(a[..]));
    }
    SameRangeMultiset(a[..], old(a[..]), lo, hi);
  }

  /** Two sequences with the same multiset have the same elements. */
  lemma SameMembers<T>(s: seq<T>, t: seq<T>)
    requires multiset(s) == multiset(t)
    ensures forall x :: x in s <==> x in t
  {
    forall x
      ensures x in s <==> x in t
    {
      assert x in s <==> x in multiset(s);
      assert x in t <==> x in multiset(t);
    }
  }

  /** What one call `quickSort(arr, lo, hi, ...)` promises, from the array
      `before` it to the array `after` it: nothing outside `[lo, hi]` has
      moved, the range is a permutation of what it was, its neighbours are
      in order when the comparator is antisymmetric on it, and the whole
      range is sorted when the comparator is moreover transitive there. */
  ghost predicate SortedSection<T>(before: seq<T>, after: seq<T>, lo: int, hi: int, cmp: (T, T) -> int)
    requires 0 <= lo <= hi + 1 <= |before|
  {
    && |after| == |before|
    && (forall k :: 0 <= k < |before| && !(lo <= k <= hi) ==> after[k] == before[k])
    && multiset(after[lo..hi + 1]) == multiset(before[lo..hi + 1])
    && (Consistent(cmp, before[lo..hi + 1]) ==> Sorted(after[lo..hi + 1], cmp))
    && (Antisymmetric(cmp, before[lo..hi + 1]) ==> AdjacentSorted(after[lo..hi + 1], cmp))
  }

  /** A range of at most one element is left as it is, and is sorted: the
      case in which `quickSort` makes no recursive call. */
  lemma ShortSectionSorted<T>(s: seq<T>, lo: int, hi: int, cmp: (T, T) -> int)
    requires 0 <= lo <= hi + 1 <= |s| && hi <= lo
    ensures SortedSection(s, s, lo, hi, cmp)
  {
  }

  /** What the partition loop leaves, from the array `start` to the array
      `parted`: nothing outside `[lo, hi]` has moved, the range is a
      permutation of what it was, and the pivot at `pivot` has only elements
      not below it on its left and only elements below it on its right. */
  ghost predicate Partitioned<T>(start: seq<T>, parted: seq<T>, lo: int, pivot: int, hi: int, cmp: (T, T) -> int)
    requires 0 <= lo <= pivot <= hi < |start|
  {
    && |parted| == |start|
    && (forall k :: 0 <= k < |start| && !(lo <= k <= hi) ==> parted[k] == start[k])
    && multiset(parted[lo..hi + 1]) == multiset(start[lo..hi + 1])
    && NotBelow(parted[lo..pivot], parted[pivot], cmp)
    && Below(parted[pivot + 1..hi + 1], parted[pivot], cmp)
  }

  /** The recursion step of `quickSort`: `parted` is the array after the
      partition of `start` around `pivot`, `leftDone` after sorting the left
      part, `done` after sorting the right part. Then `done` is `start` with
      the range `[lo, hi]` sorted. */
  lemma QuickSortStep<T>(start: seq<T>, parted: seq<T>, leftDone: seq<T>, done: seq<T>,
                         lo: int, pivot: int, hi: int, cmp: (T, T) -> int)
    requires 0 <= lo <= pivot <= hi < |start|
    requires Partitioned(start, parted, lo, pivot, hi, cmp)
    requires SortedSection(parted, leftDone, lo, pivot - 1, cmp)
    requires SortedSection(leftDone, done, pivot + 1, hi, cmp)
    ensures SortedSection(start, done, lo, hi, cmp)
  {
    StepLayout(start, parted, leftDone, done, lo, pivot, hi);
    var p := parted[pivot];
    var left0, right0 := parted[lo..pivot], parted[pivot + 1..hi + 1];
    var left, right := done[lo..pivot], done[pivot + 1..hi + 1];
    PiecesPermute(left0, p, right0, left, right, start[lo..hi + 1]);
    PiecesSorted(left0, p, right0, left, right, start[lo..hi + 1], cmp);
    PiecesAdjacent(left0, p, right0, left, right, start[lo..hi + 1], cmp);
  }

  /** Where the pieces of the step lie: the left part is the sorted left
      side, the right side was not touched by the left call, and both the
      partitioned and the final range are left part, pivot, right part. */
  lemma StepLayout<T>(start: seq<T>, parted: seq<T>, leftDone: seq<T>, done: seq<T>, lo: int, pivot: int, hi: int)
    requires 0 <= lo <= pivot <= hi < |start|
    requires |parted| == |start| && |leftDone| == |start| && |done| == |start|
    requires forall k :: 0 <= k < |start| && !(lo <= k <= hi) ==> parted[k] == start[k]
    requires forall k :: 0 <= k < |start| && !(lo <= k < pivot) ==> leftDone[k] == parted[k]
    requires forall k :: 0 <= k < |start| && !(pivot < k <= hi) ==> done[k] == leftDone[k]
    ensures forall k :: 0 <= k < |start| && !(lo <= k <= hi) ==> done[k] == start[k]
    ensures done[lo..pivot] == leftDone[lo..pivot]
    ensures leftDone[pivot + 1..hi + 1] == parted[pivot + 1..hi + 1]
    ensures done[lo..hi + 1] == done[lo..pivot] + [parted[pivot]] + done[pivot + 1..hi + 1]
    ensures parted[lo..hi + 1] == parted[lo..pivot] + [parted[pivot]] + parted[pivot + 1..hi + 1]
  {
    assert done[pivot] == leftDone[pivot] == parted[pivot];
  }

  /** The pieces of the step, away from the array: a range
      `left0 + [p] + right0` whose two sides are replaced by permutations
      `left` and `right` is still a permutation of `whole`. */
  lemma PiecesPermute<T>(left0: seq<T>, p: T, right0: seq<T>, left: seq<T>, right: seq<T>, whole: seq<T>)
    requires multiset(left0 + [p] + right0) == multiset(whole)
    requires multiset(left) == multiset(left0) && multiset(right) == multiset(right0)
    ensures multiset(left + [p] + right) == multiset(whole)
  {
  }

  /** The pieces of the step, away from the array: a partitioned range
      `left0 + [p] + right0` whose two sides are replaced by permutations
      `left` and `right`, each sorted when the comparator is consistent on
      it, is sorted when the comparator is consistent on `whole`. */
  lemma PiecesSorted<T>(left0: seq<T>, p: T, right0: seq<T>, left: seq<T>, right: seq<T>,
                        whole: seq<T>, cmp: (T, T) -> int)
    requires multiset(left0 + [p] + right0) == multiset(whole)
    requires NotBelow(left0, p, cmp) && Below(right0, p, cmp)
    requires multiset(left) == multiset(left0) && multiset(right) == multiset(right0)
    requires Consistent(cmp, left0) ==> Sorted(left, cmp)
    requires Consistent(cmp, right0) ==> Sorted(right, cmp)
    ensures Consistent(cmp, whole) ==> Sorted(left + [p] + right, cmp)
  {
    if Consistent(cmp, whole) {
      SameMembers(left0 + [p] + right0, whole);
      assert multiset(left + [p] + right) == multiset(whole);
      SameMembers(left + [p] + right, whole);
      SameMembers(left, left0);
      SameMembers(right, right0);
      ConsistentOnPart(cmp, whole, left0);
      ConsistentOnPart(cmp, whole, right0);
      ConsistentOnPart(cmp, whole, left + [p] + right);
      SortedAroundPivot(left, p, right, cmp);
    }
  }

  /** The pieces of the step, away from the array: with the comparator
      antisymmetric on `whole`, sides whose neighbours are in order, the left
      side not below the pivot and the right side below it, give a range
      whose neighbours are all in order. Transitivity is not needed. */
  lemma PiecesAdjacent<T>(left0: seq<T>, p: T, right0: seq<T>, left: seq<T>, right: seq<T>,
                          whole: seq<T>, cmp: (T, T) -> int)
    requires multiset(left0 + [p] + right0) == multiset(whole)
    requires NotBelow(left0, p, cmp) && Below(right0, p, cmp)
    requires multiset(left) == multiset(left0) && multiset(right) == multiset(right0)
    requires Antisymmetric(cmp, left0) ==> AdjacentSorted(left, cmp)
    requires Antisymmetric(cmp, right0) ==> AdjacentSorted(right, cmp)
    ensures Antisymmetric(cmp, whole) ==> AdjacentSorted(left + [p] + right, cmp)
  {
    if Antisymmetric(cmp, whole) {
      SameMembers(left0 + [p] + right0, whole);
      SameMembers(left, left0);
      SameMembers(right, right0);
      var s, n := left + [p] + right, |left|;
      forall i | 0 <= i < |s| - 1
        ensures cmp(s[i + 1], s[i]) <= 0
      {
        if i + 1 < n {
          assert s[i] == left[i] && s[i + 1] == left[i + 1];
        } else if i + 1 == n {
          assert s[i] in left && s[i + 1] == p;
        } else if i == n {
          assert s[i + 1] == right[0] && right[0] in right;
          assert right[0] in whole && p in whole;
        } else {
          assert s[i] == right[i - n - 1] && s[i + 1] == right[i - n];
        }
      }
    }
  }

  /** What `quickSort`'s guarantees give for the column comparator: the
      neighbours of the sorted rows are always in order, and all of the rows
      are when every row has the column. */
  lemma ColumnSortOrder(original: seq<Record>, sorted: seq<Record>, col: string, m: Modifier)
    requires Antisymmetric(ByColumn(col, m), original) ==> AdjacentSorted(sorted, ByColumn(col, m))
    requires Consistent(ByColumn(col, m), original) ==> Sorted(sorted, ByColumn(col, m))
    ensures AdjacentSorted(sorted, ByColumn(col, m))
    ensures AllHave(original, col) ==> Sorted(sorted, ByColumn(col, m))
  {
    if AllHave(original, col) {
      CompareConsistent(original, col, m);
    }
  }

  /** `quickSort(arr, lo, hi, arrLength, compare)`: partitions `arr[lo..hi]`
      around the element at `hi`, then sorts each side that has at least two
      elements. It terminates and, as `SortedSection` states, moves nothing
      outside `[lo, hi]`, permutes the range, leaves every element compared
      at most as large as the one before it whenever `compare` is
      antisymmetric on the range, and leaves the whole range non-increasing
      whenever `compare` is moreover transitive there. */
  method QuickSort<T>(a: array<T>, lo: int, hi: int, compare: (T, T) -> int)
    requires 0 <= lo <= hi + 1 <= a.Length
    modifies a
    ensures SortedSection(old(a[..]), a[..], lo, hi, compare)
    decreases hi - lo, 1
  {
    // With `lo > hi` the partition loop does not run and neither recursive
    // call is made.
    if lo <= hi {
      var pivot := Partition(a, lo, hi, compare);
      SortAroundPivot(a, lo, pivot, hi, compare, old(a[..]));
    }
  }

  /** The tail of `quickSort`, after the partition loop has turned `start`
      into the current array with the pivot at `pivot`: the two guarded
      recursive calls, after which `[lo, hi]` is sorted. */
  method SortAroundPivot<T>(a: array<T>, lo: int, pivot: int, hi: int, compare: (T, T) -> int, ghost start: seq<T>)
    requires 0 <= lo <= pivot <= hi < a.Length == |start|
    requires NotBelow(a[lo..pivot], a[pivot], compare) && Below(a[pivot + 1..hi + 1], a[pivot], compare)
    requires forall k :: 0 <= k < a.Length && !(lo <= k <= hi) ==> a[k] == start[k]
    requires multiset(a[lo..hi + 1]) == multiset(start[lo..hi + 1])
    modifies a
    ensures SortedSection(start, a[..], lo, hi, compare)
    decreases hi - lo, 0
  {
    ghost var parted := a[..];
    assert Partitioned(start, parted, lo, pivot, hi, compare);
    SortSide(a, lo, pivot - 1, compare);
    ghost var leftDone := a[..];
    SortSide(a, pivot + 1, hi, compare);
    QuickSortStep(start, parted, leftDone, a[..], lo, pivot, hi, compare);
  }

  /** One of `quickSort`'s two guarded recursive calls: the side `[lo, hi]`
      of the pivot is sorted by a recursive call when it holds at least two
      elements (`pivot - 1 > initialLeftPos`, `pivot + 1 < initialRightPos`)
      and is left as it is otherwise. */
  method SortSide<T>(a: array<T>, lo: int, hi: int, compare: (T, T) -> int)
    requires 0 <= lo <= hi + 1 <= a.Length
    modifies a
    ensures SortedSection(old(a[..]), a[..], lo, hi, compare)
    decreases hi - lo, 2
  {
    if lo < hi {
      QuickSort(a, lo, hi, compare);
    } else {
      ShortSectionSorted(a[..], lo, hi, compare);
    }
  }

  /** `quickSort(rows, 0, rows.length - 1, rows.length, compare)`, the call
      `__sortRows` makes: the whole array is permuted, its neighbours end in
      order when the comparator is antisymmetric on it, and all of it is
      sorted when the comparator is moreover transitive there. */
  method SortWhole<T>(a: array<T>, compare: (T, T) -> int)
    modifies a
    ensures multiset(a[..]) == multiset(old(a[..]))
    ensures Antisymmetric(compare, old(a[..])) ==> AdjacentSorted(a[..], compare)
    ensures Consistent(compare, old(a[..])) ==> Sorted(a[..], compare)
  {
    assert a[0..a.Length] == a[..];
    QuickSort(a, 0, a.Length - 1, compare);
    assert a[0..a.Length] == a[..];
  }
}
