/** `Array.prototype.sort(compareFn)` as the data table uses it: an in-place sort of an array by a
    comparator returning a negative, zero or positive number. */
module ArraySort {

  function Sign(n: int): int {
    if n < 0 then -1 else if n > 0 then 1 else 0
  }

  /** A consistent comparator in the sense the ECMAScript `sort` requires for a defined result:
      swapping the arguments flips the sign of the answer, and "at most" is transitive. The trigger lets the
      transitivity fact be used only for three elements already being compared, which keeps proofs small. */
  ghost predicate Consistent<T(!new)>(cmp: (T, T) -> int) {
    && (forall x, y :: Sign(cmp(x, y)) == -Sign(cmp(y, x)))
    && (forall x, y, z {:trigger cmp(x, z), cmp(x, y), cmp(y, z)} :: cmp(x, y) <= 0 && cmp(y, z) <= 0 ==> cmp(x, z) <= 0)
  }

  /** Every element is at most each later element under `cmp`. */
  ghost predicate Sorted<T>(s: seq<T>, cmp: (T, T) -> int) {
    forall i, j :: 0 <= i < j < |s| ==> cmp(s[i], s[j]) <= 0
  }

  /** Sorts `a` in place (by insertion): afterwards it is sorted by `cmp` and holds the same elements. */
  method SortInPlace<T(!new)>(a: array<T>, cmp: (T, T) -> int)
    requires Consistent(cmp)
    modifies a
    ensures Sorted(a[..], cmp)
    ensures multiset(a[..]) == multiset(old(a[..]))
  {
    var i := 0;
    while i < a.Length
      invariant 0 <= i <= a.Length
      invariant forall p, q :: 0 <= p < q < i ==> cmp(a[p], a[q]) <= 0
      invariant multiset(a[..]) == multiset(old(a[..]))
    {
      Insert(a, i, cmp);
      i := i + 1;
    }
  }

  /** Exchanges `a[i]` and `a[j]`; the elements, as a multiset, stay the same. */
  method Swap<T>(a: array<T>, i: nat, j: nat)
    requires i < j < a.Length
    modifies a
    ensures a[..] == old(a[..])[i := old(a[j])][j := old(a[i])]
    ensures multiset(a[..]) == multiset(old(a[..]))
  {
    a[i], a[j] := a[j], a[i];
  }

  /** The state of an insertion of `s[j]` into `s[..i + 1]`: every pair in `s[..i + 1]` away from position `j`
      is in order, and `s[j]` is at most everything after it up to `i`. */
  ghost predicate InsertingAt<T>(s: seq<T>, i: nat, j: nat, cmp: (T, T) -> int)
    requires j <= i < |s|
  {
    && (forall p, q :: 0 <= p < q <= i && p != j && q != j ==> cmp(s[p], s[q]) <= 0)
    && (forall q :: j < q <= i ==> cmp(s[j], s[q]) <= 0)
  }

  /** Swapping `s[j]` with a larger left neighbour keeps the insertion state, one position further left. */
  lemma SwapLeft<T(!new)>(s: seq<T>, i: nat, j: nat, cmp: (T, T) -> int)
    requires Consistent(cmp)
    requires 0 < j <= i < |s| && InsertingAt(s, i, j, cmp)
    requires cmp(s[j - 1], s[j]) > 0
    ensures InsertingAt(s[j - 1 := s[j]][j := s[j - 1]], i, j - 1, cmp)
  {
    var t := s[j - 1 := s[j]][j := s[j - 1]];
    assert Sign(cmp(s[j - 1], s[j])) == -Sign(cmp(s[j], s[j - 1]));
    forall p, q | 0 <= p < q <= i && p != j - 1 && q != j - 1
      ensures cmp(t[p], t[q]) <= 0
    {
      if p == j {
        assert cmp(s[j - 1], s[q]) <= 0;
      } else if q == j {
        assert cmp(s[p], s[j - 1]) <= 0;
      }
    }
  }

  /** An insertion that stopped at the front, or behind an element that is not larger, is finished. */
  lemma InsertDone<T(!new)>(s: seq<T>, i: nat, j: nat, cmp: (T, T) -> int)
    requires Consistent(cmp)
    requires j <= i < |s| && InsertingAt(s, i, j, cmp)
    requires j == 0 || cmp(s[j - 1], s[j]) <= 0
    ensures forall p, q :: 0 <= p < q <= i ==> cmp(s[p], s[q]) <= 0
  {
    forall p | 0 <= p < j
      ensures cmp(s[p], s[j]) <= 0
    {
      if p < j - 1 {
        assert cmp(s[p], s[j - 1]) <= 0;
      }
    }
  }

  /** Moves `a[i]` left past the larger elements of the sorted prefix `a[..i]`, so that `a[..i + 1]` is sorted. */
  method Insert<T(!new)>(a: array<T>, i: nat, cmp: (T, T) -> int)
    requires Consistent(cmp)
    requires i < a.Length
    requires forall p, q :: 0 <= p < q < i ==> cmp(a[p], a[q]) <= 0
    modifies a
    ensures forall p, q :: 0 <= p < q <= i ==> cmp(a[p], a[q]) <= 0
    ensures multiset(a[..]) == multiset(old(a[..]))
  {
    var j := i;
    while j > 0 && cmp(a[j - 1], a[j]) > 0
      invariant 0 <= j <= i
      invariant InsertingAt(a[..], i, j, cmp)
      invariant multiset(a[..]) == multiset(old(a[..]))
    {
      ghost var swapped := a[..][j - 1 := a[j]][j := a[j - 1]];
      SwapLeft(a[..], i, j, cmp);
      Swap(a, j - 1, j);
      assert a[..] == swapped;
      j := j - 1;
    }
    InsertDone(a[..], i, j, cmp);
  }
}
