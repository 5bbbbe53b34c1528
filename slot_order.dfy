/** Python's `sorted` on a list of `(start, end)` tuples.

    Tuples compare lexicographically: by start, then by end. Under that
    order two slots that compare equal are the same slot, so a sorted
    permutation of a list is unique, and any sorting algorithm (Python's is
    Timsort) produces the same list as the insertion sort below. */
module SlotOrder {
  import opened Timeline

  /** Tuple comparison `a <= b` on `(start, end)` pairs. */
  predicate Le(a: Slot, b: Slot)
  {
    a.start < b.start || (a.start == b.start && a.end <= b.end)
  }

  predicate IsSorted(s: seq<Slot>)
  {
    forall i, j :: 0 <= i < j < |s| ==> Le(s[i], s[j])
  }

  /** `Le` is a total order on slots. */
  lemma LeTotalOrder(a: Slot, b: Slot, c: Slot)
    ensures Le(a, a)
    ensures Le(a, b) || Le(b, a)
    ensures Le(a, b) && Le(b, a) ==> a == b
    ensures Le(a, b) && Le(b, c) ==> Le(a, c)
  {
  }

  /** Inserts `x` into the sorted list `s` before the first element it does
      not exceed. */
  function Insert(x: Slot, s: seq<Slot>): (r: seq<Slot>)
    requires IsSorted(s)
    ensures IsSorted(r)
    ensures multiset(r) == multiset(s) + multiset{x}
  {
    if s == [] then [x]
    else if Le(x, s[0]) then [x] + s
    else
      var rest := Insert(x, s[1..]);
      assert s == [s[0]] + s[1..];
      assert forall k :: 0 <= k < |rest| ==> Le(s[0], rest[k]) by {
        forall k | 0 <= k < |rest|
          ensures Le(s[0], rest[k])
        {
          assert rest[k] in multiset(s[1..]) + multiset{x};
          if rest[k] != x {
            var m :| 0 <= m < |s[1..]| && s[1..][m] == rest[k];
            assert s[1 + m] == rest[k];
          }
        }
      }
      [s[0]] + rest
  }

  /** The ascending arrangement of `s`: `sorted(s)`. */
  function Sort(s: seq<Slot>): (r: seq<Slot>)
    ensures IsSorted(r)
    ensures multiset(r) == multiset(s)
    ensures |r| == |s|
  {
    if s == [] then []
    else
      assert s == [s[0]] + s[1..];
      Insert(s[0], Sort(s[1..]))
  }

  /** A sorted list holds its least element first. */
  lemma SortedHeadIsLeast(s: seq<Slot>, x: Slot)
    requires IsSorted(s) && x in multiset(s)
    ensures Le(s[0], x)
  {
  }

  /** Two sorted lists with the same elements are the same list: the result
      of `sorted` does not depend on the order the elements arrived in, nor on
      the sorting algorithm. */
  lemma {:induction false} SortedPermutationUnique(a: seq<Slot>, b: seq<Slot>)
    requires IsSorted(a) && IsSorted(b)
    requires multiset(a) == multiset(b)
    ensures a == b
  {
    if a != [] {
      assert a[0] in multiset(b);
      assert b != [];
      assert b[0] in multiset(a);
      SortedHeadIsLeast(a, b[0]);
      SortedHeadIsLeast(b, a[0]);
      assert a[0] == b[0];
      assert a == [a[0]] + a[1..];
      assert b == [b[0]] + b[1..];
      assert multiset(a[1..]) == multiset(a) - multiset{a[0]};
      assert multiset(b[1..]) == multiset(b) - multiset{b[0]};
      assert multiset(a[1..]) == multiset(b[1..]);
      SortedPermutationUnique(a[1..], b[1..]);
    } else {
      assert |b| == |multiset(b)| == 0;
    }
  }

  /** `sorted` is the unique sorted permutation of its input. */
  lemma SortIsTheSortedPermutation(s: seq<Slot>, r: seq<Slot>)
    requires IsSorted(r) && multiset(r) == multiset(s)
    ensures Sort(s) == r
  {
    SortedPermutationUnique(Sort(s), r);
  }
}
