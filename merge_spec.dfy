/**
 * Specification of the sorting half of queue.c: the comparator contract,
 * sortedness, the stable two-way merge of runs, and the binary-counter
 * discipline of the merge sort's pending-run slots.
 *
 * The comparator is abstract. In queue.c `compare` subtracts the two
 * elements' `value` pointers, so it orders elements by the address of their
 * string buffers, not by the strings, and narrows the difference to `int`.
 * Here it is any function on node ids under which any two elements are comparable:
 * `cmp(x, y) <= 0` reads "x may stay before y".
 */
module MergeSpec {
  import opened SeqSpec

  /**
   * The property of `compare` that the sort relies on: any two elements
   * compare at most equal one way or the other. Sortedness is about
   * neighbours only, so transitivity is not needed.
   */
  ghost predicate Connex(cmp: (int, int) -> int) {
    forall x, y :: cmp(x, y) <= 0 || cmp(y, x) <= 0
  }

  /** Every element may stay before its successor. */
  ghost predicate Sorted(s: seq<int>, cmp: (int, int) -> int) {
    forall i :: 0 < i < |s| ==> cmp(s[i - 1], s[i]) <= 0
  }

  /**
   * The stable merge of two runs: the head of `a` is taken whenever it
   * compares at most equal to the head of `b`, so ties go to `a`.
   */
  function Merge(a: seq<int>, b: seq<int>, cmp: (int, int) -> int): (r: seq<int>)
    ensures |r| == |a| + |b|
    decreases |a| + |b|
  {
    if a == [] then b
    else if b == [] then a
    else if cmp(a[0], b[0]) <= 0 then [a[0]] + Merge(a[1..], b, cmp)
    else [b[0]] + Merge(a, b[1..], cmp)
  }

  /** The merged run is a permutation of the two inputs together. */
  lemma {:induction false} MergePerm(a: seq<int>, b: seq<int>, cmp: (int, int) -> int)
    ensures multiset(Merge(a, b, cmp)) == multiset(a) + multiset(b)
    decreases |a| + |b|
  {
    if a != [] && b != [] {
      if cmp(a[0], b[0]) <= 0 {
        var rest := Merge(a[1..], b, cmp);
        MergePerm(a[1..], b, cmp);
        assert Merge(a, b, cmp) == [a[0]] + rest;
        HeadMultiset(a);
      } else {
        var rest := Merge(a, b[1..], cmp);
        MergePerm(a, b[1..], cmp);
        assert Merge(a, b, cmp) == [b[0]] + rest;
        HeadMultiset(b);
      }
    }
  }

  /** A non-empty sequence holds its head and its tail. */
  lemma HeadMultiset(a: seq<int>)
    requires a != []
    ensures multiset(a) == multiset{a[0]} + multiset(a[1..])
  {
    assert a == [a[0]] + a[1..];
  }

  /** Merging runs without repeated nodes gives a run without repeated nodes. */
  lemma MergeDistinct(a: seq<int>, b: seq<int>, cmp: (int, int) -> int)
    requires Distinct(a + b)
    ensures Distinct(Merge(a, b, cmp))
  {
    var r := Merge(a, b, cmp);
    MergePerm(a, b, cmp);
    DistinctPerm(r, a + b);
  }

  /** A permutation of a sequence without repeats has no repeats. */
  lemma DistinctPerm(s: seq<int>, t: seq<int>)
    requires multiset(s) == multiset(t) && Distinct(t)
    ensures Distinct(s)
  {
    forall i, j | 0 <= i < j < |s|
      ensures s[i] != s[j]
    {
      if s[i] == s[j] {
        var x := s[i];
        assert s == s[..i] + [x] + s[i + 1..j] + [x] + s[j + 1..];
        assert multiset(s)[x] >= 2;
        AtMostOnce(t, x);
        assert false;
      }
    }
  }

  /** In a sequence without repeats every value occurs at most once. */
  lemma {:induction false} AtMostOnce(t: seq<int>, x: int)
    requires Distinct(t)
    ensures multiset(t)[x] <= 1
  {
    if t != [] {
      var u := t[..|t| - 1];
      assert t == u + [t[|t| - 1]];
      AtMostOnce(u, x);
      if t[|t| - 1] == x {
        assert x !in u;
      }
    }
  }

  /** The first element of a merge is the head of one of the inputs. */
  lemma MergeHead(a: seq<int>, b: seq<int>, cmp: (int, int) -> int)
    requires a != [] || b != []
    ensures Merge(a, b, cmp)[0] == (if a == [] then b[0] else if b == [] then a[0]
                                    else if cmp(a[0], b[0]) <= 0 then a[0] else b[0])
  {
  }

  /** Merging two sorted runs of comparable elements yields a sorted run. */
  lemma {:induction false} MergeSorted(a: seq<int>, b: seq<int>, cmp: (int, int) -> int)
    requires Connex(cmp) && Sorted(a, cmp) && Sorted(b, cmp)
    ensures Sorted(Merge(a, b, cmp), cmp)
    decreases |a| + |b|
  {
    if a != [] && b != [] {
      if cmp(a[0], b[0]) <= 0 {
        var rest := Merge(a[1..], b, cmp);
        MergeSorted(a[1..], b, cmp);
        MergeHead(a[1..], b, cmp);
        if |a| > 1 {
          assert cmp(a[0], a[1]) <= 0;
        }
        SortedCons(a[0], rest, cmp);
        assert Merge(a, b, cmp) == [a[0]] + rest;
      } else {
        var rest := Merge(a, b[1..], cmp);
        MergeSorted(a, b[1..], cmp);
        MergeHead(a, b[1..], cmp);
        Total(cmp, a[0], b[0]);
        if |b| > 1 {
          assert cmp(b[0], b[1]) <= 0;
        }
        SortedCons(b[0], rest, cmp);
        assert Merge(a, b, cmp) == [b[0]] + rest;
      }
    }
  }

  /** A sorted run stays sorted when an element that may stay before its head is put in front. */
  lemma SortedCons(x: int, rest: seq<int>, cmp: (int, int) -> int)
    requires Sorted(rest, cmp) && (rest != [] ==> cmp(x, rest[0]) <= 0)
    ensures Sorted([x] + rest, cmp)
  {
    var r := [x] + rest;
    forall i | 0 < i < |r|
      ensures cmp(r[i - 1], r[i]) <= 0
    {
      if i > 1 {
        assert r[i - 1] == rest[i - 2] && r[i] == rest[i - 1];
      }
    }
  }

  /** Any two elements are comparable one way or the other. */
  lemma Total(cmp: (int, int) -> int, x: int, y: int)
    requires Connex(cmp)
    ensures cmp(x, y) <= 0 || cmp(y, x) <= 0
  {
  }

  /**
   * Ties go to the first run: when every element of `a` may stay before
   * every element of `b`, the merge is plain concatenation, so the relative
   * order of two runs that are already in order is kept.
   */
  lemma {:induction false} MergeInOrder(a: seq<int>, b: seq<int>, cmp: (int, int) -> int)
    requires forall i, j :: 0 <= i < |a| && 0 <= j < |b| ==> cmp(a[i], b[j]) <= 0
    ensures Merge(a, b, cmp) == a + b
    decreases |a|
  {
    if a != [] && b != [] {
      assert cmp(a[0], b[0]) <= 0;
      MergeInOrder(a[1..], b, cmp);
      assert a == [a[0]] + a[1..];
    } else if b == [] {
      assert a + b == a;
    }
  }

  // ---------------------------------------------------------------------------
  // The binary counter formed by the pending-run slots of the merge sort

  /** 2 to the power i. */
  function Pow2(i: nat): (r: nat)
    ensures r >= 1
  {
    if i == 0 then 1 else 2 * Pow2(i - 1)
  }

  /** Bit i of the binary representation of m. */
  predicate Bit(m: nat, i: nat) {
    if i == 0 then m % 2 == 1 else Bit(m / 2, i - 1)
  }

  /**
   * Adding one to m whose bits below i are all set and whose bit i is clear
   * clears bits 0..i-1, sets bit i and leaves the higher bits alone; this is
   * the carry performed when a node meets the full slots 0..i-1.
   */
  lemma {:induction false} BitIncrement(m: nat, i: nat, j: nat)
    requires forall l :: 0 <= l < i ==> Bit(m, l)
    requires !Bit(m, i)
    ensures Bit(m + 1, j) <==> (if j < i then false else if j == i then true else Bit(m, j))
  {
    if i == 0 {
      assert m % 2 == 0;
      if j > 0 {
        assert (m + 1) / 2 == m / 2;
      }
    } else {
      assert Bit(m, 0);
      assert m % 2 == 1 && (m + 1) / 2 == m / 2 + 1;
      forall l | 0 <= l < i - 1
        ensures Bit(m / 2, l)
      {
        assert Bit(m, l + 1);
      }
      assert !Bit(m / 2, i - 1);
      if j > 0 {
        BitIncrement(m / 2, i - 1, j - 1);
      }
    }
  }

  /** A number whose bits 0..k-1 are all set is at least 2^k - 1. */
  lemma {:induction false} AllOnes(m: nat, k: nat)
    requires forall l :: 0 <= l < k ==> Bit(m, l)
    ensures m + 1 >= Pow2(k)
  {
    if k > 0 {
      assert Bit(m, 0);
      forall l | 0 <= l < k - 1
        ensures Bit(m / 2, l)
      {
        assert Bit(m, l + 1);
      }
      AllOnes(m / 2, k - 1);
    }
  }

  /** Below 2^k no bit at position k or above is set. */
  lemma {:induction false} HighBitsClear(m: nat, k: nat, j: nat)
    requires m < Pow2(k) && j >= k
    ensures !Bit(m, j)
  {
    if k == 0 {
      assert m == 0;
      if j > 0 {
        HighBitsClear(0, 0, j - 1);
      }
    } else {
      HighBitsClear(m / 2, k - 1, j - 1);
    }
  }
}
