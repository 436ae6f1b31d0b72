/**
 * q_sort of queue.c: a bottom-up merge sort on NULL-terminated runs.
 *
 * The sort first cuts the circle (the last node's `next` becomes NULL),
 * then walks the nodes; each node becomes a run of one that is carried
 * through the `pending` slots like a binary counter, merging with every
 * full slot it meets. At the end the slots are merged into one run and
 * the `prev` links and the wrap-around are rebuilt.
 *
 * The sort rewires only `next` and `prev`, so its methods work on the
 * pointer maps themselves (taken and returned as values) and on the
 * `pending` array; `Sort` stores the result back into the queue.
 */
module QueueSort {
  import opened SeqSpec
  import opened ListCore
  import opened MergeSpec
  import opened CStrings

  /** The node at position i of a run s; past the end, NULL. */
  function Link(s: seq<int>, i: int): int {
    if 0 <= i < |s| then s[i] else Nil
  }

  /** Following nx from p visits the nodes s and then reaches NULL. */
  ghost predicate Chain(nx: map<int, int>, p: int, s: seq<int>) {
    p == Link(s, 0) && Nil !in s &&
    (forall i :: 0 <= i < |s| ==> s[i] in nx) &&
    (forall i {:trigger nx[s[i]]} :: 0 <= i < |s| ==> nx[s[i]] == Link(s, i + 1))
  }

  /** nx0 with the first n nodes of m linked to each other in order. */
  function Rewired(nx0: map<int, int>, m: seq<int>, n: int): map<int, int>
    requires 0 <= n <= |m|
  {
    if n <= 1 then nx0 else Rewired(nx0, m, n - 1)[m[n - 2] := m[n - 1]]
  }

  /** What the rewired links are: m's first n nodes point along m, everything else as in nx0. */
  lemma {:induction false} RewiredLinks(nx0: map<int, int>, m: seq<int>, n: int)
    requires 0 <= n <= |m| && Distinct(m) && forall i :: 0 <= i < |m| ==> m[i] in nx0
    ensures Rewired(nx0, m, n).Keys == nx0.Keys
    ensures forall i :: 0 <= i < n - 1 ==> Rewired(nx0, m, n)[m[i]] == m[i + 1]
    ensures forall i :: n - 1 <= i < |m| && 0 <= i ==> Rewired(nx0, m, n)[m[i]] == nx0[m[i]]
    ensures forall x :: x in nx0 && x !in m ==> Rewired(nx0, m, n)[x] == nx0[x]
  {
    if n > 1 {
      RewiredLinks(nx0, m, n - 1);
    }
  }

  /**
   * merge's state: the merged run m is placed up to position n, its first
   * n nodes linked in order, with `last` the n-th of them (NULL while there
   * is none) and every other link as in nx0.
   */
  ghost predicate Built(nx0: map<int, int>, nx: map<int, int>, m: seq<int>, n: int, last: int, head: int) {
    0 <= n <= |m| && last == (if n == 0 then Nil else m[n - 1]) && (n > 0 ==> head == m[0]) &&
    nx == Rewired(nx0, m, n)
  }

  /** The merged run m is made of distinct nodes of nx0 and never of NULL. */
  ghost predicate Placeable(nx0: map<int, int>, m: seq<int>) {
    Distinct(m) && Nil !in m && forall i :: 0 <= i < |m| ==> m[i] in nx0
  }

  /** Placing m[n] behind m[n - 1]: one more link. */
  lemma Rewire(nx0: map<int, int>, m: seq<int>, n: int)
    requires 0 <= n < |m|
    ensures Rewired(nx0, m, n + 1) == if n == 0 then Rewired(nx0, m, n) else Rewired(nx0, m, n)[m[n - 1] := m[n]]
  {
  }

  /** The node placed at position n keeps its link from nx0 until the next one is placed. */
  lemma RewiredNext(nx0: map<int, int>, m: seq<int>, n: int)
    requires 0 <= n < |m| && Distinct(m) && forall i :: 0 <= i < |m| ==> m[i] in nx0
    ensures m[n] in Rewired(nx0, m, n + 1) && Rewired(nx0, m, n + 1)[m[n]] == nx0[m[n]]
  {
    RewiredLinks(nx0, m, n + 1);
  }

  /**
   * Pointing the last placed node, m[n - 1], at the rest s of an input run
   * completes the merged run.
   */
  lemma Close(nx0: map<int, int>, m: seq<int>, n: int, s: seq<int>)
    requires 0 < n < |m| && Distinct(m) && Nil !in m && forall i :: 0 <= i < |m| ==> m[i] in nx0
    requires m[n..] == s && Chain(nx0, s[0], s)
    ensures var nx' := Rewired(nx0, m, n)[m[n - 1] := s[0]];
            Chain(nx', m[0], m) && nx'.Keys == nx0.Keys && forall x :: x in nx0 && x !in m ==> nx'[x] == nx0[x]
  {
    var nx' := Rewired(nx0, m, n + 1);
    RewiredLinks(nx0, m, n + 1);
    forall i | n <= i < |m|
      ensures nx'[m[i]] == Link(m, i + 1)
    {
      assert m[i] == s[i - n];
      if i + 1 < |m| {
        assert m[i + 1] == s[i + 1 - n];
      }
    }
  }

  /** The rest of a run after its first node is the run from that node's next. */
  lemma ChainTail(nx: map<int, int>, s: seq<int>)
    requires s != [] && Chain(nx, s[0], s)
    ensures Chain(nx, nx[s[0]], s[1..])
  {
  }

  /** A run is still a run when the links of its nodes are kept. */
  lemma ChainFrame(nx: map<int, int>, nx': map<int, int>, p: int, s: seq<int>)
    requires Chain(nx, p, s)
    requires forall i :: 0 <= i < |s| ==> s[i] in nx' && nx'[s[i]] == nx[s[i]]
    ensures Chain(nx', p, s)
  {
  }

  /** When the head of ra is not after the head of rb, it is the next node of their merge. */
  lemma TakeA(ra: seq<int>, rb: seq<int>, cmp: (int, int) -> int, m: seq<int>, n: int)
    requires ra != [] && rb != [] && 0 <= n < |m| && m[n..] == Merge(ra, rb, cmp) && cmp(ra[0], rb[0]) <= 0
    ensures m[n] == ra[0] && m[n + 1..] == Merge(ra[1..], rb, cmp)
  {
    assert m[n + 1..] == m[n..][1..];
  }

  /** Otherwise the head of rb is the next node of their merge. */
  lemma TakeB(ra: seq<int>, rb: seq<int>, cmp: (int, int) -> int, m: seq<int>, n: int)
    requires ra != [] && rb != [] && 0 <= n < |m| && m[n..] == Merge(ra, rb, cmp) && cmp(ra[0], rb[0]) > 0
    ensures m[n] == rb[0] && m[n + 1..] == Merge(ra, rb[1..], cmp)
  {
    assert m[n + 1..] == m[n..][1..];
  }

  /**
   * merge(a, b): the stable merge of the non-NULL runs a and b. `last`
   * stands for the `tail` pointer: NULL while it points at the local
   * `head`, otherwise the node whose `next` it points at. The ghost n
   * counts the nodes placed so far.
   */
  method MergeRuns(nx: map<int, int>, a: int, b: int, cmp: (int, int) -> int,
                   ghost sa: seq<int>, ghost sb: seq<int>) returns (nx': map<int, int>, head: int)
    requires Chain(nx, a, sa) && Chain(nx, b, sb) && sa != [] && sb != [] && Distinct(sa + sb)
    ensures Chain(nx', head, Merge(sa, sb, cmp))
    ensures nx'.Keys == nx.Keys && forall x :: x in nx && x !in sa && x !in sb ==> nx'[x] == nx[x]
  {
    ghost var m := Merge(sa, sb, cmp);
    MergePlaceable(nx, sa, sb, cmp);
    nx', head := nx, Nil;
    var last, a, b := Nil, a, b;
    ghost var n, ra, rb := 0, sa, sb;
    while true
      invariant ra != [] && rb != [] && Chain(nx, a, ra) && Chain(nx, b, rb)
      invariant Built(nx, nx', m, n, last, head) && n < |m| && m[n..] == Merge(ra, rb, cmp)
      decreases |ra| + |rb|
    {
      if cmp(a, b) <= 0 {
        TakeA(ra, rb, cmp, m, n);
        nx', head, last, n := Attach(nx, nx', head, last, a, m, n);
        ChainTail(nx, ra);
        a, ra := nx'[a], ra[1..];
        if a == Nil {
          nx' := AttachRest(nx, nx', head, last, b, m, n, rb);
          break;
        }
      } else {
        TakeB(ra, rb, cmp, m, n);
        nx', head, last, n := Attach(nx, nx', head, last, b, m, n);
        ChainTail(nx, rb);
        b, rb := nx'[b], rb[1..];
        if b == Nil {
          nx' := AttachRest(nx, nx', head, last, a, m, n, ra);
          break;
        }
      }
    }
    MergeFrame(nx, nx', sa, sb, cmp);
  }

  /** `*tail = x; tail = &x->next;`: the node x = m[n] is placed next. */
  method Attach(nx0: map<int, int>, nx: map<int, int>, head: int, last: int, x: int, ghost m: seq<int>, ghost n: int)
    returns (nx': map<int, int>, head': int, last': int, ghost n': int)
    requires Built(nx0, nx, m, n, last, head) && n < |m| && m[n] == x && Placeable(nx0, m)
    ensures Built(nx0, nx', m, n', last', head') && n' == n + 1 && last' == x && x in nx' && nx'[x] == nx0[x]
  {
    Rewire(nx0, m, n);
    nx', head' := nx, head;
    if last == Nil {
      head' := x;
    } else {
      nx' := nx'[last := x];
    }
    last', n' := x, n + 1;
    RewiredNext(nx0, m, n);
  }

  /** `*tail = y`: the rest s of the other run, from y on, follows the placed nodes. */
  method AttachRest(nx0: map<int, int>, nx: map<int, int>, head: int, last: int, y: int,
                    ghost m: seq<int>, ghost n: int, ghost s: seq<int>) returns (nx': map<int, int>)
    requires Built(nx0, nx, m, n, last, head) && 0 < n < |m| && Placeable(nx0, m)
    requires s != [] && y == s[0] && m[n..] == s && Chain(nx0, y, s)
    ensures Chain(nx', head, m) && nx'.Keys == nx0.Keys && forall x :: x in nx0 && x !in m ==> nx'[x] == nx0[x]
  {
    Close(nx0, m, n, s);
    nx' := nx[last := y];
  }

  /** The merge of two runs of distinct nodes of nx is made of distinct nodes of nx. */
  lemma MergePlaceable(nx: map<int, int>, sa: seq<int>, sb: seq<int>, cmp: (int, int) -> int)
    requires Chain(nx, Link(sa, 0), sa) && Chain(nx, Link(sb, 0), sb) && Distinct(sa + sb)
    ensures Placeable(nx, Merge(sa, sb, cmp))
  {
    MergeDistinct(sa, sb, cmp);
    MergeOwn(sa, sb, cmp);
  }

  /** Links kept outside the merged run are kept outside both runs. */
  lemma MergeFrame(nx: map<int, int>, nx': map<int, int>, sa: seq<int>, sb: seq<int>, cmp: (int, int) -> int)
    requires nx'.Keys == nx.Keys && forall x :: x in nx && x !in Merge(sa, sb, cmp) ==> nx'[x] == nx[x]
    ensures forall x :: x in nx && x !in sa && x !in sb ==> nx'[x] == nx[x]
  {
    MergePerm(sa, sb, cmp);
    forall x | x in nx && x !in sa && x !in sb
      ensures nx'[x] == nx[x]
    {
      assert x !in multiset(Merge(sa, sb, cmp));
    }
  }

  /** Every node of the merge comes from one of the two runs. */
  lemma MergeOwn(a: seq<int>, b: seq<int>, cmp: (int, int) -> int)
    ensures forall i :: 0 <= i < |Merge(a, b, cmp)| ==> Merge(a, b, cmp)[i] in a || Merge(a, b, cmp)[i] in b
  {
    var m := Merge(a, b, cmp);
    MergePerm(a, b, cmp);
    forall i | 0 <= i < |m|
      ensures m[i] in a || m[i] in b
    {
      assert m[i] in multiset(m);
    }
  }

  // ---------------------------------------------------------------------------
  // The pending slots

  /** The nodes held by the slots, highest slot first: the order in which they were met. */
  ghost function Flat(runs: seq<seq<int>>): seq<int> {
    if runs == [] then [] else Flat(runs[1..]) + runs[0]
  }

  /** Replacing the run of slot i replaces its nodes among the nodes of all slots. */
  lemma {:induction false} FlatUpdate(runs: seq<seq<int>>, i: int, r: seq<int>)
    requires 0 <= i < |runs|
    ensures multiset(Flat(runs[i := r])) + multiset(runs[i]) == multiset(Flat(runs)) + multiset(r)
  {
    if i == 0 {
      assert runs[i := r][1..] == runs[1..];
    } else {
      var tail, tail' := runs[1..], runs[1..][i - 1 := r];
      FlatUpdate(tail, i - 1, r);
      assert runs[i := r][1..] == tail' && tail[i - 1] == runs[i] && runs[i := r][0] == runs[0];
      calc {
        multiset(Flat(runs[i := r])) + multiset(runs[i]);
        multiset(Flat(tail') + runs[0]) + multiset(runs[i]);
        multiset(Flat(tail')) + multiset(runs[i]) + multiset(runs[0]);
        multiset(Flat(tail)) + multiset(r) + multiset(runs[0]);
        multiset(Flat(tail) + runs[0]) + multiset(r);
      }
    }
  }

  /** Emptying slot i takes its nodes out of the nodes of all slots. */
  lemma FlatRemove(runs: seq<seq<int>>, i: int)
    requires 0 <= i < |runs|
    ensures multiset(Flat(runs)) == multiset(Flat(runs[i := []])) + multiset(runs[i])
  {
    FlatUpdate(runs, i, []);
    var e: seq<int> := [];
    assert multiset(e) == multiset{};
  }

  /** A node of a slot is among the nodes of all slots. */
  lemma {:induction false} InFlat(runs: seq<seq<int>>, l: int, x: int)
    requires 0 <= l < |runs| && x in runs[l]
    ensures x in multiset(Flat(runs))
  {
    if l > 0 {
      InFlat(runs[1..], l - 1, x);
    }
  }

  /**
   * How often x occurs among the slots, a run c and the not yet visited
   * nodes rest, with slot i counted apart from the other slots.
   */
  lemma SlotCount(runs: seq<seq<int>>, c: seq<int>, rest: seq<int>, o: seq<int>, i: int, x: int)
    requires 0 <= i < |runs| && Distinct(o)
    requires multiset(Flat(runs)) + multiset(c) + multiset(rest) == multiset(o)
    ensures multiset(Flat(runs[i := []]))[x] + multiset(runs[i])[x] + multiset(c)[x] + multiset(rest)[x] <= 1
  {
    FlatRemove(runs, i);
    assert multiset(Flat(runs))[x] == multiset(Flat(runs[i := []]))[x] + multiset(runs[i])[x];
    assert multiset(o)[x] == multiset(Flat(runs))[x] + multiset(c)[x] + multiset(rest)[x];
    AtMostOnce(o, x);
  }

  /** Two parts of a list without repeats, side by side, have no repeats either. */
  lemma DistinctPart(a: seq<int>, b: seq<int>, t: seq<int>, o: seq<int>)
    requires multiset(a) + multiset(b) + multiset(t) == multiset(o) && Distinct(o)
    ensures Distinct(a + b)
  {
    var w := a + b + t;
    assert multiset(w) == multiset(o);
    DistinctPerm(w, o);
    assert w[..|a + b|] == a + b;
  }

  /**
   * When the slots, a run c and the not yet visited nodes rest together hold
   * the nodes of a list without repeats, slot i and c have no node twice.
   */
  lemma MergeApart(runs: seq<seq<int>>, c: seq<int>, rest: seq<int>, o: seq<int>, i: int)
    requires 0 <= i < |runs| && Distinct(o)
    requires multiset(Flat(runs)) + multiset(c) + multiset(rest) == multiset(o)
    ensures Distinct(runs[i] + c)
  {
    var others := Flat(runs[i := []]);
    FlatRemove(runs, i);
    assert multiset(runs[i]) + multiset(c) + multiset(others + rest) == multiset(o);
    DistinctPart(runs[i], c, others + rest, o);
  }

  /** Slots from..|p|-1 hold the sorted runs runs[from..] as NULL-terminated lists. */
  ghost predicate SlotsFrom(nx: map<int, int>, p: seq<int>, runs: seq<seq<int>>, cmp: (int, int) -> int, from: int) {
    0 <= from && |p| == |runs| && forall l :: from <= l < |p| ==> Chain(nx, p[l], runs[l]) && Sorted(runs[l], cmp)
  }

  /**
   * Merging slot i with the run c leaves another slot l as it was.
   */
  lemma KeepSlot(nx: map<int, int>, nx': map<int, int>, runs: seq<seq<int>>, i: int, l: int, c: seq<int>, rest: seq<int>, o: seq<int>, p: int)
    requires 0 <= i < |runs| && 0 <= l < |runs| && l != i && Distinct(o) && Chain(nx, p, runs[l])
    requires multiset(Flat(runs)) + multiset(c) + multiset(rest) == multiset(o)
    requires nx'.Keys == nx.Keys && forall x :: x in nx && x !in runs[i] && x !in c ==> nx'[x] == nx[x]
    ensures Chain(nx', p, runs[l])
  {
    var others := runs[i := []];
    assert others[l] == runs[l];
    forall k | 0 <= k < |runs[l]|
      ensures runs[l][k] in nx' && nx'[runs[l][k]] == nx[runs[l][k]]
    {
      var x := runs[l][k];
      InFlat(others, l, x);
      SlotCount(runs, c, rest, o, i, x);
      assert x in nx && x !in runs[i] && x !in c;
    }
    ChainFrame(nx, nx', p, runs[l]);
  }

  /**
   * Merging slot i with the run c leaves the list of nodes not yet visited
   * as it was.
   */
  lemma KeepRest(nx: map<int, int>, nx': map<int, int>, runs: seq<seq<int>>, i: int, c: seq<int>, rest: seq<int>, o: seq<int>, y: int)
    requires 0 <= i < |runs| && Distinct(o) && Chain(nx, y, rest)
    requires multiset(Flat(runs)) + multiset(c) + multiset(rest) == multiset(o)
    requires nx'.Keys == nx.Keys && forall x :: x in nx && x !in runs[i] && x !in c ==> nx'[x] == nx[x]
    ensures Chain(nx', y, rest)
  {
    forall k | 0 <= k < |rest|
      ensures rest[k] in nx' && nx'[rest[k]] == nx[rest[k]]
    {
      var x := rest[k];
      SlotCount(runs, c, rest, o, i, x);
      assert x in nx && x !in runs[i] && x !in c;
    }
    ChainFrame(nx, nx', y, rest);
  }

  /**
   * Bits(runs, m): the slots are a binary counter of the m nodes met so far
   * (for m < 2^32): slot i is full exactly when bit i of m is set, and
   * then holds 2^i nodes.
   */
  ghost predicate Bits(runs: seq<seq<int>>, m: nat) {
    m < Pow2(|runs|) ==>
      (forall l {:trigger Bit(m, l)} :: 0 <= l < |runs| ==> (runs[l] != [] <==> Bit(m, l))) &&
      (forall l :: 0 <= l < |runs| && runs[l] != [] ==> |runs[l]| == Pow2(l))
  }

  /** With no node met, every slot is empty. */
  lemma BitsZero(runs: seq<seq<int>>)
    requires forall l :: 0 <= l < |runs| ==> runs[l] == []
    ensures Bits(runs, 0)
  {
    forall l | 0 <= l < |runs|
      ensures !Bit(0, l)
    {
      HighBitsClear(0, 0, l);
    }
  }

  /**
   * The carry as a binary increment: slots 0..i-1 were full and are
   * emptied, slot i was empty and receives their 2^i nodes.
   */
  lemma CarryBits(runs: seq<seq<int>>, runs': seq<seq<int>>, m: nat, i: int)
    requires Bits(runs, m) && m + 1 < Pow2(|runs|) && 0 <= i < |runs| == |runs'|
    requires forall l :: 0 <= l < i ==> runs[l] != [] && runs'[l] == []
    requires runs[i] == [] && |runs'[i]| == Pow2(i)
    requires forall l :: i < l < |runs| ==> runs'[l] == runs[l]
    ensures Bits(runs', m + 1)
  {
    forall l | 0 <= l < |runs|
      ensures (runs'[l] != [] <==> Bit(m + 1, l)) && (runs'[l] != [] ==> |runs'[l]| == Pow2(l))
    {
      BitIncrement(m, i, l);
    }
  }

  /**
   * When the carry went through every slot, all bits of m were set, so m
   * was at least 2^32 - 1.
   */
  lemma CarryFull(runs: seq<seq<int>>, m: nat)
    requires Bits(runs, m) && m < Pow2(|runs|) && forall l :: 0 <= l < |runs| ==> runs[l] != []
    ensures m + 1 >= Pow2(|runs|)
  {
    AllOnes(m, |runs|);
  }

  /** Filling the empty slot i adds the nodes of r to the nodes of all slots. */
  lemma FlatFill(runs: seq<seq<int>>, i: int, r: seq<int>)
    requires 0 <= i < |runs| && runs[i] == []
    ensures multiset(Flat(runs[i := r])) == multiset(Flat(runs)) + multiset(r)
  {
    FlatUpdate(runs, i, r);
    var e: seq<int> := [];
    assert multiset(e) == multiset{};
  }

  /** Slots that are all empty hold no node. */
  lemma {:induction false} FlatEmpty(runs: seq<seq<int>>)
    requires forall l :: 0 <= l < |runs| ==> runs[l] == []
    ensures Flat(runs) == []
  {
    if runs != [] {
      FlatEmpty(runs[1..]);
    }
  }

  /** Storing the sorted run r, a list from h, into slot i. */
  lemma SlotsSet(nx: map<int, int>, p: seq<int>, runs: seq<seq<int>>, cmp: (int, int) -> int, i: int, h: int, r: seq<int>)
    requires SlotsFrom(nx, p, runs, cmp, 0) && 0 <= i < |p| && Chain(nx, h, r) && Sorted(r, cmp)
    ensures SlotsFrom(nx, p[i := h], runs[i := r], cmp, 0)
  {
  }

  /** Merging slot i with the run c and emptying slot i leaves every other slot as it was. */
  lemma KeepSlots(nx: map<int, int>, nx': map<int, int>, p: seq<int>, runs: seq<seq<int>>, cmp: (int, int) -> int,
                  i: int, c: seq<int>, rest: seq<int>, o: seq<int>)
    requires SlotsFrom(nx, p, runs, cmp, 0) && 0 <= i < |p| && Distinct(o)
    requires multiset(Flat(runs)) + multiset(c) + multiset(rest) == multiset(o)
    requires nx'.Keys == nx.Keys && forall x :: x in nx && x !in runs[i] && x !in c ==> nx'[x] == nx[x]
    ensures SlotsFrom(nx', p[i := Nil], runs[i := []], cmp, 0)
  {
    forall l | 0 <= l < |p| && l != i
      ensures Chain(nx', p[l], runs[l])
    {
      KeepSlot(nx, nx', runs, i, l, c, rest, o, p[l]);
    }
  }

  /** Merging slot i in front of the run c keeps every node counted once. */
  lemma CarryCount(runs: seq<seq<int>>, cmp: (int, int) -> int, i: int, c: seq<int>, rest: seq<int>, o: seq<int>)
    requires 0 <= i < |runs| && multiset(Flat(runs)) + multiset(c) + multiset(rest) == multiset(o)
    ensures multiset(Flat(runs[i := []])) + multiset(Merge(runs[i], c, cmp)) + multiset(rest) == multiset(o)
  {
    MergePerm(runs[i], c, cmp);
    FlatRemove(runs, i);
  }

  /** A full slot i merged with a carried run of 2^i nodes gives 2^(i+1) nodes. */
  lemma CarryGrow(runs: seq<seq<int>>, m: nat, i: int, c: seq<int>, cmp: (int, int) -> int)
    requires Bits(runs, m) && m + 1 < Pow2(|runs|) && 0 <= i < |runs| && runs[i] != [] && |c| == Pow2(i)
    ensures |Merge(runs[i], c, cmp)| == Pow2(i + 1)
  {
  }

  /** While the counter has not run through all 32 bits, the carry stops at an empty slot. */
  lemma CarryStops(runs: seq<seq<int>>, m: nat, i: int)
    requires Bits(runs, m) && m + 1 < Pow2(|runs|) && 0 <= i <= |runs|
    requires forall l :: 0 <= l < i ==> runs[l] != []
    requires i < |runs| ==> runs[i] == []
    ensures i < |runs|
  {
    if i == |runs| {
      CarryFull(runs, m);
      assert false;
    }
  }

  /**
   * The slots after m nodes were carried into them: they hold sorted runs,
   * count m as Bits says, and with the unvisited list rest (from y) they
   * hold the nodes of o.
   */
  ghost predicate Counted(nx: map<int, int>, p: seq<int>, runs: seq<seq<int>>, y: int, rest: seq<int>, o: seq<int>,
                          m: nat, cmp: (int, int) -> int) {
    SlotsFrom(nx, p, runs, cmp, 0) && Chain(nx, y, rest) &&
    multiset(Flat(runs)) + multiset(rest) == multiset(o) && Bits(runs, m)
  }

  /**
   * The shape of the carry loop before slot i: slots 0..i-1, all full at
   * the start (runs0), are empty now and slots from i on are as at the
   * start; while counting (fewer than 2^32 - 1 nodes met), the carried run
   * c holds 2^i nodes.
   */
  ghost predicate CarryShape(runs0: seq<seq<int>>, runs: seq<seq<int>>, c: seq<int>, i: int, m: nat, counting: bool) {
    |runs0| == |runs| && 0 <= i <= |runs| && c != [] && Bits(runs0, m) && (counting <==> m + 1 < Pow2(|runs|)) &&
    (forall l :: 0 <= l < i ==> runs0[l] != [] && runs[l] == []) &&
    (forall l :: i <= l < |runs| ==> runs[l] == runs0[l]) &&
    (counting ==> |c| == Pow2(i))
  }

  /**
   * The lists of the carry loop: the slots hold their sorted runs, node
   * starts the sorted carried run c, y the unvisited list rest, and
   * together they hold the nodes of o. The final loop of q_sort keeps the
   * same shape, with the result so far as c and nothing left unvisited.
   */
  ghost predicate CarryLinks(nx: map<int, int>, p: seq<int>, runs: seq<seq<int>>, node: int, c: seq<int>,
                             y: int, rest: seq<int>, o: seq<int>, cmp: (int, int) -> int) {
    SlotsFrom(nx, p, runs, cmp, 0) && Chain(nx, node, c) && Sorted(c, cmp) && Chain(nx, y, rest) &&
    multiset(Flat(runs)) + multiset(c) + multiset(rest) == multiset(o)
  }

  /** The carry starts with the run of one node and no slot visited. */
  lemma CarryStart(runs: seq<seq<int>>, c: seq<int>, m: nat, counting: bool)
    requires Bits(runs, m) && |c| == 1 && (counting <==> m + 1 < Pow2(|runs|))
    ensures CarryShape(runs, runs, c, 0, m, counting)
  {
  }

  /** Before a merge of the carry loop, slot i and the carried run are lists to merge. */
  lemma CarryPre(nx: map<int, int>, p: seq<int>, runs: seq<seq<int>>, node: int, c: seq<int>,
                 y: int, rest: seq<int>, o: seq<int>, cmp: (int, int) -> int, i: int)
    requires CarryLinks(nx, p, runs, node, c, y, rest, o, cmp) && c != [] && 0 <= i < |p| && p[i] != Nil && Distinct(o)
    ensures Chain(nx, p[i], runs[i]) && runs[i] != [] && Chain(nx, node, c) && c != [] && Distinct(runs[i] + c)
  {
    MergeApart(runs, c, rest, o, i);
  }

  /** One turn of the carry loop, counted: full slot i emptied into the carried run. */
  lemma CarryTurnShape(runs0: seq<seq<int>>, runs: seq<seq<int>>, c: seq<int>, i: int, m: nat, counting: bool, cmp: (int, int) -> int)
    requires CarryShape(runs0, runs, c, i, m, counting) && i < |runs| && runs[i] != []
    ensures CarryShape(runs0, runs[i := []], Merge(runs[i], c, cmp), i + 1, m, counting)
  {
    if counting {
      CarryGrow(runs0, m, i, c, cmp);
    }
  }

  /** One turn of the carry loop, linked: slot i merged in front of the carried run. */
  lemma CarryTurnLinks(nx: map<int, int>, p: seq<int>, runs: seq<seq<int>>, node: int, c: seq<int>,
                       y: int, rest: seq<int>, o: seq<int>, cmp: (int, int) -> int, i: int, nx': map<int, int>, h: int)
    requires CarryLinks(nx, p, runs, node, c, y, rest, o, cmp) && 0 <= i < |p|
    requires Distinct(o) && Connex(cmp)
    requires Chain(nx', h, Merge(runs[i], c, cmp)) && nx'.Keys == nx.Keys
    requires forall x :: x in nx && x !in runs[i] && x !in c ==> nx'[x] == nx[x]
    ensures CarryLinks(nx', p[i := Nil], runs[i := []], h, Merge(runs[i], c, cmp), y, rest, o, cmp)
  {
    KeepSlots(nx, nx', p, runs, cmp, i, c, rest, o);
    KeepRest(nx, nx', runs, i, c, rest, o, y);
    MergeSorted(runs[i], c, cmp);
    CarryCount(runs, cmp, i, c, rest, o);
  }

  /**
   * The end of the carry: the run lands in slot j, the first empty slot, or
   * the last slot when every slot was full; the slots then count m + 1
   * nodes.
   */
  lemma CarryEnd(nx: map<int, int>, p: seq<int>, runs0: seq<seq<int>>, runs: seq<seq<int>>, node: int, c: seq<int>,
                 y: int, rest: seq<int>, o: seq<int>, i: int, m: nat, counting: bool, cmp: (int, int) -> int, j: int)
    requires CarryShape(runs0, runs, c, i, m, counting) && CarryLinks(nx, p, runs, node, c, y, rest, o, cmp)
    requires i == |p| || p[i] == Nil
    requires j == (if i == |p| then i - 1 else i) && 0 <= j
    ensures Counted(nx, p[j := node], runs[j := c], y, rest, o, m + 1, cmp)
  {
    assert runs[j] == [];
    SlotsSet(nx, p, runs, cmp, j, node, c);
    FlatFill(runs, j, c);
    if counting {
      CarryStops(runs0, m, i);
      CarryBits(runs0, runs[j := c], m, j);
    }
  }

  /** One merge of the carry: full slot i merged in front of the carried run, then emptied. */
  method CarryMerge(pending: array<int>, i: int, nx: map<int, int>, node: int, cmp: (int, int) -> int,
                    ghost runs0: seq<seq<int>>, ghost runs: seq<seq<int>>, ghost c: seq<int>, ghost y: int,
                    ghost rest: seq<int>, ghost o: seq<int>, ghost m: nat, ghost counting: bool)
    returns (nx': map<int, int>, node': int, ghost runs': seq<seq<int>>, ghost c': seq<int>)
    requires 0 <= i < pending.Length && pending[i] != Nil && Connex(cmp) && Distinct(o)
    requires CarryShape(runs0, runs, c, i, m, counting) && CarryLinks(nx, pending[..], runs, node, c, y, rest, o, cmp)
    modifies pending
    ensures CarryShape(runs0, runs', c', i + 1, m, counting) && CarryLinks(nx', pending[..], runs', node', c', y, rest, o, cmp)
    ensures nx'.Keys == nx.Keys
  {
    ghost var p := pending[..];
    CarryPre(nx, p, runs, node, c, y, rest, o, cmp, i);
    nx', node' := MergeRuns(nx, pending[i], node, cmp, runs[i], c);
    CarryTurnShape(runs0, runs, c, i, m, counting, cmp);
    CarryTurnLinks(nx, p, runs, node, c, y, rest, o, cmp, i, nx', node');
    pending[i] := Nil;
    assert pending[..] == p[i := Nil];
    runs', c' := runs[i := []], Merge(runs[i], c, cmp);
  }

  /**
   * The carry of q_sort (queue.c:274-281) for one node x whose next is
   * already NULL: from slot 0 up, every full slot is merged in front of the
   * carried run and emptied; the run lands in the first empty slot, or in
   * the last slot when all 32 are full. Counting the nodes, it is a binary
   * increment of the slots.
   */
  method Carry(pending: array<int>, nx: map<int, int>, x: int, cmp: (int, int) -> int,
               ghost runs: seq<seq<int>>, ghost rest: seq<int>, ghost o: seq<int>, ghost y: int, ghost m: nat)
    returns (nx': map<int, int>, ghost runs': seq<seq<int>>)
    requires pending.Length == 32 && Connex(cmp) && Distinct(o)
    requires CarryLinks(nx, pending[..], runs, x, [x], y, rest, o, cmp) && Bits(runs, m)
    modifies pending
    ensures Counted(nx', pending[..], runs', y, rest, o, m + 1, cmp) && nx'.Keys == nx.Keys
  {
    nx', runs' := nx, runs;
    var node := x;
    ghost var c := [x];
    ghost var counting := m + 1 < Pow2(|runs|);
    var i := 0;
    CarryStart(runs, c, m, counting);
    while i < 32 && pending[i] != Nil
      invariant CarryShape(runs, runs', c, i, m, counting)
      invariant CarryLinks(nx', pending[..], runs', node, c, y, rest, o, cmp)
      invariant nx'.Keys == nx.Keys
      decreases 32 - i
    {
      nx', node, runs', c := CarryMerge(pending, i, nx', node, cmp, runs, runs', c, y, rest, o, m, counting);
      i := i + 1;
    }
    runs' := CarryStore(pending, i, nx', node, cmp, runs, runs', c, y, rest, o, m, counting);
  }

  /** The end of the carry (queue.c:279-281): the carried run is stored in slot i, or in the last slot when i is 32. */
  method CarryStore(pending: array<int>, i: int, nx: map<int, int>, node: int, cmp: (int, int) -> int,
                    ghost runs0: seq<seq<int>>, ghost runs: seq<seq<int>>, ghost c: seq<int>, ghost y: int,
                    ghost rest: seq<int>, ghost o: seq<int>, ghost m: nat, ghost counting: bool)
    returns (ghost runs': seq<seq<int>>)
    requires pending.Length == 32 && 0 <= i <= 32 && (i == 32 || pending[i] == Nil)
    requires CarryShape(runs0, runs, c, i, m, counting) && CarryLinks(nx, pending[..], runs, node, c, y, rest, o, cmp)
    modifies pending
    ensures Counted(nx, pending[..], runs', y, rest, o, m + 1, cmp)
  {
    ghost var p := pending[..];
    var j := i;
    if j == 32 {
      j := j - 1;
    }
    pending[j] := node;
    assert pending[..] == p[j := node];
    CarryEnd(nx, p, runs0, runs, node, c, y, rest, o, i, m, counting, cmp, j);
    runs' := runs[j := c];
  }

  /** Cutting the first unvisited node off leaves slot l as it was. */
  lemma DetachSlot(nx: map<int, int>, runs: seq<seq<int>>, rest: seq<int>, o: seq<int>, l: int, h: int)
    requires rest != [] && 0 <= l < |runs| && Chain(nx, h, runs[l]) && Distinct(o)
    requires multiset(Flat(runs)) + multiset(rest) == multiset(o)
    ensures Chain(nx[rest[0] := Nil], h, runs[l])
  {
    var x := rest[0];
    forall k | 0 <= k < |runs[l]|
      ensures runs[l][k] in nx[x := Nil] && nx[x := Nil][runs[l][k]] == nx[runs[l][k]]
    {
      InFlat(runs, l, runs[l][k]);
      assert multiset(o)[x] == multiset(Flat(runs))[x] + multiset(rest)[x];
      AtMostOnce(o, x);
    }
    ChainFrame(nx, nx[x := Nil], h, runs[l]);
  }

  /**
   * Cutting the first node x of the unvisited list off it, by setting its
   * next to NULL, makes it a run of its own to carry.
   */
  lemma Detach(nx: map<int, int>, p: seq<int>, runs: seq<seq<int>>, rest: seq<int>, o: seq<int>, m: nat, cmp: (int, int) -> int)
    requires rest != [] && Counted(nx, p, runs, rest[0], rest, o, m, cmp) && Distinct(o) && Distinct(rest)
    ensures CarryLinks(nx[rest[0] := Nil], p, runs, rest[0], [rest[0]], nx[rest[0]], rest[1..], o, cmp)
  {
    var x := rest[0];
    var nx' := nx[x := Nil];
    HeadMultiset(rest);
    ChainTail(nx, rest);
    ChainFrame(nx, nx', nx[x], rest[1..]);
    forall l | 0 <= l < |p|
      ensures Chain(nx', p[l], runs[l])
    {
      DetachSlot(nx, runs, rest, o, l, p[l]);
    }
    assert multiset([x]) == multiset{x};
  }

  /** The unvisited nodes are nodes of o, so none of them occurs twice. */
  lemma RestDistinct(runs: seq<seq<int>>, rest: seq<int>, o: seq<int>)
    requires multiset(Flat(runs)) + multiset(rest) == multiset(o) && Distinct(o)
    ensures Distinct(rest)
  {
    var w := rest + Flat(runs);
    assert multiset(w) == multiset(o);
    DistinctPerm(w, o);
    assert forall i :: 0 <= i < |rest| ==> rest[i] == w[i];
  }

  /**
   * One turn of the main loop of q_sort (queue.c:271-281): the next node
   * (safe) is read, node x is cut off and carried into the slots, and the
   * turn moves on to safe.
   */
  method Visit(pending: array<int>, nx: map<int, int>, x: int, cmp: (int, int) -> int,
               ghost runs: seq<seq<int>>, ghost rest: seq<int>, ghost o: seq<int>, ghost m: nat)
    returns (nx': map<int, int>, ghost runs': seq<seq<int>>, safe: int)
    requires pending.Length == 32 && Connex(cmp) && Distinct(o)
    requires x != Nil && Counted(nx, pending[..], runs, x, rest, o, m, cmp)
    modifies pending
    ensures rest != [] && Counted(nx', pending[..], runs', safe, rest[1..], o, m + 1, cmp) && nx'.Keys == nx.Keys
  {
    RestDistinct(runs, rest, o);
    safe := nx[x];
    Detach(nx, pending[..], runs, rest, o, m, cmp);
    nx' := nx[x := Nil];
    nx', runs' := Carry(pending, nx', x, cmp, runs, rest[1..], o, safe, m);
  }

  /** Before the first node, every slot is empty and the whole list is unvisited. */
  lemma SlotsStart(nx: map<int, int>, p: seq<int>, runs: seq<seq<int>>, first: int, o: seq<int>, cmp: (int, int) -> int)
    requires |p| == |runs| && forall l :: 0 <= l < |p| ==> p[l] == Nil && runs[l] == []
    requires Chain(nx, first, o)
    ensures Counted(nx, p, runs, first, o, o, 0, cmp)
  {
    BitsZero(runs);
    FlatEmpty(runs);
  }

  /** A list that starts at NULL is empty. */
  lemma ChainEnd(nx: map<int, int>, s: seq<int>)
    requires Chain(nx, Nil, s)
    ensures s == []
  {
  }

  /**
   * The main loop of q_sort (queue.c:271-282) over the list cut open at its
   * last node: each node is cut off and carried into the slots. The loop
   * stops at the NULL that ends the list.
   */
  method BuildRuns(pending: array<int>, nx: map<int, int>, first: int, cmp: (int, int) -> int,
                   ghost o: seq<int>, ghost runs0: seq<seq<int>>)
    returns (nx': map<int, int>, ghost runs: seq<seq<int>>)
    requires pending.Length == 32 && Connex(cmp) && Distinct(o)
    requires Counted(nx, pending[..], runs0, first, o, o, 0, cmp)
    modifies pending
    ensures Counted(nx', pending[..], runs, Nil, [], o, |o|, cmp) && nx'.Keys == nx.Keys
  {
    nx', runs := nx, runs0;
    var node := first;
    ghost var rest := o;
    ghost var m := 0;
    while node != Nil
      invariant Counted(nx', pending[..], runs, node, rest, o, m, cmp)
      invariant m + |rest| == |o| && nx'.Keys == nx.Keys
      decreases |rest|
    {
      nx', runs, node := Visit(pending, nx', node, cmp, runs, rest, o, m);
      rest, m := rest[1..], m + 1;
    }
    ChainEnd(nx', rest);
  }

  // ---------------------------------------------------------------------------
  // The final merge

  /**
   * The binary counter of q_sort's carry loop, stated on the slots
   * themselves: after m nodes (m < 2^32), pending[l] is non-NULL exactly
   * when bit l of m is set, and then it starts a sorted run of 2^l nodes.
   */
  lemma PendingBits(nx: map<int, int>, p: seq<int>, runs: seq<seq<int>>, y: int, rest: seq<int>, o: seq<int>,
                    m: nat, cmp: (int, int) -> int)
    requires Counted(nx, p, runs, y, rest, o, m, cmp) && m < Pow2(|p|)
    ensures forall l :: 0 <= l < |p| ==> (p[l] != Nil <==> Bit(m, l))
    ensures forall l :: 0 <= l < |p| && p[l] != Nil ==> Chain(nx, p[l], runs[l]) && |runs[l]| == Pow2(l) && Sorted(runs[l], cmp)
  {
    forall l | 0 <= l < |p|
      ensures (p[l] != Nil <==> Bit(m, l)) && (p[l] != Nil ==> |runs[l]| == Pow2(l))
    {
      assert p[l] == Link(runs[l], 0);
      assert runs[l] != [] <==> Bit(m, l);
    }
  }

  /** The final loop starts with an empty result and the slots as they are. */
  lemma AssembleStart(nx: map<int, int>, p: seq<int>, runs: seq<seq<int>>, o: seq<int>, cmp: (int, int) -> int)
    requires Counted(nx, p, runs, Nil, [], o, |o|, cmp)
    ensures CarryLinks(nx, p, runs, Nil, [], Nil, [], o, cmp)
  {
    var e: seq<int> := [];
    assert multiset(e) == multiset{};
  }

  /** The first full slot becomes the result as it is. */
  lemma AssembleTake(nx: map<int, int>, p: seq<int>, runs: seq<seq<int>>, o: seq<int>, cmp: (int, int) -> int, i: int)
    requires CarryLinks(nx, p, runs, Nil, [], Nil, [], o, cmp) && 0 <= i < |p|
    ensures CarryLinks(nx, p[i := Nil], runs[i := []], p[i], runs[i], Nil, [], o, cmp)
  {
    SlotsSet(nx, p, runs, cmp, i, Nil, []);
    FlatRemove(runs, i);
    var e: seq<int> := [];
    assert multiset(e) == multiset{};
  }

  /** Once every slot was merged, the result holds every node. */
  lemma AssembleEnd(nx: map<int, int>, p: seq<int>, runs: seq<seq<int>>, result: int, s: seq<int>, o: seq<int>, cmp: (int, int) -> int)
    requires CarryLinks(nx, p, runs, result, s, Nil, [], o, cmp) && forall l :: 0 <= l < |p| ==> p[l] == Nil
    ensures Chain(nx, result, s) && Sorted(s, cmp) && multiset(s) == multiset(o)
  {
    forall l | 0 <= l < |runs|
      ensures runs[l] == []
    {
      ChainEnd(nx, runs[l]);
    }
    FlatEmpty(runs);
    var e: seq<int> := [];
    assert multiset(e) == multiset{};
  }

  /**
   * The final loop of q_sort (queue.c:284-287) as evidently intended: the
   * slots are merged from slot 0 up, each slot's run in front of the result
   * so far, so that earlier nodes stay in front; empty slots are skipped
   * and the first full slot becomes the result as it is.
   */
  method Assemble(pending: array<int>, nx: map<int, int>, cmp: (int, int) -> int, ghost runs: seq<seq<int>>, ghost o: seq<int>)
    returns (nx': map<int, int>, result: int, ghost s: seq<int>)
    requires pending.Length == 32 && Connex(cmp) && Distinct(o)
    requires Counted(nx, pending[..], runs, Nil, [], o, |o|, cmp)
    ensures Chain(nx', result, s) && Sorted(s, cmp) && multiset(s) == multiset(o) && nx'.Keys == nx.Keys
  {
    nx', result, s := nx, Nil, [];
    ghost var p, left := pending[..], runs;
    AssembleStart(nx, p, runs, o, cmp);
    for i := 0 to 32
      invariant CarryLinks(nx', p, left, result, s, Nil, [], o, cmp) && nx'.Keys == nx.Keys
      invariant |p| == 32 && (forall l :: 0 <= l < i ==> p[l] == Nil) && forall l :: i <= l < 32 ==> p[l] == pending[l]
    {
      if pending[i] != Nil {
        nx', result, s := AssembleSlot(nx', pending[i], result, cmp, p, left, s, o, i);
        p, left := p[i := Nil], left[i := []];
      }
    }
    AssembleEnd(nx', p, left, result, s, o, cmp);
  }

  /**
   * One turn of the final loop (queue.c:286) on the full slot i, which
   * starts at x: its run is merged in front of the result so far, or
   * becomes the result when there is none yet.
   */
  method AssembleSlot(nx: map<int, int>, x: int, result: int, cmp: (int, int) -> int, ghost p: seq<int>,
                      ghost left: seq<seq<int>>, ghost s: seq<int>, ghost o: seq<int>, ghost i: int)
    returns (nx': map<int, int>, result': int, ghost s': seq<int>)
    requires Connex(cmp) && Distinct(o) && 0 <= i < |p| && p[i] == x && x != Nil
    requires CarryLinks(nx, p, left, result, s, Nil, [], o, cmp)
    ensures CarryLinks(nx', p[i := Nil], left[i := []], result', s', Nil, [], o, cmp) && nx'.Keys == nx.Keys
  {
    if result == Nil {
      ChainEnd(nx, s);
      AssembleTake(nx, p, left, o, cmp, i);
      nx', result', s' := nx, x, left[i];
    } else {
      CarryPre(nx, p, left, result, s, Nil, [], o, cmp, i);
      var h;
      nx', h := MergeRuns(nx, x, result, cmp, left[i], s);
      CarryTurnLinks(nx, p, left, result, s, Nil, [], o, cmp, i, nx', h);
      result', s' := h, Merge(left[i], s, cmp);
    }
  }

  // ---------------------------------------------------------------------------
  // Closing the circle

  /**
   * build_prev_link (queue.c:218-228) as evidently intended: the sentinel's
   * next is set to the sorted list s (from result), the walk from the
   * sentinel gives every node its prev, and the last node and the sentinel
   * are linked to close the circle.
   */
  method BuildPrevLink(nx: map<int, int>, pv: map<int, int>, result: int, ghost s: seq<int>)
    returns (nx': map<int, int>, pv': map<int, int>)
    requires Chain(nx, result, s) && s != [] && Distinct(s) && Head !in s
    requires Head in nx && Head in pv && forall i :: 0 <= i < |s| ==> s[i] in pv
    ensures LinkedMaps(s, nx', pv') && nx'.Keys == nx.Keys && pv'.Keys == pv.Keys
  {
    nx', pv' := nx[Head := result], pv;
    var node := Head;
    ghost var j := 0;
    while nx'[node] != Nil
      invariant 0 <= j <= |s| && node == At(s, j - 1) && node in nx' && nx'[node] == Link(s, j)
      invariant nx' == nx[Head := result] && pv'.Keys == pv.Keys
      invariant forall i :: 0 <= i < j ==> pv'[s[i]] == At(s, i - 1)
      decreases |s| - j
    {
      var safe := nx'[node];
      pv' := pv'[safe := node];
      node := safe;
      j := j + 1;
    }
    assert j == |s|;
    nx' := nx'[node := Head];
    pv' := pv'[Head := node];
  }

  // ---------------------------------------------------------------------------
  // q_sort

  /** A list whose first and last nodes are the same node has at most one element. */
  lemma ShortList(o: seq<int>, nx: map<int, int>, pv: map<int, int>)
    requires LinkedMaps(o, nx, pv) && Head !in o && nx[Head] == pv[Head]
    ensures |o| <= 1
  {
    if |o| >= 2 {
      LinkedDistinct(o, nx);
      assert false;
    }
  }

  /**
   * Setting the last node's next to NULL (queue.c:269) turns the circle
   * into a list from the first node that ends in NULL.
   */
  lemma CutOpen(o: seq<int>, nx: map<int, int>, pv: map<int, int>, v: map<int, CStr>)
    requires LinkedMaps(o, nx, pv) && Stored(o, v) && Distinct(o) && o != []
    ensures Chain(nx[pv[Head] := Nil], nx[Head], o)
  {
    var last := o[|o| - 1];
    forall i | 0 <= i < |o|
      ensures nx[last := Nil][o[i]] == Link(o, i + 1)
    {
      if i < |o| - 1 {
        assert o[i] != last;
        assert nx[o[i]] == At(o, i + 1);
      }
    }
  }

  /** Reordering the elements keeps every one of them a stored node. */
  lemma StoredPerm(o: seq<int>, s: seq<int>, v: map<int, CStr>)
    requires Stored(o, v) && multiset(s) == multiset(o)
    ensures Stored(s, v)
  {
    forall i | 0 <= i < |s|
      ensures 0 < s[i] && s[i] in v
    {
      assert s[i] in multiset(o);
      var j :| 0 <= j < |o| && o[j] == s[i];
    }
  }

  /**
   * The body of q_sort between cutting the circle open and rebuilding the
   * prev links (queue.c:265-287): the list from first, which ends in NULL,
   * is carried node by node into an array of 32 empty slots, and the slots
   * are merged into one list. The result holds the same nodes, sorted.
   */
  method SortChain(nx: map<int, int>, first: int, cmp: (int, int) -> int, ghost o: seq<int>)
    returns (nx': map<int, int>, result: int, ghost s: seq<int>)
    requires Chain(nx, first, o) && Distinct(o) && Connex(cmp)
    ensures Chain(nx', result, s) && Sorted(s, cmp) && multiset(s) == multiset(o) && nx'.Keys == nx.Keys
  {
    var pending := new int[32](_ => Nil);
    ghost var runs0: seq<seq<int>> := seq(32, _ => []);
    SlotsStart(nx, pending[..], runs0, first, o, cmp);
    ghost var runs;
    nx', runs := BuildRuns(pending, nx, first, cmp, o, runs0);
    nx', result, s := Assemble(pending, nx', cmp, runs, o);
  }

  /**
   * q_sort (queue.c:260-289): a NULL queue and a queue whose first node is
   * also its last are left alone; otherwise the circle is cut open at its
   * last node, the nodes are carried into the 32 slots of pending, the
   * slots are merged into one sorted list, and the prev links and the
   * circle are rebuilt from the sentinel. The queue then holds the same
   * nodes, with the same strings, in an order that is sorted under
   * compare; nodes that compare equal keep their order (see Merge).
   * The flag descend is not read.
   */
  method Sort(q: Queue?, descend: bool, cmp: (int, int) -> int)
    requires q != null ==> q.Valid()
    requires Connex(cmp)
    modifies q
    ensures q != null ==> q.Valid() && q.val == old(q.val) && q.nextId == old(q.nextId)
    ensures q != null ==> multiset(q.order) == multiset(old(q.order)) && Sorted(q.order, cmp)
  {
    if q == null {
      return;
    }
    if q.nxt[Head] == q.prv[Head] {
      ShortList(q.order, q.nxt, q.prv);
      return;
    }
    ghost var o := q.order;
    LinkedDistinct(o, q.nxt);
    CutOpen(o, q.nxt, q.prv, q.val);
    var nx := q.nxt[q.prv[Head] := Nil];
    var result;
    ghost var s;
    nx, result, s := SortChain(nx, nx[Head], cmp, o);
    Relink(q, nx, result, s);
  }

  /**
   * The end of q_sort: build_prev_link (queue.c:288, as evidently
   * intended) turns the sorted list from result back into the queue's
   * circle, which then holds the nodes of s in order.
   */
  method Relink(q: Queue, nx: map<int, int>, result: int, ghost s: seq<int>)
    requires q.Valid() && q.order != [] && Chain(nx, result, s) && multiset(s) == multiset(q.order) && nx.Keys == q.nxt.Keys
    modifies q
    ensures q.Valid() && q.order == s && q.val == old(q.val) && q.nextId == old(q.nextId)
  {
    LinkedDistinct(q.order, q.nxt);
    SortedRun(s, q.order, q.prv);
    var nx', pv' := BuildPrevLink(nx, q.prv, result, s);
    StoredPerm(q.order, s, q.val);
    SameKeysBelow(q.nxt, q.prv, nx', pv', q.val, q.nextId);
    assert LinkedState(s, nx', pv', q.val, q.nextId);
    q.nxt, q.prv, q.order := nx', pv', s;
  }

  /** The sorted list holds the nodes of the queue, so it is a non-empty list of distinct nodes other than the sentinel. */
  lemma SortedRun(s: seq<int>, o: seq<int>, pv: map<int, int>)
    requires multiset(s) == multiset(o) && Distinct(o) && Head !in o && o != []
    requires forall i :: 0 <= i < |o| ==> o[i] in pv
    ensures s != [] && Distinct(s) && Head !in s && forall i :: 0 <= i < |s| ==> s[i] in pv
  {
    DistinctPerm(s, o);
    assert |s| == |multiset(s)| == |multiset(o)| == |o|;
    assert Head !in multiset(o);
    forall i | 0 <= i < |s|
      ensures s[i] in pv
    {
      assert s[i] in multiset(o);
      var j :| 0 <= j < |o| && o[j] == s[i];
    }
  }
}
