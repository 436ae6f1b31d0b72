/**
 * Value-level specifications of the list reorderings performed in place by
 * queue.c: full reversal, pairwise swap, k-group reversal, removal of one
 * position and removal of every element that has an equal neighbour.
 * The imperative operations in QueueOps are proved to produce exactly these
 * sequences of node ids.
 */
module SeqSpec {

  /** No element occurs twice. */
  ghost predicate Distinct<T>(s: seq<T>) {
    forall i, j :: 0 <= i < j < |s| ==> s[i] != s[j]
  }

  // ---------------------------------------------------------------------------
  // Reversal (q_reverse)

  /** The reversed sequence, built by taking the last element first. */
  function Rev<T>(s: seq<T>): (r: seq<T>)
    ensures |r| == |s|
  {
    if s == [] then [] else [s[|s| - 1]] + Rev(s[..|s| - 1])
  }

  /** Position i of the reversal holds position |s|-1-i of the input. */
  lemma {:induction false} RevAt<T>(s: seq<T>, i: int)
    requires 0 <= i < |s|
    ensures Rev(s)[i] == s[|s| - 1 - i]
  {
    if i > 0 {
      RevAt(s[..|s| - 1], i - 1);
    }
  }

  /** Reversal is an involution: reversing twice restores the sequence. */
  lemma RevRev<T>(s: seq<T>)
    ensures Rev(Rev(s)) == s
  {
    forall i | 0 <= i < |s|
      ensures Rev(Rev(s))[i] == s[i]
    {
      RevAt(Rev(s), i);
      RevAt(s, |s| - 1 - i);
    }
  }

  /**
   * One step of reversal by moving each node to the front: with o[..j]
   * already reversed, o[j] is at position j, and moving it to the front
   * reverses o[..j + 1].
   */
  lemma {:induction false} RevStep<T>(o: seq<T>, j: int)
    requires 0 <= j < |o|
    ensures var c := Rev(o[..j]) + o[j..];
            c[j] == o[j] && (j + 1 < |o| ==> c[j + 1] == o[j + 1]) &&
            InsertAt(RemoveAt(c, j), 0, o[j]) == Rev(o[..j + 1]) + o[j + 1..]
  {
    var c := Rev(o[..j]) + o[j..];
    assert RemoveAt(c, j) == Rev(o[..j]) + o[j + 1..];
    assert o[..j + 1][..j] == o[..j];
  }

  /** Once every element has been moved, the whole sequence is reversed. */
  lemma RevDone<T>(o: seq<T>)
    ensures Rev(o[..|o|]) + o[|o|..] == Rev(o)
  {
    assert o[..|o|] == o && o[|o|..] == [];
  }

  // ---------------------------------------------------------------------------
  // Pairwise swap (q_swap)

  /** Exchanges positions 2i and 2i+1; a trailing odd element stays put. */
  function SwapPairs<T>(s: seq<T>): (r: seq<T>)
    ensures |r| == |s|
  {
    if |s| < 2 then s else [s[1], s[0]] + SwapPairs(s[2..])
  }

  /** The partner of position i under SwapPairs in a sequence of length n. */
  function Mate(i: nat, n: nat): nat {
    if i % 2 == 0 && i + 1 < n then i + 1
    else if i % 2 == 1 then i - 1
    else i
  }

  /** Position i of SwapPairs(s) holds the element at i's mate. */
  lemma {:induction false} SwapPairsAt<T>(s: seq<T>, i: nat)
    requires i < |s|
    ensures Mate(i, |s|) < |s| && SwapPairs(s)[i] == s[Mate(i, |s|)]
  {
    if |s| >= 2 && i >= 2 {
      SwapPairsAt(s[2..], i - 2);
    }
  }

  /** Swapping pairs twice restores the sequence. */
  lemma {:induction false} SwapPairsTwice<T>(s: seq<T>)
    ensures SwapPairs(SwapPairs(s)) == s
  {
    if |s| >= 2 {
      SwapPairsTwice(s[2..]);
      assert SwapPairs(s)[2..] == SwapPairs(s[2..]);
    }
  }

  /** On an even-length prefix SwapPairs distributes over concatenation. */
  lemma {:induction false} SwapPairsAppend<T>(s: seq<T>, t: seq<T>)
    requires |s| % 2 == 0
    ensures SwapPairs(s + t) == SwapPairs(s) + SwapPairs(t)
  {
    if s != [] {
      assert |s| >= 2;
      calc {
        SwapPairs(s + t);
        [(s + t)[1], (s + t)[0]] + SwapPairs((s + t)[2..]);
        { assert (s + t)[2..] == s[2..] + t; }
        [s[1], s[0]] + SwapPairs(s[2..] + t);
        { SwapPairsAppend(s[2..], t); }
        [s[1], s[0]] + (SwapPairs(s[2..]) + SwapPairs(t));
      }
    } else {
      assert s + t == t;
    }
  }

  /**
   * One step of the pairwise swap: with the pairs of o[..j] swapped, o[j]
   * and o[j + 1] are at positions j and j + 1, and moving o[j] after
   * o[j + 1] swaps the pairs of o[..j + 2].
   */
  lemma {:induction false} SwapStep<T>(o: seq<T>, j: int)
    requires 0 <= j && j % 2 == 0 && j + 1 < |o|
    ensures var c := SwapPairs(o[..j]) + o[j..];
            var d := InsertAt(RemoveAt(c, j), j + 1, o[j]);
            c[j] == o[j] && c[j + 1] == o[j + 1] && RemoveAt(c, j)[j] == o[j + 1] &&
            d == SwapPairs(o[..j + 2]) + o[j + 2..] &&
            d[j + 1] == o[j] && (j + 2 < |o| ==> d[j + 2] == o[j + 2]) &&
            (j + 3 < |o| ==> d[j + 3] == o[j + 3])
  {
    var c := SwapPairs(o[..j]) + o[j..];
    assert RemoveAt(c, j) == SwapPairs(o[..j]) + [o[j + 1]] + o[j + 2..];
    SwapPairsAppend(o[..j], o[j..j + 2]);
    assert o[..j] + o[j..j + 2] == o[..j + 2];
    assert SwapPairs(o[j..j + 2]) == [o[j + 1], o[j]];
  }

  /** A last element without a partner stays where it is. */
  lemma {:induction false} SwapLast<T>(o: seq<T>, j: int)
    requires 0 <= j && j % 2 == 0 && j + 1 == |o|
    ensures SwapPairs(o[..j]) + o[j..] == SwapPairs(o)
  {
    SwapPairsAppend(o[..j], o[j..]);
    assert o[..j] + o[j..] == o;
  }

  /** Before the first visit nothing is swapped. */
  lemma SwapStart<T>(o: seq<T>)
    ensures SwapPairs(o[..0]) + o[0..] == o
  {
    assert o[..0] == [] && o[0..] == o;
  }

  /** Once every element has been visited, every pair is swapped. */
  lemma SwapDone<T>(o: seq<T>)
    ensures SwapPairs(o[..|o|]) + o[|o|..] == SwapPairs(o)
  {
    assert o[..|o|] == o && o[|o|..] == [];
  }

  // ---------------------------------------------------------------------------
  // k-group reversal (q_reverseK)

  /** Reverses each consecutive block of k elements; a final shorter block is kept. */
  function RevK<T>(s: seq<T>, k: nat): (r: seq<T>)
    requires k >= 1
    ensures |r| == |s|
    decreases |s|
  {
    if |s| < k then s else Rev(s[..k]) + RevK(s[k..], k)
  }

  /** Inside full block b, offset j receives offset k-1-j of the same block. */
  lemma {:induction false} RevKBlock<T>(s: seq<T>, k: nat, b: nat, j: nat)
    requires k >= 1 && (b + 1) * k <= |s| && j < k
    ensures RevK(s, k)[b * k + j] == s[b * k + (k - 1 - j)]
  {
    MulStep(b, k);
    if b == 0 {
      assert RevK(s, k)[j] == Rev(s[..k])[j];
      RevAt(s[..k], j);
    } else {
      var c := b - 1;
      MulStep(c, k);
      var p := c * k;
      RevKBlock(s[k..], k, c, j);
      RevKShift(s, k, p + j);
      assert b * k + j == k + (p + j);
      assert s[k..][p + (k - 1 - j)] == s[k + (p + (k - 1 - j))];
    }
  }

  lemma MulStep(c: nat, k: nat)
    ensures (c + 1) * k == c * k + k && c * k >= 0
  {
  }

  /** Past the first block, RevK(s, k) continues as RevK(s[k..], k). */
  lemma RevKShift<T>(s: seq<T>, k: nat, i: nat)
    requires k >= 1 && k + i < |s|
    ensures RevK(s, k)[k + i] == RevK(s[k..], k)[i]
  {
  }

  /** After the b full blocks, the elements of the short final block stay in place. */
  lemma {:induction false} RevKTail<T>(s: seq<T>, k: nat, b: nat, i: nat)
    requires k >= 1 && b * k <= i < |s| < (b + 1) * k
    ensures RevK(s, k)[i] == s[i]
  {
    if b > 0 {
      var c := b - 1;
      assert b * k == c * k + k;
      assert |s| >= k;
      assert RevK(s, k) == Rev(s[..k]) + RevK(s[k..], k);
      RevKTail(s[k..], k, c, i - k);
    }
  }

  /** With k = 1 every block is a single element and nothing moves. */
  lemma {:induction false} RevKOne<T>(s: seq<T>)
    ensures RevK(s, 1) == s
  {
    if s != [] {
      RevKOne(s[1..]);
      assert Rev(s[..1]) == s[..1];
    }
  }

  /** k-group reversal is an involution. */
  lemma {:induction false} RevKTwice<T>(s: seq<T>, k: nat)
    requires k >= 1
    ensures RevK(RevK(s, k), k) == s
    decreases |s|
  {
    if |s| >= k {
      var r := RevK(s, k);
      assert r[..k] == Rev(s[..k]);
      assert r[k..] == RevK(s[k..], k);
      RevRev(s[..k]);
      RevKTwice(s[k..], k);
    }
  }

  /** Appending one more full block after b whole blocks. */
  lemma {:induction false} RevKAppendBlock<T>(s: seq<T>, t: seq<T>, k: nat, b: nat)
    requires k >= 1 && |s| == b * k && |t| == k
    ensures RevK(s + t, k) == RevK(s, k) + Rev(t)
  {
    if b == 0 {
      assert s == [] && s + t == t;
      assert t[..k] == t && t[k..] == [];
      assert RevK(t, k) == Rev(t) + RevK([], k);
    } else {
      var c := b - 1;
      assert |s| == c * k + k;
      assert (s + t)[..k] == s[..k];
      assert (s + t)[k..] == s[k..] + t;
      RevKAppendBlock(s[k..], t, k, c);
    }
  }

  /** A short remainder appended after b whole blocks is left untouched. */
  lemma {:induction false} RevKAppendShort<T>(s: seq<T>, t: seq<T>, k: nat, b: nat)
    requires k >= 1 && |s| == b * k && |t| < k
    ensures RevK(s + t, k) == RevK(s, k) + t
  {
    if b == 0 {
      assert s == [] && s + t == t;
    } else {
      var c := b - 1;
      assert |s| == c * k + k;
      assert (s + t)[..k] == s[..k];
      assert (s + t)[k..] == s[k..] + t;
      RevKAppendShort(s[k..], t, k, c);
    }
  }

  /**
   * One step of q_reverseK: with the first d elements reversed in whole
   * blocks and o[d..j] reversed so far, o[j] is at position j, and moving
   * it to position d extends the reversed stretch to o[d..j + 1].
   */
  lemma {:induction false} RevKStep<T>(o: seq<T>, k: nat, d: int, j: int)
    requires k >= 1 && 0 <= d <= j < |o|
    ensures var c := RevK(o[..d], k) + Rev(o[d..j]) + o[j..];
            c[j] == o[j] &&
            InsertAt(RemoveAt(c, j), d, o[j]) == RevK(o[..d], k) + Rev(o[d..j + 1]) + o[j + 1..]
  {
    var a, r, y := RevK(o[..d], k), Rev(o[d..j]), o[j + 1..];
    var c := a + r + o[j..];
    assert |a| == d && |r| == j - d;
    assert c[..j] == a + r && c[j + 1..] == y;
    var e := RemoveAt(c, j);
    assert e == a + r + y;
    assert e[..d] == a && e[d..] == r + y;
    assert o[d..j + 1][..j - d] == o[d..j];
    assert Rev(o[d..j + 1]) == [o[j]] + r;
  }

  /** A completed block of k joins the reversed whole blocks. */
  lemma {:induction false} RevKGroup<T>(o: seq<T>, k: nat, d: int, b: nat)
    requires k >= 1 && d == Blocks(b, k) && d + k <= |o|
    ensures RevK(o[..d], k) + Rev(o[d..d + k]) + o[d + k..] ==
            RevK(o[..d + k], k) + Rev(o[d + k..d + k]) + o[d + k..]
  {
    BlocksMul(b, k);
    RevKAppendBlock(o[..d], o[d..d + k], k, b);
    assert o[..d] + o[d..d + k] == o[..d + k];
    assert Rev(o[d + k..d + k]) == [];
  }

  /** Fewer than k elements after the whole blocks are left in place. */
  lemma {:induction false} RevKShort<T>(o: seq<T>, k: nat, d: int, b: nat)
    requires k >= 1 && d == Blocks(b, k) && d < |o| < d + k
    ensures RevK(o[..d], k) + Rev(o[d..d + 1]) + o[d + 1..] == RevK(o, k)
  {
    BlocksMul(b, k);
    var s, t := o[..d], o[d..];
    var a, x, y := RevK(s, k), o[d..d + 1], o[d + 1..];
    RevSingle(x);
    assert x + y == t;
    RevKAppendShort(s, t, k, b);
    assert s + t == o;
    assert a + x + y == a + (x + y);
  }

  /** A single element is its own reversal. */
  lemma RevSingle<T>(x: seq<T>)
    requires |x| == 1
    ensures Rev(x) == x
  {
    assert x[..0] == [];
  }

  /** Before the first visit no block is reversed. */
  lemma RevKStart<T>(o: seq<T>, k: nat)
    requires k >= 1
    ensures RevK(o[..0], k) + Rev(o[0..0]) + o[0..] == o
  {
    assert o[..0] == [] && o[0..0] == [] && o[0..] == o;
  }

  /** Whole blocks only: the reversed blocks are the whole result. */
  lemma {:induction false} RevKEnd<T>(o: seq<T>, k: nat, d: int)
    requires k >= 1 && d == |o|
    ensures RevK(o[..d], k) + Rev(o[d..d]) + o[d..] == RevK(o, k)
  {
    assert o[..d] == o && o[d..] == [] && Rev(o[d..d]) == [];
  }

  /** The number of elements in b whole blocks of k. */
  function Blocks(b: nat, k: nat): (r: nat)
    ensures b > 0 ==> r >= k
  {
    if b == 0 then 0 else Blocks(b - 1, k) + k
  }

  lemma {:induction false} BlocksMul(b: nat, k: nat)
    ensures Blocks(b, k) == b * k
  {
    if b > 0 {
      BlocksMul(b - 1, k);
      MulStep(b - 1, k);
    }
  }

  /** n / k whole blocks fit in n, and one more does not. */
  lemma BlocksDiv(n: nat, k: nat)
    requires k >= 1
    ensures 0 <= n / k && Blocks(n / k, k) <= n < Blocks(n / k, k) + k
  {
    BlocksMul(n / k, k);
  }

  /** More blocks take up at least one block more room. */
  lemma {:induction false} BlocksMono(a: nat, b: nat, k: nat)
    requires a < b
    ensures Blocks(a, k) + k <= Blocks(b, k)
  {
    if a + 1 < b {
      BlocksMono(a, b - 1, k);
    }
  }

  /** A walk that stops at n inside the blocks has just completed one. */
  lemma WholeBlocks(n: int, k: nat, turn: nat, c: nat, r: int)
    requires k >= 1 && Blocks(turn, k) <= n && c <= turn && 0 <= r < k && Blocks(c, k) + r == n
    requires c == turn ==> r == 0
    ensures r == 0
  {
    if c < turn {
      BlocksMono(c, turn, k);
    }
  }

  /**
   * Where the walk of q_reverseK stands in a list whose elements were o and
   * are now c: the first done elements form countTurn reversed blocks,
   * o[done..j] (countK elements) is reversed so far, the rest is untouched,
   * and turn is the number of whole blocks in o.
   */
  ghost predicate RevKWalk<T>(c: seq<T>, o: seq<T>, k: int, turn: int,
                              j: int, done: int, countK: int, countTurn: int) {
    k >= 1 && 0 <= done <= j <= |o| && 0 <= countTurn <= turn && done == Blocks(countTurn, k) &&
    0 <= countK < k && j == done + countK && Blocks(turn, k) <= |o| < Blocks(turn, k) + k &&
    (countTurn == turn ==> countK == 0) &&
    c == RevK(o[..done], k) + Rev(o[done..j]) + o[j..]
  }

  lemma {:induction false} RevKWalkStart<T>(o: seq<T>, k: int, turn: int)
    requires k >= 1 && turn >= 0 && Blocks(turn, k) <= |o| < Blocks(turn, k) + k
    ensures RevKWalk(o, o, k, turn, 0, 0, 0, 0)
  {
    RevKStart(o, k);
  }

  /** The part the walk has not reached yet is untouched. */
  lemma {:induction false} RevKWalkAt<T>(c: seq<T>, o: seq<T>, k: int, turn: int,
                      j: int, done: int, countK: int, countTurn: int, i: int)
    requires RevKWalk(c, o, k, turn, j, done, countK, countTurn) && j <= i <= |o|
    ensures |c| == |o| && (i < |o| ==> c[i] == o[i])
  {
  }

  /** The node the walk visits is still at position j, and the positions before done stay put. */
  lemma {:induction false} RevKWalkPick<T>(c: seq<T>, o: seq<T>, k: int, turn: int,
                                           j: int, done: int, countK: int, countTurn: int)
    requires RevKWalk(c, o, k, turn, j, done, countK, countTurn) && j < |o|
    ensures |c| == |o| && c[j] == o[j] && 0 <= done <= j == done + countK && countK < k
    ensures done > 0 ==> RemoveAt(c, j)[done - 1] == c[done - 1] &&
                         InsertAt(RemoveAt(c, j), done, c[j])[done - 1] == c[done - 1]
  {
    RevKWalkAt(c, o, k, turn, j, done, countK, countTurn, j);
  }

  /**
   * One step of the walk: the element at position j is moved to position
   * done. Past the last whole block this leaves the k-group reversal of o;
   * otherwise it extends the current block, and completes it when it is the
   * k-th element.
   */
  lemma {:induction false} RevKWalkStep<T>(s: KState<T>, o: seq<T>, k: int, turn: int, j: nat)
    requires RevKWalk(s.c, o, k, turn, j, s.done, s.countK, s.countTurn) && j < |o|
    ensures var t := KNext(s, k, j);
            (s.countTurn == turn ==> t.c == RevK(o, k)) &&
            (s.countTurn < turn ==> RevKWalk(t.c, o, k, turn, j + 1, t.done, t.countK, t.countTurn))
  {
    if s.countTurn == turn {
      RevKWalkLast(s.c, o, k, turn, j, s.done, s.countK, s.countTurn);
    } else if s.countK + 1 == k {
      RevKWalkClose(s.c, o, k, turn, j, s.done, s.countK, s.countTurn);
    } else {
      RevKWalkExtend(s.c, o, k, turn, j, s.done, s.countK, s.countTurn);
    }
  }

  /** The element the walk moves sits at position j and extends the reversed stretch o[done..j]. */
  lemma {:induction false} RevKWalkMove<T>(c: seq<T>, o: seq<T>, k: int, turn: int,
                                           j: int, done: int, countK: int, countTurn: int)
    requires RevKWalk(c, o, k, turn, j, done, countK, countTurn) && j < |o|
    ensures c[j] == o[j] &&
            InsertAt(RemoveAt(c, j), done, c[j]) == RevK(o[..done], k) + Rev(o[done..j + 1]) + o[j + 1..]
  {
    RevKStep(o, k, done, j);
  }

  /** Once turn blocks are complete, the move leaves the k-group reversal. */
  lemma {:induction false} RevKWalkLast<T>(c: seq<T>, o: seq<T>, k: int, turn: int,
                                           j: int, done: int, countK: int, countTurn: int)
    requires RevKWalk(c, o, k, turn, j, done, countK, countTurn) && j < |o| && countTurn == turn
    ensures InsertAt(RemoveAt(c, j), done, c[j]) == RevK(o, k)
  {
    RevKWalkMove(c, o, k, turn, j, done, countK, countTurn);
    RevKShort(o, k, done, countTurn);
  }

  /** The k-th move of a block closes it. */
  lemma {:induction false} RevKWalkClose<T>(c: seq<T>, o: seq<T>, k: int, turn: int,
                                            j: int, done: int, countK: int, countTurn: int)
    requires RevKWalk(c, o, k, turn, j, done, countK, countTurn) && j < |o|
    requires countTurn < turn && countK + 1 == k
    ensures RevKWalk(InsertAt(RemoveAt(c, j), done, c[j]), o, k, turn, j + 1, done + k, 0, countTurn + 1)
  {
    RevKWalkMove(c, o, k, turn, j, done, countK, countTurn);
    RevKGroup(o, k, done, countTurn);
    assert done + k == j + 1;
  }

  /** Any other move extends the open block. */
  lemma {:induction false} RevKWalkExtend<T>(c: seq<T>, o: seq<T>, k: int, turn: int,
                                             j: int, done: int, countK: int, countTurn: int)
    requires RevKWalk(c, o, k, turn, j, done, countK, countTurn) && j < |o|
    requires countTurn < turn && countK + 1 != k
    ensures RevKWalk(InsertAt(RemoveAt(c, j), done, c[j]), o, k, turn, j + 1, done, countK + 1, countTurn)
  {
    RevKWalkMove(c, o, k, turn, j, done, countK, countTurn);
  }

  /** At the end of the list the walk has reversed every whole block. */
  lemma {:induction false} RevKWalkEnd<T>(c: seq<T>, o: seq<T>, k: int, turn: int,
                       j: int, done: int, countK: int, countTurn: int)
    requires RevKWalk(c, o, k, turn, j, done, countK, countTurn) && j == |o|
    ensures c == RevK(o, k)
  {
    WholeBlocks(|o|, k, turn, countTurn, countK);
    RevKEnd(o, k, done);
  }

  /** The list and the counters of q_reverseK's loop. */
  datatype KState<T> = KState(c: seq<T>, done: int, countK: int, countTurn: int)

  /**
   * One run of the loop body of q_reverseK on the element at position j:
   * it is moved to position done (behind `start`), and when it is the k-th
   * of its group the group is closed and done moves past it.
   */
  function KNext<T>(s: KState<T>, k: int, j: nat): (r: KState<T>)
    requires 0 <= s.done <= j < |s.c|
    ensures |r.c| == |s.c|
  {
    var full := s.countK + 1 == k;
    KState(InsertAt(RemoveAt(s.c, j), s.done, s.c[j]), if full then s.done + k else s.done,
           if full then 0 else s.countK + 1, if full then s.countTurn + 1 else s.countTurn)
  }

  /** The state of q_reverseK's loop after its body has run on the first j elements of o. */
  function KRun<T>(o: seq<T>, k: int, j: nat): (r: KState<T>)
    requires k >= 1 && j <= |o|
    ensures |r.c| == |o| && 0 <= r.done && 0 <= r.countK < k && 0 <= r.countTurn
    ensures r.done + r.countK == j
    decreases j
  {
    if j == 0 then KState(o, 0, 0, 0) else KNext(KRun(o, k, j - 1), k, j - 1)
  }

  /** The example from the queue's documentation: [1,2,3,4,5] with k = 2. */
  lemma RevKExample()
    ensures RevK([1, 2, 3, 4, 5], 2) == [2, 1, 4, 3, 5]
  {
    var s := [1, 2, 3, 4, 5];
    assert s[..2] == [1, 2] && s[2..] == [3, 4, 5];
    assert Rev([1, 2]) == [2, 1];
    assert [3, 4, 5][..2] == [3, 4] && [3, 4, 5][2..] == [5];
    assert Rev([3, 4]) == [4, 3];
  }

  // ---------------------------------------------------------------------------
  // Removal of one position (q_delete_mid)

  /** s without its element at position k. */
  function RemoveAt<T>(s: seq<T>, k: nat): (r: seq<T>)
    requires k < |s|
    ensures |r| == |s| - 1
  {
    s[..k] + s[k + 1..]
  }

  /** Position i of s without position k. */
  lemma RemoveAtIndex<T>(s: seq<T>, k: nat, i: int)
    requires k < |s| && 0 <= i < |s| - 1
    ensures RemoveAt(s, k)[i] == if i < k then s[i] else s[i + 1]
  {
  }

  /** s with x placed at position k. */
  function InsertAt<T>(s: seq<T>, k: nat, x: T): (r: seq<T>)
    requires k <= |s|
    ensures |r| == |s| + 1
  {
    s[..k] + [x] + s[k..]
  }

  /** Position i of s with x placed at position k. */
  lemma InsertAtIndex<T>(s: seq<T>, k: nat, x: T, i: int)
    requires k <= |s| && 0 <= i <= |s|
    ensures InsertAt(s, k, x)[i] == if i < k then s[i] else if i == k then x else s[i - 1]
  {
  }

  // ---------------------------------------------------------------------------
  // Removal of every element equal to a neighbour (q_delete_dup)

  /** Position i of v and the position after it hold equal elements. */
  predicate EqualNext<T(==)>(v: seq<T>, i: int) {
    0 <= i && i + 1 < |v| && v[i] == v[i + 1]
  }

  /** Position i of v equals the element just before or just after it. */
  predicate HasEqualNeighbour<T(==)>(v: seq<T>, i: int)
    requires 0 <= i < |v|
  {
    EqualNext(v, i - 1) || EqualNext(v, i)
  }

  /**
   * Of the first j elements of s, those whose key in v (the same position)
   * has no equal neighbour in v, in their original order.
   */
  function Lone<T, K(==)>(s: seq<T>, v: seq<K>, j: nat): (r: seq<T>)
    requires |s| == |v| && j <= |s|
    ensures |r| <= j
  {
    if j == 0 then []
    else Lone(s, v, j - 1) + (if HasEqualNeighbour(v, j - 1) then [] else [s[j - 1]])
  }

  /** x survives exactly when some occurrence of it has no equal neighbour. */
  lemma {:induction false} LoneMembers<T, K>(s: seq<T>, v: seq<K>, j: nat, x: T)
    requires |s| == |v| && j <= |s|
    ensures x in Lone(s, v, j) <==> exists i :: 0 <= i < j && s[i] == x && !HasEqualNeighbour(v, i)
  {
    if j > 0 {
      LoneMembers(s, v, j - 1, x);
    }
  }

  /** Both filters with the same keys keep the same number of elements. */
  lemma {:induction false} LoneLength<T, U, K>(s: seq<T>, t: seq<U>, v: seq<K>, j: nat)
    requires |s| == |v| && |t| == |v| && j <= |v|
    ensures |Lone(s, v, j)| == |Lone(t, v, j)|
  {
    if j > 0 {
      LoneLength(s, t, v, j - 1);
    }
  }

  /**
   * One step of q_delete_dup: with the first j elements filtered, o[j] is
   * at position |Lone(s, v, j)|; it is removed when its key has an equal
   * neighbour and kept otherwise.
   */
  lemma {:induction false} LoneStep<T, K>(s: seq<T>, v: seq<K>, j: int)
    requires |s| == |v| && 0 <= j < |s|
    ensures var p, c := |Lone(s, v, j)|, Lone(s, v, j) + s[j..];
            p < |c| && c[p] == s[j] && (j + 1 < |s| ==> c[p + 1] == s[j + 1]) &&
            (HasEqualNeighbour(v, j) ==> RemoveAt(c, p) == Lone(s, v, j + 1) + s[j + 1..]) &&
            (!HasEqualNeighbour(v, j) ==> c == Lone(s, v, j + 1) + s[j + 1..])
  {
    var p, c := |Lone(s, v, j)|, Lone(s, v, j) + s[j..];
    assert RemoveAt(c, p) == Lone(s, v, j) + s[j + 1..];
    assert s[j..] == [s[j]] + s[j + 1..];
  }

  /** Before the first visit nothing is filtered out. */
  lemma LoneStart<T, K>(s: seq<T>, v: seq<K>)
    requires |s| == |v|
    ensures Lone(s, v, 0) + s[0..] == s
  {
    assert s[0..] == s;
  }

  /** Once every element has been visited, only the filtered ones remain. */
  lemma LoneDone<T, K>(s: seq<T>, v: seq<K>)
    requires |s| == |v|
    ensures Lone(s, v, |s|) + s[|s|..] == Lone(s, v, |s|)
  {
    assert s[|s|..] == [];
  }

  /** Runs of equal values vanish entirely: [1,1,2,2,3] keeps only 3. */
  lemma LoneExample()
    ensures Lone([1, 1, 2, 2, 3], [1, 1, 2, 2, 3], 5) == [3]
  {
    var v := [1, 1, 2, 2, 3];
    assert HasEqualNeighbour(v, 0) && HasEqualNeighbour(v, 1);
    assert HasEqualNeighbour(v, 2) && HasEqualNeighbour(v, 3);
    assert !HasEqualNeighbour(v, 4);
  }
}
