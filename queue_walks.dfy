/**
 * The states that queue.c's list walks pass through, relating the arena to
 * the element order the walk started from.
 */
module QueueWalks {
  import opened SeqSpec
  import opened CStrings
  import opened ListCore

  /** The strings follow their nodes: k-group reversal of the nodes reverses the strings alike. */
  lemma {:induction false} RevKValues(o: seq<int>, t: seq<CStr>, v: map<int, CStr>, k: nat)
    requires k >= 1 && |o| == |t| && forall i :: 0 <= i < |o| ==> o[i] in v && v[o[i]] == t[i]
    ensures forall i :: 0 <= i < |o| ==> RevK(o, k)[i] in v && v[RevK(o, k)[i]] == RevK(t, k)[i]
    decreases |o|
  {
    if |o| >= k {
      RevKValues(o[k..], t[k..], v, k);
      forall i | 0 <= i < |o|
        ensures RevK(o, k)[i] in v && v[RevK(o, k)[i]] == RevK(t, k)[i]
      {
        if i < k {
          RevAt(o[..k], i);
          RevAt(t[..k], i);
        } else {
          RevKShift(o, k, i - k);
          RevKShift(t, k, i - k);
        }
      }
    }
  }

  /** So once the nodes are in k-group reversed order, so are the strings. */
  lemma KContents(q: Queue, o: seq<int>, V: seq<CStr>, k: nat)
    requires q.Valid() && k >= 1 && Stored(o, q.val) && V == Values(o, q.val) && q.order == RevK(o, k)
    ensures q.Contents() == RevK(V, k)
  {
    RevKValues(o, V, q.val, k);
  }

  /**
   * The node the next block of q_reverseK goes after, once `done` nodes of o
   * have been placed in whole groups of k: the last node of the reversed
   * prefix, which is the first node of the last group, or the head.
   */
  ghost function KAnchor(o: seq<int>, k: int, done: int): int {
    if k >= 1 && k <= done <= |o| then o[done - k] else Head
  }

  /** Where the walk of q_reverseK stands: its cursor and the node the next block goes after. */
  ghost predicate KWalk(o: seq<int>, k: int, j: int, done: int, node: int, safe: int, start: int) {
    node == At(o, j) && (node == Head <==> j == |o|) && (node != Head ==> safe == At(o, j + 1)) &&
    start == KAnchor(o, k, done)
  }

  /** In a walk state, the node just before position done is the anchor. */
  lemma KAnchorAt(c: seq<int>, o: seq<int>, k: int, turn: int,
                  j: int, done: int, countK: int, countTurn: int)
    requires RevKWalk(c, o, k, turn, j, done, countK, countTurn)
    ensures At(c, done - 1) == KAnchor(o, k, done)
  {
    if done > 0 {
      var b := countTurn - 1;
      BlocksMul(countTurn, k);
      MulStep(b, k);
      assert b * k == done - k;
      RevKBlock(o[..done], k, b, k - 1);
      assert c[done - 1] == (RevK(o[..done], k) + Rev(o[done..j]) + o[j..])[done - 1];
    }
  }

  /** When c agrees with o just after position j, the node before o's next node in c is c's node j. */
  lemma PrevOfNext(c: seq<int>, o: seq<int>, nx: map<int, int>, pv: map<int, int>, j: int, safe: int)
    requires LinkedMaps(c, nx, pv) && |c| == |o| && 0 <= j < |o|
    requires safe == At(o, j + 1) && (j + 1 < |o| ==> c[j + 1] == o[j + 1])
    ensures safe in pv && pv[safe] == At(c, j)
  {
    Neighbours(c, j + 1, nx, pv);
  }

  /**
   * When c agrees with o at positions j and j + 1, the j-th node of o is the
   * sentinel exactly at the end, and otherwise c links it to o's next node.
   */
  lemma NextOfAt(c: seq<int>, o: seq<int>, nx: map<int, int>, pv: map<int, int>, j: int, node: int)
    requires LinkedMaps(c, nx, pv) && Head !in o && |c| == |o| && 0 <= j <= |o| && node == At(o, j)
    requires j < |o| ==> c[j] == o[j]
    requires j + 1 < |o| ==> c[j + 1] == o[j + 1]
    ensures node in nx && (node == Head <==> j == |o|) && (node != Head ==> nx[node] == At(o, j + 1))
  {
    WalkEnd(o, j);
    if node != Head {
      Neighbours(c, j + 1, nx, pv);
    } else {
      Neighbours(c, 0, nx, pv);
    }
  }

  /**
   * The states KRun passes through on o, one for each j. The link to KRun is
   * only made where a KRun term is in sight, so that the loop of q_reverseK
   * reasons about runs[j] without unfolding KRun.
   */
  ghost predicate IsRun(o: seq<int>, k: int, runs: seq<KState<int>>) {
    k >= 1 && |runs| == |o| + 1 &&
    forall j {:trigger KRun(o, k, j)} :: 0 <= j <= |o| ==> runs[j] == KRun(o, k, j)
  }

  ghost function Runs(o: seq<int>, k: int): (r: seq<KState<int>>)
    requires k >= 1
    ensures IsRun(o, k, r) && r[0] == KState(o, 0, 0, 0)
  {
    seq(|o| + 1, j requires 0 <= j <= |o| => KRun(o, k, j))
  }

  /** Each state of the run follows from the one before. */
  lemma RunStep(o: seq<int>, k: int, runs: seq<KState<int>>, j: nat)
    requires IsRun(o, k, runs) && j < |o|
    ensures |runs[j].c| == |o| && 0 <= runs[j].done <= j && runs[j + 1] == KNext(runs[j], k, j)
  {
    assert runs[j] == KRun(o, k, j);
    assert runs[j + 1] == KRun(o, k, j + 1);
  }

  /** Up to the step on which the group count reaches turn, the run is a k-group reversal walk. */
  lemma {:induction false} RunWalk(o: seq<int>, k: int, turn: int, runs: seq<KState<int>>, j: nat)
    requires IsRun(o, k, runs) && j <= |o| && turn >= 0 && Blocks(turn, k) <= |o| < Blocks(turn, k) + k
    requires j == 0 || runs[j - 1].countTurn < turn
    ensures var s := runs[j]; RevKWalk(s.c, o, k, turn, j, s.done, s.countK, s.countTurn)
  {
    if j == 0 {
      assert runs[0] == KRun(o, k, 0);
      RevKWalkStart(o, k, turn);
    } else {
      if j > 1 {
        RunTurns(o, k, runs, j - 2);
      }
      RunWalk(o, k, turn, runs, j - 1);
      RunWalkStep(o, k, turn, runs, j - 1);
    }
  }

  /** The group count never decreases along the run. */
  lemma RunTurns(o: seq<int>, k: int, runs: seq<KState<int>>, j: nat)
    requires IsRun(o, k, runs) && j < |o|
    ensures runs[j].countTurn <= runs[j + 1].countTurn
  {
    RunStep(o, k, runs, j);
  }

  /** A step of the run before the group count reaches turn is a step of the walk. */
  lemma RunWalkStep(o: seq<int>, k: int, turn: int, runs: seq<KState<int>>, j: nat)
    requires IsRun(o, k, runs) && j < |o|
    requires var s := runs[j]; RevKWalk(s.c, o, k, turn, j, s.done, s.countK, s.countTurn) && s.countTurn < turn
    ensures var s := runs[j + 1]; RevKWalk(s.c, o, k, turn, j + 1, s.done, s.countK, s.countTurn)
  {
    RunStep(o, k, runs, j);
    RevKWalkStep(runs[j], o, k, turn, j);
  }

  /** The step on which the group count has reached turn leaves the run in its final order. */
  lemma RunStop(o: seq<int>, k: int, turn: int, runs: seq<KState<int>>, j: nat)
    requires IsRun(o, k, runs) && j < |o| && turn >= 0 && Blocks(turn, k) <= |o| < Blocks(turn, k) + k
    requires j == 0 || runs[j - 1].countTurn < turn
    requires runs[j].countTurn == turn
    ensures runs[j + 1].c == RevK(o, k)
  {
    RunWalk(o, k, turn, runs, j);
    RunStep(o, k, runs, j);
    RevKWalkStep(runs[j], o, k, turn, j);
  }

  /** Once the walk has passed every node, the run has put o in k-group reversed order. */
  lemma RunEnd(o: seq<int>, k: int, turn: int, runs: seq<KState<int>>)
    requires IsRun(o, k, runs) && turn >= 0 && Blocks(turn, k) <= |o| < Blocks(turn, k) + k
    requires |o| == 0 || runs[|o| - 1].countTurn < turn
    ensures runs[|o|].c == RevK(o, k)
  {
    var s := runs[|o|];
    RunWalk(o, k, turn, runs, |o|);
    RevKWalkEnd(s.c, o, k, turn, |o|, s.done, s.countK, s.countTurn);
  }

  /** The walk state that q_reverseK's loop leaves when it reaches the sentinel is the end of the run. */
  lemma WalkDone(o: seq<int>, k: int, turn: int, runs: seq<KState<int>>, j: int, c: seq<int>,
                 done: int, countK: int, countTurn: int, node: int, safe: int, start: int)
    requires IsRun(o, k, runs) && turn >= 0 && Blocks(turn, k) <= |o| < Blocks(turn, k) + k && Head !in o
    requires 0 <= j <= |o| && KState(c, done, countK, countTurn) == runs[j]
    requires j == 0 || runs[j - 1].countTurn < turn
    requires KWalk(o, k, j, done, node, safe, start) && node == Head
    ensures c == RevK(o, k)
  {
    RunEnd(o, k, turn, runs);
  }

  /**
   * Before the loop body of q_reverseK runs on o[j], in state
   * (c, done, countK, countTurn) of the run: o[j] and the two nodes after it
   * are still in place, and the anchor is right before position done once
   * o[j] is taken out.
   */
  lemma KRunHere(o: seq<int>, k: int, turn: int, runs: seq<KState<int>>, j: nat,
                 c: seq<int>, done: int, countK: int, countTurn: int)
    requires IsRun(o, k, runs) && j < |o| && turn >= 0 && Blocks(turn, k) <= |o| < Blocks(turn, k) + k
    requires j == 0 || runs[j - 1].countTurn < turn
    requires runs[j] == KState(c, done, countK, countTurn)
    ensures |c| == |o| && c[j] == o[j] && 0 <= done <= j && countTurn <= turn &&
            At(RemoveAt(c, j), done - 1) == KAnchor(o, k, done)
    ensures (j + 1 < |o| ==> c[j + 1] == o[j + 1]) && (j + 2 < |o| ==> c[j + 2] == o[j + 2])
  {
    RunWalk(o, k, turn, runs, j);
    RevKWalkPick(c, o, k, turn, j, done, countK, countTurn);
    KAnchorAt(c, o, k, turn, j, done, countK, countTurn);
    RevKWalkAt(c, o, k, turn, j, done, countK, countTurn, j + 1);
    if j + 2 <= |o| {
      RevKWalkAt(c, o, k, turn, j, done, countK, countTurn, j + 2);
    }
  }

  /**
   * After the loop body of q_reverseK has moved o[j] behind the anchor,
   * giving c', when the group count had already reached turn: c' is the
   * final order.
   */
  lemma KAfterStop(o: seq<int>, k: int, turn: int, runs: seq<KState<int>>, j: nat,
                   c: seq<int>, done: int, countK: int, c': seq<int>)
    requires IsRun(o, k, runs) && j < |o| && turn >= 0 && Blocks(turn, k) <= |o| < Blocks(turn, k) + k
    requires j == 0 || runs[j - 1].countTurn < turn
    requires runs[j] == KState(c, done, countK, turn)
    requires |c| == |o| && c[j] == o[j] && 0 <= done <= j && c' == InsertAt(RemoveAt(c, j), done, o[j])
    ensures c' == RevK(o, k)
  {
    RunStep(o, k, runs, j);
    RunStop(o, k, turn, runs, j);
  }

  /**
   * Otherwise c' is the next state of the run, and the two nodes after
   * position j are still in place.
   */
  lemma KAfterNext(o: seq<int>, k: int, runs: seq<KState<int>>, j: nat,
                   c: seq<int>, done: int, countK: int, countTurn: int, c': seq<int>)
    requires IsRun(o, k, runs) && j < |o|
    requires runs[j] == KState(c, done, countK, countTurn)
    requires |c| == |o| && c[j] == o[j] && 0 <= done <= j && c' == InsertAt(RemoveAt(c, j), done, o[j])
    requires (j + 1 < |o| ==> c[j + 1] == o[j + 1]) && (j + 2 < |o| ==> c[j + 2] == o[j + 2])
    ensures runs[j + 1] == if countK + 1 == k then KState(c', done + k, 0, countTurn + 1)
                           else KState(c', done, countK + 1, countTurn)
    ensures (j + 1 < |o| ==> c'[j + 1] == o[j + 1]) && (j + 2 < |o| ==> c'[j + 2] == o[j + 2])
  {
    RunStep(o, k, runs, j);
  }

  /** And when the move completes a group, its last node, now at position j, is the new anchor. */
  lemma KAfterAnchor(o: seq<int>, k: int, turn: int, runs: seq<KState<int>>, j: nat,
                     c': seq<int>, done: int, countTurn: int)
    requires IsRun(o, k, runs) && j < |o| && turn >= 0 && Blocks(turn, k) <= |o| < Blocks(turn, k) + k
    requires runs[j].countTurn < turn && runs[j + 1] == KState(c', done + k, 0, countTurn + 1)
    ensures At(c', j) == KAnchor(o, k, done + k)
  {
    RunWalk(o, k, turn, runs, j + 1);
    KAnchorAt(c', o, k, turn, j + 1, done + k, 0, countTurn + 1);
  }

  /** The three cases above together: what one move of q_reverseK leaves behind. */
  lemma KAfter(o: seq<int>, k: int, turn: int, runs: seq<KState<int>>, j: nat,
               c: seq<int>, done: int, countK: int, countTurn: int, c': seq<int>)
    requires IsRun(o, k, runs) && j < |o| && turn >= 0 && Blocks(turn, k) <= |o| < Blocks(turn, k) + k
    requires j == 0 || runs[j - 1].countTurn < turn
    requires runs[j] == KState(c, done, countK, countTurn) && countTurn <= turn
    requires |c| == |o| && c[j] == o[j] && 0 <= done <= j && c' == InsertAt(RemoveAt(c, j), done, o[j])
    requires (j + 1 < |o| ==> c[j + 1] == o[j + 1]) && (j + 2 < |o| ==> c[j + 2] == o[j + 2])
    ensures |c'| == |o|
    ensures countTurn == turn ==> c' == RevK(o, k)
    ensures countTurn < turn ==>
              runs[j + 1] == (if countK + 1 == k then KState(c', done + k, 0, countTurn + 1)
                              else KState(c', done, countK + 1, countTurn)) &&
              (j + 1 < |o| ==> c'[j + 1] == o[j + 1]) && (j + 2 < |o| ==> c'[j + 2] == o[j + 2]) &&
              (countK + 1 == k ==> At(c', j) == KAnchor(o, k, done + k))
  {
    if countTurn == turn {
      KAfterStop(o, k, turn, runs, j, c, done, countK, c');
    } else {
      KAfterNext(o, k, runs, j, c, done, countK, countTurn, c');
      if countK + 1 == k {
        KAfterAnchor(o, k, turn, runs, j, c', done, countTurn);
      }
    }
  }
}
