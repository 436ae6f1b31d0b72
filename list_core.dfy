/**
 * The intrusive circular doubly-linked list of lab0-c, as an arena of nodes.
 *
 * Every node (the sentinel and each element_t) has an integer id; the
 * `next`/`prev` pointers are the maps `nxt`/`prv` from id to id, and each
 * element's `value` string is `val[id]`. The sentinel is id `Head` (0) and
 * NULL is `Nil` (-1). A node that is allocated gets a fresh id; a node that
 * is released (or handed to a caller) is dropped from the maps.
 *
 * The ghost sequence `order` lists the element ids in list order. `Valid()`
 * is the circular dual-link invariant that ties it to the pointers.
 * The list primitives of list.h (list_add, list_add_tail, list_del,
 * list_move, list_empty) are methods of the arena, specified by their effect
 * on `order`.
 */
module ListCore {
  import opened SeqSpec
  import opened CStrings

  /** The sentinel node, which also stands for the queue itself. */
  const Head: int := 0
  /** The NULL pointer. */
  const Nil: int := -1

  /** The node at position i of a circular list with elements s; position -1 and |s| are the sentinel. */
  function At(s: seq<int>, i: int): int {
    if 0 <= i < |s| then s[i] else Head
  }

  /** The ids occurring in s. */
  ghost function Elems(s: seq<int>): set<int> {
    set x | x in s
  }

  /** Releasing the nodes of o[..j] and then o[j] releases the nodes of o[..j + 1]. */
  lemma ReleaseStep<V>(m: map<int, V>, o: seq<int>, j: int)
    requires 0 <= j < |o|
    ensures (m - Elems(o[..j])) - {o[j]} == m - Elems(o[..j + 1])
  {
    assert o[..j + 1] == o[..j] + [o[j]];
    assert Elems(o[..j + 1]) == Elems(o[..j]) + {o[j]};
  }

  /** Releasing the elements and then the sentinel releases every node of the list. */
  lemma ReleaseLast<V>(m: map<int, V>, o: seq<int>)
    ensures (m - Elems(o[..|o|])) - {Head} == m - ({Head} + Elems(o))
  {
    assert o[..|o|] == o;
  }

  /** Removing position k of a sequence without repeats removes exactly s[k] from its elements. */
  lemma ElemsRemove(s: seq<int>, k: int)
    requires Distinct(s) && 0 <= k < |s|
    ensures Elems(RemoveAt(s, k)) == Elems(s) - {s[k]}
  {
    var r := RemoveAt(s, k);
    assert r == s[..k] + s[k + 1..];
    assert s == s[..k] + [s[k]] + s[k + 1..];
    assert s[k] !in r;
  }

  /**
   * Following nx from the sentinel visits o[0], o[1], ... and returns to the
   * sentinel.
   */
  ghost predicate NextLinks(o: seq<int>, nx: map<int, int>) {
    Head in nx && nx[Head] == At(o, 0) &&
    (forall i :: 0 <= i < |o| ==> o[i] in nx) &&
    (forall i {:trigger nx[o[i]]} :: 0 <= i < |o| ==> nx[o[i]] == At(o, i + 1))
  }

  /** Following pv from the sentinel visits the elements o backwards. */
  ghost predicate PrevLinks(o: seq<int>, pv: map<int, int>) {
    Head in pv && pv[Head] == At(o, |o| - 1) &&
    (forall i :: 0 <= i < |o| ==> o[i] in pv) &&
    (forall i {:trigger pv[o[i]]} :: 0 <= i < |o| ==> pv[o[i]] == At(o, i - 1))
  }

  /**
   * The pointer maps nx (next) and pv (prev) link the sentinel and the
   * elements o into one circle, in the order of o.
   */
  ghost predicate LinkedMaps(o: seq<int>, nx: map<int, int>, pv: map<int, int>) {
    NextLinks(o, nx) && PrevLinks(o, pv)
  }

  /**
   * The next links alone rule out repeated elements: were o[i] == o[j] with
   * i < j, the walks from both positions would agree step by step, and the
   * one from j would reach the sentinel while the one from i is still at an
   * element.
   */
  lemma LinkedDistinct(o: seq<int>, nx: map<int, int>)
    requires NextLinks(o, nx) && Head !in o
    ensures Distinct(o)
  {
    forall i, j | 0 <= i < j < |o|
      ensures o[i] != o[j]
    {
      if o[i] == o[j] {
        WalksAgree(o, nx, i, j, |o| - j);
      }
    }
  }

  /** A node of a linked list stands at one position only. */
  lemma SamePosition(o: seq<int>, nx: map<int, int>, i: int, j: int)
    requires NextLinks(o, nx) && Head !in o && 0 <= i < |o| && 0 <= j < |o| && o[i] == o[j]
    ensures i == j
  {
    LinkedDistinct(o, nx);
  }

  /** The node at position j does not occur earlier in the list. */
  lemma NotBefore(o: seq<int>, nx: map<int, int>, j: int)
    requires NextLinks(o, nx) && Head !in o && 0 <= j < |o|
    ensures o[j] !in Elems(o[..j])
  {
    LinkedDistinct(o, nx);
  }

  /** Two positions holding the same node have the same successors m steps on. */
  lemma {:induction false} WalksAgree(o: seq<int>, nx: map<int, int>, i: int, j: int, m: nat)
    requires NextLinks(o, nx) && 0 <= i < j < |o| && o[i] == o[j] && j + m <= |o|
    ensures At(o, i + m) == At(o, j + m)
  {
    if m > 0 {
      WalksAgree(o, nx, i, j, m - 1);
      assert nx[o[i + m - 1]] == At(o, i + m);
      assert nx[o[j + m - 1]] == At(o, j + m);
    }
  }

  /** Two writes to different keys of a map commute. */
  lemma Commute(m: map<int, int>, x: int, y: int, vx: int, vy: int)
    requires x != y
    ensures m[x := vx][y := vy] == m[y := vy][x := vx]
  {
  }

  /** h.next = n; n.next = b, with h at position k-1 and b at k, links InsertAt(o, k, n) forwards. */
  lemma NextIn(o: seq<int>, k: int, n: int, a: int, b: int, nx: map<int, int>)
    requires NextLinks(o, nx) && Distinct(o) && Head !in o
    requires 0 <= k <= |o| && n != Head && n !in o && n in nx
    requires a == At(o, k - 1) && b == At(o, k)
    ensures NextLinks(InsertAt(o, k, n), nx[a := n][n := b])
  {
    var o', nx' := InsertAt(o, k, n), nx[a := n][n := b];
    InsertAtIndex(o, k, n, 0);
    assert nx'[Head] == At(o', 0);
    forall i | 0 <= i < |o'|
      ensures o'[i] in nx' && nx'[o'[i]] == At(o', i + 1)
    {
      InsertAtIndex(o, k, n, i);
      if i + 1 < |o'| {
        InsertAtIndex(o, k, n, i + 1);
      }
      if i < k - 1 {
        assert o'[i] == o[i] && o[i] != a;
        assert nx[o[i]] == At(o, i + 1);
      } else if i == k - 1 {
        assert o'[i] == a;
      } else if i == k {
        assert o'[i] == n;
      } else {
        assert o'[i] == o[i - 1] && o[i - 1] != a;
        assert nx[o[i - 1]] == At(o, i);
      }
    }
  }

  /** b.prev = n; n.prev = a links InsertAt(o, k, n) backwards. */
  lemma PrevIn(o: seq<int>, k: int, n: int, a: int, b: int, pv: map<int, int>)
    requires PrevLinks(o, pv) && Distinct(o) && Head !in o
    requires 0 <= k <= |o| && n != Head && n !in o && n in pv
    requires a == At(o, k - 1) && b == At(o, k)
    ensures PrevLinks(InsertAt(o, k, n), pv[b := n][n := a])
  {
    var o', pv' := InsertAt(o, k, n), pv[b := n][n := a];
    InsertAtIndex(o, k, n, |o|);
    if k == |o| {
      assert b == Head && o'[|o|] == n;
    } else {
      assert b != Head && o'[|o|] == o[|o| - 1];
    }
    assert pv'[Head] == At(o', |o'| - 1);
    forall i | 0 <= i < |o'|
      ensures o'[i] in pv' && pv'[o'[i]] == At(o', i - 1)
    {
      PrevInAt(o, k, n, a, b, pv, i);
    }
  }

  /** After b.prev = n; n.prev = a, the node at position i of InsertAt(o, k, n) points back to position i - 1. */
  lemma PrevInAt(o: seq<int>, k: int, n: int, a: int, b: int, pv: map<int, int>, i: int)
    requires PrevLinks(o, pv) && Distinct(o) && Head !in o
    requires 0 <= k <= |o| && n != Head && n !in o && n in pv
    requires a == At(o, k - 1) && b == At(o, k) && 0 <= i <= |o|
    ensures InsertAt(o, k, n)[i] in pv[b := n][n := a]
    ensures pv[b := n][n := a][InsertAt(o, k, n)[i]] == At(InsertAt(o, k, n), i - 1)
  {
    var o', pv' := InsertAt(o, k, n), pv[b := n][n := a];
    InsertAtIndex(o, k, n, i);
    if i > 0 {
      InsertAtIndex(o, k, n, i - 1);
    }
    if i < k {
      assert o'[i] == o[i] && o[i] != b && o[i] != n;
      assert At(o', i - 1) == At(o, i - 1);
      assert pv'[o'[i]] == pv[o[i]];
    } else if i == k {
      assert o'[i] == n && At(o', i - 1) == a;
    } else if i == k + 1 {
      assert o'[i] == b && b != n && At(o', i - 1) == n;
    } else {
      assert o'[i] == o[i - 1] && o[i - 1] != b && o[i - 1] != n;
      assert At(o', i - 1) == At(o, i - 2);
      assert pv'[o'[i]] == pv[o[i - 1]];
    }
  }

  /** a.next = b, with a at position k-1 and b at k+1, links RemoveAt(o, k) forwards. */
  lemma NextOut(o: seq<int>, k: int, a: int, b: int, nx: map<int, int>)
    requires NextLinks(o, nx) && Distinct(o) && Head !in o
    requires 0 <= k < |o| && a == At(o, k - 1) && b == At(o, k + 1)
    ensures NextLinks(RemoveAt(o, k), nx[a := b])
  {
    var o', nx' := RemoveAt(o, k), nx[a := b];
    if |o'| > 0 {
      RemoveAtIndex(o, k, 0);
    }
    assert nx'[Head] == At(o', 0);
    forall i | 0 <= i < |o'|
      ensures o'[i] in nx' && nx'[o'[i]] == At(o', i + 1)
    {
      RemoveAtIndex(o, k, i);
      if i + 1 < |o'| {
        RemoveAtIndex(o, k, i + 1);
      }
      if i < k - 1 {
        assert o'[i] == o[i] && o[i] != a;
        assert nx[o[i]] == At(o, i + 1);
      } else if i == k - 1 {
        assert o'[i] == a;
      } else {
        assert o'[i] == o[i + 1] && o[i + 1] != a;
        assert nx[o[i + 1]] == At(o, i + 2);
      }
    }
  }

  /** b.prev = a links RemoveAt(o, k) backwards. */
  lemma PrevOut(o: seq<int>, k: int, a: int, b: int, pv: map<int, int>)
    requires PrevLinks(o, pv) && Distinct(o) && Head !in o
    requires 0 <= k < |o| && a == At(o, k - 1) && b == At(o, k + 1)
    ensures PrevLinks(RemoveAt(o, k), pv[b := a])
  {
    var o', pv' := RemoveAt(o, k), pv[b := a];
    if |o'| > 0 {
      RemoveAtIndex(o, k, |o'| - 1);
    }
    if k == |o| - 1 {
      assert b == Head && At(o', |o'| - 1) == a;
    } else {
      assert b != Head && o'[|o'| - 1] == o[|o| - 1];
    }
    assert pv'[Head] == At(o', |o'| - 1);
    forall i | 0 <= i < |o'|
      ensures o'[i] in pv' && pv'[o'[i]] == At(o', i - 1)
    {
      RemoveAtIndex(o, k, i);
      if i > 0 {
        RemoveAtIndex(o, k, i - 1);
      }
      if i < k {
        assert o'[i] == o[i] && o[i] != b;
        assert At(o', i - 1) == At(o, i - 1);
        assert pv'[o'[i]] == pv[o[i]];
      } else if i == k {
        assert o'[i] == b && At(o', i - 1) == a;
      } else {
        assert o'[i] == o[i + 1] && o[i + 1] != b;
        assert At(o', i - 1) == At(o, i);
        assert pv'[o'[i]] == pv[o[i + 1]];
      }
    }
  }

  /**
   * The circular dual-link invariant over explicit state: the maps link the
   * sentinel and the elements o into one circle, no element occurs twice,
   * every element is a positive id with a value, and every id in use is
   * below the allocation counter.
   */
  ghost predicate LinkedState(o: seq<int>, nx: map<int, int>, pv: map<int, int>,
                              v: map<int, CStr>, nextId: int) {
    LinkedMaps(o, nx, pv) && Stored(o, v) && Below(nx, pv, v, nextId)
  }

  /** Every element is a positive id that holds a value. */
  ghost predicate Stored(o: seq<int>, v: map<int, CStr>) {
    forall i :: 0 <= i < |o| ==> 0 < o[i] && o[i] in v
  }

  /** The strings stored at the elements o, in order. */
  ghost function Values(o: seq<int>, v: map<int, CStr>): (r: seq<CStr>)
    requires Stored(o, v)
    ensures |r| == |o| && forall i :: 0 <= i < |o| ==> r[i] == v[o[i]]
  {
    seq(|o|, i requires 0 <= i < |o| => v[o[i]])
  }

  /** A new element holding x, placed at position k, shows up as x at position k of the strings. */
  lemma ValuesInsert(o: seq<int>, k: int, n: int, v: map<int, CStr>, x: CStr)
    requires Stored(o, v) && 0 <= k <= |o| && n > 0 && n !in v
    ensures Stored(InsertAt(o, k, n), v[n := x])
    ensures Values(InsertAt(o, k, n), v[n := x]) == InsertAt(Values(o, v), k, x)
  {
    InsertStored(o, k, n, v[n := x]);
  }

  /** Releasing the element at position k removes position k of the strings. */
  lemma ValuesRemove(o: seq<int>, k: int, v: map<int, CStr>)
    requires Stored(o, v) && Distinct(o) && 0 <= k < |o|
    ensures Stored(RemoveAt(o, k), v - {o[k]})
    ensures Values(RemoveAt(o, k), v - {o[k]}) == RemoveAt(Values(o, v), k)
  {
    var o' := RemoveAt(o, k);
    forall i | 0 <= i < |o'|
      ensures 0 < o'[i] && o'[i] in v - {o[k]}
    {
      if i < k {
        assert o'[i] == o[i];
      } else {
        assert o'[i] == o[i + 1];
      }
    }
  }

  /** Moving the element at position k to position j moves its string alike. */
  lemma ValuesMove(o: seq<int>, k: int, j: int, v: map<int, CStr>)
    requires Stored(o, v) && 0 <= k < |o| && 0 <= j < |o|
    ensures Stored(InsertAt(RemoveAt(o, k), j, o[k]), v)
    ensures Values(InsertAt(RemoveAt(o, k), j, o[k]), v) ==
            InsertAt(RemoveAt(Values(o, v), k), j, Values(o, v)[k])
  {
    RemoveStored(o, k, v);
    InsertStored(RemoveAt(o, k), j, o[k], v);
  }

  /**
   * Releasing the linked element at position k: its id leaves the element
   * set and its string leaves the strings.
   */
  lemma ReleaseAt(o: seq<int>, k: int, nx: map<int, int>, v: map<int, CStr>)
    requires NextLinks(o, nx) && Stored(o, v) && 0 <= k < |o|
    ensures Elems(RemoveAt(o, k)) == Elems(o) - {o[k]}
    ensures Stored(RemoveAt(o, k), v - {o[k]})
    ensures Values(RemoveAt(o, k), v - {o[k]}) == RemoveAt(Values(o, v), k)
  {
    LinkedDistinct(o, nx);
    ElemsRemove(o, k);
    ValuesRemove(o, k, v);
  }

  /** A walk along stored elements meets the sentinel only past the last one. */
  lemma WalkEnd(o: seq<int>, j: int)
    requires Head !in o && 0 <= j <= |o|
    ensures At(o, j) == Head <==> j == |o|
  {
  }

  /** Every id in use is below the allocation counter. */
  ghost predicate Below(nx: map<int, int>, pv: map<int, int>, v: map<int, CStr>, nextId: int) {
    (forall x :: x in nx ==> x < nextId) &&
    (forall x :: x in pv ==> x < nextId) &&
    (forall x :: x in v ==> x < nextId)
  }

  lemma InsertStored(o: seq<int>, k: int, n: int, v: map<int, CStr>)
    requires Stored(o, v) && 0 <= k <= |o| && n > 0 && n in v
    ensures Stored(InsertAt(o, k, n), v)
  {
    var o' := InsertAt(o, k, n);
    forall i | 0 <= i < |o'|
      ensures 0 < o'[i] && o'[i] in v
    {
      if i < k {
        assert o'[i] == o[i];
      } else if i > k {
        assert o'[i] == o[i - 1];
      }
    }
  }

  lemma RemoveStored(o: seq<int>, k: int, v: map<int, CStr>)
    requires Stored(o, v) && 0 <= k < |o|
    ensures Stored(RemoveAt(o, k), v)
  {
    var o' := RemoveAt(o, k);
    forall i | 0 <= i < |o'|
      ensures 0 < o'[i] && o'[i] in v
    {
      if i < k {
        assert o'[i] == o[i];
      } else {
        assert o'[i] == o[i + 1];
      }
    }
  }

  /** Rewriting pointers of nodes already in the arena keeps every id below the counter. */
  lemma SameKeysBelow(nx: map<int, int>, pv: map<int, int>, nx': map<int, int>,
                      pv': map<int, int>, v: map<int, CStr>, nextId: int)
    requires Below(nx, pv, v, nextId) && nx'.Keys == nx.Keys && pv'.Keys == pv.Keys
    ensures Below(nx', pv', v, nextId)
  {
    assert forall x :: x in nx' ==> x in nx;
    assert forall x :: x in pv' ==> x in pv;
  }

  /** The nodes at positions k-1 and k are linked to each other. */
  lemma Neighbours(o: seq<int>, k: int, nx: map<int, int>, pv: map<int, int>)
    requires LinkedMaps(o, nx, pv) && 0 <= k <= |o|
    ensures At(o, k - 1) in nx && At(o, k - 1) in pv && At(o, k) in nx && At(o, k) in pv
    ensures nx[At(o, k - 1)] == At(o, k) && pv[At(o, k)] == At(o, k - 1)
  {
    if k > 0 {
      assert nx[o[k - 1]] == At(o, k);
    }
    if k < |o| {
      assert pv[o[k]] == At(o, k - 1);
    }
  }

  /** Linking a detached node n in between a (position k-1) and b (position k) keeps the invariant. */
  lemma InsertLinked(o: seq<int>, k: int, n: int, a: int, b: int, nx: map<int, int>,
                     pv: map<int, int>, v: map<int, CStr>, nextId: int)
    requires LinkedState(o, nx, pv, v, nextId)
    requires 0 <= k <= |o| && n > 0 && n !in o && n in nx && n in pv && n in v
    requires a == At(o, k - 1) && b == At(o, k)
    ensures LinkedState(InsertAt(o, k, n), nx[a := n][n := b], pv[b := n][n := a], v, nextId)
    ensures nx[a := n][n := b].Keys == nx.Keys && pv[b := n][n := a].Keys == pv.Keys
  {
    LinkedDistinct(o, nx);
    Neighbours(o, k, nx, pv);
    NextIn(o, k, n, a, b, nx);
    PrevIn(o, k, n, a, b, pv);
    InsertStored(o, k, n, v);
    assert nx[a := n][n := b].Keys == nx.Keys;
    assert pv[b := n][n := a].Keys == pv.Keys;
    SameKeysBelow(nx, pv, nx[a := n][n := b], pv[b := n][n := a], v, nextId);
  }

  /** Unlinking the node at position k, between a and b, keeps the invariant. */
  lemma RemoveLinked(o: seq<int>, k: int, a: int, b: int, nx: map<int, int>,
                     pv: map<int, int>, v: map<int, CStr>, nextId: int)
    requires LinkedState(o, nx, pv, v, nextId)
    requires 0 <= k < |o| && a == At(o, k - 1) && b == At(o, k + 1)
    ensures LinkedState(RemoveAt(o, k), nx[a := b], pv[b := a], v, nextId)
    ensures nx[a := b].Keys == nx.Keys && pv[b := a].Keys == pv.Keys
    ensures o[k] !in RemoveAt(o, k)
  {
    LinkedDistinct(o, nx);
    Neighbours(o, k, nx, pv);
    Neighbours(o, k + 1, nx, pv);
    NextOut(o, k, a, b, nx);
    PrevOut(o, k, a, b, pv);
    ElemsRemove(o, k);
    RemoveStored(o, k, v);
    assert nx[a := b].Keys == nx.Keys;
    assert pv[b := a].Keys == pv.Keys;
    SameKeysBelow(nx, pv, nx[a := b], pv[b := a], v, nextId);
  }

  class Queue {
    var nxt: map<int, int>
    var prv: map<int, int>
    var val: map<int, CStr>
    /** Every id in use is below nextId; allocation hands it out. */
    var nextId: int
    /** The element ids in list order, from the sentinel's next to its prev. */
    ghost var order: seq<int>

    /**
     * The circular dual-link invariant: following `nxt` from the sentinel
     * visits order[0], order[1], ... and comes back to the sentinel, and
     * `prv` is the same walk backwards. Every id in use is below nextId.
     */
    ghost predicate Valid()
      reads this
    {
      LinkedState(order, nxt, prv, val, nextId)
    }

    /** The strings of the queue, front to back. */
    ghost function Contents(): (r: seq<CStr>)
      reads this
      requires Valid()
      ensures |r| == |order|
    {
      Values(order, val)
    }

    /** INIT_LIST_HEAD on a fresh sentinel: an empty circular list. */
    constructor ()
      ensures Valid() && order == [] && nextId == 1
    {
      nxt := map[Head := Head];
      prv := map[Head := Head];
      val := map[];
      nextId := 1;
      order := [];
    }

    /**
     * For every linked node n (the sentinel included), n.prev.next == n and
     * n.next.prev == n.
     */
    lemma DualLinks()
      requires Valid()
      ensures forall x | x == Head || x in order ::
                x in nxt && x in prv && prv[x] in nxt && nxt[x] in prv &&
                nxt[prv[x]] == x && prv[nxt[x]] == x
    {
      forall x | x == Head || x in order
        ensures x in nxt && x in prv && prv[x] in nxt && nxt[x] in prv &&
                nxt[prv[x]] == x && prv[nxt[x]] == x
      {
        if x != Head {
          var i :| 0 <= i < |order| && order[i] == x;
          if i > 0 {
            assert prv[x] == order[i - 1];
          }
          if i + 1 < |order| {
            assert nxt[x] == order[i + 1];
          }
        } else if order != [] {
          assert prv[x] == order[|order| - 1];
          assert nxt[x] == order[0];
        }
      }
    }

    /** list_empty: the sentinel's next is the sentinel exactly when there are no elements. */
    function IsEmpty(): (r: bool)
      reads this
      requires Valid()
      ensures r <==> order == []
    {
      nxt[Head] == Head
    }

    /**
     * Allocation of an element_t holding a copy of s: a fresh id, not linked
     * into the list yet.
     */
    method Alloc(s: CStr) returns (n: int)
      requires Valid()
      modifies this
      ensures Valid() && order == old(order)
      ensures n > 0 && n !in old(nxt) && n !in old(prv) && n !in old(val)
      ensures nxt.Keys == old(nxt.Keys) + {n} && prv.Keys == old(prv.Keys) + {n}
      ensures val == old(val)[n := s]
    {
      n := nextId;
      nextId := nextId + 1;
      nxt := nxt[n := n];
      prv := prv[n := n];
      val := val[n := s];
    }

    /**
     * Release of a node (q_release_element, free, or the hand-over of a
     * removed element to the caller): it leaves the arena. Releasing a node
     * that is no longer linked keeps the list intact.
     */
    method Drop(n: int)
      modifies this
      ensures order == old(order) && nextId == old(nextId)
      ensures nxt == old(nxt) - {n} && prv == old(prv) - {n} && val == old(val) - {n}
      ensures old(Valid()) && n != Head && n !in order ==> Valid()
    {
      nxt := nxt - {n};
      prv := prv - {n};
      val := val - {n};
    }

    /** list_add(n, h): link the detached node n right after h, which is at position k-1. */
    method ListAdd(n: int, h: int, ghost k: int)
      requires Valid()
      requires n > 0 && n in nxt && n in prv && n in val && n !in order
      requires 0 <= k <= |order| && h == At(order, k - 1)
      modifies this
      ensures Valid()
      ensures order == InsertAt(old(order), k, n)
      ensures val == old(val) && nextId == old(nextId)
      ensures nxt.Keys == old(nxt.Keys) && prv.Keys == old(prv.Keys)
    {
      Neighbours(order, k, nxt, prv);
      var next := nxt[h];
      var nx, pv := nxt, prv;
      pv := pv[next := n];
      nx := nx[n := next];
      pv := pv[n := h];
      nx := nx[h := n];
      Commute(nxt, n, h, next, n);
      InsertLinked(order, k, n, h, next, nxt, prv, val, nextId);
      ghost var o := InsertAt(order, k, n);
      nxt, prv, order := nx, pv, o;
    }

    /** list_add_tail(n, h): link the detached node n right before h, which is at position k. */
    method ListAddTail(n: int, h: int, ghost k: int)
      requires Valid()
      requires n > 0 && n in nxt && n in prv && n in val && n !in order
      requires 0 <= k <= |order| && h == At(order, k)
      modifies this
      ensures Valid()
      ensures order == InsertAt(old(order), k, n)
      ensures val == old(val) && nextId == old(nextId)
      ensures nxt.Keys == old(nxt.Keys) && prv.Keys == old(prv.Keys)
    {
      Neighbours(order, k, nxt, prv);
      var prev := prv[h];
      var nx, pv := nxt, prv;
      nx := nx[prev := n];
      nx := nx[n := h];
      pv := pv[n := prev];
      pv := pv[h := n];
      Commute(nxt, prev, n, n, h);
      Commute(prv, n, h, prev, n);
      InsertLinked(order, k, n, prev, h, nxt, prv, val, nextId);
      ghost var o := InsertAt(order, k, n);
      nxt, prv, order := nx, pv, o;
    }

    /** list_del(n): unlink the node at position k; the node itself stays allocated. */
    method ListDel(n: int, ghost k: int)
      requires Valid()
      requires 0 <= k < |order| && n == order[k]
      modifies this
      ensures Valid()
      ensures order == RemoveAt(old(order), k) && n !in order
      ensures val == old(val) && nextId == old(nextId)
      ensures nxt.Keys == old(nxt.Keys) && prv.Keys == old(prv.Keys)
    {
      var next := nxt[n];
      var prev := prv[n];
      RemoveLinked(order, k, prev, next, nxt, prv, val, nextId);
      nxt, prv, order := nxt[prev := next], prv[next := prev], RemoveAt(order, k);
    }

    /**
     * list_move(n, h): list_del(n) then list_add(n, h); k is n's position
     * before the move and j-1 is h's position once n has been unlinked.
     */
    method ListMove(n: int, h: int, ghost k: int, ghost j: int)
      requires Valid()
      requires 0 <= k < |order| && n == order[k]
      requires 0 <= j < |order| && h == At(RemoveAt(order, k), j - 1)
      modifies this
      ensures Valid()
      ensures order == InsertAt(RemoveAt(old(order), k), j, n)
      ensures Contents() == InsertAt(RemoveAt(old(Contents()), k), j, old(Contents())[k])
      ensures val == old(val) && nextId == old(nextId)
      ensures nxt.Keys == old(nxt.Keys) && prv.Keys == old(prv.Keys)
    {
      ghost var o, v := order, val;
      ValuesMove(o, k, j, v);
      ListDel(n, k);
      ListAdd(n, h, j);
    }

  }
}
