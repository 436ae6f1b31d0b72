/**
 * The queue operations of queue.c over the node arena of ListCore.
 *
 * A `struct list_head *head` that may be NULL is a `Queue?`; every
 * operation first handles NULL the way queue.c does. Allocation failures
 * of malloc and strdup are boolean parameters, since the model has no
 * allocator that can fail.
 */
module QueueOps {
  import opened SeqSpec
  import opened CStrings
  import opened ListCore
  import opened QueueWalks

  datatype Option<T> = None | Some(value: T)

  /** An element_t handed to the caller by q_remove_head / q_remove_tail. */
  datatype Element = Element(id: int, value: CStr)

  /** q_new: an empty queue, or NULL when malloc fails. */
  method New(mallocOk: bool) returns (q: Queue?)
    ensures q != null <==> mallocOk
    ensures q != null ==> fresh(q) && q.Valid() && q.order == []
  {
    if !mallocOk {
      return null;
    }
    q := new Queue();
  }

  /**
   * q_free: releases every element, then the sentinel: exactly the nodes of
   * the queue leave the arena. NULL is ignored.
   */
  method Free(q: Queue?)
    requires q != null ==> q.Valid()
    modifies q
    ensures q != null ==> var gone := {Head} + Elems(old(q.order));
                          q.nxt == old(q.nxt) - gone && q.prv == old(q.prv) - gone &&
                          q.val == old(q.val) - gone
  {
    if q == null {
      return;
    }
    ghost var o, nx0, pv0, v0 := q.order, q.nxt, q.prv, q.val;
    var entry := q.nxt[Head];
    ghost var j := 0;
    while entry != Head
      invariant 0 <= j <= |o| && entry == At(o, j) && q.order == o
      invariant q.nxt == nx0 - Elems(o[..j]) && q.prv == pv0 - Elems(o[..j])
      invariant q.val == v0 - Elems(o[..j])
      decreases |o| - j
    {
      NotBefore(o, nx0, j);
      Neighbours(o, j + 1, nx0, pv0);
      var safe := q.nxt[entry];
      q.Drop(entry);
      ReleaseStep(nx0, o, j);
      ReleaseStep(pv0, o, j);
      ReleaseStep(v0, o, j);
      entry := safe;
      j := j + 1;
    }
    q.Drop(Head);
    ReleaseLast(nx0, o);
    ReleaseLast(pv0, o);
    ReleaseLast(v0, o);
  }

  /** q_insert_head: a copy of s becomes the first element. */
  method InsertHead(q: Queue?, s: CStr, mallocOk: bool, strdupOk: bool) returns (r: bool)
    requires q != null ==> q.Valid()
    modifies q
    ensures r <==> q != null && mallocOk && strdupOk
    ensures q != null ==> q.Valid()
    ensures q != null && !r ==> unchanged(q)
    ensures r ==> q.Contents() == [s] + old(q.Contents()) && q.order[1..] == old(q.order) &&
                  q.val == old(q.val)[q.order[0] := s]
  {
    if q == null || !mallocOk || !strdupOk {
      return false;
    }
    ghost var o, v := q.order, q.val;
    var n := q.Alloc(s);
    q.ListAdd(n, Head, 0);
    ValuesFirst(o, n, v, s);
    return true;
  }

  /** A node holding x put in front of o puts x in front of o's strings. */
  lemma ValuesFirst(o: seq<int>, n: int, v: map<int, CStr>, x: CStr)
    requires Stored(o, v) && n > 0 && n !in v
    ensures Values(InsertAt(o, 0, n), v[n := x]) == [x] + Values(o, v) && InsertAt(o, 0, n)[1..] == o
  {
    ValuesInsert(o, 0, n, v, x);
    assert InsertAt(Values(o, v), 0, x) == [x] + Values(o, v);
  }

  /** q_insert_tail: a copy of s becomes the last element. */
  method InsertTail(q: Queue?, s: CStr, mallocOk: bool, strdupOk: bool) returns (r: bool)
    requires q != null ==> q.Valid()
    modifies q
    ensures r <==> q != null && mallocOk && strdupOk
    ensures q != null ==> q.Valid()
    ensures q != null && !r ==> unchanged(q)
    ensures r ==> var last := |q.order| - 1;
                  q.Contents() == old(q.Contents()) + [s] && q.order[..last] == old(q.order) &&
                  q.val == old(q.val)[q.order[last] := s]
  {
    if q == null || !mallocOk || !strdupOk {
      return false;
    }
    ghost var o, v := q.order, q.val;
    var n := q.Alloc(s);
    q.ListAddTail(n, Head, |o|);
    ValuesLast(o, n, v, s);
    return true;
  }

  /** A node holding x put after o puts x after o's strings. */
  lemma ValuesLast(o: seq<int>, n: int, v: map<int, CStr>, x: CStr)
    requires Stored(o, v) && n > 0 && n !in v
    ensures Values(InsertAt(o, |o|, n), v[n := x]) == Values(o, v) + [x] && InsertAt(o, |o|, n)[..|o|] == o
  {
    ValuesInsert(o, |o|, n, v, x);
    assert InsertAt(Values(o, v), |o|, x) == Values(o, v) + [x];
  }

  /**
   * list_del of the element at position k, after which the element leaves
   * the queue: q_release_element frees it, or it is handed to the caller.
   */
  method Unlink(q: Queue, n: int, ghost k: int)
    requires q.Valid() && 0 <= k < |q.order| && n == q.order[k]
    modifies q
    ensures q.Valid() && q.order == RemoveAt(old(q.order), k)
    ensures q.val == old(q.val) - {n} && q.nextId == old(q.nextId)
    ensures q.Contents() == RemoveAt(old(q.Contents()), k)
  {
    ghost var o, v := q.order, q.val;
    ReleaseAt(o, k, q.nxt, v);
    assert n != Head;
    q.ListDel(n, k);
    q.Drop(n);
  }

  /**
   * The bounded copy-out of a removed element's string into sp:
   * strncpy(sp, value, bufsize) followed by sp[bufsize - 1] = '\0'.
   */
  method CopyOut(sp: array<char>, value: CStr, bufsize: nat)
    requires 1 <= bufsize <= sp.Length
    modifies sp
    ensures sp[..bufsize] == BoundedCopy(value, bufsize)
    ensures sp[bufsize..] == old(sp[bufsize..])
  {
    StrNCopy(sp, value, bufsize);
    sp[bufsize - 1] := '\0';
    assert sp[..bufsize] == NCopy(value, bufsize)[bufsize - 1 := '\0'];
  }

  /**
   * q_remove_head: NULL for a NULL or empty queue; otherwise the first
   * element leaves the queue and is returned, and when sp is not NULL its
   * string is copied into sp[0..bufsize), truncated and NUL-terminated.
   */
  method RemoveHead(q: Queue?, sp: array?<char>, bufsize: nat) returns (r: Option<Element>)
    requires q != null ==> q.Valid()
    requires q != null && q.order != [] && sp != null ==> 1 <= bufsize <= sp.Length
    modifies q, sp
    ensures q != null ==> q.Valid()
    ensures r == None <==> q == null || old(q.order) == []
    ensures r == None ==> (q != null ==> unchanged(q)) && (sp != null ==> unchanged(sp))
    ensures r != None ==> r.value == Element(old(q.order[0]), old(q.Contents()[0])) &&
                          q.order == old(q.order[1..]) && q.Contents() == old(q.Contents()[1..]) &&
                          q.val == old(q.val) - {r.value.id} && q.nextId == old(q.nextId)
    ensures r != None && sp != null ==> sp[..bufsize] == BoundedCopy(r.value.value, bufsize) &&
                                        sp[bufsize..] == old(sp[bufsize..])
  {
    if q == null || q.IsEmpty() {
      return None;
    }
    var n := q.nxt[Head];
    var value := q.val[n];
    Unlink(q, n, 0);
    if sp != null {
      CopyOut(sp, value, bufsize);
    }
    return Some(Element(n, value));
  }

  /** q_remove_tail: as q_remove_head, for the last element. */
  method RemoveTail(q: Queue?, sp: array?<char>, bufsize: nat) returns (r: Option<Element>)
    requires q != null ==> q.Valid()
    requires q != null && q.order != [] && sp != null ==> 1 <= bufsize <= sp.Length
    modifies q, sp
    ensures q != null ==> q.Valid()
    ensures r == None <==> q == null || old(q.order) == []
    ensures r == None ==> (q != null ==> unchanged(q)) && (sp != null ==> unchanged(sp))
    ensures r != None ==> var last := |old(q.order)| - 1;
                          r.value == Element(old(q.order[last]), old(q.Contents()[last])) &&
                          q.order == old(q.order[..last]) && q.Contents() == old(q.Contents()[..last]) &&
                          q.val == old(q.val) - {r.value.id} && q.nextId == old(q.nextId)
    ensures r != None && sp != null ==> sp[..bufsize] == BoundedCopy(r.value.value, bufsize) &&
                                        sp[bufsize..] == old(sp[bufsize..])
  {
    if q == null || q.IsEmpty() {
      return None;
    }
    var n := q.prv[Head];
    var value := q.val[n];
    Unlink(q, n, |q.order| - 1);
    if sp != null {
      CopyOut(sp, value, bufsize);
    }
    return Some(Element(n, value));
  }

  /** q_size: the number of elements, counted by walking the list; 0 for NULL. */
  method Size(q: Queue?) returns (r: int)
    requires q != null ==> q.Valid()
    ensures r == if q == null then 0 else |q.order|
  {
    if q == null {
      return 0;
    }
    r := 0;
    var li := q.nxt[Head];
    while li != Head
      invariant 0 <= r <= |q.order| && li == At(q.order, r)
      decreases |q.order| - r
    {
      assert li == q.order[r];
      r := r + 1;
      li := q.nxt[li];
    }
  }

  /**
   * The pointer walk of q_delete_mid: a fast pointer advancing two nodes and
   * a slow pointer advancing one, from the first element, until the fast
   * pointer reaches the sentinel or the last element. The slow pointer then
   * stands at position n / 2.
   */
  method Middle(q: Queue) returns (slow: int)
    requires q.Valid() && q.order != []
    ensures slow == q.order[|q.order| / 2]
  {
    assert Head !in q.order;
    slow := MiddleWalk(q.nxt, q.prv, q.order);
  }

  /** The walk of Middle over the pointer maps of a list with elements o. */
  method MiddleWalk(nx: map<int, int>, pv: map<int, int>, ghost o: seq<int>) returns (slow: int)
    requires LinkedMaps(o, nx, pv) && Head !in o && o != []
    ensures slow == o[|o| / 2]
  {
    assert pv[Head] == o[|o| - 1];
    var fast := nx[Head];
    slow := nx[Head];
    ghost var f, t := 0, 0;
    while fast != Head && fast != pv[Head]
      invariant f == 2 * t && 0 <= f <= |o| && t < |o| && fast == At(o, f) && slow == o[t]
      decreases |o| - f
    {
      assert f + 1 < |o|;
      Neighbours(o, f + 1, nx, pv);
      Neighbours(o, f + 2, nx, pv);
      Neighbours(o, t + 1, nx, pv);
      var second := nx[fast];
      fast := nx[second];
      slow := nx[slow];
      t, f := t + 1, f + 2;
    }
    if fast != Head {
      SamePosition(o, nx, f, |o| - 1);
    }
  }

  /** q_delete_mid: deletes the element at position n / 2; false for a NULL or empty queue. */
  method DeleteMid(q: Queue?) returns (r: bool)
    requires q != null ==> q.Valid()
    modifies q
    ensures r <==> q != null && old(q.order) != []
    ensures q != null ==> q.Valid()
    ensures q != null && !r ==> unchanged(q)
    ensures r ==> var mid := |old(q.order)| / 2;
                  q.order == RemoveAt(old(q.order), mid) && q.Contents() == RemoveAt(old(q.Contents()), mid) &&
                  q.val == old(q.val) - {old(q.order)[mid]} && q.nextId == old(q.nextId)
  {
    if q == null || q.IsEmpty() {
      return false;
    }
    var slow := Middle(q);
    Unlink(q, slow, |q.order| / 2);
    return true;
  }

  /**
   * q_delete_dup: walking the queue once, an element is released when its
   * string equals the next element's string (strcmp) or when the element
   * before it was released for being equal to it; every element that has an
   * equal neighbour goes, so a run of equal strings vanishes entirely.
   * False for a NULL or empty queue.
   */
  method DeleteDup(q: Queue?) returns (r: bool)
    requires q != null ==> q.Valid()
    modifies q
    ensures r <==> q != null && old(q.order) != []
    ensures q != null ==> q.Valid()
    ensures q != null && !r ==> unchanged(q)
    ensures r ==> var n := |old(q.order)|;
                  q.order == Lone(old(q.order), old(q.Contents()), n) &&
                  q.Contents() == Lone(old(q.Contents()), old(q.Contents()), n) &&
                  q.val == old(q.val) - (Elems(old(q.order)) - Elems(q.order)) && q.nextId == old(q.nextId)
  {
    if q == null || q.IsEmpty() {
      return false;
    }
    ghost var o, V := q.order, q.Contents();
    DupScanStart(q);
    DupWalk(q, o, V, q.val, q.nextId);
    return true;
  }

  /** The loop of q_delete_dup, from the first element to the sentinel. */
  method DupWalk(q: Queue, ghost o: seq<int>, ghost V: seq<CStr>, ghost v0: map<int, CStr>, ghost n0: int)
    requires DupScan(q, o, V, 0, At(o, 0), At(o, 1), false) && q.val == v0 && q.nextId == n0
    modifies q
    ensures q.Valid() && q.order == Lone(o, V, |o|) && q.Contents() == Lone(V, V, |o|)
    ensures Released(q, o, v0, n0)
  {
    assert v0 - (Elems(o) - Elems(q.order)) == v0;
    var dupLast := false;
    var entry := q.nxt[Head];
    var safe := q.nxt[entry];
    ghost var j := 0;
    while entry != Head
      invariant DupScan(q, o, V, j, entry, safe, dupLast) && Released(q, o, v0, n0)
      decreases |o| - j
    {
      dupLast, entry, safe := DropIfDuplicate(q, entry, safe, dupLast, o, V, j, v0, n0);
      j := j + 1;
    }
    DupScanDone(q, o, V, j, entry, safe, dupLast);
  }

  lemma DupScanStart(q: Queue)
    requires q.Valid()
    ensures DupScan(q, q.order, q.Contents(), 0, At(q.order, 0), At(q.order, 1), false)
  {
    var o, V := q.order, q.Contents();
    WalkEnd(o, 0);
    LoneStart(o, V);
    LoneStart(V, V);
  }

  lemma DupScanDone(q: Queue, o: seq<int>, V: seq<CStr>, j: int, entry: int, safe: int, dupLast: bool)
    requires DupScan(q, o, V, j, entry, safe, dupLast) && entry == Head
    ensures q.Valid() && q.order == Lone(o, V, |o|) && q.Contents() == Lone(V, V, |o|)
  {
    LoneDone(o, V);
    LoneDone(V, V);
  }

  /**
   * The state of q_delete_dup's walk after j elements of o (with strings V):
   * the released ones are gone, the rest of o is untouched, entry and safe
   * are the j-th element and its successor, and dupLast records whether
   * element j - 1 was released for being equal to element j.
   */
  ghost predicate DupScan(q: Queue, o: seq<int>, V: seq<CStr>, j: int, entry: int, safe: int, dupLast: bool)
    reads q
  {
    q.Valid() && 0 <= j <= |o| == |V| &&
    q.order == Lone(o, V, j) + o[j..] && q.Contents() == Lone(V, V, j) + V[j..] &&
    Head !in o && entry == At(o, j) && (entry == Head <==> j == |o|) &&
    (entry != Head ==> safe == At(o, j + 1)) && dupLast == EqualNext(V, j - 1)
  }

  /**
   * The releases of q_delete_dup so far: starting from the strings v0 and
   * the allocation counter n0, exactly the elements of o that have left the
   * list have left the arena.
   */
  ghost predicate Released(q: Queue, o: seq<int>, v0: map<int, CStr>, n0: int)
    reads q
  {
    Elems(q.order) <= Elems(o) && q.val == v0 - (Elems(o) - Elems(q.order)) && q.nextId == n0
  }

  /** q_release_element in q_delete_dup: the element at position k leaves the list and the arena. */
  method UnlinkReleased(q: Queue, n: int, ghost k: int, ghost o: seq<int>, ghost v0: map<int, CStr>, ghost n0: int)
    requires q.Valid() && 0 <= k < |q.order| && n == q.order[k] && Released(q, o, v0, n0)
    modifies q
    ensures q.Valid() && q.order == RemoveAt(old(q.order), k) && q.Contents() == RemoveAt(old(q.Contents()), k)
    ensures Released(q, o, v0, n0)
  {
    ghost var c, v1 := q.order, q.val;
    LinkedDistinct(c, q.nxt);
    ElemsRemove(c, k);
    Unlink(q, n, k);
    ReleaseOne(v0, v1, Elems(o), Elems(c), n);
  }

  /** Releasing one more element n of the list adds it to the released part of O. */
  lemma ReleaseOne(v0: map<int, CStr>, v1: map<int, CStr>, O: set<int>, E: set<int>, n: int)
    requires v1 == v0 - (O - E) && E <= O && n in E
    ensures v1 - {n} == v0 - (O - (E - {n})) && E - {n} <= O
  {
    assert (O - E) + {n} == O - (E - {n});
  }

  /**
   * One turn of q_delete_dup's loop on the j-th element of o: release it when
   * its string equals the next one's, or when dupLast says the previous
   * element was released for being equal to it; then step to the next pair.
   */
  method DropIfDuplicate(q: Queue, entry: int, safe: int, dupLast: bool,
                         ghost o: seq<int>, ghost V: seq<CStr>, ghost j: int, ghost v0: map<int, CStr>, ghost n0: int)
    returns (dup: bool, entry': int, safe': int)
    requires DupScan(q, o, V, j, entry, safe, dupLast) && entry != Head && Released(q, o, v0, n0)
    modifies q
    ensures DupScan(q, o, V, j + 1, entry', safe', dup) && Released(q, o, v0, n0)
  {
    dup := ReleaseIfDuplicate(q, entry, safe, dupLast, o, V, j, v0, n0);
    entry' := safe;
    DupNext(q, o, V, j, entry', dup);
    safe' := q.nxt[entry'];
  }

  /** After the j-th element was dealt with, the walk stands at element j + 1 and its successor. */
  lemma DupNext(q: Queue, o: seq<int>, V: seq<CStr>, j: int, e: int, dup: bool)
    requires q.Valid() && 0 <= j < |o| == |V| && Head !in o && e == At(o, j + 1)
    requires q.order == Lone(o, V, j + 1) + o[j + 1..] && q.Contents() == Lone(V, V, j + 1) + V[j + 1..]
    requires dup == EqualNext(V, j)
    ensures e in q.nxt && DupScan(q, o, V, j + 1, e, q.nxt[e], dup)
  {
    FilteredAt(o, V, j + 1);
    WalkEnd(o, j + 1);
    if e != Head {
      Neighbours(q.order, |Lone(o, V, j + 1)| + 1, q.nxt, q.prv);
    } else {
      Neighbours(q.order, 0, q.nxt, q.prv);
    }
  }

  /** The body of q_delete_dup's loop: the two tests and the releases. */
  method ReleaseIfDuplicate(q: Queue, entry: int, safe: int, dupLast: bool,
                            ghost o: seq<int>, ghost V: seq<CStr>, ghost j: int, ghost v0: map<int, CStr>, ghost n0: int)
    returns (dup: bool)
    requires DupScan(q, o, V, j, entry, safe, dupLast) && entry != Head && Released(q, o, v0, n0)
    modifies q
    ensures q.Valid() && j < |o| == |V|
    ensures q.order == Lone(o, V, j + 1) + o[j + 1..] && q.Contents() == Lone(V, V, j + 1) + V[j + 1..]
    ensures dup == EqualNext(V, j)
    ensures Released(q, o, v0, n0)
  {
    ghost var p := |Lone(o, V, j)|;
    LoneStep(o, V, j);
    LoneStep(V, V, j);
    LoneLength(o, V, V, j);
    assert q.val[entry] == V[j];
    assert safe != Head ==> j + 1 < |o| && q.val[safe] == V[j + 1];
    // The two branches of the source release the element alike; the first
    // sets dup_last and the second clears it, so dup_last ends up recording
    // the first test.
    var equalNext := safe != Head && q.val[entry] == q.val[safe];
    NeighbourTest(V, j, q.val[entry], if safe != Head then q.val[safe] else q.val[entry], safe != Head, equalNext);
    if equalNext || dupLast {
      UnlinkReleased(q, entry, p, o, v0, n0);
    }
    dup := equalNext;
  }

  /**
   * The first test of q_delete_dup: x is the string at position j and y the
   * next one when there is a next element; the test holds when they are
   * equal.
   */
  lemma NeighbourTest<T>(v: seq<T>, j: int, x: T, y: T, hasNext: bool, equal: bool)
    requires 0 <= j < |v| && x == v[j] && hasNext == (j + 1 < |v|) && (hasNext ==> y == v[j + 1])
    requires equal == (hasNext && x == y)
    ensures equal == EqualNext(v, j)
  {
  }

  /** Where the filtered prefix ends, the untouched rest of o begins. */
  lemma FilteredAt(o: seq<int>, V: seq<CStr>, j: int)
    requires |o| == |V| && 0 <= j <= |o|
    ensures var c, p := Lone(o, V, j) + o[j..], |Lone(o, V, j)|;
            p + 1 <= |c| + 1 && At(c, p) == At(o, j) && (j < |o| ==> At(c, p + 1) == At(o, j + 1))
  {
  }

  /**
   * q_reverse: every node in turn is moved to the front (list_move to the
   * sentinel), which reverses the queue. NULL and the empty queue are left
   * alone.
   */
  method Reverse(q: Queue?)
    requires q != null ==> q.Valid()
    modifies q
    ensures q != null ==> q.Valid() && q.val == old(q.val) &&
                          q.order == Rev(old(q.order)) && q.Contents() == Rev(old(q.Contents()))
  {
    if q == null || q.IsEmpty() {
      return;
    }
    ghost var o, V, v0 := q.order, q.Contents(), q.val;
    Neighbours(o, 0, q.nxt, q.prv);
    var node := q.nxt[Head];
    ghost var j := 0;
    RevScanStart(q);
    while node != Head
      invariant RevScan(q, o, V, j, node) && q.val == v0
      decreases |o| - j
    {
      node := MoveToFront(q, node, o, V, j);
      j := j + 1;
    }
    RevScanDone(q, o, V, j, node);
  }

  lemma RevScanStart(q: Queue)
    requires q.Valid()
    ensures RevScan(q, q.order, q.Contents(), 0, At(q.order, 0))
  {
    WalkEnd(q.order, 0);
  }

  lemma RevScanDone(q: Queue, o: seq<int>, V: seq<CStr>, j: int, node: int)
    requires RevScan(q, o, V, j, node) && node == Head
    ensures q.Valid() && q.order == Rev(o) && q.Contents() == Rev(V)
  {
    RevDone(o);
    RevDone(V);
  }

  /**
   * The state of q_reverse's walk after j nodes of o (with strings V): those
   * j nodes are at the front in reverse, the rest follows untouched, and
   * node is the j-th node.
   */
  ghost predicate RevScan(q: Queue, o: seq<int>, V: seq<CStr>, j: int, node: int)
    reads q
  {
    q.Valid() && 0 <= j <= |o| == |V| &&
    q.order == Rev(o[..j]) + o[j..] && q.Contents() == Rev(V[..j]) + V[j..] &&
    Head !in o && node == At(o, j) && (node == Head <==> j == |o|)
  }

  /** One turn of q_reverse's loop: list_move(node, head) on the j-th node of o. */
  method MoveToFront(q: Queue, node: int, ghost o: seq<int>, ghost V: seq<CStr>, ghost j: int)
    returns (safe: int)
    requires RevScan(q, o, V, j, node) && node != Head
    modifies q
    ensures RevScan(q, o, V, j + 1, safe) && q.val == old(q.val)
  {
    RevStep(o, j);
    RevStep(V, j);
    Neighbours(q.order, j + 1, q.nxt, q.prv);
    safe := q.nxt[node];
    q.ListMove(node, Head, j, 0);
    WalkEnd(o, j + 1);
  }

  /**
   * q_swap: walking the queue, each node that has a successor is moved
   * after it (list_move(node, safe)), and the walk continues after the pair,
   * which swaps every two adjacent nodes; a last odd node stays. NULL and
   * the empty queue are left alone.
   */
  method Swap(q: Queue?)
    requires q != null ==> q.Valid()
    modifies q
    ensures q != null ==> q.Valid() && q.val == old(q.val) &&
                          q.order == SwapPairs(old(q.order)) && q.Contents() == SwapPairs(old(q.Contents()))
  {
    if q == null || q.IsEmpty() {
      return;
    }
    ghost var o, V, v0 := q.order, q.Contents(), q.val;
    Neighbours(o, 0, q.nxt, q.prv);
    Neighbours(o, 1, q.nxt, q.prv);
    var node := q.nxt[Head];
    var safe := q.nxt[node];
    ghost var j := 0;
    SwapScanStart(q);
    while node != Head
      invariant SwapScan(q, o, V, j, node, safe) && q.val == v0
      decreases |o| - j
    {
      if safe != Head {
        node, safe, j := SwapTurn(q, node, safe, o, V, j);
      } else {
        SwapScanLast(q, o, V, j, node, safe);
        node, safe, j := safe, q.nxt[safe], j + 1;
      }
    }
    SwapScanDone(q, o, V, j, node, safe);
  }

  lemma SwapScanStart(q: Queue)
    requires q.Valid()
    ensures SwapScan(q, q.order, q.Contents(), 0, At(q.order, 0), At(q.order, 1))
  {
    var o, V := q.order, q.Contents();
    WalkEnd(o, 0);
    SwapStart(o);
    SwapStart(V);
  }

  lemma SwapScanDone(q: Queue, o: seq<int>, V: seq<CStr>, j: int, node: int, safe: int)
    requires SwapScan(q, o, V, j, node, safe) && node == Head
    ensures q.Valid() && q.order == SwapPairs(o) && q.Contents() == SwapPairs(V)
  {
    SwapDone(o);
    SwapDone(V);
  }

  /**
   * The state of q_swap's walk after j nodes of o (with strings V): the
   * pairs among them are swapped, the rest is untouched, and node and safe
   * are the j-th node and its successor.
   */
  ghost predicate SwapScan(q: Queue, o: seq<int>, V: seq<CStr>, j: int, node: int, safe: int)
    reads q
  {
    q.Valid() && 0 <= j <= |o| == |V| && (j % 2 == 0 || j == |o|) &&
    q.order == SwapPairs(o[..j]) + o[j..] && q.Contents() == SwapPairs(V[..j]) + V[j..] &&
    Head !in o && node == At(o, j) && (node == Head <==> j == |o|) &&
    (node != Head ==> safe == At(o, j + 1))
  }

  /** One turn of q_swap's loop on the j-th node of o. */
  method SwapTurn(q: Queue, node: int, safe: int, ghost o: seq<int>, ghost V: seq<CStr>, ghost j: int)
    returns (node': int, safe': int, ghost j': int)
    requires SwapScan(q, o, V, j, node, safe) && node != Head && safe != Head
    modifies q
    ensures SwapScan(q, o, V, j', node', safe') && q.val == old(q.val) && j < j'
  {
    SwapStep(o, j);
    SwapStep(V, j);
    q.ListMove(node, safe, j, j + 1);
    Neighbours(q.order, j + 2, q.nxt, q.prv);
    var next := q.nxt[node];
    j' := j + 2;
    EvenStep(j);
    WalkEnd(o, j');
    node' := next;
    if node' != Head {
      Neighbours(q.order, j' + 1, q.nxt, q.prv);
    } else {
      Neighbours(q.order, 0, q.nxt, q.prv);
    }
    safe' := q.nxt[node'];
  }

  lemma EvenStep(j: int)
    requires j % 2 == 0
    ensures (j + 2) % 2 == 0
  {
  }

  /** An odd element left at the end stays where it is. */
  lemma SwapScanLast(q: Queue, o: seq<int>, V: seq<CStr>, j: int, node: int, safe: int)
    requires SwapScan(q, o, V, j, node, safe) && node != Head && safe == Head
    ensures SwapScan(q, o, V, j + 1, safe, q.nxt[safe])
  {
    WalkEnd(o, j + 1);
    SwapLast(o, j);
    SwapLast(V, j);
    SwapDone(o);
    SwapDone(V);
  }


  /**
   * q_reverseK: the nodes are moved one by one behind `start`, the node
   * before the current group, so each group of k is reversed; after each
   * full group `start` becomes its last node. Only size / k groups are
   * reversed: the first node after them returns from the function once it
   * has been moved behind `start`, which leaves it in place. k must be
   * positive, since the source divides by it.
   */
  method ReverseK(q: Queue?, k: int)
    requires q != null ==> q.Valid()
    requires q != null && q.order != [] ==> k >= 1
    modifies q
    ensures q != null && old(q.order) == [] ==> unchanged(q)
    ensures q != null && old(q.order) != [] ==>
              q.Valid() && q.val == old(q.val) &&
              q.order == RevK(old(q.order), k) && q.Contents() == RevK(old(q.Contents()), k)
  {
    if q == null || q.IsEmpty() {
      return;
    }
    ghost var o := q.order;
    ReverseKNodes(q, k);
    KContents(q, o, old(q.Contents()), k);
  }

  /**
   * The number of complete k-groups in a list of size nodes
   * (queue.c:193): the quotient of size by k, i.e. the number of whole
   * blocks of k that fit.
   */
  method TurnCount(size: int, k: int) returns (turn: int)
    requires k >= 1 && size >= 0
    ensures turn >= 0 && Blocks(turn, k) <= size < Blocks(turn, k) + k
  {
    turn := size / k;
    BlocksDiv(size, k);
  }

  /** The loop of q_reverseK on a non-empty queue, stated on the node order. */
  method ReverseKNodes(q: Queue, k: int)
    requires k >= 1 && q.Valid() && q.order != []
    modifies q
    ensures q.Valid() && q.val == old(q.val) && q.order == RevK(old(q.order), k)
  {
    ghost var o, v0 := q.order, q.val;
    var start := Head;
    var countK, countTurn := 0, 0;
    var size := Size(q);
    var turn := TurnCount(size, k);
    Neighbours(o, 0, q.nxt, q.prv);
    Neighbours(o, 1, q.nxt, q.prv);
    var node := q.nxt[Head];
    var safe := q.nxt[node];
    ghost var j, done := 0, 0;
    ghost var runs := Runs(o, k);
    WalkEnd(o, 0);
    while node != Head
      invariant q.Valid() && q.val == v0 && 0 <= j <= |o| && Head !in o
      invariant KState(q.order, done, countK, countTurn) == runs[j]
      invariant j == 0 || runs[j - 1].countTurn < turn
      invariant KWalk(o, k, j, done, node, safe, start)
      decreases |o| - j
    {
      var stop;
      stop, node, safe, start, countK, countTurn, j, done :=
        ReverseKTurn(q, k, turn, node, safe, start, countK, countTurn, o, runs, j, done);
      if stop {
        return;
      }
    }
    WalkDone(o, k, turn, runs, j, q.order, done, countK, countTurn, node, safe, start);
  }

  /**
   * One turn of q_reverseK's loop on the j-th node of o: list_move(node,
   * start), then either the early return (stop), or the group count moves
   * on, and at the end of a group `start` moves to the group's last node.
   * It does to the list and the counters what one more step of KRun does.
   */
  method ReverseKTurn(q: Queue, k: int, turn: int, node: int, safe: int, start: int,
                      countK: int, countTurn: int, ghost o: seq<int>, ghost runs: seq<KState<int>>,
                      ghost j: int, ghost done: int)
    returns (stop: bool, node': int, safe': int, start': int, countK': int, countTurn': int,
             ghost j': int, ghost done': int)
    requires q.Valid() && Head !in o && IsRun(o, k, runs) && turn >= 0 && Blocks(turn, k) <= |o| < Blocks(turn, k) + k
    requires 0 <= j <= |o| && KState(q.order, done, countK, countTurn) == runs[j]
    requires j == 0 || runs[j - 1].countTurn < turn
    requires KWalk(o, k, j, done, node, safe, start) && node != Head
    modifies q
    ensures q.Valid() && q.val == old(q.val)
    ensures stop ==> q.order == RevK(o, k)
    ensures !stop ==> j' == j + 1 && KState(q.order, done', countK', countTurn') == runs[j'] &&
                      runs[j].countTurn < turn && KWalk(o, k, j', done', node', safe', start')
  {
    WalkEnd(o, j);
    KMove(q, node, start, o, k, turn, runs, j, done, countK, countTurn);
    if countTurn == turn {
      return true, node, safe, start, countK, countTurn, j, done;
    }
    stop, start', countK', countTurn', j', done' := false, start, countK + 1, countTurn, j + 1, done;
    if countK' == k {
      PrevOfNext(q.order, o, q.nxt, q.prv, j, safe);
      start' := q.prv[safe];
      countTurn' := countTurn' + 1;
      countK' := 0;
      done' := done + k;
    }
    node' := safe;
    NextOfAt(q.order, o, q.nxt, q.prv, j', node');
    safe' := q.nxt[node'];
  }

  /**
   * list_move(node, start) in q_reverseK's loop: o[j] goes behind the
   * anchor. This is one more step of KRun, unless the group count had
   * already reached turn, in which case the list is in its final order.
   */
  method KMove(q: Queue, node: int, start: int, ghost o: seq<int>, ghost k: int, ghost turn: int,
               ghost runs: seq<KState<int>>, ghost j: int, ghost done: int, ghost countK: int, ghost countTurn: int)
    requires q.Valid() && IsRun(o, k, runs) && 0 <= j < |o| && turn >= 0 && Blocks(turn, k) <= |o| < Blocks(turn, k) + k
    requires KState(q.order, done, countK, countTurn) == runs[j]
    requires j == 0 || runs[j - 1].countTurn < turn
    requires node == o[j] && start == KAnchor(o, k, done)
    modifies q
    ensures q.Valid() && q.val == old(q.val) && |q.order| == |o| && countTurn <= turn
    ensures countTurn == turn ==> q.order == RevK(o, k)
    ensures countTurn < turn ==>
              runs[j + 1] == (if countK + 1 == k then KState(q.order, done + k, 0, countTurn + 1)
                              else KState(q.order, done, countK + 1, countTurn)) &&
              (j + 1 < |o| ==> q.order[j + 1] == o[j + 1]) && (j + 2 < |o| ==> q.order[j + 2] == o[j + 2]) &&
              (countK + 1 == k ==> At(q.order, j) == KAnchor(o, k, done + k))
  {
    ghost var c := q.order;
    KRunHere(o, k, turn, runs, j, c, done, countK, countTurn);
    q.ListMove(node, start, j, done);
    KAfter(o, k, turn, runs, j, c, done, countK, countTurn, q.order);
  }

}
