/** The index-linked list of recent warnings in shared memory: the link macros, the reading of rows and the walk that
    answers a page. */
module WarnCache {
  import opened RecentWarns

  /** A node of the hash table; a free node has wid 0. */
  datatype Node = Node(prev: int, next: int, info: Warn)

  datatype Links = Links(ns: seq<Node>, start: int, end: int)

  predicate Indices(order: seq<int>, n: nat) {
    (forall k :: 0 <= k < |order| ==> 0 <= order[k] < n)
    && (forall j, k :: 0 <= j < k < |order| ==> order[j] != order[k])
  }

  function PrevOf(order: seq<int>, k: nat): int
    requires k < |order|
  {
    if k == 0 then -1 else order[k - 1]
  }

  function NextOf(order: seq<int>, k: nat): int
    requires k < |order|
  {
    if k + 1 == |order| then -1 else order[k + 1]
  }

  /** The nodes are linked both ways in the order of `order`. */
  ghost predicate Linked(l: Links, order: seq<int>) {
    Indices(order, |l.ns|)
    && (|order| > 0 ==> l.start == order[0] && l.end == order[|order| - 1])
    && forall k :: 0 <= k < |order| ==>
         l.ns[order[k]].prev == PrevOf(order, k) && l.ns[order[k]].next == NextOf(order, k)
  }

  function SetNext(ns: seq<Node>, i: int, n: int): (r: seq<Node>)
    ensures |r| == |ns|
  {
    if 0 <= i < |ns| then ns[i := ns[i].(next := n)] else ns
  }

  function SetPrev(ns: seq<Node>, i: int, p: int): (r: seq<Node>)
    ensures |r| == |ns|
  {
    if 0 <= i < |ns| then ns[i := ns[i].(prev := p)] else ns
  }

  // ----- the link macros -----

  /** `ILINK_DELETE_NODE`. */
  function DeleteNode(l: Links, i: nat): Links
    requires i < |l.ns|
  {
    var p, n := l.ns[i].prev, l.ns[i].next;
    var ns := SetPrev(SetNext(l.ns, p, n), n, p);
    Links(ns[i := ns[i].(prev := -1, next := -1)], if p < 0 then n else l.start, if n < 0 then p else l.end)
  }

  /** `ILINK_SET_FIRST`. */
  function SetFirst(l: Links, i: nat): Links
    requires i < |l.ns|
  {
    Links(l.ns[i := l.ns[i].(prev := -1, next := -1)], i, i)
  }

  /** `ILINK_INSERT_FIRST`. */
  function InsertFirst(l: Links, i: nat): Links
    requires i < |l.ns|
  {
    Links(SetPrev(l.ns[i := l.ns[i].(prev := -1, next := l.start)], l.start, i), i, l.end)
  }

  /** `ILINK_INSERT_LAST`. */
  function InsertLast(l: Links, i: nat): Links
    requires i < |l.ns|
  {
    Links(SetNext(l.ns[i := l.ns[i].(prev := l.end, next := -1)], l.end, i), l.start, i)
  }

  function Drop(order: seq<int>, k: nat): seq<int>
    requires k < |order|
  {
    order[..k] + order[k + 1..]
  }

  lemma DropIndices(order: seq<int>, k: nat, n: nat)
    requires Indices(order, n) && k < |order|
    ensures Indices(Drop(order, k), n)
  {
    var order' := Drop(order, k);
    assert forall m :: 0 <= m < |order'| ==> order'[m] == order[if m < k then m else m + 1];
  }

  /** The neighbours in the shorter order. */
  lemma DropNeighbours(order: seq<int>, k: nat, m: nat)
    requires k < |order| && m < |order| - 1
    ensures var order', j := Drop(order, k), if m < k then m else m + 1;
            order'[m] == order[j]
            && PrevOf(order', m) == (if j == k + 1 then PrevOf(order, k) else PrevOf(order, j))
            && NextOf(order', m) == (if j + 1 == k then NextOf(order, k) else NextOf(order, j))
  {
  }

  lemma NodeAt(l: Links, order: seq<int>, k: nat)
    requires Linked(l, order) && k < |order|
    ensures 0 <= order[k] < |l.ns| && l.ns[order[k]].prev == PrevOf(order, k) && l.ns[order[k]].next == NextOf(order, k)
    ensures l.start == order[0] && l.end == order[|order| - 1]
  {
    hide PrevOf, NextOf;
  }

  lemma Differ(l: Links, order: seq<int>, j: nat, k: nat)
    requires Linked(l, order) && j < |order| && k < |order|
    ensures order[j] == order[k] <==> j == k
  {
    hide PrevOf, NextOf;
  }

  /** The links of a node that stays. */
  lemma DeleteAt(l: Links, order: seq<int>, k: nat, j: nat)
    requires Linked(l, order) && k < |order| && j < |order| && j != k
    ensures var node := DeleteNode(l, order[k]).ns[order[j]];
            node.prev == (if j == k + 1 then PrevOf(order, k) else PrevOf(order, j))
            && node.next == (if j + 1 == k then NextOf(order, k) else NextOf(order, j))
  {
    hide Linked, Indices;
    NodeAt(l, order, k);
    NodeAt(l, order, j);
    Differ(l, order, j, k);
    if k > 0 {
      NodeAt(l, order, k - 1);
      Differ(l, order, j, k - 1);
      Differ(l, order, k, k - 1);
    }
    if k + 1 < |order| {
      NodeAt(l, order, k + 1);
      Differ(l, order, j, k + 1);
      Differ(l, order, k, k + 1);
    }
  }

  lemma DeleteLinked(l: Links, order: seq<int>, k: nat)
    requires Linked(l, order) && k < |order|
    ensures Linked(DeleteNode(l, order[k]), Drop(order, k))
  {
    var l', order' := DeleteNode(l, order[k]), Drop(order, k);
    DropIndices(order, k, |l.ns|);
    DeleteEnds(l, order, k);
    hide DeleteNode, PrevOf, NextOf;
    forall m | 0 <= m < |order'|
      ensures l'.ns[order'[m]].prev == PrevOf(order', m) && l'.ns[order'[m]].next == NextOf(order', m)
    {
      DropNeighbours(order, k, m);
      DeleteAt(l, order, k, if m < k then m else m + 1);
    }
  }

  lemma DeleteEnds(l: Links, order: seq<int>, k: nat)
    requires Linked(l, order) && k < |order|
    ensures var l', order' := DeleteNode(l, order[k]), Drop(order, k);
            |l'.ns| == |l.ns| && (|order'| > 0 ==> l'.start == order'[0] && l'.end == order'[|order'| - 1])
  {
    hide Linked, Indices;
    NodeAt(l, order, k);
    if k > 0 {
      NodeAt(l, order, k - 1);
    }
    if k + 1 < |order| {
      NodeAt(l, order, k + 1);
    }
  }

  lemma SetFirstLinked(l: Links, i: nat)
    requires i < |l.ns|
    ensures Linked(SetFirst(l, i), [i])
  {
  }

  lemma InsertFirstLinked(l: Links, order: seq<int>, i: nat)
    requires Linked(l, order) && |order| > 0 && i < |l.ns| && i !in order
    ensures Linked(InsertFirst(l, i), [i] + order)
  {
    var l', order' := InsertFirst(l, i), [i] + order;
    assert forall m :: 0 < m < |order'| ==> order'[m] == order[m - 1];
    forall m | 0 <= m < |order'|
      ensures l'.ns[order'[m]].prev == PrevOf(order', m) && l'.ns[order'[m]].next == NextOf(order', m)
    {
      if m > 0 {
        assert order'[m] == order[m - 1] && order[m - 1] in order;
      }
    }
  }

  lemma InsertLastLinked(l: Links, order: seq<int>, i: nat)
    requires Linked(l, order) && |order| > 0 && i < |l.ns| && i !in order
    ensures Linked(InsertLast(l, i), order + [i])
  {
    var l', order' := InsertLast(l, i), order + [i];
    forall m | 0 <= m < |order'|
      ensures l'.ns[order'[m]].prev == PrevOf(order', m) && l'.ns[order'[m]].next == NextOf(order', m)
    {
      if m < |order| {
        assert order'[m] == order[m] && order[m] in order;
      }
    }
  }

  // ----- the records of the list -----

  function Infos(ns: seq<Node>, order: seq<int>): (r: seq<Warn>)
    requires Indices(order, |ns|)
    ensures |r| == |order| && forall k :: 0 <= k < |r| ==> r[k] == ns[order[k]].info
  {
    if |order| == 0 then []
    else Infos(ns, order[..|order| - 1]) + [ns[order[|order| - 1]].info]
  }

  /** The nodes in use are those in the list, and each row has one. */
  ghost predicate Held(ns: seq<Node>, order: seq<int>) {
    Indices(order, |ns|)
    && (forall i :: 0 <= i < |ns| ==> (ns[i].info.wid != 0 <==> i in order))
    && DistinctIds(Infos(ns, order))
  }

  /** The same records on other links. */
  predicate SameInfos(ns: seq<Node>, ns': seq<Node>) {
    |ns| == |ns'| && forall i :: 0 <= i < |ns| ==> ns'[i].info == ns[i].info
  }

  lemma HeldSame(ns: seq<Node>, ns': seq<Node>, order: seq<int>)
    requires Held(ns, order) && SameInfos(ns, ns')
    ensures Held(ns', order) && Infos(ns', order) == Infos(ns, order)
  {
    assert Infos(ns', order) == Infos(ns, order);
  }

  /** Taking a node out of the order and freeing it. */
  lemma HeldDrop(ns: seq<Node>, order: seq<int>, k: nat, free: Warn)
    requires Held(ns, order) && k < |order| && free.wid == 0
    ensures var ns' := ns[order[k] := ns[order[k]].(info := free)];
            Held(ns', Drop(order, k)) && Infos(ns', Drop(order, k)) == RemoveAt(Infos(ns, order), k)
  {
    hide Infos, Drop, DistinctIds, RemoveAt;
    DropIndices(order, k, |ns|);
    DropInfos(ns, order, k, free);
    RemoveAtDistinct(Infos(ns, order), k);
    forall i | 0 <= i < |ns|
      ensures ns[order[k] := ns[order[k]].(info := free)][i].info.wid != 0 <==> i in Drop(order, k)
    {
      DropIn(order, |ns|, k, i);
    }
  }

  lemma DropInfos(ns: seq<Node>, order: seq<int>, k: nat, free: Warn)
    requires Indices(order, |ns|) && k < |order| && Indices(Drop(order, k), |ns|)
    ensures Infos(ns[order[k] := ns[order[k]].(info := free)], Drop(order, k)) == RemoveAt(Infos(ns, order), k)
  {
    hide Infos, PrevOf, NextOf;
    var ns', order', infos := ns[order[k] := ns[order[k]].(info := free)], Drop(order, k), Infos(ns, order);
    forall m | 0 <= m < |order'| ensures Infos(ns', order')[m] == RemoveAt(infos, k)[m] {
      var j := if m < k then m else m + 1;
      assert order'[m] == order[j] && order[j] != order[k] && RemoveAt(infos, k)[m] == infos[j];
    }
  }

  lemma DropIn(order: seq<int>, n: nat, k: nat, i: int)
    requires Indices(order, n) && k < |order|
    ensures i in Drop(order, k) <==> i in order && i != order[k]
  {
    var order' := Drop(order, k);
    if i in order && i != order[k] {
      var j :| 0 <= j < |order| && order[j] == i;
      assert order'[if j < k then j else j - 1] == i;
    }
    if i in order' {
      var m :| 0 <= m < |order'| && order'[m] == i;
      assert order[if m < k then m else m + 1] == i;
    }
  }

  function Put<T>(s: seq<T>, x: T, front: bool): seq<T> { if front then [x] + s else s + [x] }

  lemma PutIndices(order: seq<int>, n: nat, i: nat, front: bool)
    requires Indices(order, n) && i < n && i !in order
    ensures Indices(Put(order, i, front), n)
    ensures forall x :: x in Put(order, i, front) <==> x == i || x in order
  {
    assert forall k :: 0 <= k < |order| ==> order[k] in order;
  }

  lemma PutAt<T>(s: seq<T>, x: T, front: bool, k: nat)
    requires k <= |s|
    ensures |Put(s, x, front)| == |s| + 1
    ensures Put(s, x, front)[k] ==
            if front then if k == 0 then x else s[k - 1] else if k == |s| then x else s[k]
  {
  }

  lemma PutInfos(ns: seq<Node>, order: seq<int>, i: nat, w: Warn, front: bool)
    requires Indices(order, |ns|) && i < |ns| && i !in order && Indices(Put(order, i, front), |ns|)
    ensures Infos(ns[i := ns[i].(info := w)], Put(order, i, front)) == Put(Infos(ns, order), w, front)
  {
    hide Infos, Put;
    var ns', order', infos := ns[i := ns[i].(info := w)], Put(order, i, front), Infos(ns, order);
    PutAt(order, i, front, 0);
    PutAt(infos, w, front, 0);
    forall k | 0 <= k <= |order| ensures Infos(ns', order')[k] == Put(infos, w, front)[k] {
      PutAt(order, i, front, k);
      PutAt(infos, w, front, k);
      var j := if front then k - 1 else k;
      if 0 <= j < |order| {
        assert order[j] in order && infos[j] == ns[order[j]].info;
      }
    }
  }

  lemma PutDistinct(list: seq<Warn>, w: Warn, front: bool)
    requires DistinctIds(list) && !Has(list, w.wid)
    ensures DistinctIds(Put(list, w, front))
  {
  }

  /** Taking a node into the order, at the front or at the end. */
  lemma HeldPut(ns: seq<Node>, order: seq<int>, i: nat, w: Warn, front: bool)
    requires Held(ns, order) && i < |ns| && ns[i].info.wid == 0 && w.wid != 0 && !Has(Infos(ns, order), w.wid)
    ensures Held(ns[i := ns[i].(info := w)], Put(order, i, front))
    ensures Infos(ns[i := ns[i].(info := w)], Put(order, i, front)) == Put(Infos(ns, order), w, front)
  {
    hide Put, Infos, DistinctIds, Has, Indices;
    PutIndices(order, |ns|, i, front);
    PutInfos(ns, order, i, w, front);
    PutDistinct(Infos(ns, order), w, front);
  }

  /** Changing a record but not its id. */
  lemma HeldSet(ns: seq<Node>, order: seq<int>, k: nat, e: Warn)
    requires Held(ns, order) && k < |order| && e.wid == ns[order[k]].info.wid
    ensures var ns' := ns[order[k] := ns[order[k]].(info := e)];
            Held(ns', order) && Infos(ns', order) == Infos(ns, order)[k := e]
  {
    var ns' := ns[order[k] := ns[order[k]].(info := e)];
    assert Infos(ns', order) == Infos(ns, order)[k := e];
  }

  /** The links do not depend on the records. */
  lemma LinkedSet(l: Links, order: seq<int>, i: nat, e: Warn)
    requires Linked(l, order) && i < |l.ns|
    ensures Linked(l.(ns := l.ns[i := l.ns[i].(info := e)]), order)
  {
  }

  lemma DeleteInfos(l: Links, i: nat)
    requires i < |l.ns|
    ensures SameInfos(l.ns, DeleteNode(l, i).ns)
  {
  }

  lemma InsertInfos(l: Links, i: nat)
    requires i < |l.ns|
    ensures SameInfos(l.ns, SetFirst(l, i).ns)
    ensures SameInfos(l.ns, InsertFirst(l, i).ns)
    ensures SameInfos(l.ns, InsertLast(l, i).ns)
  {
  }

  /** Taking a node out of its place and in again at an end, with a new record. */
  lemma HeldMove(ns: seq<Node>, order: seq<int>, k: nat, e: Warn, front: bool)
    requires Held(ns, order) && k < |order| && e.wid == ns[order[k]].info.wid
    ensures var ns', order' := ns[order[k] := ns[order[k]].(info := e)], Put(Drop(order, k), order[k], front);
            Held(ns', order') && Infos(ns', order') == Put(RemoveAt(Infos(ns, order), k), e, front)
  {
    hide Infos, Drop, Put, DistinctIds, RemoveAt;
    var i, free := order[k], e.(wid := 0);
    var ns1 := ns[i := ns[i].(info := free)];
    assert i in order;
    HeldDrop(ns, order, k, free);
    Gone(Infos(ns, order), k);
    HeldPut(ns1, Drop(order, k), i, e, front);
    assert ns1[i := ns1[i].(info := e)] == ns[i := ns[i].(info := e)];
  }

  lemma Gone(list: seq<Warn>, k: nat)
    requires DistinctIds(list) && k < |list|
    ensures !Has(RemoveAt(list, k), list[k].wid)
  {
    RemoveAtHas(list, k, list[k].wid);
  }

  // ----- shared memory -----

  class Cache {
    /** MAX_WARN_INFO_IN_SHM_PER_USER. */
    const cap: nat
    const nodes: array<Node>
    var start: int
    var end: int
    var count: nat
    ghost var order: seq<int>

    ghost function L(): Links
      reads this, nodes
    {
      Links(nodes[..], start, end)
    }

    /** The list is linked both ways over exactly the nodes in use, and `count` of them, never above `cap`. */
    ghost predicate Valid()
      reads this, nodes
    {
      cap > 0 && count == |order| <= cap && Linked(L(), order) && Held(nodes[..], order)
    }

    ghost function Contents(): seq<Warn>
      requires Valid()
      reads this, nodes
    {
      Infos(nodes[..], order)
    }

    constructor (cap: nat, size: nat, free: Warn)
      requires cap > 0 && free.wid == 0
      ensures Valid() && Contents() == [] && this.cap == cap && nodes.Length == size && fresh(nodes)
    {
      this.cap := cap;
      nodes := new Node[size](_ => Node(-1, -1, free));
      start, end, count, order := -1, -1, 0, [];
    }

    /** `ILINK_DELETE_NODE`. */
    method Unlink(i: nat)
      requires i < nodes.Length && nodes[i].prev < nodes.Length && nodes[i].next < nodes.Length
      modifies this`start, this`end, nodes
      ensures L() == DeleteNode(old(L()), i)
    {
      var p, n := nodes[i].prev, nodes[i].next;
      if p < 0 {
        start := n;
      } else {
        nodes[p] := nodes[p].(next := n);
      }
      assert nodes[..] == SetNext(old(nodes[..]), p, n);
      if n < 0 {
        end := p;
      } else {
        nodes[n] := nodes[n].(prev := p);
      }
      assert nodes[..] == SetPrev(SetNext(old(nodes[..]), p, n), n, p);
      nodes[i] := nodes[i].(prev := -1, next := -1);
    }

    /** `ILINK_SET_FIRST`. */
    method LinkOnly(i: nat)
      requires i < nodes.Length
      modifies this`start, this`end, nodes
      ensures L() == SetFirst(old(L()), i)
    {
      start, end := i, i;
      nodes[i] := nodes[i].(prev := -1, next := -1);
    }

    /** `ILINK_INSERT_FIRST`. */
    method LinkFirst(i: nat)
      requires i < nodes.Length && 0 <= start < nodes.Length
      modifies this`start, nodes
      ensures L() == InsertFirst(old(L()), i)
    {
      nodes[i] := nodes[i].(prev := -1, next := start);
      assert nodes[..] == old(nodes[..])[i := old(nodes[..])[i].(prev := -1, next := start)];
      nodes[start] := nodes[start].(prev := i);
      start := i;
    }

    /** `ILINK_INSERT_LAST`. */
    method LinkLast(i: nat)
      requires i < nodes.Length && 0 <= end < nodes.Length
      modifies this`end, nodes
      ensures L() == InsertLast(old(L()), i)
    {
      nodes[i] := nodes[i].(prev := end, next := -1);
      assert nodes[..] == old(nodes[..])[i := old(nodes[..])[i].(prev := end, next := -1)];
      nodes[end] := nodes[end].(next := i);
      end := i;
    }

    method SetInfo(i: nat, w: Warn)
      requires i < nodes.Length
      modifies nodes
      ensures nodes[..] == old(nodes[..])[i := old(nodes[i]).(info := w)]
    {
      nodes[i] := nodes[i].(info := w);
    }

    /** A node is unlinked and freed. */
    method Remove(i: nat, ghost k: nat)
      requires Valid() && k < |order| && order[k] == i
      modifies this, nodes
      ensures Valid() && order == Drop(old(order), k) && Contents() == RemoveAt(old(Contents()), k)
    {
      hide Linked, Held, Infos, DeleteNode;
      ghost var was := L();
      NodeAt(was, order, k);
      InBounds(was, order, k);
      DeleteLinked(was, order, k);
      DeleteInfos(was, i);
      count := count - 1;
      Unlink(i);
      HeldSame(was.ns, nodes[..], order);
      var free := nodes[i].info.(wid := 0);
      HeldDrop(nodes[..], order, k, free);
      LinkedSet(L(), Drop(order, k), i, free);
      SetInfo(i, free);
      order := Drop(order, k);
    }

    /** A free node is linked at the front or at the end. */
    method Link(i: nat, front: bool)
      requires Valid() && i < nodes.Length && i !in order
      modifies this`start, this`end, this`count, nodes
      ensures Linked(L(), Put(order, i, front)) && SameInfos(old(nodes[..]), nodes[..]) && count == old(count) + 1
    {
      hide Linked, Held, SetFirst, InsertFirst, InsertLast, Put, SameInfos;
      ghost var was := L();
      InsertInfos(was, i);
      if count == 0 || start < 0 {
        EmptyOrder(was, order, i, front);
        LinkOnly(i);
        count := 1;
      } else if !front {
        LastPut(was, order, i);
        LinkLast(i);
        count := count + 1;
      } else {
        FirstPut(was, order, i);
        LinkFirst(i);
        count := count + 1;
      }
    }

    /** A record goes into a free node, which is linked at the front or at the end. */
    method Store(i: nat, w: Warn, front: bool)
      requires Valid() && count < cap && i < nodes.Length && nodes[i].info.wid == 0
      requires w.wid != 0 && !Has(Contents(), w.wid)
      modifies this, nodes
      ensures Valid() && Contents() == Put(old(Contents()), w, front)
    {
      hide Linked, Held, Infos, Put, SameInfos, Has;
      ghost var was := L();
      FreeNode(was.ns, order, i);
      Link(i, front);
      PutLength(order, i, front);
      HeldSame(was.ns, nodes[..], order);
      FreeStays(was.ns, nodes[..], i);
      HeldPut(nodes[..], order, i, w, front);
      LinkedSet(L(), Put(order, i, front), i, w);
      SetInfo(i, w);
      order := Put(order, i, front);
    }

    /** A record changes and its node, not the first one, moves to the front or to the end. */
    method Move(i: nat, ghost k: nat, e: Warn, front: bool)
      requires Valid() && 0 < k < |order| && order[k] == i && e.wid == nodes[i].info.wid
      modifies this, nodes
      ensures Valid() && Contents() == Put(RemoveAt(old(Contents()), k), e, front)
    {
      hide Linked, Held, Infos, DeleteNode, InsertFirst, InsertLast, Put, Drop, RemoveAt;
      ghost var was, rest := L(), Drop(order, k);
      NodeAt(was, order, k);
      InBounds(was, order, k);
      DeleteLinked(was, order, k);
      DeleteInfos(was, i);
      Dropped(was, order, k);
      Unlink(i);
      ghost var mid := L();
      InsertInfos(mid, i);
      if front {
        FirstPut(mid, rest, i);
        LinkFirst(i);
      } else {
        LastPut(mid, rest, i);
        LinkLast(i);
      }
      PutLength(rest, i, front);
      HeldSame(was.ns, nodes[..], order);
      HeldMove(nodes[..], order, k, e, front);
      LinkedSet(L(), Put(rest, i, front), i, e);
      SetInfo(i, e);
      order := Put(rest, i, front);
    }

    /** A record changes in its place. */
    method Change(i: nat, ghost k: nat, e: Warn)
      requires Valid() && k < |order| && order[k] == i && e.wid == nodes[i].info.wid
      modifies this, nodes
      ensures Valid() && Contents() == old(Contents())[k := e]
    {
      hide Linked, Held, Infos;
      NodeAt(L(), order, k);
      HeldSet(nodes[..], order, k, e);
      LinkedSet(L(), order, i, e);
      SetInfo(i, e);
    }

    /** The look-up of `GetWarnInfo` by id. */
    method FindNode(wid: nat) returns (i: int, ghost k: int)
      requires Valid() && wid != 0
      ensures k == IndexOf(Contents(), wid)
      ensures i < 0 <==> k < 0
      ensures k >= 0 ==> 0 <= i < nodes.Length && order[k] == i && nodes[i].info == Contents()[k]
    {
      hide Linked, Held, Infos, IndexOf, Has;
      i := 0;
      while i < nodes.Length && nodes[i].info.wid != wid
        invariant 0 <= i <= nodes.Length
        invariant forall j :: 0 <= j < i ==> nodes[j].info.wid != wid
      {
        i := i + 1;
      }
      if i == nodes.Length {
        i, k := -1, -1;
        NotHeld(nodes[..], order, wid);
      } else {
        k := HeldAt(nodes[..], order, i);
        InfoAt(nodes[..], order, k);
      }
    }

    /** The oldest record makes room for a new one. */
    method Evict(free: nat)
      requires Valid() && count > 0 && free < nodes.Length && nodes[free].info.wid == 0
      modifies this, nodes
      ensures Valid() && Contents() == old(Contents())[..|old(Contents())| - 1]
      ensures count == old(count) - 1 && nodes[free].info.wid == 0
    {
      hide Linked, Held, Infos, Drop, RemoveAt;
      ghost var last := |order| - 1;
      NodeAt(L(), order, last);
      FreeNode(nodes[..], order, free);
      DropFree(L(), order, last, free);
      CutLast(Contents());
      InfoAt(nodes[..], order, last);
      Remove(end, last);
      NotListed(nodes[..], order, free);
    }

    /** One row of `ReadTableWarnInfo`; `free` is the node the hash table offers for a new record, or -1. */
    method ReadRow(row: Row, uid: nat, free: int)
      requires Valid() && row.warn.wid != 0
      requires free == -1 || (0 <= free < nodes.Length && nodes[free].info.wid == 0)
      modifies this, nodes
      ensures Valid() && Contents() == RecentWarns.ReadRow(old(Contents()), cap, row, uid != 0, free >= 0)
    {
      hide Linked, Held, Infos, IndexOf, Has, RemoveAt;
      var w := row.warn;
      var i, k := FindNode(w.wid);
      InfosLength(nodes[..], order);
      if row.live && i < 0 {
        if free >= 0 {
          if (count >= cap && uid != 0) || count < cap {
            if count >= cap {
              CutMisses(Contents(), w.wid);
              Evict(free);
            }
            Store(free, w, uid != 0);
          }
        }
      } else if row.live && nodes[i].info.update != w.update {
        NodeAt(L(), order, k);
        Differ(L(), order, 0, k);
        var e := Refreshed(nodes[i].info, w);
        if nodes[i].info.last != w.last && start != i {
          Move(i, k, e, uid > 0);
        } else {
          Change(i, k, e);
        }
      } else if i >= 0 && !row.live {
        Remove(i, k);
      }
    }

    method FreeSlot() returns (free: int)
      requires Valid() && cap < nodes.Length
      ensures 0 <= free < nodes.Length && nodes[free].info.wid == 0
    {
      hide Linked, Held, Infos;
      ghost var j := Room(nodes[..], order);
      free := 0;
      while nodes[free].info.wid != 0
        invariant 0 <= free <= j < nodes.Length && nodes[j].info.wid == 0
        decreases j - free
      {
        free := free + 1;
      }
    }

    /** `ReadTableWarnInfo` with uid 0, into an empty list. */
    method LoadTable(rows: seq<Row>)
      requires Valid() && Contents() == [] && cap < nodes.Length
      requires forall n :: 0 <= n < |rows| ==> rows[n].warn.wid != 0
      modifies this, nodes
      ensures Valid() && Contents() == Load(rows, cap)
    {
      hide Linked, Held, Infos, RecentWarns.ReadRow;
      var n := 0;
      assert rows[..0] == [];
      while n < |rows|
        invariant 0 <= n <= |rows| && Valid() && Contents() == Load(rows[..n], cap)
      {
        LoadStep(rows, cap, n);
        var free := FreeSlot();
        ReadRow(rows[n], 0, free);
        n := n + 1;
      }
      assert rows[..n] == rows;
    }

    /** The walk to the first record of a page. */
    method Skip(first: int) returns (idx: int)
      requires Valid()
      ensures first < count ==> 0 < |order| ==> idx == order[if first < 0 then 0 else first]
    {
      hide Linked, Held;
      idx := start;
      var i := 0;
      if count > 0 {
        NodeAt(L(), order, 0);
      }
      while i < first && i < count
        invariant 0 <= i <= count && (i <= first || i == 0)
        invariant i < count ==> idx == order[i]
      {
        NodeAt(L(), order, i);
        idx := nodes[idx].next;
        i := i + 1;
      }
    }

    /** The walk over the records of a page; the index runs from `first`, which may be negative. */
    method Collect(idx0: int, first: int, perPage: int) returns (page: seq<Warn>)
      requires Valid() && (first < count ==> 0 < |order| ==> idx0 == order[if first < 0 then 0 else first])
      requires first < 0 < perPage ==> first + perPage <= 0 && perPage <= count
      ensures page == if perPage < 0 then [] else if first < 0 then Contents()[..perPage]
                      else Limit(Contents(), first, perPage)
    {
      hide Linked, Held, Infos;
      InfosLength(nodes[..], order);
      page := [];
      var idx, i := idx0, first;
      ghost var from: nat := if first < 0 then 0 else first;
      ghost var at := from;
      while i < first + perPage && i < count
        invariant 0 <= at - from == i - first && (i == first || (i <= first + perPage && at <= count))
        invariant perPage > 0 && at < count ==> idx == order[at]
        invariant |page| == at - from && forall k :: 0 <= k < |page| ==> page[k] == Contents()[from + k]
      {
        NodeAt(L(), order, at);
        InfoAt(nodes[..], order, at);
        page := page + [nodes[idx].info];
        idx := nodes[idx].next;
        i := i + 1;
        at := at + 1;
      }
    }

    /** `GetWarnListFromShm`: 1 leaves the page to the database. */
    method GetWarnListFromShm(curPage: int, perPage: int, total: int) returns (ret: int, page: seq<Warn>)
      requires Valid() && curPage != 0 && perPage != 0 && (curPage < 0 < perPage ==> perPage <= |Contents()|)
      ensures ret == if Declines(Contents(), curPage, perPage, total) then 1 else 0
      ensures ret == 0 ==> page == PageOf(Contents(), curPage, perPage)
    {
      hide Linked, Held, Infos, Limit;
      InfosLength(nodes[..], order);
      if count < perPage * curPage && total > count {
        return 1, [];
      }
      var first := perPage * (curPage - 1);
      if perPage > 0 {
        PageSigns(curPage, perPage);
      }
      var idx := Skip(first);
      page := Collect(idx, first, perPage);
      ret := 0;
    }
  }

  lemma PageSigns(curPage: int, perPage: int)
    requires curPage != 0 && perPage > 0
    ensures curPage < 0 ==> perPage * (curPage - 1) + perPage <= 0 && perPage * (curPage - 1) < 0
    ensures curPage > 0 ==> perPage * (curPage - 1) >= 0
  {
    assert perPage * (curPage - 1) + perPage == perPage * curPage;
  }

  lemma InBounds(l: Links, order: seq<int>, k: nat)
    requires Linked(l, order) && k < |order|
    ensures -1 <= PrevOf(order, k) < |l.ns| && -1 <= NextOf(order, k) < |l.ns|
  {
  }

  lemma FreeNode(ns: seq<Node>, order: seq<int>, i: nat)
    requires Held(ns, order) && i < |ns| && ns[i].info.wid == 0
    ensures i !in order
  {
  }

  lemma EmptyOrder(l: Links, order: seq<int>, i: nat, front: bool)
    requires Linked(l, order) && (|order| == 0 || l.start < 0) && i < |l.ns|
    ensures |order| == 0 && Linked(SetFirst(l, i), Put(order, i, front))
  {
    SetFirstLinked(l, i);
    assert Put(order, i, front) == [i];
  }

  lemma FirstPut(l: Links, order: seq<int>, i: nat)
    requires Linked(l, order) && |order| > 0 && i < |l.ns| && i !in order
    ensures 0 <= l.start < |l.ns| && Linked(InsertFirst(l, i), Put(order, i, true))
  {
    NodeAt(l, order, 0);
    InsertFirstLinked(l, order, i);
  }

  lemma LastPut(l: Links, order: seq<int>, i: nat)
    requires Linked(l, order) && |order| > 0 && i < |l.ns| && i !in order
    ensures 0 <= l.end < |l.ns| && Linked(InsertLast(l, i), Put(order, i, false))
  {
    NodeAt(l, order, |order| - 1);
    InsertLastLinked(l, order, i);
  }

  lemma PutLength(order: seq<int>, i: int, front: bool)
    ensures |Put(order, i, front)| == |order| + 1
  {
  }

  lemma Dropped(l: Links, order: seq<int>, k: nat)
    requires Linked(l, order) && k < |order|
    ensures |Drop(order, k)| == |order| - 1 && order[k] !in Drop(order, k)
  {
    DropIn(order, |l.ns|, k, order[k]);
  }

  lemma NotHeld(ns: seq<Node>, order: seq<int>, wid: nat)
    requires Held(ns, order) && forall j :: 0 <= j < |ns| ==> ns[j].info.wid != wid
    ensures !Has(Infos(ns, order), wid)
  {
  }

  lemma HeldAt(ns: seq<Node>, order: seq<int>, i: nat) returns (k: nat)
    requires Held(ns, order) && i < |ns| && ns[i].info.wid != 0
    ensures k < |order| && order[k] == i && IndexOf(Infos(ns, order), ns[i].info.wid) == k
  {
    hide IndexOf;
    k :| 0 <= k < |order| && order[k] == i;
    var infos := Infos(ns, order);
    assert infos[k].wid == ns[i].info.wid;
    assert Has(infos, ns[i].info.wid);
  }

  lemma InfoAt(ns: seq<Node>, order: seq<int>, k: nat)
    requires Held(ns, order) && k < |order|
    ensures 0 <= order[k] < |ns| && |Infos(ns, order)| == |order| && Infos(ns, order)[k] == ns[order[k]].info
  {
  }

  lemma FreeStays(ns: seq<Node>, ns': seq<Node>, i: nat)
    requires SameInfos(ns, ns') && i < |ns|
    ensures |ns| == |ns'| && ns'[i].info == ns[i].info
  {
  }

  lemma NotListed(ns: seq<Node>, order: seq<int>, i: nat)
    requires Held(ns, order) && i < |ns| && i !in order
    ensures ns[i].info.wid == 0
  {
  }

  lemma DropFree(l: Links, order: seq<int>, k: nat, i: int)
    requires Linked(l, order) && k < |order| && i !in order
    ensures i !in Drop(order, k) && |Drop(order, k)| == |order| - 1
  {
    DropIn(order, |l.ns|, k, i);
  }

  lemma CutLast(list: seq<Warn>)
    ensures |list| > 0 ==> RemoveAt(list, |list| - 1) == list[..|list| - 1]
  {
  }

  lemma InfosLength(ns: seq<Node>, order: seq<int>)
    requires Held(ns, order)
    ensures |Infos(ns, order)| == |order|
  {
  }

  lemma LoadStep(rows: seq<Row>, cap: nat, n: nat)
    requires cap > 0 && n < |rows|
    ensures Load(rows[..n + 1], cap) == RecentWarns.ReadRow(Load(rows[..n], cap), cap, rows[n], false, true)
  {
    assert rows[..n + 1][..n] == rows[..n];
  }

  lemma {:induction false} Missing(order: seq<int>, n: nat) returns (i: nat)
    requires Indices(order, n) && |order| < n
    ensures i < n && i !in order
  {
    i := n - 1;
    if i in order {
      var k :| 0 <= k < |order| && order[k] == n - 1;
      var rest := Drop(order, k);
      DropIndices(order, k, n);
      forall m | 0 <= m < |rest| ensures rest[m] < n - 1 {
        assert rest[m] == order[if m < k then m else m + 1];
      }
      i := Missing(rest, n - 1);
      DropIn(order, n, k, i);
    }
  }

  /** A table with more nodes than the list has a free one. */
  lemma Room(ns: seq<Node>, order: seq<int>) returns (i: nat)
    requires Held(ns, order) && |order| < |ns|
    ensures i < |ns| && ns[i].info.wid == 0
  {
    i := Missing(order, |ns|);
  }
}
