/** The tree of attribute types: adding a type below its parent, and deleting a type by swapping its subtree with the
    last sibling. The tree is a protobuf message, a value that owns its children. */
module AttrTypeTree {

  datatype Tree = Tree(id: int, subs: seq<Tree>)

  // ----- deleting -----

  /** The siblings from some index on, after a hit there: the last one takes its place. */
  function SwapOut(rest: seq<Tree>): seq<Tree>
    requires |rest| > 0
  {
    if |rest| == 1 then [] else [rest[|rest| - 1]] + rest[1..|rest| - 1]
  }

  /** The tree after a deletion that did not hit its root. */
  function Delete(t: Tree, id: int): Tree
    decreases t, 0
  {
    Tree(t.id, DeleteSubs(t.subs, id))
  }

  function DeleteSubs(rest: seq<Tree>, id: int): seq<Tree>
    decreases rest, 1
  {
    if |rest| == 0 then []
    else if rest[0].id == id then SwapOut(rest)
    else [Delete(rest[0], id)] + DeleteSubs(rest[1..], id)
  }

  lemma DeleteSubsStep(subs: seq<Tree>, i: nat, id: int)
    requires i < |subs|
    ensures DeleteSubs(subs[i..], id) ==
            if subs[i].id == id then SwapOut(subs[i..])
            else [Delete(subs[i], id)] + DeleteSubs(subs[i + 1..], id)
  {
    assert subs[i..][1..] == subs[i + 1..];
  }

  lemma DeleteCons(x: Tree, more: seq<Tree>, id: int)
    requires x.id != id
    ensures DeleteSubs([x] + more, id) == [Delete(x, id)] + DeleteSubs(more, id)
  {
    assert ([x] + more)[1..] == more;
  }

  /** The swap with the last sibling and `RemoveLast`. */
  method RemoveSub(subs: seq<Tree>, i: nat) returns (r: seq<Tree>)
    requires i < |subs|
    ensures r == subs[..i] + SwapOut(subs[i..])
  {
    r := subs;
    if i + 1 < |r| {
      r := r[i := subs[|r| - 1]][|r| - 1 := subs[i]];
    }
    r := r[..|r| - 1];
  }

  /** `DeleteAttrTypeTree`; 1 tells the caller that the root is to go. */
  method DeleteAttrTypeTree(t: Tree, iType: int) returns (ret: int, t': Tree)
    ensures if t.id == iType then ret == 1 && t' == t else ret == 0 && t' == Delete(t, iType)
    decreases t
  {
    hide DeleteSubs, SwapOut;
    if iType == t.id {
      return 1, t;
    }
    var subs := t.subs;
    ghost var done: seq<Tree> := [];
    var i := 0;
    assert t.subs[0..] == t.subs;
    while i < |subs|
      invariant 0 <= i == |done| <= |t.subs|
      invariant subs == done + t.subs[i..]
      invariant DeleteSubs(t.subs, iType) == done + DeleteSubs(t.subs[i..], iType)
    {
      DeleteSubsStep(t.subs, i, iType);
      var hit, sub := DeleteAttrTypeTree(t.subs[i], iType);
      if hit > 0 {
        subs := RemoveSub(subs, i);
        return 0, Tree(t.id, subs);
      }
      subs := subs[i := sub];
      Replaced(t.subs, done, i, sub);
      done := done + [sub];
      i := i + 1;
    }
    EndOfSubs(t.subs, iType);
    return 0, Tree(t.id, subs);
  }

  lemma Replaced(subs: seq<Tree>, done: seq<Tree>, i: nat, sub: Tree)
    requires i == |done| < |subs|
    ensures (done + subs[i..])[i := sub] == (done + [sub]) + subs[i + 1..]
    ensures forall rest: seq<Tree> :: done + ([sub] + rest) == (done + [sub]) + rest
  {
  }

  lemma EndOfSubs(subs: seq<Tree>, id: int)
    ensures DeleteSubs(subs[|subs|..], id) == subs[|subs|..] == []
  {
  }

  // ----- adding -----

  datatype Added = Added(ret: int, t: Tree)

  predicate HasChild(t: Tree, id: int) { exists i :: 0 <= i < |t.subs| && t.subs[i].id == id }

  function Add(t: Tree, parent: int, id: int): Added
    decreases t, 0
  {
    if t.id == parent then
      if HasChild(t, id) then Added(0, t) else Added(1, Tree(t.id, t.subs + [Tree(id, [])]))
    else
      var (ret, subs) := AddSubs(t.subs, parent, id);
      Added(ret, Tree(t.id, subs))
  }

  function AddSubs(rest: seq<Tree>, parent: int, id: int): (int, seq<Tree>)
    decreases rest, 1
  {
    if |rest| == 0 then (-1, [])
    else
      var first := Add(rest[0], parent, id);
      if first.ret >= 0 then (first.ret, [first.t] + rest[1..])
      else
        var (ret, subs) := AddSubs(rest[1..], parent, id);
        (ret, [first.t] + subs)
  }

  /** `TryAddAttrTypeTree`. */
  method TryAddAttrTypeTree(t: Tree, iTypeParent: int, iType: int) returns (ret: int, t': Tree)
    ensures Add(t, iTypeParent, iType) == Added(ret, t')
    decreases t
  {
    ret := -1;
    if iTypeParent == t.id {
      var i := 0;
      while i < |t.subs|
        invariant 0 <= i <= |t.subs|
        invariant forall k :: 0 <= k < i ==> t.subs[k].id != iType
      {
        if t.subs[i].id == iType {
          break;
        }
        i := i + 1;
      }
      if i >= |t.subs| {
        return 1, Tree(t.id, t.subs + [Tree(iType, [])]);
      } else {
        return 0, t;
      }
    }
    var subs := t.subs;
    ghost var done: seq<Tree> := [];
    var i := 0;
    assert t.subs[0..] == t.subs;
    while i < |subs|
      invariant 0 <= i == |done| <= |t.subs| && ret == -1
      invariant subs == done + t.subs[i..]
      invariant AddSubs(t.subs, iTypeParent, iType).0 == AddSubs(t.subs[i..], iTypeParent, iType).0
      invariant AddSubs(t.subs, iTypeParent, iType).1 == done + AddSubs(t.subs[i..], iTypeParent, iType).1
    {
      AddSubsStep(t.subs, i, iTypeParent, iType);
      AddMiss(t.subs[i], iTypeParent, iType);
      var sub;
      ret, sub := TryAddAttrTypeTree(t.subs[i], iTypeParent, iType);
      subs := subs[i := sub];
      Replaced(t.subs, done, i, sub);
      if ret >= 0 {
        return ret, Tree(t.id, subs);
      }
      done := done + [sub];
      i := i + 1;
    }
    return -1, Tree(t.id, subs);
  }

  lemma AddSubsStep(subs: seq<Tree>, i: nat, parent: int, id: int)
    requires i < |subs|
    ensures var first := Add(subs[i], parent, id); var rest := AddSubs(subs[i + 1..], parent, id);
            AddSubs(subs[i..], parent, id) ==
            if first.ret >= 0 then (first.ret, [first.t] + subs[i + 1..]) else (rest.0, [first.t] + rest.1)
  {
    assert subs[i..][1..] == subs[i + 1..];
  }

  lemma {:induction false} AddMiss(t: Tree, parent: int, id: int)
    ensures -1 <= Add(t, parent, id).ret <= 1
    decreases t, 0
  {
    AddSubsMiss(t.subs, parent, id);
  }

  lemma {:induction false} AddSubsMiss(rest: seq<Tree>, parent: int, id: int)
    ensures -1 <= AddSubs(rest, parent, id).0 <= 1
    decreases rest, 1
  {
    if |rest| > 0 {
      AddMiss(rest[0], parent, id);
      AddSubsMiss(rest[1..], parent, id);
    }
  }

  // ----- what the tree records -----

  /** The types in a tree. */
  ghost function Ids(t: Tree): multiset<int>
    decreases t, 0
  {
    multiset{t.id} + IdsAll(t.subs)
  }

  ghost function IdsAll(ts: seq<Tree>): multiset<int>
    decreases ts, 1
  {
    if |ts| == 0 then multiset{} else Ids(ts[0]) + IdsAll(ts[1..])
  }

  /** The pairs of a type and its parent. */
  ghost function Links(t: Tree): multiset<(int, int)>
    decreases t, 0
  {
    LinksAll(t.id, t.subs)
  }

  ghost function LinksAll(parent: int, ts: seq<Tree>): multiset<(int, int)>
    decreases ts, 1
  {
    if |ts| == 0 then multiset{}
    else multiset{(parent, ts[0].id)} + Links(ts[0]) + LinksAll(parent, ts[1..])
  }

  ghost predicate AtMostOnce(ids: multiset<int>) { forall x :: ids[x] <= 1 }

  ghost predicate Unique(t: Tree) { AtMostOnce(Ids(t)) }

  lemma Move<T>(a: multiset<T>, b: multiset<T>, c: multiset<T>, x: multiset<T>)
    ensures a + (b + x) + c == a + b + c + x
    ensures a + b + (c + x) == a + b + c + x
    ensures (b + x) + c == b + c + x
    ensures b + (c + x) == b + c + x
  {
  }

  lemma AllCons(parent: int, x: Tree, more: seq<Tree>)
    ensures IdsAll([x] + more) == Ids(x) + IdsAll(more)
    ensures LinksAll(parent, [x] + more) == multiset{(parent, x.id)} + Links(x) + LinksAll(parent, more)
  {
    hide Ids, Links;
    assert ([x] + more)[1..] == more;
  }

  lemma {:induction false} Append(parent: int, ts: seq<Tree>, x: Tree)
    ensures IdsAll(ts + [x]) == IdsAll(ts) + Ids(x)
    ensures LinksAll(parent, ts + [x]) == LinksAll(parent, ts) + multiset{(parent, x.id)} + Links(x)
  {
    hide Ids, Links;
    if |ts| == 0 {
      assert ts + [x] == [x];
    } else {
      assert (ts + [x])[1..] == ts[1..] + [x];
      Append(parent, ts[1..], x);
    }
  }

  /** The swap loses nothing but the sibling it removes. */
  lemma SwapOutKeeps(parent: int, rest: seq<Tree>)
    requires |rest| > 0
    ensures IdsAll(SwapOut(rest)) == IdsAll(rest[1..])
    ensures LinksAll(parent, SwapOut(rest)) == LinksAll(parent, rest[1..])
  {
    hide Ids, Links;
    if |rest| > 1 {
      var mid := rest[1..|rest| - 1];
      var last := rest[|rest| - 1];
      assert rest[1..] == mid + [last];
      Append(parent, mid, last);
      assert ([last] + mid)[1..] == mid;
    }
  }

  lemma {:induction false} DeleteMiss(t: Tree, id: int)
    requires id !in Ids(t)
    ensures Delete(t, id) == t
    decreases t, 0
  {
    DeleteSubsMiss(t.subs, id);
  }

  lemma {:induction false} DeleteSubsMiss(rest: seq<Tree>, id: int)
    requires id !in IdsAll(rest)
    ensures DeleteSubs(rest, id) == rest
    decreases rest, 1
  {
    if |rest| > 0 {
      DeleteMiss(rest[0], id);
      DeleteSubsMiss(rest[1..], id);
    }
  }

  /** Deleting a type below the root removes its subtree and the link to its parent, and nothing else: every type that
      survives keeps its parent. */
  lemma {:induction false} DeleteExact(t: Tree, id: int) returns (sub: Tree, parent: int)
    requires Unique(t) && id in Ids(t) && id != t.id
    ensures sub.id == id
    ensures Ids(t) == Ids(Delete(t, id)) + Ids(sub)
    ensures Links(t) == Links(Delete(t, id)) + multiset{(parent, id)} + Links(sub)
    ensures Unique(Delete(t, id)) && Delete(t, id).id == t.id && id !in Ids(Delete(t, id))
    decreases t, 0
  {
    assert AtMostOnce(IdsAll(t.subs)) by {
      forall x ensures IdsAll(t.subs)[x] <= 1 { assert Ids(t)[x] <= 1; }
    }
    sub, parent := DeleteSubsExact(t.id, t.subs, id);
    Below(t, Delete(t, id), sub);
  }

  lemma Below(t: Tree, t': Tree, sub: Tree)
    requires Unique(t) && Ids(t) == Ids(t') + Ids(sub)
    ensures Unique(t') && sub.id !in Ids(t')
  {
    forall x ensures Ids(t')[x] <= 1 { assert Ids(t)[x] <= 1; }
    assert Ids(t)[sub.id] <= 1;
  }

  lemma {:induction false} DeleteSubsExact(p: int, rest: seq<Tree>, id: int) returns (sub: Tree, parent: int)
    requires AtMostOnce(IdsAll(rest)) && id in IdsAll(rest)
    ensures sub.id == id
    ensures IdsAll(rest) == IdsAll(DeleteSubs(rest, id)) + Ids(sub)
    ensures LinksAll(p, rest) == LinksAll(p, DeleteSubs(rest, id)) + multiset{(parent, id)} + Links(sub)
    decreases rest, 1
  {
    assert |rest| > 0;
    hide Ids, Links, IdsAll, LinksAll, DeleteSubs, Delete, SwapOut, AtMostOnce;
    var first, more := rest[0], rest[1..];
    assert rest == rest[0..] == [first] + more;
    Halves(rest);
    AllCons(p, first, more);
    DeleteSubsStep(rest, 0, id);
    var link := multiset{(p, first.id)};
    if first.id == id {
      sub, parent := first, p;
      SwapOutKeeps(p, rest);
      Move(multiset{}, link + Links(first), LinksAll(p, more), multiset{});
      assert link + Links(first) + LinksAll(p, more) == LinksAll(p, more) + link + Links(first);
    } else if id in Ids(first) {
      OnlyFirst(rest, id);
      DeleteSubsMiss(more, id);
      var first' := Delete(first, id);
      AllCons(p, first', more);
      sub, parent := DeleteExact(first, id);
      Move(multiset{}, Ids(first'), IdsAll(more), Ids(sub));
      Move(link, Links(first') + multiset{(parent, id)}, LinksAll(p, more), Links(sub));
      Move(link, Links(first'), LinksAll(p, more), multiset{(parent, id)});
    } else {
      var more' := DeleteSubs(more, id);
      DeleteMiss(first, id);
      AllCons(p, first, more');
      sub, parent := DeleteSubsExact(p, more, id);
      Move(multiset{}, Ids(first), IdsAll(more'), Ids(sub));
      Move(link, Links(first), LinksAll(p, more') + multiset{(parent, id)}, Links(sub));
      Move(link, Links(first), LinksAll(p, more'), multiset{(parent, id)});
    }
  }

  lemma OnlyFirst(rest: seq<Tree>, id: int)
    requires |rest| > 0 && AtMostOnce(IdsAll(rest)) && id in Ids(rest[0])
    ensures id !in IdsAll(rest[1..])
  {
    hide Ids;
    assert IdsAll(rest)[id] <= 1;
  }

  lemma Halves(rest: seq<Tree>)
    requires |rest| > 0 && AtMostOnce(IdsAll(rest))
    ensures Unique(rest[0]) && AtMostOnce(IdsAll(rest[1..]))
  {
    hide Ids;
    forall x ensures Ids(rest[0])[x] <= 1 && IdsAll(rest[1..])[x] <= 1 { assert IdsAll(rest)[x] <= 1; }
  }

  // ----- adding, and the runs -----

  lemma Leaf(id: int)
    ensures Ids(Tree(id, [])) == multiset{id} && Links(Tree(id, [])) == multiset{}
  {
    assert IdsAll([]) == multiset{};
    assert Links(Tree(id, [])) == multiset{} by {
      assert LinksAll(id, []) == multiset{};
    }
  }

  /** Adding finds its parent exactly when it is in the tree, and then adds one leaf and one link or nothing. */
  lemma {:induction false} AddExact(t: Tree, parent: int, id: int)
    ensures Add(t, parent, id).t.id == t.id
    ensures Add(t, parent, id).ret == -1 <==> parent !in Ids(t)
    ensures Add(t, parent, id).ret != 1 ==> Add(t, parent, id).t == t
    ensures Add(t, parent, id).ret == 1 ==> Ids(Add(t, parent, id).t) == Ids(t) + multiset{id}
    ensures Add(t, parent, id).ret == 1 ==> Links(Add(t, parent, id).t) == Links(t) + multiset{(parent, id)}
    ensures Add(t, parent, id).ret == 0 ==> (parent, id) in Links(t)
    decreases t, 0
  {
    AddMiss(t, parent, id);
    Leaf(id);
    hide IdsAll, LinksAll, AddSubs;
    if t.id == parent {
      if HasChild(t, id) {
        ChildLinked(t.id, t.subs, id);
      } else {
        Append(t.id, t.subs, Tree(id, []));
      }
    } else {
      AddSubsExact(t.id, t.subs, parent, id);
    }
  }

  lemma {:induction false} ChildLinked(p: int, ts: seq<Tree>, id: int)
    requires exists i :: 0 <= i < |ts| && ts[i].id == id
    ensures (p, id) in LinksAll(p, ts)
  {
    if ts[0].id != id {
      var i :| 0 <= i < |ts| && ts[i].id == id;
      assert ts[1..][i - 1].id == id;
      ChildLinked(p, ts[1..], id);
    }
  }

  lemma {:induction false} AddSubsExact(p: int, rest: seq<Tree>, parent: int, id: int)
    ensures AddSubs(rest, parent, id).0 == -1 <==> parent !in IdsAll(rest)
    ensures AddSubs(rest, parent, id).0 != 1 ==> AddSubs(rest, parent, id).1 == rest
    ensures AddSubs(rest, parent, id).0 == 1 ==> IdsAll(AddSubs(rest, parent, id).1) == IdsAll(rest) + multiset{id}
    ensures AddSubs(rest, parent, id).0 == 1 ==>
              LinksAll(p, AddSubs(rest, parent, id).1) == LinksAll(p, rest) + multiset{(parent, id)}
    ensures AddSubs(rest, parent, id).0 == 0 ==> (parent, id) in LinksAll(p, rest)
    decreases rest, 1
  {
    if |rest| > 0 {
      hide Ids, Links, Add, AddSubs, IdsAll, LinksAll;
      var first, more := Add(rest[0], parent, id), rest[1..];
      assert rest == rest[0..] == [rest[0]] + more;
      AddSubsStep(rest, 0, parent, id);
      AddMiss(rest[0], parent, id);
      AddExact(rest[0], parent, id);
      AllCons(p, rest[0], more);
      var link := multiset{(p, rest[0].id)};
      Move(link, Links(rest[0]), LinksAll(p, more), multiset{(parent, id)});
      Move(multiset{}, Ids(rest[0]), IdsAll(more), multiset{id});
      if first.ret >= 0 {
        AllCons(p, first.t, more);
      } else {
        AddSubsExact(p, more, parent, id);
        AllCons(p, first.t, AddSubs(more, parent, id).1);
      }
    }
  }

  /** Deleting a type that was just added gives the tree back, sibling order included. */
  lemma {:induction false} DeleteAfterAdd(t: Tree, parent: int, id: int)
    requires id !in Ids(t)
    ensures Delete(Add(t, parent, id).t, id) == t
    decreases t, 0
  {
    if t.id == parent {
      AppendThenDelete(t.subs, id);
      if HasChild(t, id) {
        ChildLinked(t.id, t.subs, id);
        LinkedIsThere(t.id, t.subs, t.id, id);
      }
    } else {
      DeleteSubsAfterAdd(t.subs, parent, id);
    }
  }

  /** Both ends of a link are in the tree. */
  lemma {:induction false} LinkedIsThere(p: int, ts: seq<Tree>, parent: int, id: int)
    requires (parent, id) in LinksAll(p, ts)
    ensures id in IdsAll(ts) && (parent == p || parent in IdsAll(ts))
    decreases ts
  {
    if ts[0].id == id && parent == p {
    } else if (parent, id) in Links(ts[0]) {
      LinkedIsThere(ts[0].id, ts[0].subs, parent, id);
    } else {
      LinkedIsThere(p, ts[1..], parent, id);
    }
  }

  lemma {:induction false} AppendThenDelete(ts: seq<Tree>, id: int)
    requires id !in IdsAll(ts)
    ensures DeleteSubs(ts + [Tree(id, [])], id) == ts
  {
    var leaf := Tree(id, []);
    if |ts| == 0 {
      assert ts + [leaf] == [leaf];
    } else {
      assert (ts + [leaf])[0] == ts[0] && (ts + [leaf])[1..] == ts[1..] + [leaf];
      DeleteMiss(ts[0], id);
      AppendThenDelete(ts[1..], id);
    }
  }

  lemma {:induction false} DeleteSubsAfterAdd(rest: seq<Tree>, parent: int, id: int)
    requires id !in IdsAll(rest)
    ensures DeleteSubs(AddSubs(rest, parent, id).1, id) == rest
    decreases rest, 1
  {
    if |rest| > 0 {
      assert id !in Ids(rest[0]) && rest[0].id != id && id !in IdsAll(rest[1..]);
      hide Ids, Links, Add, AddSubs, IdsAll, LinksAll, Delete, DeleteSubs;
      var first, more := Add(rest[0], parent, id), rest[1..];
      assert rest == rest[0..] == [rest[0]] + more;
      AddSubsStep(rest, 0, parent, id);
      AddExact(rest[0], parent, id);
      DeleteAfterAdd(rest[0], parent, id);
      DeleteSubsMiss(more, id);
      DeleteSubsAfterAdd(more, parent, id);
      DeleteCons(first.t, more, id);
      DeleteCons(first.t, AddSubs(more, parent, id).1, id);
    }
  }

  /** Where no type occurs twice, a link is found where it is. */
  lemma {:induction false} LinkFound(t: Tree, parent: int, id: int)
    requires Unique(t) && (parent, id) in Links(t)
    ensures Add(t, parent, id).ret == 0
    decreases t, 0
  {
    assert Ids(t)[t.id] <= 1;
    if t.id == parent {
      DirectChild(parent, t.subs, id);
    } else {
      forall x ensures IdsAll(t.subs)[x] <= 1 { assert Ids(t)[x] <= 1; }
      LinkFoundSubs(t.id, t.subs, parent, id);
    }
  }

  lemma {:induction false} DirectChild(p: int, ts: seq<Tree>, id: int)
    requires p !in IdsAll(ts) && (p, id) in LinksAll(p, ts)
    ensures exists i :: 0 <= i < |ts| && ts[i].id == id
  {
    if ts[0].id != id {
      if (p, id) in Links(ts[0]) {
        LinkedIsThere(ts[0].id, ts[0].subs, p, id);
      }
      DirectChild(p, ts[1..], id);
      var i :| 0 <= i < |ts[1..]| && ts[1..][i].id == id;
      assert ts[i + 1].id == id;
    }
  }

  lemma {:induction false} LinkFoundSubs(p: int, rest: seq<Tree>, parent: int, id: int)
    requires AtMostOnce(IdsAll(rest)) && parent != p && (parent, id) in LinksAll(p, rest)
    ensures AddSubs(rest, parent, id).0 == 0
    decreases rest, 1
  {
    hide Add;
    Halves(rest);
    AddExact(rest[0], parent, id);
    if (parent, id) in Links(rest[0]) {
      LinkFound(rest[0], parent, id);
    } else {
      LinkedIsThere(p, rest[1..], parent, id);
      assert IdsAll(rest)[parent] <= 1;
      LinkFoundSubs(p, rest[1..], parent, id);
    }
  }

  /** One change of `DealUserAttrTypeTree`. */
  datatype Change = AddType(parent: int, id: int) | DeleteType(id: int)

  function Deal(t: Tree, c: Change): Tree {
    match c
    case AddType(parent, id) => Add(t, parent, id).t
    case DeleteType(id) => if t.id == id then t else Delete(t, id)
  }

  /** The type is new, or it is where it should go, or its parent is not there. */
  ghost predicate Settled(t: Tree, c: Change) {
    c.AddType? ==> c.id !in Ids(t) || (c.parent, c.id) in Links(t) || c.parent !in Ids(t)
  }

  /** A change leaves every type at most one place in the tree exactly when it does not move a type. */
  lemma UniqueExact(t: Tree, c: Change)
    requires Unique(t)
    ensures Unique(Deal(t, c)) <==> Settled(t, c)
    ensures Deal(t, c).id == t.id
  {
    hide Ids, Links, Add, Delete;
    match c
    case AddType(parent, id) =>
      AddMiss(t, parent, id);
      AddExact(t, parent, id);
      var added := Add(t, parent, id);
      if added.ret == 1 {
        if (parent, id) in Links(t) {
          LinkFound(t, parent, id);
        }
        if id !in Ids(t) {
          forall x ensures Ids(added.t)[x] <= 1 { assert Ids(t)[x] <= 1; }
        } else {
          assert Ids(added.t)[id] > 1;
        }
      }
    case DeleteType(id) =>
      if t.id != id {
        if id in Ids(t) {
          var sub, parent := DeleteExact(t, id);
        } else {
          DeleteMiss(t, id);
        }
      }
  }

  /** On its own an addition can leave a type in the tree twice: type 3 is below the root and is added below type 2. */
  lemma MovedTypeTwice()
    ensures var t := Tree(1, [Tree(2, []), Tree(3, [])]); Unique(t) && !Unique(Add(t, 2, 3).t)
  {
    hide Ids, Links, Add;
    TwoTypes();
    UniqueExact(Tree(1, [Tree(2, []), Tree(3, [])]), AddType(2, 3));
  }

  lemma TwoTypes()
    ensures Ids(Tree(1, [Tree(2, []), Tree(3, [])])) == multiset{1, 2, 3}
    ensures Links(Tree(1, [Tree(2, []), Tree(3, [])])) == multiset{(1, 2), (1, 3)}
  {
    assert [Tree(2, []), Tree(3, [])][1..] == [Tree(3, [])];
  }

  // ----- the rows -----

  /** A row of `mt_attr_type`; `slot` when the hash table has a node for a new type. */
  datatype Row = Row(id: int, parent: int, inUse: bool, slot: bool)

  /** The tree and the types the hash table knows. */
  datatype Types = Types(tree: Tree, known: set<int>)

  /** The tree starts as the one root type 1. */
  const START := Types(Tree(1, []), {})

  /** Only a type that the hash table does not know is added. */
  predicate Adds(s: Types, row: Row) { row.inUse && row.id !in s.known && row.slot }

  function ReadType(s: Types, row: Row): Types {
    Types(
      if row.id == 1 then s.tree
      else if !row.inUse then Deal(s.tree, DeleteType(row.id))
      else if Adds(s, row) then Deal(s.tree, AddType(row.parent, row.id))
      else s.tree,
      if Adds(s, row) then s.known + {row.id} else if !row.inUse then s.known - {row.id} else s.known)
  }

  function ReadTypes(s: Types, rows: seq<Row>): Types {
    if |rows| == 0 then s else ReadType(ReadTypes(s, rows[..|rows| - 1]), rows[|rows| - 1])
  }

  /** Every type but the root has one place at most, and is known. */
  ghost predicate InStep(s: Types) {
    Unique(s.tree) && s.tree.id == 1 && forall x :: x in Ids(s.tree) ==> x == 1 || x in s.known
  }

  lemma DeleteLeaves(t: Tree, id: int)
    requires Unique(t) && id != t.id
    ensures id !in Ids(Delete(t, id)) && Unique(Delete(t, id)) && forall x :: x in Ids(Delete(t, id)) ==> x in Ids(t)
  {
    hide Ids, Links, Delete;
    if id in Ids(t) {
      var sub, parent := DeleteExact(t, id);
    } else {
      DeleteMiss(t, id);
    }
  }

  /** Reading a row keeps that, places a new type exactly when its parent has a place, and leaves no place to a type
      that is not in use. */
  lemma ReadTypeKeeps(s: Types, row: Row)
    requires InStep(s)
    ensures InStep(ReadType(s, row))
    ensures row.id != 1 && Adds(s, row) ==> (row.id in Ids(ReadType(s, row).tree) <==> row.parent in Ids(s.tree))
    ensures row.id != 1 && !row.inUse ==> row.id !in Ids(ReadType(s, row).tree)
  {
    hide Ids, Links, Add, Delete;
    if row.id != 1 {
      if !row.inUse {
        DeleteLeaves(s.tree, row.id);
        UniqueExact(s.tree, DeleteType(row.id));
      } else if Adds(s, row) {
        assert row.id !in Ids(s.tree);
        AddMiss(s.tree, row.parent, row.id);
        AddExact(s.tree, row.parent, row.id);
        UniqueExact(s.tree, AddType(row.parent, row.id));
        if Add(s.tree, row.parent, row.id).ret == 0 {
          LinkedIn(s.tree, row.parent, row.id);
        }
      }
    }
  }

  lemma LinkedIn(t: Tree, parent: int, id: int)
    requires (parent, id) in Links(t)
    ensures id in Ids(t)
  {
    LinkedIsThere(t.id, t.subs, parent, id);
  }

  /** Over every run of rows, from the start: each type has at most one place, the root stays, and every type in the
      tree but the root is known. So no row is ever added a second time. */
  lemma {:induction false} RowsKeepUnique(rows: seq<Row>)
    ensures InStep(ReadTypes(START, rows))
    ensures forall row: Row :: row.id != 1 && Adds(ReadTypes(START, rows), row) ==>
              Settled(ReadTypes(START, rows).tree, AddType(row.parent, row.id))
  {
    hide ReadType, Unique;
    if |rows| == 0 {
      StartInStep();
    } else {
      RowsKeepUnique(rows[..|rows| - 1]);
      ReadTypeKeeps(ReadTypes(START, rows[..|rows| - 1]), rows[|rows| - 1]);
    }
  }

  lemma StartInStep()
    ensures InStep(START)
  {
    Leaf(1);
  }

  /** A known type without a place gets none until its row leaves use. */
  lemma {:induction false} StaysUnplaced(s: Types, rows: seq<Row>, x: int)
    requires InStep(s) && x != 1 && x in s.known && x !in Ids(s.tree)
    requires forall n :: 0 <= n < |rows| && rows[n].id == x ==> rows[n].inUse
    ensures InStep(ReadTypes(s, rows)) && x in ReadTypes(s, rows).known && x !in Ids(ReadTypes(s, rows).tree)
  {
    hide Ids, Links, Add, Delete, InStep;
    if |rows| > 0 {
      var n := |rows| - 1;
      var s1, row := ReadTypes(s, rows[..n]), rows[n];
      StaysUnplaced(s, rows[..n], x);
      ReadTypeKeeps(s1, row);
      StepUnplaced(s1, row, x);
    }
  }

  lemma StepUnplaced(s: Types, row: Row, x: int)
    requires InStep(s) && x != 1 && x in s.known && x !in Ids(s.tree) && (row.id == x ==> row.inUse)
    ensures x in ReadType(s, row).known && x !in Ids(ReadType(s, row).tree)
  {
    hide Ids, Links, Add, Delete;
    if row.id != 1 {
      if !row.inUse {
        DeleteLeaves(s.tree, row.id);
      } else if Adds(s, row) {
        AddMiss(s.tree, row.parent, row.id);
        AddExact(s.tree, row.parent, row.id);
      }
    }
  }

  /** A type that left use and comes back is placed again, exactly when its parent has a place then. */
  lemma PlacedAgain(s: Types, id: int, parent: int, slot: bool)
    requires InStep(s) && id != 1
    ensures var s1 := ReadType(s, Row(id, parent, false, slot));
            var s2 := ReadType(s1, Row(id, parent, true, true));
            id in s2.known && (id in Ids(s2.tree) <==> parent in Ids(s1.tree))
  {
    hide Ids, Deal;
    var s1 := ReadType(s, Row(id, parent, false, slot));
    ReadTypeKeeps(s, Row(id, parent, false, slot));
    ReadTypeKeeps(s1, Row(id, parent, true, true));
  }

  /** A type whose row comes before that of its parent is known and has no place. */
  lemma ChildBeforeParent()
    ensures var s := ReadTypes(START, [Row(2, 3, true, true), Row(3, 1, true, true), Row(2, 3, true, true)]);
            2 in s.known && 2 !in Ids(s.tree) && 3 in Ids(s.tree)
  {
    var r2, r3 := Row(2, 3, true, true), Row(3, 1, true, true);
    assert [r2, r3, r2][..2] == [r2, r3] && [r2, r3][..1] == [r2] && [r2][..0] == [];
    assert ReadTypes(START, [r2]) == Types(Tree(1, []), {2});
    assert ReadTypes(START, [r2, r3]) == Types(Tree(1, [Tree(3, [])]), {2, 3});
    Leaf(3);
    AllCons(1, Tree(3, []), []);
    assert [Tree(3, [])] + [] == [Tree(3, [])];
    assert Ids(Tree(1, [Tree(3, [])])) == multiset{1, 3};
  }

  class TypeStore {
    var tree: Tree
    var known: set<int>

    constructor ()
      ensures Types(tree, known) == START && InStep(Types(tree, known))
    {
      tree, known := Tree(1, []), {};
      StartInStep();
    }

    /** One row of `ReadTableAttrType` with its call of `DealUserAttrTypeTree`. */
    method ReadRow(row: Row)
      modifies this
      ensures Types(tree, known) == ReadType(old(Types(tree, known)), row)
    {
      hide Delete, Add;
      var found := row.id in known;
      var deleteType, addType := false, false;
      if row.inUse && !found && row.slot {
        known := known + {row.id};
        addType := true;
      }
      if found && !row.inUse {
        known := known - {row.id};
      }
      if !row.inUse {
        deleteType := true;
      }
      if row.id != 1 && (addType || deleteType) {
        var ret;
        if deleteType {
          ret, tree := DeleteAttrTypeTree(tree, row.id);
        } else {
          ret, tree := TryAddAttrTypeTree(tree, row.parent, row.id);
        }
      }
    }

    /** `ReadTableAttrType`. */
    method ReadTable(rows: seq<Row>)
      modifies this
      ensures Types(tree, known) == ReadTypes(old(Types(tree, known)), rows)
    {
      hide ReadType;
      for n := 0 to |rows|
        invariant Types(tree, known) == ReadTypes(old(Types(tree, known)), rows[..n])
      {
        assert rows[..n + 1][..n] == rows[..n];
        ReadRow(rows[n]);
      }
      assert rows[..|rows|] == rows;
    }
  }
}
