/** Which views machines and attributes are bound to: the node arrays slog_config keeps in step with the rows of
    mt_view_bmach and mt_view_battr, and their intersection in the alarm check. */
module ViewBinding {
  import opened Seqs

  /** A row as read: the machine or attribute, the view, and whether its status is RECORD_STATUS_USE. */
  datatype Row = Row(id: int, view: int, inUse: bool)

  type Bound = map<int, seq<int>>

  function ViewsOf(b: Bound, id: int): seq<int> { if id in b then b[id] else [] }

  function With(s: seq<int>, v: int): seq<int> { if v in s then s else s + [v] }

  function Without(s: seq<int>, v: int): (r: seq<int>)
    ensures v !in s ==> r == s
  {
    if |s| == 0 then [] else if s[0] == v then s[1..] else [s[0]] + Without(s[1..], v)
  }

  /** The node arrays after one row; a node whose last view goes is freed. */
  function Read(b: Bound, row: Row): Bound {
    var views := ViewsOf(b, row.id);
    if row.inUse then if row.view in views then b else b[row.id := views + [row.view]]
    else if row.id !in b then b
    else
      var rest := Without(views, row.view);
      if |rest| == 0 then b - {row.id} else b[row.id := rest]
  }

  function ReadAll(rows: seq<Row>): Bound {
    if |rows| == 0 then map[] else Read(ReadAll(rows[..|rows| - 1]), rows[|rows| - 1])
  }

  /** The latest row of the pair is in use. */
  predicate LatestInUse(rows: seq<Row>, id: int, view: int) {
    if |rows| == 0 then false
    else
      var n := |rows| - 1;
      if rows[n].id == id && rows[n].view == view then rows[n].inUse else LatestInUse(rows[..n], id, view)
  }

  lemma {:induction false} WithoutExact(s: seq<int>, v: int)
    requires Distinct(s)
    ensures Distinct(Without(s, v))
    ensures forall x :: x in Without(s, v) <==> x in s && x != v
  {
    if |s| > 0 {
      var t := s[1..];
      WithoutExact(t, v);
      assert s == [s[0]] + t && s[0] !in t;
      if s[0] != v {
        assert s[0] !in Without(t, v);
      }
    }
  }

  ghost predicate InStep(b: Bound, rows: seq<Row>) {
    && (forall id :: id in b ==> |b[id]| > 0)
    && (forall id :: Distinct(ViewsOf(b, id)))
    && (forall id, v :: v in ViewsOf(b, id) <==> LatestInUse(rows, id, v))
  }

  lemma ReadInStep(b: Bound, rows: seq<Row>, row: Row)
    requires InStep(b, rows)
    ensures InStep(Read(b, row), rows + [row])
  {
    hide LatestInUse;
    var b', views := Read(b, row), ViewsOf(b, row.id);
    WithoutExact(views, row.view);
    forall id, v ensures v in ViewsOf(b', id) <==> LatestInUse(rows + [row], id, v) {
      LatestAppend(rows, row, id, v);
      assert v in ViewsOf(b, id) <==> LatestInUse(rows, id, v);
    }
    forall id ensures Distinct(ViewsOf(b', id)) {
      assert Distinct(ViewsOf(b, id));
    }
  }

  lemma LatestAppend(rows: seq<Row>, row: Row, id: int, v: int)
    ensures LatestInUse(rows + [row], id, v) ==
            if row.id == id && row.view == v then row.inUse else LatestInUse(rows, id, v)
  {
    assert (rows + [row])[..|rows|] == rows;
  }

  /** After any rows, each node array holds, once, exactly the views whose latest row is in use. */
  lemma {:induction false} ReadAllInStep(rows: seq<Row>)
    ensures InStep(ReadAll(rows), rows)
  {
    if |rows| > 0 {
      hide InStep, Read;
      var n := |rows| - 1;
      ReadAllInStep(rows[..n]);
      ReadInStep(ReadAll(rows[..n]), rows[..n], rows[n]);
      assert rows == rows[..n] + [rows[n]];
    } else {
      assert InStep(map[], rows);
    }
  }

  // ----- the program -----

  /** TMachineViewConfigInfo and TAttrViewConfigInfo: a fixed array of which the first `count` are views. */
  class BindNode {
    const ary: array<int>
    var count: nat

    ghost predicate Valid()
      reads this
    {
      count <= ary.Length
    }

    ghost function Views(): seq<int>
      requires Valid()
      reads this, ary
    {
      ary[..count]
    }

    constructor (capacity: nat, view: int)
      requires capacity > 0
      ensures Valid() && fresh(ary) && ary.Length == capacity && Views() == [view]
    {
      ary := new int[capacity];
      count := 1;
      new;
      ary[0] := view;
    }

    method IndexOf(view: int) returns (i: nat)
      requires Valid()
      ensures i <= count && view !in Views()[..i] && (i < count ==> ary[i] == view)
    {
      i := 0;
      while i < count
        invariant i <= count && view !in Views()[..i]
      {
        if ary[i] == view {
          return;
        }
        i := i + 1;
      }
    }

    /** A row in use. The source does not check the capacity. */
    method Bind(view: int)
      requires Valid() && (view in Views() || count < ary.Length)
      modifies this, ary
      ensures Valid()
      ensures Views() == With(old(Views()), view) && count > 0
    {
      var i := IndexOf(view);
      if i < count {
        assert ary[i] in Views();
        return;
      }
      ary[i] := view;
      count := count + 1;
    }

    method ShiftUp(k: nat)
      requires Valid() && k < count
      modifies this, ary
      ensures Valid() && Views() == old(Views()[..k] + Views()[k + 1..])
    {
      var i := k;
      while i + 1 < count
        invariant k <= i < count && count == old(count)
        invariant forall p :: 0 <= p < k ==> ary[p] == old(ary[p])
        invariant forall p :: k <= p < i ==> ary[p] == old(ary[p + 1])
        invariant forall p :: i <= p < count ==> ary[p] == old(ary[p])
      {
        ary[i] := ary[i + 1];
        i := i + 1;
      }
      count := count - 1;
      assert ary[..k] == old(ary[..k]);
      assert ary[k..count] == old(ary[k + 1..count]);
      assert ary[..count] == ary[..k] + ary[k..count];
    }

    /** A row not in use: the views behind it move up by one. */
    method Unbind(view: int)
      requires Valid()
      modifies this, ary
      ensures Valid() && Views() == Without(old(Views()), view)
    {
      hide Without;
      var k := IndexOf(view);
      WithoutAt(Views(), view, k);
      if k < count {
        ShiftUp(k);
      }
    }
  }

  /** The table of nodes; the model always finds room for a new node. */
  class BindTable {
    const capacity: nat
    var nodes: map<int, BindNode>

    ghost predicate Valid()
      reads this, nodes.Values
    {
      Apart() && forall id :: id in nodes ==> nodes[id].count > 0
    }

    /** Each node has its own array. */
    ghost predicate Apart()
      reads this, nodes.Values
    {
      && capacity > 0
      && (forall id :: id in nodes ==> nodes[id].Valid() && nodes[id].ary.Length == capacity)
      && (forall i, j :: i in nodes && j in nodes && i != j ==> nodes[i] != nodes[j] && nodes[i].ary != nodes[j].ary)
    }

    ghost function Arrays(): set<array<int>>
      reads this
    {
      set n | n in nodes.Values :: n.ary
    }

    ghost function Contents(): Bound
      requires Apart()
      reads this, nodes.Values, Arrays()
    {
      map id | id in nodes :: nodes[id].Views()
    }

    constructor (capacity: nat)
      requires capacity > 0
      ensures Valid() && this.capacity == capacity && Contents() == map[]
    {
      this.capacity := capacity;
      nodes := map[];
    }

    method NewNode(id: int, view: int)
      requires Valid() && id !in nodes
      modifies this
      ensures Valid() && Contents() == old(Contents())[id := [view]]
    {
      var node := new BindNode(capacity, view);
      ghost var before := nodes;
      nodes := nodes[id := node];
      assert forall k :: k in before ==> nodes[k] == before[k] && nodes[k].Views() == old(nodes[k].Views());
    }

    method BindNodeAt(id: int, view: int)
      requires Valid() && id in nodes && (view in Contents()[id] || |Contents()[id]| < capacity)
      modifies nodes[id], nodes[id].ary
      ensures Valid()
      ensures Contents() == old(Contents())[id := With(old(Contents())[id], view)]
    {
      hide With;
      assert Contents()[id] == nodes[id].Views();
      nodes[id].Bind(view);
      assert forall k :: k in nodes && k != id ==> nodes[k].Views() == old(nodes[k].Views());
    }

    /** The array of one node shrinks, and may become empty. */
    method Shrink(id: int, view: int)
      requires Apart() && id in nodes
      modifies nodes[id], nodes[id].ary
      ensures Apart() && Contents() == old(Contents())[id := Without(old(Contents())[id], view)]
      ensures forall k :: k in nodes && k != id ==> nodes[k].count == old(nodes[k].count)
    {
      hide Without;
      nodes[id].Unbind(view);
      assert forall k :: k in nodes && k != id ==> nodes[k].Views() == old(nodes[k].Views());
    }

    method UnbindNodeAt(id: int, view: int)
      requires Valid() && id in nodes
      modifies this, nodes[id], nodes[id].ary
      ensures Valid()
      ensures var rest := Without(old(Contents())[id], view);
              Contents() == if |rest| == 0 then old(Contents()) - {id} else old(Contents())[id := rest]
    {
      hide Without;
      ghost var before, rest := Contents(), Without(Contents()[id], view);
      Shrink(id, view);
      assert Contents()[id] == rest && |rest| == nodes[id].count;
      if nodes[id].count == 0 {
        ghost var shrunk := Contents();
        nodes := nodes - {id};
        assert Contents() == shrunk - {id};
        assert before[id := rest] - {id} == before - {id};
      }
    }

    /** One row of the loop in ReadTableMachineViewInfo and ReadTableAttrViewInfo. */
    method ReadRow(row: Row)
      requires Valid()
      requires row.inUse && row.view !in ViewsOf(Contents(), row.id) ==> |ViewsOf(Contents(), row.id)| < capacity
      modifies this, nodes.Values, Arrays()
      ensures Valid() && Contents() == Read(old(Contents()), row)
    {
      hide Without;
      ghost var before := Contents();
      assert before.Keys == nodes.Keys;
      if row.inUse {
        if row.id !in nodes {
          NewNode(row.id, row.view);
          assert [] + [row.view] == [row.view];
        } else {
          BindNodeAt(row.id, row.view);
          assert before[row.id := before[row.id]] == before;
        }
      } else if row.id in nodes {
        UnbindNodeAt(row.id, row.view);
      }
    }
  }

  lemma {:induction false} WithoutAt(s: seq<int>, v: int, k: nat)
    requires k <= |s| && v !in s[..k] && (k < |s| ==> s[k] == v)
    ensures Without(s, v) == if k == |s| then s else s[..k] + s[k + 1..]
  {
    if k > 0 {
      assert s[0] == s[..k][0];
      assert s[1..][..k - 1] == s[..k][1..];
      WithoutAt(s[1..], v, k - 1);
      if k < |s| {
        assert s[1..][k..] == s[k + 1..];
        assert s[..k] == [s[0]] + s[1..][..k - 1];
      }
    }
  }

  function Common(m: seq<int>, a: seq<int>): seq<int> {
    if |m| == 0 then []
    else
      var n := |m| - 1;
      Common(m[..n], a) + (if m[n] in a then [m[n]] else [])
  }

  /** `GetReportViews`: for each view of the machine, a search among the views of the attribute. */
  method GetReportViews(machineViews: seq<int>, attrViews: seq<int>) returns (views: seq<int>)
    ensures views == Common(machineViews, attrViews)
  {
    views := [];
    for i := 0 to |machineViews|
      invariant views == Common(machineViews[..i], attrViews)
    {
      assert machineViews[..i + 1][..i] == machineViews[..i];
      var found := false;
      for j := 0 to |attrViews|
        invariant views == Common(machineViews[..i], attrViews)
        invariant machineViews[i] !in attrViews[..j]
      {
        if machineViews[i] == attrViews[j] {
          views := views + [machineViews[i]];
          found := true;
          break;
        }
      }
      assert !found ==> attrViews[..|attrViews|] == attrViews;
    }
    assert machineViews[..|machineViews|] == machineViews;
  }

  lemma {:induction false} CommonExact(m: seq<int>, a: seq<int>)
    requires Distinct(m)
    ensures Distinct(Common(m, a))
    ensures forall v :: v in Common(m, a) <==> v in m && v in a
  {
    if |m| > 0 {
      var n := |m| - 1;
      CommonExact(m[..n], a);
      assert m == m[..n] + [m[n]] && m[n] !in m[..n];
    }
  }

  /** A report counts for exactly the views whose latest rows bind both its machine and its attribute, once each. */
  lemma ReportViewsExact(machineRows: seq<Row>, attrRows: seq<Row>, machine: int, attr: int)
    ensures var views := Common(ViewsOf(ReadAll(machineRows), machine), ViewsOf(ReadAll(attrRows), attr));
            && Distinct(views)
            && forall v :: v in views <==> LatestInUse(machineRows, machine, v) && LatestInUse(attrRows, attr, v)
  {
    hide ReadAll, LatestInUse, Common, Distinct;
    ReadAllInStep(machineRows);
    ReadAllInStep(attrRows);
    CommonExact(ViewsOf(ReadAll(machineRows), machine), ViewsOf(ReadAll(attrRows), attr));
  }
}
