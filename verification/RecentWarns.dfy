/** The list of recent warnings that `ReadTableWarnInfo` keeps, as a sequence of records against the rows of
    `mt_warn_info`. */
module RecentWarns {

  /** What a row records when it is created; no statement changes it afterwards. */
  datatype Origin = Origin(typeId: int, attrId: int, firstTime: nat, flag: nat, configVal: nat)

  datatype Warn = Warn(wid: nat, origin: Origin, last: nat, times: int, deal: int, val: nat, update: nat)

  /** A row; `live` when its xrk_status is RECORD_STATUS_USE. */
  datatype Row = Row(warn: Warn, live: bool)

  predicate Has(list: seq<Warn>, wid: nat) { exists k :: 0 <= k < |list| && list[k].wid == wid }

  function IndexOf(list: seq<Warn>, wid: nat): (i: int)
    ensures -1 <= i < |list|
    ensures i >= 0 ==> list[i].wid == wid
    ensures i < 0 <==> !Has(list, wid)
  {
    if |list| == 0 then -1
    else if list[|list| - 1].wid == wid then |list| - 1
    else
      var i := IndexOf(list[..|list| - 1], wid);
      assert i < 0 ==> forall k :: 0 <= k < |list| - 1 ==> list[..|list| - 1][k] == list[k];
      i
  }

  function RemoveAt(list: seq<Warn>, i: nat): seq<Warn>
    requires i < |list|
  {
    list[..i] + list[i + 1..]
  }

  /** The fields that are read again for a record already in the list. */
  function Refreshed(was: Warn, w: Warn): Warn {
    was.(last := w.last, times := w.times, deal := w.deal, val := w.val, update := w.update)
  }

  /** One row read by `ReadTableWarnInfo`: `single` for a read of one changed row (uid is not 0), `slot` when the hash
      table has a node for a new record. */
  function ReadRow(list: seq<Warn>, cap: nat, row: Row, single: bool, slot: bool): seq<Warn>
    requires cap > 0
  {
    var w, i := row.warn, IndexOf(list, row.warn.wid);
    if row.live && i < 0 then
      if !slot || (|list| >= cap && !single) then list
      else
        var base := if |list| >= cap then list[..|list| - 1] else list;
        if single then [w] + base else base + [w]
    else if row.live && list[i].update != w.update then
      var e := Refreshed(list[i], w);
      if list[i].last != w.last && i > 0 then
        if single then [e] + RemoveAt(list, i) else RemoveAt(list, i) + [e]
      else list[i := e]
    else if !row.live && i >= 0 then RemoveAt(list, i)
    else list
  }

  // ----- the most recent prefix -----

  type Table = map<nat, Row>

  ghost predicate Keyed(t: Table) { forall w :: w in t ==> t[w].warn.wid == w }

  /** Each record is the current content of a live row. */
  ghost predicate Current(list: seq<Warn>, t: Table) {
    forall k :: 0 <= k < |list| ==> list[k].wid in t && t[list[k].wid] == Row(list[k], true)
  }

  predicate DistinctIds(list: seq<Warn>) { forall j, k :: 0 <= j < k < |list| ==> list[j].wid != list[k].wid }

  predicate Descending(list: seq<Warn>) { forall j, k :: 0 <= j < k < |list| ==> list[j].last >= list[k].last }

  ghost predicate OthersOlder(list: seq<Warn>, t: Table) {
    forall w, k :: w in t && t[w].live && !Has(list, w) && 0 <= k < |list| ==> t[w].warn.last <= list[k].last
  }

  /** The list holds the most recent live rows, newest first. */
  ghost predicate IsPrefix(list: seq<Warn>, t: Table) {
    Current(list, t) && DistinctIds(list) && Descending(list) && OthersOlder(list, t)
  }

  /** No other live row has a later time. */
  ghost predicate Newest(t: Table, w: Warn) {
    forall v :: v in t && v != w.wid && t[v].live ==> t[v].warn.last <= w.last
  }

  // ----- the parts of a step -----

  lemma RemoveAtHas(list: seq<Warn>, i: nat, wid: nat)
    requires i < |list| && DistinctIds(list)
    ensures Has(RemoveAt(list, i), wid) <==> Has(list, wid) && wid != list[i].wid
  {
    var rest := RemoveAt(list, i);
    if Has(list, wid) && wid != list[i].wid {
      var k :| 0 <= k < |list| && list[k].wid == wid;
      assert rest[if k < i then k else k - 1].wid == wid;
    }
    if Has(rest, wid) {
      var k :| 0 <= k < |rest| && rest[k].wid == wid;
      assert rest[k] == list[if k < i then k else k + 1];
    }
  }

  lemma RemoveKeeps(list: seq<Warn>, t: Table, i: nat)
    requires IsPrefix(list, t) && i < |list|
    ensures IsPrefix(RemoveAt(list, i), t - {list[i].wid})
    ensures !Has(RemoveAt(list, i), list[i].wid)
  {
    var rest := RemoveAt(list, i);
    assert forall k :: 0 <= k < |rest| ==> rest[k] == list[if k < i then k else k + 1];
    forall w ensures Has(rest, w) <==> Has(list, w) && w != list[i].wid {
      RemoveAtHas(list, i, w);
    }
  }

  lemma ForgetKeeps(list: seq<Warn>, t: Table, wid: nat)
    requires IsPrefix(list, t) && !Has(list, wid)
    ensures IsPrefix(list, t - {wid})
  {
  }

  lemma CutKeeps(list: seq<Warn>, t: Table)
    requires IsPrefix(list, t) && |list| > 0
    ensures IsPrefix(list[..|list| - 1], t)
  {
    var n := |list| - 1;
    var cut := list[..n];
    forall w, k | w in t && t[w].live && !Has(cut, w) && 0 <= k < n ensures t[w].warn.last <= cut[k].last {
      if Has(list, w) {
        CutHas(list, w);
      }
    }
  }

  lemma CutHas(list: seq<Warn>, wid: nat)
    requires Has(list, wid)
    ensures wid == list[|list| - 1].wid || Has(list[..|list| - 1], wid)
  {
    var j :| 0 <= j < |list| && list[j].wid == wid;
    if j < |list| - 1 {
      assert list[..|list| - 1][j].wid == wid;
    }
  }

  lemma PushHas(base: seq<Warn>, w: Warn, wid: nat)
    ensures Has([w] + base, wid) <==> wid == w.wid || Has(base, wid)
  {
    var list := [w] + base;
    if Has(base, wid) {
      var k :| 0 <= k < |base| && base[k].wid == wid;
      assert list[k + 1].wid == wid;
    }
    assert list[0] == w;
  }

  /** A record put in front of a prefix that lacks it makes a prefix exactly when it is the newest. */
  lemma PushExact(base: seq<Warn>, t: Table, w: Warn)
    requires IsPrefix(base, t) && w.wid !in t
    ensures IsPrefix([w] + base, t[w.wid := Row(w, true)]) <==> Newest(t, w)
  {
    var list, t' := [w] + base, t[w.wid := Row(w, true)];
    assert list[0] == w && forall k :: 0 < k < |list| ==> list[k] == base[k - 1];
    forall v ensures Has(list, v) <==> v == w.wid || Has(base, v) {
      PushHas(base, w, v);
    }
    if Newest(t, w) {
      forall k | 0 <= k < |base| ensures base[k].last <= w.last && base[k].wid != w.wid {
        assert base[k].wid in t;
      }
    }
    if IsPrefix(list, t') {
      forall v | v in t && v != w.wid && t[v].live ensures t[v].warn.last <= w.last {
        NewestFirst(base, t, w, v);
      }
    }
  }

  lemma NewestFirst(base: seq<Warn>, t: Table, w: Warn, v: nat)
    requires IsPrefix(base, t) && w.wid !in t && IsPrefix([w] + base, t[w.wid := Row(w, true)])
    requires v in t && t[v].live
    ensures t[v].warn.last <= w.last
  {
    var list, t' := [w] + base, t[w.wid := Row(w, true)];
    if Has(base, v) {
      var k :| 0 <= k < |base| && base[k].wid == v;
      assert list[k + 1] == base[k] && list[0] == w;
      assert t[v].warn == base[k];
    } else {
      PushHas(base, w, v);
      assert v in t' && t'[v].live && !Has(list, v) && list[0] == w;
    }
  }

  lemma DeadKeeps(base: seq<Warn>, t: Table, w: Warn)
    requires IsPrefix(base, t) && w.wid !in t
    ensures IsPrefix(base, t[w.wid := Row(w, false)])
  {
    forall k | 0 <= k < |base| ensures base[k].wid != w.wid { assert base[k].wid in t; }
  }

  /** A live row that is not put in the list leaves it a prefix exactly when it is no newer than any record. */
  lemma SkipExact(list: seq<Warn>, t: Table, w: Warn)
    requires IsPrefix(list, t) && w.wid !in t
    ensures IsPrefix(list, t[w.wid := Row(w, true)]) <==> forall k :: 0 <= k < |list| ==> w.last <= list[k].last
  {
    var t' := t[w.wid := Row(w, true)];
    forall k | 0 <= k < |list| ensures list[k].wid != w.wid { assert list[k].wid in t; }
    if IsPrefix(list, t') {
      forall k | 0 <= k < |list| ensures w.last <= list[k].last {
        assert !Has(list, w.wid) && w.wid in t' && t'[w.wid].live;
      }
    }
  }

  lemma InPlaceKeeps(list: seq<Warn>, t: Table, i: nat, w: Warn)
    requires IsPrefix(list, t) && i < |list| && w.wid == list[i].wid && w.last == list[i].last
    ensures IsPrefix(list[i := w], t[w.wid := Row(w, true)])
  {
    var list', t' := list[i := w], t[w.wid := Row(w, true)];
    forall v ensures Has(list', v) <==> Has(list, v) {
      if Has(list, v) {
        var k :| 0 <= k < |list| && list[k].wid == v;
        assert list'[k].wid == v;
      }
    }
    forall k | 0 <= k < |list| ensures list'[k].wid in t' && t'[list'[k].wid] == Row(list'[k], true) {
      if k != i {
        assert list[k].wid != w.wid;
      }
    }
  }

  // ----- one changed row -----

  /** When reading one changed row keeps the prefix; the table is the one before the change. */
  ghost predicate Keeps(list: seq<Warn>, t: Table, row: Row, slot: bool) {
    var w, i := row.warn, IndexOf(list, row.warn.wid);
    row.live ==>
      if i < 0 then if slot then Newest(t, w) else forall k :: 0 <= k < |list| ==> w.last <= list[k].last
      else if list[i].update == w.update then w == list[i]
      else w.origin == list[i].origin && (w.last == list[i].last || Newest(t, w))
  }

  lemma Rest(t: Table, row: Row)
    ensures t[row.warn.wid := row] == (t - {row.warn.wid})[row.warn.wid := row]
    ensures Newest(t, row.warn) <==> Newest(t - {row.warn.wid}, row.warn)
  {
    if Newest(t - {row.warn.wid}, row.warn) {
      forall v | v in t && v != row.warn.wid && t[v].live ensures t[v].warn.last <= row.warn.last {
        assert v in t - {row.warn.wid};
      }
    }
  }

  /** A record that differs from its row is not in a prefix. */
  lemma NotCurrent(list: seq<Warn>, t: Table, i: nat, row: Row)
    requires i < |list| && list[i].wid == row.warn.wid && row != Row(list[i], true)
    ensures !IsPrefix(list, t[row.warn.wid := row])
  {
    assert t[row.warn.wid := row][list[i].wid] == row;
  }

  lemma NewRowExact(list: seq<Warn>, cap: nat, t: Table, row: Row, slot: bool)
    requires cap > 0 && IsPrefix(list, t) && |list| <= cap && row.live && !Has(list, row.warn.wid)
    ensures IsPrefix(ReadRow(list, cap, row, true, slot), t[row.warn.wid := row]) <==> Keeps(list, t, row, slot)
  {
    hide IsPrefix, Newest;
    var w := row.warn;
    var t0 := t - {w.wid};
    Rest(t, row);
    ForgetKeeps(list, t, w.wid);
    if !slot {
      SkipExact(list, t0, w);
    } else if |list| >= cap {
      CutKeeps(list, t0);
      PushExact(list[..|list| - 1], t0, w);
    } else {
      PushExact(list, t0, w);
    }
  }

  lemma KnownRowExact(list: seq<Warn>, cap: nat, t: Table, row: Row, slot: bool)
    requires cap > 0 && IsPrefix(list, t) && row.live && Has(list, row.warn.wid)
    ensures IsPrefix(ReadRow(list, cap, row, true, slot), t[row.warn.wid := row]) <==> Keeps(list, t, row, slot)
  {
    hide Newest, IndexOf, IsPrefix;
    var w, i := row.warn, IndexOf(list, row.warn.wid);
    var t0 := t - {w.wid};
    Rest(t, row);
    RemoveKeeps(list, t, i);
    if list[i].update == w.update {
      if w == list[i] {
        InPlaceKeeps(list, t, i, w);
        assert list[i := w] == list;
      } else {
        NotCurrent(list, t, i, row);
      }
    } else {
      var e := Refreshed(list[i], w);
      var list' := ReadRow(list, cap, row, true, slot);
      assert e == w <==> w.origin == list[i].origin;
      if list[i].last != w.last {
        assert list' == [e] + RemoveAt(list, i);
        if e == w {
          PushExact(RemoveAt(list, i), t0, w);
        } else {
          NotCurrent(list', t, 0, row);
        }
      } else if e == w {
        InPlaceKeeps(list, t, i, w);
      } else {
        NotCurrent(list', t, i, row);
      }
    }
  }

  /** Reading one changed row keeps the list the most recent prefix of the live rows exactly when `Keeps`: deleting a
      row always does, and so does a live row that is the newest or a record whose time stays. */
  lemma StepExact(list: seq<Warn>, cap: nat, t: Table, row: Row, slot: bool)
    requires cap > 0 && IsPrefix(list, t) && |list| <= cap
    ensures IsPrefix(ReadRow(list, cap, row, true, slot), t[row.warn.wid := row]) <==> Keeps(list, t, row, slot)
  {
    hide IsPrefix, Newest;
    var w := row.warn;
    if !row.live {
      Rest(t, row);
      if Has(list, w.wid) {
        var i := IndexOf(list, w.wid);
        RemoveKeeps(list, t, i);
        DeadKeeps(RemoveAt(list, i), t - {w.wid}, w);
      } else {
        ForgetKeeps(list, t, w.wid);
        DeadKeeps(list, t - {w.wid}, w);
      }
    } else if Has(list, w.wid) {
      KnownRowExact(list, cap, t, row, slot);
    } else {
      NewRowExact(list, cap, t, row, slot);
    }
  }

  /** Every read keeps records of distinct rows, at most `cap` of them. */
  lemma ReadRowBounded(list: seq<Warn>, cap: nat, row: Row, single: bool, slot: bool)
    requires cap > 0 && DistinctIds(list) && |list| <= cap
    ensures DistinctIds(ReadRow(list, cap, row, single, slot)) && |ReadRow(list, cap, row, single, slot)| <= cap
  {
    hide IndexOf;
    var w, i := row.warn, IndexOf(list, row.warn.wid);
    if i >= 0 {
      RemoveAtDistinct(list, i);
      hide RemoveAt;
    }
  }

  lemma RemoveAtDistinct(list: seq<Warn>, i: nat)
    requires i < |list| && DistinctIds(list)
    ensures var rest := RemoveAt(list, i);
            |rest| == |list| - 1 && DistinctIds(rest) && forall k :: 0 <= k < |rest| ==> rest[k].wid != list[i].wid
  {
    var rest := RemoveAt(list, i);
    assert forall k :: 0 <= k < |rest| ==> rest[k] == list[if k < i then k else k + 1];
  }

  // ----- the full load -----

  /** A read of the whole table, in the order of the rows. */
  function Load(rows: seq<Row>, cap: nat): seq<Warn>
    requires cap > 0
  {
    if |rows| == 0 then []
    else ReadRow(Load(rows[..|rows| - 1], cap), cap, rows[|rows| - 1], false, true)
  }

  function TableOf(rows: seq<Row>): Table {
    if |rows| == 0 then map[]
    else TableOf(rows[..|rows| - 1])[rows[|rows| - 1].warn.wid := rows[|rows| - 1]]
  }

  /** The rows of a select ordered by last_warn_time_utc, newest first. */
  predicate Selected(rows: seq<Row>) {
    forall j, k :: 0 <= j < k < |rows| ==>
      rows[j].warn.wid != rows[k].warn.wid && rows[j].warn.last >= rows[k].warn.last
  }

  /** Every live row has its record. */
  ghost predicate Complete(list: seq<Warn>, t: Table) { forall w :: w in t && t[w].live ==> Has(list, w) }

  lemma {:induction false} TableOfHas(rows: seq<Row>, wid: nat)
    ensures wid in TableOf(rows) ==>
              exists k :: 0 <= k < |rows| && rows[k].warn.wid == wid && TableOf(rows)[wid] == rows[k]
  {
    if |rows| > 0 && wid in TableOf(rows) {
      var n := |rows| - 1;
      if wid == rows[n].warn.wid {
        assert TableOf(rows)[wid] == rows[n];
      } else {
        TableOfHas(rows[..n], wid);
        var k :| 0 <= k < n && rows[..n][k].warn.wid == wid && TableOf(rows[..n])[wid] == rows[..n][k];
        assert rows[k] == rows[..n][k];
      }
    }
  }

  /** Appending the oldest row to a complete prefix. */
  lemma AppendKeeps(list: seq<Warn>, t: Table, w: Warn)
    requires IsPrefix(list, t) && Complete(list, t) && w.wid !in t
    requires forall k :: 0 <= k < |list| ==> w.last <= list[k].last
    ensures IsPrefix(list + [w], t[w.wid := Row(w, true)]) && Complete(list + [w], t[w.wid := Row(w, true)])
  {
    var list', t' := list + [w], t[w.wid := Row(w, true)];
    forall k | 0 <= k < |list| ensures list'[k] == list[k] && list[k].wid != w.wid {
      assert list[k].wid in t;
    }
    forall v | v in t' && t'[v].live ensures Has(list', v) {
      if v == w.wid {
        assert list'[|list|].wid == v;
      } else {
        var k :| 0 <= k < |list| && list[k].wid == v;
        assert list'[k].wid == v;
      }
    }
  }

  /** A full load into the empty list leaves the newest live rows, newest first, as many as fit. */
  lemma {:induction false} LoadIsPrefix(rows: seq<Row>, cap: nat)
    requires cap > 0 && Selected(rows)
    ensures |Load(rows, cap)| <= cap
    ensures IsPrefix(Load(rows, cap), TableOf(rows))
    ensures |Load(rows, cap)| < cap ==> Complete(Load(rows, cap), TableOf(rows))
  {
    if |rows| > 0 {
      var n := |rows| - 1;
      var row, t, list := rows[n], TableOf(rows[..n]), Load(rows[..n], cap);
      LoadIsPrefix(rows[..n], cap);
      LastRow(rows, t, list);
      hide IsPrefix, Complete, IndexOf;
      if !row.live {
        DeadKeeps(list, t, row.warn);
        if |list| < cap {
          DeadComplete(list, t, row.warn);
        }
      } else if |list| >= cap {
        SkipExact(list, t, row.warn);
      } else {
        AppendKeeps(list, t, row.warn);
      }
    }
  }

  lemma DeadComplete(list: seq<Warn>, t: Table, w: Warn)
    requires Complete(list, t)
    ensures Complete(list, t[w.wid := Row(w, false)])
  {
    hide Has;
  }

  lemma LastRow(rows: seq<Row>, t: Table, list: seq<Warn>)
    requires Selected(rows) && |rows| > 0 && t == TableOf(rows[..|rows| - 1]) && IsPrefix(list, t)
    ensures rows[|rows| - 1].warn.wid !in t && !Has(list, rows[|rows| - 1].warn.wid)
    ensures forall k :: 0 <= k < |list| ==> rows[|rows| - 1].warn.last <= list[k].last
  {
    var n := |rows| - 1;
    assert forall j :: 0 <= j < n ==> rows[..n][j] == rows[j];
    TableOfHas(rows[..n], rows[n].warn.wid);
    forall k | 0 <= k < |list| ensures rows[n].warn.last <= list[k].last && list[k].wid != rows[n].warn.wid {
      assert t[list[k].wid] == Row(list[k], true);
      TableOfHas(rows[..n], list[k].wid);
    }
  }

  // ----- runs -----

  /** A changed row, and whether the hash table has a node for it. */
  datatype Change = Change(row: Row, slot: bool)

  function RunList(list: seq<Warn>, cap: nat, cs: seq<Change>): seq<Warn>
    requires cap > 0
    decreases cs
  {
    if |cs| == 0 then list else RunList(ReadRow(list, cap, cs[0].row, true, cs[0].slot), cap, cs[1..])
  }

  function RunTable(t: Table, cs: seq<Change>): Table
    decreases cs
  {
    if |cs| == 0 then t else RunTable(t[cs[0].row.warn.wid := cs[0].row], cs[1..])
  }

  ghost predicate AllKeep(list: seq<Warn>, cap: nat, t: Table, cs: seq<Change>)
    requires cap > 0
    decreases cs
  {
    |cs| == 0 ||
    (Keeps(list, t, cs[0].row, cs[0].slot)
     && AllKeep(ReadRow(list, cap, cs[0].row, true, cs[0].slot), cap, t[cs[0].row.warn.wid := cs[0].row], cs[1..]))
  }

  ghost predicate PrefixAfter(list: seq<Warn>, cap: nat, t: Table, cs: seq<Change>, n: nat)
    requires cap > 0 && n <= |cs|
  {
    IsPrefix(RunList(list, cap, cs[..n]), RunTable(t, cs[..n]))
  }

  ghost predicate Throughout(list: seq<Warn>, cap: nat, t: Table, cs: seq<Change>)
    requires cap > 0
  {
    forall n :: 0 <= n <= |cs| ==> PrefixAfter(list, cap, t, cs, n)
  }

  lemma AfterStep(list: seq<Warn>, cap: nat, t: Table, cs: seq<Change>, n: nat)
    requires cap > 0 && 0 < n <= |cs|
    ensures PrefixAfter(list, cap, t, cs, n) <==>
            PrefixAfter(ReadRow(list, cap, cs[0].row, true, cs[0].slot), cap, t[cs[0].row.warn.wid := cs[0].row],
                        cs[1..], n - 1)
  {
    hide IsPrefix, ReadRow;
    assert cs[..n][1..] == cs[1..][..n - 1] && cs[..n][0] == cs[0];
  }

  /** Over every run of changed rows the list is the most recent prefix after every change exactly when every change
      keeps it where it happens. */
  lemma {:induction false} RunExact(list: seq<Warn>, cap: nat, t: Table, cs: seq<Change>)
    requires cap > 0 && IsPrefix(list, t) && |list| <= cap
    ensures Throughout(list, cap, t, cs) <==> AllKeep(list, cap, t, cs)
    decreases cs
  {
    hide IsPrefix, Keeps, ReadRow;
    if |cs| == 0 {
      forall n | 0 <= n <= |cs| ensures PrefixAfter(list, cap, t, cs, n) { assert cs[..n] == []; }
    } else {
      var row := cs[0].row;
      var list', t', cs' := ReadRow(list, cap, row, true, cs[0].slot), t[row.warn.wid := row], cs[1..];
      assert PrefixAfter(list, cap, t, cs, 0) by { assert cs[..0] == []; }
      assert PrefixAfter(list', cap, t', cs', 0) <==> IsPrefix(list', t') by { assert cs'[..0] == []; }
      StepExact(list, cap, t, cs[0].row, cs[0].slot);
      PrefixDistinct(list, t);
      ReadRowBounded(list, cap, cs[0].row, true, cs[0].slot);
      Shifted(list, cap, t, cs);
      if IsPrefix(list', t') {
        RunExact(list', cap, t', cs');
      }
    }
  }

  lemma PrefixDistinct(list: seq<Warn>, t: Table)
    requires IsPrefix(list, t)
    ensures DistinctIds(list)
  {
  }

  lemma Shifted(list: seq<Warn>, cap: nat, t: Table, cs: seq<Change>)
    requires cap > 0 && |cs| > 0 && PrefixAfter(list, cap, t, cs, 0)
    ensures var list', t' := ReadRow(list, cap, cs[0].row, true, cs[0].slot), t[cs[0].row.warn.wid := cs[0].row];
            Throughout(list, cap, t, cs) <==> Throughout(list', cap, t', cs[1..])
  {
    hide PrefixAfter, ReadRow;
    var list', t', cs' := ReadRow(list, cap, cs[0].row, true, cs[0].slot), t[cs[0].row.warn.wid := cs[0].row], cs[1..];
    if Throughout(list', cap, t', cs') {
      forall n | 0 <= n <= |cs| ensures PrefixAfter(list, cap, t, cs, n) {
        if n > 0 {
          assert PrefixAfter(list', cap, t', cs', n - 1);
          AfterStep(list, cap, t, cs, n);
        }
      }
    }
    if Throughout(list, cap, t, cs) {
      forall n | 0 <= n <= |cs'| ensures PrefixAfter(list', cap, t', cs', n) {
        assert PrefixAfter(list, cap, t, cs, n + 1);
        AfterStep(list, cap, t, cs, n + 1);
      }
    }
  }

  /** The whole story: a full load into the empty list, then any run of changed rows. */
  lemma LoadThenRun(rows: seq<Row>, cap: nat, cs: seq<Change>)
    requires cap > 0 && Selected(rows)
    ensures Throughout(Load(rows, cap), cap, TableOf(rows), cs) <==>
            AllKeep(Load(rows, cap), cap, TableOf(rows), cs)
  {
    LoadIsPrefix(rows, cap);
    RunExact(Load(rows, cap), cap, TableOf(rows), cs);
  }

  // ----- what a read does to the records -----

  /** The list without the record of one row. */
  function Others(list: seq<Warn>, wid: nat): seq<Warn> {
    if |list| == 0 then []
    else
      var n := |list| - 1;
      Others(list[..n], wid) + (if list[n].wid == wid then [] else [list[n]])
  }

  lemma {:induction false} OthersNone(list: seq<Warn>, wid: nat)
    requires !Has(list, wid)
    ensures Others(list, wid) == list
  {
    if |list| > 0 {
      var n := |list| - 1;
      CutMisses(list, wid);
      assert list[n].wid != wid;
      OthersNone(list[..n], wid);
      assert list == list[..n] + [list[n]];
    }
  }

  lemma CutMisses(list: seq<Warn>, wid: nat)
    requires |list| > 0 && !Has(list, wid)
    ensures !Has(list[..|list| - 1], wid)
  {
  }

  lemma {:induction false} OthersConcat(a: seq<Warn>, b: seq<Warn>, wid: nat)
    ensures Others(a + b, wid) == Others(a, wid) + Others(b, wid)
  {
    if |b| == 0 {
      assert a + b == a;
    } else {
      var n := |b| - 1;
      assert (a + b)[..|a + b| - 1] == a + b[..n];
      OthersConcat(a, b[..n], wid);
    }
  }

  lemma OthersOne(w: Warn, wid: nat)
    ensures Others([w], wid) == if w.wid == wid then [] else [w]
  {
    assert [w][..0] == [];
  }

  lemma OthersAt(list: seq<Warn>, i: nat, e: Warn)
    requires i < |list| && DistinctIds(list) && e.wid == list[i].wid
    ensures Others(list[i := e], e.wid) == RemoveAt(list, i)
  {
    var a, b := list[..i], list[i + 1..];
    AsideMisses(list, i);
    hide Others, Has, DistinctIds;
    assert list[i := e] == a + ([e] + b);
    OthersConcat(a, [e] + b, e.wid);
    OthersConcat([e], b, e.wid);
    OthersOne(e, e.wid);
    OthersNone(a, e.wid);
    OthersNone(b, e.wid);
  }

  lemma AsideMisses(list: seq<Warn>, i: nat)
    requires i < |list| && DistinctIds(list)
    ensures !Has(list[..i], list[i].wid) && !Has(list[i + 1..], list[i].wid)
  {
  }

  lemma {:induction false} InOthers(list: seq<Warn>, wid: nat, w: Warn)
    ensures w in Others(list, wid) <==> w in list && w.wid != wid
  {
    if |list| > 0 {
      var n := |list| - 1;
      InOthers(list[..n], wid, w);
      assert list == list[..n] + [list[n]];
    }
  }

  /** Every read leaves the other records and their order alone, except that a single new row pushes the last record out
      of a full list. */
  lemma OthersKept(list: seq<Warn>, cap: nat, row: Row, single: bool, slot: bool)
    requires cap > 0 && DistinctIds(list)
    ensures Others(ReadRow(list, cap, row, single, slot), row.warn.wid) ==
            if row.live && !Has(list, row.warn.wid) && single && slot && |list| >= cap
            then list[..if |list| == 0 then 0 else |list| - 1]
            else Others(list, row.warn.wid)
  {
    hide Others, IndexOf, RemoveAt;
    var w, i := row.warn, IndexOf(list, row.warn.wid);
    if i < 0 {
      var base := if |list| >= cap then list[..|list| - 1] else list;
      if |list| > 0 {
        CutMisses(list, w.wid);
      }
      OthersNone(base, w.wid);
      OthersNone(list, w.wid);
      OthersOne(w, w.wid);
      OthersConcat([w], base, w.wid);
      OthersConcat(base, [w], w.wid);
    } else {
      OthersAt(list, i, list[i]);
      OthersAt(list, i, Refreshed(list[i], w));
      assert list[i := list[i]] == list;
      RemoveAtHas(list, i, w.wid);
      var e, rest := Refreshed(list[i], w), RemoveAt(list, i);
      OthersNone(rest, w.wid);
      OthersOne(e, w.wid);
      OthersConcat([e], rest, w.wid);
      OthersConcat(rest, [e], w.wid);
    }
  }

  /** The record a read leaves for its row: none for a row not in use, or new without room; the old one while the update
      time is the same; else with the fields of the row that change. */
  lemma OwnRecord(list: seq<Warn>, cap: nat, row: Row, single: bool, slot: bool)
    requires cap > 0 && DistinctIds(list) && |list| <= cap
    ensures var w, list' := row.warn, ReadRow(list, cap, row, single, slot);
            var i, i' := IndexOf(list, w.wid), IndexOf(list', w.wid);
            && (i' >= 0 <==> row.live && (i >= 0 || (slot && (single || |list| < cap))))
            && (i' >= 0 && i < 0 ==> list'[i'] == w && i' == if single then 0 else |list'| - 1)
            && (i' >= 0 && i >= 0 && list[i].update == w.update ==> list'[i'] == list[i] && i' == i)
            && (i' >= 0 && i >= 0 && list[i].update != w.update ==>
                  && list'[i'] == Warn(w.wid, list[i].origin, w.last, w.times, w.deal, w.val, w.update)
                  && i' == if list[i].last == w.last || i == 0 then i else if single then 0 else |list'| - 1)
  {
    hide IndexOf, ReadRow, Has, DistinctIds;
    if Has(list, row.warn.wid) {
      if row.live {
        OwnKnown(list, cap, row, single, slot);
      } else {
        OwnGone(list, cap, row, single, slot);
      }
    } else {
      OwnNew(list, cap, row, single, slot);
    }
  }

  lemma IndexIs(list: seq<Warn>, k: nat)
    requires DistinctIds(list) && k < |list|
    ensures IndexOf(list, list[k].wid) == k
  {
    hide IndexOf;
    assert Has(list, list[k].wid);
  }

  lemma OwnNew(list: seq<Warn>, cap: nat, row: Row, single: bool, slot: bool)
    requires cap > 0 && DistinctIds(list) && |list| <= cap && !Has(list, row.warn.wid)
    ensures var w, list' := row.warn, ReadRow(list, cap, row, single, slot);
            var i' := IndexOf(list', w.wid);
            && (i' >= 0 <==> row.live && slot && (single || |list| < cap))
            && (i' >= 0 ==> list'[i'] == w && i' == if single then 0 else |list'| - 1)
  {
    hide IndexOf, Has, DistinctIds;
    ReadRowBounded(list, cap, row, single, slot);
    if row.live && slot && (single || |list| < cap) {
      var list' := ReadRow(list, cap, row, single, slot);
      IndexIs(list', if single then 0 else |list'| - 1);
    }
  }

  lemma OwnKnown(list: seq<Warn>, cap: nat, row: Row, single: bool, slot: bool)
    requires cap > 0 && DistinctIds(list) && |list| <= cap && Has(list, row.warn.wid) && row.live
    ensures var w, list' := row.warn, ReadRow(list, cap, row, single, slot);
            var i, i' := IndexOf(list, w.wid), IndexOf(list', w.wid);
            && i' >= 0
            && (list[i].update == w.update ==> list'[i'] == list[i] && i' == i)
            && (list[i].update != w.update ==>
                  && list'[i'] == Warn(w.wid, list[i].origin, w.last, w.times, w.deal, w.val, w.update)
                  && i' == if list[i].last == w.last || i == 0 then i else if single then 0 else |list'| - 1)
  {
    hide IndexOf, Has, DistinctIds;
    ReadRowBounded(list, cap, row, single, slot);
    var w, i, list' := row.warn, IndexOf(list, row.warn.wid), ReadRow(list, cap, row, single, slot);
    if list[i].update == w.update || list[i].last == w.last || i == 0 {
      IndexIs(list', i);
    } else {
      IndexIs(list', if single then 0 else |list'| - 1);
    }
  }

  lemma OwnGone(list: seq<Warn>, cap: nat, row: Row, single: bool, slot: bool)
    requires cap > 0 && DistinctIds(list) && !row.live && Has(list, row.warn.wid)
    ensures IndexOf(ReadRow(list, cap, row, single, slot), row.warn.wid) < 0
  {
    hide IndexOf, Has, DistinctIds;
    RemoveAtHas(list, IndexOf(list, row.warn.wid), row.warn.wid);
  }

  /** A read loses a record only when its row is deleted, or when the list is full, a new row comes and the record is
      the last. */
  lemma LosesOnly(list: seq<Warn>, cap: nat, row: Row, single: bool, slot: bool, k: nat)
    requires cap > 0 && DistinctIds(list) && |list| <= cap && k < |list|
    requires !Has(ReadRow(list, cap, row, single, slot), list[k].wid)
    ensures || (list[k].wid == row.warn.wid && !row.live)
            || (|list| >= cap && row.live && single && !Has(list, row.warn.wid) && k == |list| - 1)
  {
    hide IndexOf, ReadRow, Others;
    var wid, list' := row.warn.wid, ReadRow(list, cap, row, single, slot);
    assert Has(list, list[k].wid) && list[k] in list;
    assert list[k] !in list';
    OwnRecord(list, cap, row, single, slot);
    OthersKept(list, cap, row, single, slot);
    InOthers(list, wid, list[k]);
    InOthers(list', wid, list[k]);
    if k < |list| - 1 {
      assert list[..|list| - 1][k] == list[k];
    }
  }

  // ----- a complete list -----

  /** A list that has every live row keeps them all exactly unless a new row finds it full or finds no node. */
  lemma CompleteExact(list: seq<Warn>, cap: nat, t: Table, row: Row, slot: bool)
    requires cap > 0 && IsPrefix(list, t) && |list| <= cap && Complete(list, t)
    ensures Complete(ReadRow(list, cap, row, true, slot), t[row.warn.wid := row]) <==>
            (row.live && !Has(list, row.warn.wid) ==> slot && |list| < cap)
  {
    hide IndexOf, OthersOlder, Descending;
    var w, t', list' := row.warn, t[row.warn.wid := row], ReadRow(list, cap, row, true, slot);
    OwnRecord(list, cap, row, true, slot);
    if row.live && !Has(list, w.wid) ==> slot && |list| < cap {
      forall v | v in t' && t'[v].live ensures Has(list', v) {
        if v != w.wid {
          var k :| 0 <= k < |list| && list[k].wid == v;
          if !Has(list', v) {
            LosesOnly(list, cap, row, true, slot, k);
          }
        }
      }
    } else if slot {
      var v := list[|list| - 1].wid;
      assert v in t' && t'[v].live && v != w.wid;
      assert forall k :: 0 < k < |list'| ==> list'[k] == list[k - 1];
      assert !Has(list', v);
    } else {
      assert w.wid in t' && t'[w.wid].live && !Has(list', w.wid);
    }
  }

  ghost predicate AllComplete(list: seq<Warn>, cap: nat, t: Table, cs: seq<Change>)
    requires cap > 0
    decreases cs
  {
    && Complete(list, t)
    && (|cs| == 0 || AllComplete(ReadRow(list, cap, cs[0].row, true, cs[0].slot), cap,
                                 t[cs[0].row.warn.wid := cs[0].row], cs[1..]))
  }

  /** Throughout the run there are at most `cap` live rows. */
  ghost predicate AllFit(cap: nat, t: Table, cs: seq<Change>)
    decreases cs
  {
    |LiveIds(t)| <= cap && (|cs| == 0 || AllFit(cap, t[cs[0].row.warn.wid := cs[0].row], cs[1..]))
  }

  /** Over every run of changes that keep the order and find a node, the list has every live row after every change
      exactly as long as the live rows fit. */
  lemma {:induction false} RunComplete(list: seq<Warn>, cap: nat, t: Table, cs: seq<Change>)
    requires cap > 0 && IsPrefix(list, t) && |list| <= cap && Complete(list, t)
    requires AllKeep(list, cap, t, cs) && forall k :: 0 <= k < |cs| ==> cs[k].slot
    ensures AllComplete(list, cap, t, cs) <==> AllFit(cap, t, cs)
    decreases cs
  {
    hide IsPrefix, Complete, ReadRow, Keeps, LiveIds;
    CompleteCount(list, t);
    if |cs| > 0 {
      var row := cs[0].row;
      var list', t' := ReadRow(list, cap, row, true, true), t[row.warn.wid := row];
      StepExact(list, cap, t, row, true);
      PrefixDistinct(list, t);
      ReadRowBounded(list, cap, row, true, true);
      CompleteStep(list, cap, t, row);
      if Complete(list', t') {
        RunComplete(list', cap, t', cs[1..]);
      } else {
        assert !AllComplete(list', cap, t', cs[1..]);
        assert !AllFit(cap, t', cs[1..]);
      }
    }
  }

  lemma CompleteCount(list: seq<Warn>, t: Table)
    requires IsPrefix(list, t) && Complete(list, t)
    ensures |list| == |LiveIds(t)|
  {
    CountSql(list, t);
  }

  lemma CompleteStep(list: seq<Warn>, cap: nat, t: Table, row: Row)
    requires cap > 0 && IsPrefix(list, t) && |list| <= cap && Complete(list, t) && Keeps(list, t, row, true)
    ensures var list', t' := ReadRow(list, cap, row, true, true), t[row.warn.wid := row];
            Complete(list', t') <==> |LiveIds(t')| <= cap
  {
    hide IsPrefix, ReadRow, Keeps;
    var list', t' := ReadRow(list, cap, row, true, true), t[row.warn.wid := row];
    StepExact(list, cap, t, row, true);
    CompleteExact(list, cap, t, row, true);
    CompleteCount(list, t);
    PrefixDistinct(list, t);
    ReadRowBounded(list, cap, row, true, true);
    if Complete(list', t') {
      CompleteCount(list', t');
    } else {
      assert LiveIds(t') == LiveIds(t) + {row.warn.wid} && row.warn.wid !in LiveIds(t) by {
        LiveGrows(list, t, row);
      }
    }
  }

  lemma LiveGrows(list: seq<Warn>, t: Table, row: Row)
    requires Complete(list, t) && row.live && !Has(list, row.warn.wid)
    ensures row.warn.wid !in LiveIds(t) && LiveIds(t[row.warn.wid := row]) == LiveIds(t) + {row.warn.wid}
  {
    hide Has;
  }

  // ----- changes that break the order -----

  const ORIGIN := Origin(1, 1, 0, 0, 0)

  function At(wid: nat, last: nat, update: nat): Warn { Warn(wid, ORIGIN, last, 1, 0, 0, update) }

  /** The newest `cap` of the cap + 1 live rows of `Rows`, the last of which is too old for the list. */
  function Newer(cap: nat): seq<Warn> { seq(cap, (k: nat) => At(k + 1, LastOf(cap, k + 1), 1)) }

  function LastOf(cap: nat, wid: nat): nat { if wid <= cap + 1 then cap + 11 - wid else 0 }

  function Rows(cap: nat): Table { map w: nat | 1 <= w <= cap + 1 :: Row(At(w, LastOf(cap, w), 1), true) }

  lemma NewerHas(cap: nat, wid: nat)
    ensures Has(Newer(cap), wid) <==> 1 <= wid <= cap
  {
    if 1 <= wid <= cap {
      assert Newer(cap)[wid - 1].wid == wid;
    }
  }

  lemma NewerIsPrefix(cap: nat)
    ensures IsPrefix(Newer(cap), Rows(cap)) && |Newer(cap)| == cap && !Has(Newer(cap), cap + 1)
  {
    forall w: nat ensures Has(Newer(cap), w) <==> 1 <= w <= cap { NewerHas(cap, w); }
  }

  /** For every maximum: a new status for a warning too old for the list brings it to the front of a full list, ahead
      of newer ones. */
  lemma OldRowInFront(cap: nat)
    requires cap > 0
    ensures var row := Row(At(cap + 1, 10, 2).(deal := 1), true);
            && IsPrefix(Newer(cap), Rows(cap)) && Rows(cap)[cap + 1] == Row(At(cap + 1, 10, 1), true)
            && ReadRow(Newer(cap), cap, row, true, true) == [row.warn] + Newer(cap)[..cap - 1]
            && !IsPrefix(ReadRow(Newer(cap), cap, row, true, true), Rows(cap)[cap + 1 := row])
  {
    var row := Row(At(cap + 1, 10, 2).(deal := 1), true);
    NewerIsPrefix(cap);
    assert !Newest(Rows(cap), row.warn) by { assert 1 in Rows(cap) && Rows(cap)[1].warn.last > 10; }
    hide Newer, Rows, IsPrefix;
    StepExact(Newer(cap), cap, Rows(cap), row, true);
  }

  /** The deletion of every record of a list, first to last. */
  function Deletes(list: seq<Warn>): seq<Change> {
    if |list| == 0 then [] else [Change(Row(list[0].(update := 2), false), true)] + Deletes(list[1..])
  }

  lemma {:induction false} DeletesEmpty(list: seq<Warn>, cap: nat)
    requires cap > 0 && DistinctIds(list)
    ensures RunList(list, cap, Deletes(list)) == []
  {
    if |list| > 0 {
      hide ReadRow;
      DeleteHead(list, cap);
      assert Deletes(list)[1..] == Deletes(list[1..]);
      DeletesEmpty(list[1..], cap);
    }
  }

  lemma DeleteHead(list: seq<Warn>, cap: nat)
    requires cap > 0 && DistinctIds(list) && |list| > 0
    ensures ReadRow(list, cap, Row(list[0].(update := 2), false), true, true) == list[1..]
  {
    hide IndexOf;
    assert Has(list, list[0].wid);
  }

  lemma {:induction false} UntouchedRow(t: Table, list: seq<Warn>, wid: nat)
    requires wid in t && forall k :: 0 <= k < |list| ==> list[k].wid != wid
    ensures wid in RunTable(t, Deletes(list)) && RunTable(t, Deletes(list))[wid] == t[wid]
    decreases list
  {
    if |list| > 0 {
      var row := Row(list[0].(update := 2), false);
      assert Deletes(list)[1..] == Deletes(list[1..]);
      UntouchedRow(t[row.warn.wid := row], list[1..], wid);
    }
  }

  /** For every maximum: at least as new as every record is not enough. Once all records are deleted, a row that had
      none is newer than the next one. */
  lemma EmptyListForgets(cap: nat)
    requires cap > 0
    ensures var t := RunTable(Rows(cap), Deletes(Newer(cap)));
            var row := Row(At(cap + 2, 5, 1), true);
            && RunList(Newer(cap), cap, Deletes(Newer(cap))) == []
            && ReadRow([], cap, row, true, true) == [row.warn] && !IsPrefix([row.warn], t[cap + 2 := row])
  {
    var t, row := RunTable(Rows(cap), Deletes(Newer(cap))), Row(At(cap + 2, 5, 1), true);
    NewerIsPrefix(cap);
    DeletesEmpty(Newer(cap), cap);
    assert cap + 1 in Rows(cap) && Rows(cap)[cap + 1] == Row(At(cap + 1, 10, 1), true);
    UntouchedRow(Rows(cap), Newer(cap), cap + 1);
    hide Newer, Rows, RunTable, Deletes;
    assert !Newest(t, row.warn) by { assert cap + 1 in t && t[cap + 1].warn.last > 5; }
    StepExact([], cap, t, row, true);
  }

  // ----- pages -----

  /** An answer to "select ... where xrk_status=0 order by last_warn_time_utc desc". */
  ghost predicate SqlOrder(s: seq<Warn>, t: Table) {
    Current(s, t) && DistinctIds(s) && Descending(s) && Complete(s, t)
  }

  function Min(a: int, b: int): int { if a < b then a else b }

  /** The rows of "limit start,n". */
  function Limit(s: seq<Warn>, start: nat, n: nat): seq<Warn> { s[Min(start, |s|)..Min(start + n, |s|)] }

  function Ids(s: seq<Warn>): set<nat> { set k | 0 <= k < |s| :: s[k].wid }

  function LiveIds(t: Table): set<nat> { set w | w in t && t[w].live }

  function Uncached(list: seq<Warn>, t: Table): set<nat> { set w | w in t && t[w].live && !Has(list, w) }

  lemma {:induction false} CountIds(s: seq<Warn>)
    requires DistinctIds(s)
    ensures |Ids(s)| == |s|
  {
    if |s| > 0 {
      var n := |s| - 1;
      CountIds(s[..n]);
      assert s == s[..n] + [s[n]];
      assert Ids(s) == Ids(s[..n]) + {s[n].wid};
    }
  }

  lemma CountSql(s: seq<Warn>, t: Table)
    requires SqlOrder(s, t)
    ensures |s| == |LiveIds(t)|
  {
    CountIds(s);
    assert Ids(s) == LiveIds(t);
  }

  lemma {:induction false} NewestOf(ids: set<nat>, t: Table) returns (w: nat)
    requires ids != {} && forall v :: v in ids ==> v in t
    ensures w in ids && forall v :: v in ids ==> t[v].warn.last <= t[w].warn.last
    decreases |ids|
  {
    var x :| x in ids;
    w := x;
    if ids != {x} {
      assert ids == (ids - {x}) + {x};
      var y := NewestOf(ids - {x}, t);
      if t[y].warn.last > t[x].warn.last {
        w := y;
      }
    }
  }

  /** A prefix extends to a full answer of the select. */
  lemma {:induction false} Extend(list: seq<Warn>, t: Table) returns (s: seq<Warn>)
    requires IsPrefix(list, t) && Keyed(t)
    ensures SqlOrder(s, t) && list <= s
    decreases |Uncached(list, t)|
  {
    if Uncached(list, t) == {} {
      s := list;
      forall w | w in t && t[w].live ensures Has(list, w) { assert w !in Uncached(list, t); }
    } else {
      var w := NewestOf(Uncached(list, t), t);
      NextKeeps(list, t, w);
      s := Extend(list + [t[w].warn], t);
    }
  }

  lemma NextKeeps(list: seq<Warn>, t: Table, w: nat)
    requires IsPrefix(list, t) && Keyed(t) && w in Uncached(list, t)
    requires forall v :: v in Uncached(list, t) ==> t[v].warn.last <= t[w].warn.last
    ensures IsPrefix(list + [t[w].warn], t)
    ensures |Uncached(list + [t[w].warn], t)| < |Uncached(list, t)|
  {
    var list' := list + [t[w].warn];
    forall v ensures Has(list', v) <==> Has(list, v) || v == w {
      AppendHas(list, t[w].warn, v);
    }
    assert forall k :: 0 <= k < |list| ==> list'[k] == list[k];
    forall v, k | v in t && t[v].live && !Has(list', v) && 0 <= k < |list'| ensures t[v].warn.last <= list'[k].last {
      assert v in Uncached(list, t);
    }
    assert Uncached(list', t) == Uncached(list, t) - {w};
  }

  lemma AppendHas(list: seq<Warn>, w: Warn, wid: nat)
    ensures Has(list + [w], wid) <==> Has(list, wid) || wid == w.wid
  {
    var list' := list + [w];
    if Has(list, wid) {
      var k :| 0 <= k < |list| && list[k].wid == wid;
      assert list'[k].wid == wid;
    }
    assert list'[|list|] == w;
  }

  /** Where a page starts; pages count from 1. */
  function First(curPage: nat, perPage: nat): nat
    requires curPage > 0
  {
    perPage * (curPage - 1)
  }

  /** Whether `GetWarnListFromShm` leaves a page to the database. */
  predicate Declines(list: seq<Warn>, curPage: int, perPage: int, total: int) {
    |list| < perPage * curPage && total > |list|
  }

  /** What a page shows. The caller refuses only zeros: a negative size shows nothing, a negative page number shows the
      first records, and with fewer records than that the walk would leave the list. */
  function PageOf(list: seq<Warn>, curPage: int, perPage: int): seq<Warn>
    requires curPage != 0 && perPage != 0 && (curPage < 0 < perPage ==> perPage <= |list|)
  {
    if perPage < 0 then [] else if curPage < 0 then list[..perPage] else Limit(list, First(curPage, perPage), perPage)
  }

  /** For every page number and size, a page that is not declined is the page of an answer to the select. */
  lemma PageIsSql(list: seq<Warn>, t: Table, curPage: nat, perPage: nat) returns (s: seq<Warn>)
    requires IsPrefix(list, t) && Keyed(t) && curPage > 0 && perPage > 0
    requires !Declines(list, curPage, perPage, |LiveIds(t)|)
    ensures SqlOrder(s, t)
    ensures PageOf(list, curPage, perPage) == Limit(s, First(curPage, perPage), perPage)
  {
    s := Extend(list, t);
    CountSql(s, t);
    assert perPage * (curPage - 1) + perPage == perPage * curPage;
    if |list| < perPage * curPage {
      assert s == list;
    }
  }

  /** Some row among the first i + 1 of one answer is not among the first i of another. */
  lemma Pigeon(s1: seq<Warn>, s2: seq<Warn>, t: Table, i: nat) returns (j: nat, k: nat)
    requires SqlOrder(s1, t) && SqlOrder(s2, t) && i < |s1| && i < |s2|
    ensures j <= i <= k < |s2| && s1[j] == s2[k]
  {
    var front, before := s1[..i + 1], s2[..i];
    CountIds(front);
    CountIds(before);
    assert !(Ids(front) <= Ids(before)) by {
      if Ids(front) <= Ids(before) {
        Fewer(Ids(front), Ids(before));
      }
    }
    assert forall m :: 0 <= m < i ==> before[m] == s2[m] && s2[m].wid in Ids(before);
    var w :| w in Ids(front) && w !in Ids(before);
    j :| 0 <= j <= i && front[j].wid == w;
    assert s1[j] == front[j] && w in t && t[w].live && Has(s2, w);
    k :| 0 <= k < |s2| && s2[k].wid == w;
    assert t[w] == Row(s1[j], true) && t[w] == Row(s2[k], true);
  }

  lemma Fewer(a: set<nat>, b: set<nat>)
    requires a <= b
    ensures |a| <= |b|
  {
    assert b == a + (b - a);
  }

  lemma TimesAt(s1: seq<Warn>, s2: seq<Warn>, t: Table, i: nat)
    requires SqlOrder(s1, t) && SqlOrder(s2, t) && i < |s1| && i < |s2|
    ensures s1[i].last == s2[i].last
  {
    var j, k := Pigeon(s1, s2, t, i);
    var j', k' := Pigeon(s2, s1, t, i);
  }

  /** Answers to the select differ only among rows of one time. */
  lemma SqlUpToTies(s1: seq<Warn>, s2: seq<Warn>, t: Table)
    requires SqlOrder(s1, t) && SqlOrder(s2, t)
    ensures |s1| == |s2| && forall i :: 0 <= i < |s1| ==> s1[i].last == s2[i].last
    ensures (forall v, w :: v in t && w in t && t[v].live && t[w].live && v != w ==> t[v].warn.last != t[w].warn.last)
            ==> s1 == s2
  {
    CountSql(s1, t);
    CountSql(s2, t);
    forall i | 0 <= i < |s1| ensures s1[i].last == s2[i].last {
      TimesAt(s1, s2, t, i);
    }
    if forall v, w :: v in t && w in t && t[v].live && t[w].live && v != w ==> t[v].warn.last != t[w].warn.last {
      forall i | 0 <= i < |s1| ensures s1[i] == s2[i] {
        assert t[s1[i].wid] == Row(s1[i], true) && t[s2[i].wid] == Row(s2[i], true);
      }
    }
  }
}
