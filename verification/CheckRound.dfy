/** One round of the alarm check: scan the report nodes, add machine reports up into views, then scan the view
    configurations touched and all configurations without reports. */
module CheckRound {
  import opened ReportWindow
  import opened Seqs
  import opened ViewBinding
  import opened Word32

  /** TWarnConfig, keyed by (warn id, attribute id). The last three fields are dwReserved1, dwReserved2 and
      dwReserved3: pre-last sum, last sum and time of a view. */
  datatype WarnConfig = WarnConfig(configId: int, onMin: bool, min: int, onMax: bool, max: int, onWave: bool, wave: int,
                                   forMachine: bool, mask: bool, exception: bool, preSum: nat, sum: nat, stamp: nat)

  type Key = (int, int)
  type Configs = map<Key, WarnConfig>

  /** The warn flags of a machine; no attribute is basic, so the third flag has no effect. */
  datatype Machine = Machine(denyAll: bool, denyExcept: bool)

  datatype Reported = Reported(machine: int, attr: int, isException: bool, node: Node)

  datatype Env = Env(machines: map<int, Machine>, machineViews: Bound, attrViews: Bound)

  datatype Cause = Low | High | Wave | Exception

  /** TAttrWarnInfo. */
  datatype Trigger = Trigger(cause: Cause, forView: bool, id: int, attr: int, masked: bool, limit: int, value: int)

  function U32(x: int): nat { x % WRAP }

  function I32(x: int): int { if x % WRAP < WRAP / 2 then x % WRAP else x % WRAP - WRAP }

  // ----- sums of views -----

  function Views(env: Env, r: Reported): seq<int> {
    if r.machine in env.machineViews && r.attr in env.attrViews
    then Common(env.machineViews[r.machine], env.attrViews[r.attr]) else []
  }

  /** What is left of a view's (pre-last, last) sums of its previous round. */
  function LeftOver(c: WarnConfig, now: nat): (nat, nat) {
    var before, idx := DayMinute(c.stamp), DayMinute(now);
    if now >= (c.stamp + DAY) % WRAP then (0, 0)
    else if before == idx then (c.preSum, c.sum)
    else if (before + 1) % 1440 == idx then (c.sum, 0)
    else (0, 0)
  }

  /** `AdaptViewReportValue`, on the first report of a round. */
  function AdaptView(c: WarnConfig, now: nat): WarnConfig {
    var (preSum, sum) := LeftOver(c, now);
    c.(preSum := preSum, sum := sum, stamp := now)
  }

  /** `AddReportValForViewWarn`. */
  function AddReport(c: WarnConfig, r: Reported, now: nat): WarnConfig {
    var (last, pre) := Adapt(r.node, now);
    c.(preSum := (c.preSum + pre) % WRAP, sum := (c.sum + last) % WRAP)
  }

  /** The configurations and the ids of those touched in this round. */
  datatype Scan = Scan(configs: Configs, touched: set<int>)

  function AddView(s: Scan, key: Key, r: Reported, now: nat): Scan {
    if key !in s.configs then s
    else
      var c := s.configs[key];
      var c' := if c.configId in s.touched then c else AdaptView(c, now);
      Scan(s.configs[key := AddReport(c', r, now)], s.touched + {c.configId})
  }

  function AddViews(s: Scan, views: seq<int>, r: Reported, now: nat): Scan {
    if |views| == 0 then s
    else
      var n := |views| - 1;
      AddView(AddViews(s, views[..n], r, now), (views[n], r.attr), r, now)
  }

  /** The scan of the report nodes; nodes of unknown machines are skipped. */
  function ScanAll(env: Env, configs: Configs, rs: seq<Reported>, now: nat): Scan {
    if |rs| == 0 then Scan(configs, {})
    else
      var n := |rs| - 1;
      var s := ScanAll(env, configs, rs[..n], now);
      if rs[n].machine in env.machines then AddViews(s, Views(env, rs[n]), rs[n], now) else s
  }

  // ----- what the sums are -----

  /** Report `r` counts for the configuration: known machine, same attribute, both bound to the view. */
  predicate Counts(env: Env, r: Reported, key: Key) {
    && r.machine in env.machines && r.attr == key.1
    && key.0 in ViewsOf(env.machineViews, r.machine) && key.0 in ViewsOf(env.attrViews, r.attr)
  }

  function SumLast(env: Env, rs: seq<Reported>, key: Key, now: nat): nat {
    if |rs| == 0 then 0
    else
      var n := |rs| - 1;
      SumLast(env, rs[..n], key, now) + (if Counts(env, rs[n], key) then Adapt(rs[n].node, now).0 else 0)
  }

  function SumPre(env: Env, rs: seq<Reported>, key: Key, now: nat): nat {
    if |rs| == 0 then 0
    else
      var n := |rs| - 1;
      SumPre(env, rs[..n], key, now) + (if Counts(env, rs[n], key) then Adapt(rs[n].node, now).1 else 0)
  }

  predicate Touched(env: Env, rs: seq<Reported>, key: Key) {
    exists i :: 0 <= i < |rs| && Counts(env, rs[i], key)
  }

  /** The configuration after the scan, told from the configuration before it and the reports that count. */
  function Settled(env: Env, c: WarnConfig, rs: seq<Reported>, key: Key, now: nat): WarnConfig {
    if !Touched(env, rs, key) then c
    else
      var b := AdaptView(c, now);
      b.(preSum := (b.preSum + SumPre(env, rs, key, now)) % WRAP, sum := (b.sum + SumLast(env, rs, key, now)) % WRAP)
  }

  ghost predicate UniqueIds(configs: Configs) {
    forall j, k :: j in configs && k in configs && configs[j].configId == configs[k].configId ==> j == k
  }

  predicate SoundEnv(env: Env) {
    forall m :: m in env.machineViews ==> Distinct(env.machineViews[m])
  }

  /** What adding one report to a set of views does to each configuration. */
  function Added(s: Scan, key: Key, r: Reported, now: nat): WarnConfig
    requires key in s.configs
  {
    var c := s.configs[key];
    AddReport(if c.configId in s.touched then c else AdaptView(c, now), r, now)
  }

  predicate Hit(views: seq<int>, r: Reported, key: Key) { key.1 == r.attr && key.0 in views }

  /** Only the sums and the time of a configuration change in a round. */
  function Bare(c: WarnConfig): WarnConfig { c.(preSum := 0, sum := 0, stamp := 0) }

  ghost predicate SameSettings(a: Configs, b: Configs) {
    a.Keys == b.Keys && forall key :: key in a ==> Bare(a[key]) == Bare(b[key])
  }

  lemma BareSteps(c: WarnConfig, r: Reported, now: nat)
    ensures Bare(AdaptView(c, now)) == Bare(c) && Bare(AddReport(c, r, now)) == Bare(c)
  {
    hide Bare, AdaptView, AddReport;
    BareAdapt(c, now);
    BareAdd(c, r, now);
  }

  lemma BareAdapt(c: WarnConfig, now: nat)
    ensures Bare(AdaptView(c, now)) == Bare(c)
  {
    hide LeftOver;
  }

  lemma BareAdd(c: WarnConfig, r: Reported, now: nat)
    ensures Bare(AddReport(c, r, now)) == Bare(c)
  {
    hide Adapt;
  }

  lemma AddViewSettings(s: Scan, key: Key, r: Reported, now: nat)
    ensures SameSettings(AddView(s, key, r, now).configs, s.configs)
  {
    hide AdaptView, AddReport, Bare;
    if key in s.configs {
      var c := s.configs[key];
      BareSteps(c, r, now);
      BareSteps(AdaptView(c, now), r, now);
    }
  }

  lemma {:induction false} AddViewsSettings(s: Scan, views: seq<int>, r: Reported, now: nat)
    ensures SameSettings(AddViews(s, views, r, now).configs, s.configs)
  {
    hide AddView, Bare;
    if |views| > 0 {
      var n := |views| - 1;
      AddViewsSettings(s, views[..n], r, now);
      AddViewSettings(AddViews(s, views[..n], r, now), (views[n], r.attr), r, now);
    }
  }

  lemma BareId(a: Configs, b: Configs, key: Key)
    requires SameSettings(a, b) && key in a
    ensures key in b && a[key].configId == b[key].configId
  {
    assert Bare(a[key]) == Bare(b[key]);
  }

  lemma {:induction false} AddViewsExact(s: Scan, views: seq<int>, r: Reported, now: nat, key: Key)
    requires UniqueIds(s.configs) && Distinct(views) && key in s.configs
    ensures var t := AddViews(s, views, r, now);
            && key in t.configs
            && t.configs[key] == (if Hit(views, r, key) then Added(s, key, r, now) else s.configs[key])
            && (s.configs[key].configId in t.touched <==> s.configs[key].configId in s.touched || Hit(views, r, key))
  {
    hide Adapt, AdaptView, AddReport;
    if |views| > 0 {
      hide SameSettings, Bare;
      var n := |views| - 1;
      var t, k := AddViews(s, views[..n], r, now), (views[n], r.attr);
      AddViewsExact(s, views[..n], r, now, key);
      assert views == views[..n] + [views[n]] && views[n] !in views[..n];
      if k in t.configs {
        AddViewsSettings(s, views[..n], r, now);
        BareId(t.configs, s.configs, k);
      }
    }
  }

  lemma SettledStep(env: Env, c: WarnConfig, rs: seq<Reported>, r: Reported, key: Key, now: nat)
    ensures Settled(env, c, rs + [r], key, now) ==
            if !Counts(env, r, key) then Settled(env, c, rs, key, now)
            else if Touched(env, rs, key) then AddReport(Settled(env, c, rs, key, now), r, now)
            else AddReport(AdaptView(c, now), r, now)
    ensures Touched(env, rs + [r], key) <==> Touched(env, rs, key) || Counts(env, r, key)
  {
    hide Adapt, Counts, AdaptView;
    var all := rs + [r];
    assert all[..|rs|] == rs && all[|rs|] == r;
    assert Touched(env, all, key) <==> Touched(env, rs, key) || Counts(env, r, key) by {
      if Touched(env, rs, key) {
        var i :| 0 <= i < |rs| && Counts(env, rs[i], key);
        assert Counts(env, all[i], key);
      }
    }
    SumsUntouched(env, rs, key, now);
    var b := AdaptView(c, now);
    var (last, pre) := Adapt(r.node, now);
    AddMod(b.preSum + SumPre(env, rs, key, now), pre);
    AddMod(b.sum + SumLast(env, rs, key, now), last);
  }

  lemma {:induction false} SumsUntouched(env: Env, rs: seq<Reported>, key: Key, now: nat)
    ensures !Touched(env, rs, key) ==> SumPre(env, rs, key, now) == 0 && SumLast(env, rs, key, now) == 0
  {
    hide Adapt, Counts;
    if |rs| > 0 && !Touched(env, rs, key) {
      var n := |rs| - 1;
      assert !Touched(env, rs[..n], key);
      SumsUntouched(env, rs[..n], key, now);
    }
  }

  lemma CommonAt(m: seq<int>, a: seq<int>, v: int)
    requires Distinct(m)
    ensures v in Common(m, a) <==> v in m && v in a
  {
    CommonExact(m, a);
  }

  lemma ViewsExact(env: Env, r: Reported, key: Key)
    requires SoundEnv(env)
    ensures Distinct(Views(env, r))
    ensures r.machine in env.machines ==> (Hit(Views(env, r), r, key) <==> Counts(env, r, key))
  {
    hide Common;
    if r.machine in env.machineViews && r.attr in env.attrViews {
      var m, a := env.machineViews[r.machine], env.attrViews[r.attr];
      CommonExact(m, a);
      CommonAt(m, a, key.0);
    }
  }

  lemma {:induction false} ScanSettings(env: Env, configs: Configs, rs: seq<Reported>, now: nat)
    ensures SameSettings(ScanAll(env, configs, rs, now).configs, configs)
  {
    hide AddViews, Bare;
    if |rs| > 0 {
      var n := |rs| - 1;
      ScanSettings(env, configs, rs[..n], now);
      AddViewsSettings(ScanAll(env, configs, rs[..n], now), Views(env, rs[n]), rs[n], now);
    }
  }

  lemma UniqueKept(a: Configs, b: Configs)
    requires SameSettings(a, b) && UniqueIds(b)
    ensures UniqueIds(a)
  {
    hide Bare;
    forall j, k | j in a && k in a && a[j].configId == a[k].configId ensures j == k {
      BareId(a, b, j);
      BareId(a, b, k);
    }
  }

  /** After a round each configuration holds, modulo 2^32, what was left of the previous round plus the last and
      pre-last values of exactly the reports bound to its view and attribute. */
  lemma {:induction false} ScanExact(env: Env, configs: Configs, rs: seq<Reported>, now: nat, key: Key)
    requires SoundEnv(env) && UniqueIds(configs) && key in configs
    ensures var s := ScanAll(env, configs, rs, now);
            && key in s.configs
            && s.configs[key] == Settled(env, configs[key], rs, key, now)
            && (configs[key].configId in s.touched <==> Touched(env, rs, key))
  {
    hide AddViews, Settled, Touched, SameSettings, UniqueIds, Views, AddReport, AdaptView, Counts, Hit;
    if |rs| == 0 {
      SettledNone(env, configs[key], key, now);
    } else {
      var n := |rs| - 1;
      var s := ScanAll(env, configs, rs[..n], now);
      assert rs == rs[..n] + [rs[n]];
      ScanExact(env, configs, rs[..n], now, key);
      ScanSettings(env, configs, rs[..n], now);
      BareId(s.configs, configs, key);
      UniqueKept(s.configs, configs);
      SettledStep(env, configs[key], rs[..n], rs[n], key, now);
      ViewsExact(env, rs[n], key);
      if rs[n].machine in env.machines {
        AddViewsExact(s, Views(env, rs[n]), rs[n], now, key);
        SettledUntouched(env, configs[key], rs[..n], key, now);
      } else {
        CountsKnown(env, rs[n], key);
      }
    }
  }

  lemma SettledNone(env: Env, c: WarnConfig, key: Key, now: nat)
    ensures Settled(env, c, [], key, now) == c && !Touched(env, [], key)
  {
  }

  lemma SettledUntouched(env: Env, c: WarnConfig, rs: seq<Reported>, key: Key, now: nat)
    ensures !Touched(env, rs, key) ==> Settled(env, c, rs, key, now) == c
  {
  }

  lemma CountsKnown(env: Env, r: Reported, key: Key)
    ensures Counts(env, r, key) ==> r.machine in env.machines
  {
  }

  /** With the node arrays that the binding rows leave, a report counts for a view exactly when the latest rows bind
      both its machine and its attribute. */
  lemma CountsByRows(machines: map<int, Machine>, machineRows: seq<Row>, attrRows: seq<Row>, r: Reported, key: Key)
    ensures var env := Env(machines, ReadAll(machineRows), ReadAll(attrRows));
            && SoundEnv(env)
            && (Counts(env, r, key) <==>
                && r.machine in machines && r.attr == key.1
                && LatestInUse(machineRows, r.machine, key.0) && LatestInUse(attrRows, r.attr, key.0))
  {
    hide ReadAll, LatestInUse;
    ReadAllInStep(machineRows);
    ReadAllInStep(attrRows);
    BoundAt(ReadAll(machineRows), machineRows, r.machine, key.0);
    BoundAt(ReadAll(attrRows), attrRows, r.attr, key.0);
    forall m | m in ReadAll(machineRows) ensures Distinct(ReadAll(machineRows)[m]) {
      assert Distinct(ViewsOf(ReadAll(machineRows), m));
    }
  }

  lemma BoundAt(b: Bound, rows: seq<Row>, id: int, v: int)
    requires InStep(b, rows)
    ensures v in ViewsOf(b, id) <==> LatestInUse(rows, id, v)
  {
  }

  /** The last sum of a touched view is that of the reports alone exactly when the previous round was in another
      minute of day or a day ago (or its sum was zero); the pre-last sum is that of the reports alone exactly when,
      besides, a previous round in the minute before left no last sum: otherwise it is counted again. */
  lemma SumsExact(env: Env, c: WarnConfig, rs: seq<Reported>, key: Key, now: nat)
    requires Touched(env, rs, key) && c.stamp <= now && now + DAY < WRAP && c.sum < WRAP && c.preSum < WRAP
    ensures var s := Settled(env, c, rs, key, now);
            var last, pre := SumLast(env, rs, key, now), SumPre(env, rs, key, now);
            var sameMinute := DayMinute(c.stamp) == DayMinute(now) && now < c.stamp + DAY;
            var minuteBefore := (DayMinute(c.stamp) + 1) % 1440 == DayMinute(now) && now < c.stamp + DAY;
            && (s.sum == last % WRAP <==> !sameMinute || c.sum == 0)
            && s.preSum == ((if minuteBefore then c.sum else if sameMinute then c.preSum else 0) + pre) % WRAP
            && (s.preSum == pre % WRAP <==> (minuteBefore ==> c.sum == 0) && (sameMinute ==> c.preSum == 0))
            && s.stamp == now
  {
    hide SumLast, SumPre, Touched, DayMinute;
    DayMinuteBound(c.stamp);
    ModShift(c.sum, SumLast(env, rs, key, now));
    ModShift(c.sum, SumPre(env, rs, key, now));
    ModShift(c.preSum, SumPre(env, rs, key, now));
    assert (c.stamp + DAY) % WRAP == c.stamp + DAY;
    NextMinuteDiffers(DayMinute(c.stamp));
  }

  lemma DayMinuteBound(t: nat)
    ensures DayMinute(t) < 1440
  {
  }

  lemma NextMinuteDiffers(m: nat)
    requires m < 1440
    ensures (m + 1) % 1440 != m
  {
  }

  lemma ModShift(a: nat, b: nat)
    requires a < WRAP
    ensures (a + b) % WRAP == b % WRAP <==> a == 0
  {
    var q, r := b / WRAP, b % WRAP;
    if a + r < WRAP {
      assert (a + b) == q * WRAP + (a + r);
    } else {
      assert (a + b) == (q + 1) * WRAP + (a + r - WRAP);
    }
  }

  /** A node that reported 5 in each of the last two minutes, after a round in the minute before that left the sum 5:
      the pre-last sum is 10. */
  lemma PreSumCountsTwice()
    ensures var env := Env(map[1 := Machine(false, false)], map[1 := [7]], map[2 := [7]]);
            var c := WarnConfig(1, false, 0, false, 0, true, 50, false, false, false, 0, 5, 60);
            var r := Reported(1, 2, false, Node(Sum, 2, 120, 0, 5, 5));
            SumPre(env, [r], (7, 2), 120) == 5 && Settled(env, c, [r], (7, 2), 120).preSum == 10
  {
    var env := Env(map[1 := Machine(false, false)], map[1 := [7]], map[2 := [7]]);
    var r := Reported(1, 2, false, Node(Sum, 2, 120, 0, 5, 5));
    assert Counts(env, [r][0], (7, 2));
    assert [r][..0] == [];
    assert Adapt(r.node, 120) == (5, 5);
    assert SumPre(env, [], (7, 2), 120) == 0 == SumLast(env, [], (7, 2), 120);
  }

  // ----- two rounds -----

  /** The same report nodes at two rounds, `h1` and `h2` what each had been sent by then: both windows are exact, and
      what came in between came after the first round. */
  ghost predicate Continues(a: Reported, b: Reported, h1: seq<Report>, h2: seq<Report>, t1: nat, t2: nat) {
    && b.machine == a.machine && b.attr == a.attr && a.node.kind == b.node.kind
    && Window(a.node, h1) && a.node.lastReport <= t1 && !SameMinuteNextDay(a.node, t1)
    && Window(b.node, h2) && b.node.lastReport <= t2 && !SameMinuteNextDay(b.node, t2)
    && h1 <= h2 && forall i :: |h1| <= i < |h2| ==> t1 <= h2[i].time
  }

  ghost predicate AllContinue(rs1: seq<Reported>, rs2: seq<Reported>, hs1: seq<seq<Report>>, hs2: seq<seq<Report>>,
                              t1: nat, t2: nat)
  {
    && |rs1| == |rs2| == |hs1| == |hs2|
    && forall i :: 0 <= i < |rs1| ==> Continues(rs1[i], rs2[i], hs1[i], hs2[i], t1, t2)
  }

  lemma {:induction false} SummaryKept(kind: Kind, h1: seq<Report>, h2: seq<Report>, m: int)
    requires h1 <= h2 && forall i :: |h1| <= i < |h2| ==> m < Minute(h2[i].time)
    ensures Summary(kind, h2, m) == Summary(kind, h1, m)
  {
    if |h2| == |h1| {
      assert h1 == h2;
    } else {
      SummaryKept(kind, h1, h2[..|h2| - 1], m);
    }
  }

  /** The last value of a node at one round is its pre-last value at the round a minute later. */
  lemma LastBecomesPre(a: Reported, b: Reported, h1: seq<Report>, h2: seq<Report>, t1: nat, t2: nat)
    requires Continues(a, b, h1, h2, t1, t2) && Minute(t2) == Minute(t1) + 1 && t1 <= t2 && t2 + DAY < WRAP
    ensures Adapt(a.node, t1).0 == Adapt(b.node, t2).1
  {
    hide Adapt, Summary;
    AdaptExact(a.node, h1, t1);
    AdaptExact(b.node, h2, t2);
    SummaryKept(a.node.kind, h1, h2, Minute(t1) - 1);
  }

  lemma {:induction false} SumsShift(env: Env, rs1: seq<Reported>, rs2: seq<Reported>, hs1: seq<seq<Report>>,
                                     hs2: seq<seq<Report>>, t1: nat, t2: nat, key: Key)
    requires AllContinue(rs1, rs2, hs1, hs2, t1, t2) && Minute(t2) == Minute(t1) + 1 && t1 <= t2 && t2 + DAY < WRAP
    ensures SumLast(env, rs1, key, t1) == SumPre(env, rs2, key, t2)
    ensures Touched(env, rs1, key) <==> Touched(env, rs2, key)
  {
    hide Adapt, Continues;
    forall i | 0 <= i < |rs1| ensures Counts(env, rs1[i], key) <==> Counts(env, rs2[i], key) {
      SameSource(rs1[i], rs2[i], hs1[i], hs2[i], t1, t2);
    }
    if |rs1| > 0 {
      var n := |rs1| - 1;
      LastBecomesPre(rs1[n], rs2[n], hs1[n], hs2[n], t1, t2);
      SumsShift(env, rs1[..n], rs2[..n], hs1[..n], hs2[..n], t1, t2, key);
      assert Counts(env, rs1[n], key) <==> Counts(env, rs2[n], key);
    }
  }

  lemma SameSource(a: Reported, b: Reported, h1: seq<Report>, h2: seq<Report>, t1: nat, t2: nat)
    requires Continues(a, b, h1, h2, t1, t2)
    ensures b.machine == a.machine && b.attr == a.attr
  {
  }

  /** In every second of two successive rounds over the same exact windows, the pre-last sum is twice the true one;
      the wave test compares against that. */
  lemma PreSumDoubles(env: Env, configs: Configs, rs1: seq<Reported>, rs2: seq<Reported>, hs1: seq<seq<Report>>,
                      hs2: seq<seq<Report>>, t1: nat, t2: nat, key: Key)
    requires SoundEnv(env) && UniqueIds(configs) && key in configs && Touched(env, rs1, key)
    requires AllContinue(rs1, rs2, hs1, hs2, t1, t2) && Minute(t2) == Minute(t1) + 1 && t1 <= t2 && t2 + DAY < WRAP
    requires configs[key].stamp <= t1 && configs[key].sum < WRAP && configs[key].preSum < WRAP
    requires DayMinute(configs[key].stamp) != DayMinute(t1) || t1 >= configs[key].stamp + DAY
    ensures var first := ScanAll(env, configs, rs1, t1).configs;
            var second := ScanAll(env, first, rs2, t2).configs;
            key in second && second[key].preSum == 2 * SumPre(env, rs2, key, t2) % WRAP
  {
    hide ScanAll, SumLast, SumPre, Settled, Touched, AllContinue, DayMinute, Minute, UniqueIds;
    var first := ScanAll(env, configs, rs1, t1).configs;
    ScanExact(env, configs, rs1, t1, key);
    ScanSettings(env, configs, rs1, t1);
    UniqueKept(first, configs);
    ScanExact(env, first, rs2, t2, key);
    SumsShift(env, rs1, rs2, hs1, hs2, t1, t2, key);
    var c, last := configs[key], SumLast(env, rs1, key, t1);
    SumsExact(env, c, rs1, key, t1);
    SettledBounds(env, c, rs1, key, t1);
    SumsExact(env, first[key], rs2, key, t2);
    MinuteLater(t1, t2);
    assert (last % WRAP + last) % WRAP == 2 * last % WRAP by { Doubled(last); }
  }

  lemma SettledBounds(env: Env, c: WarnConfig, rs: seq<Reported>, key: Key, now: nat)
    requires Touched(env, rs, key)
    ensures Settled(env, c, rs, key, now).sum < WRAP && Settled(env, c, rs, key, now).preSum < WRAP
  {
  }

  lemma MinuteLater(t1: nat, t2: nat)
    requires Minute(t2) == Minute(t1) + 1 && t1 <= t2
    ensures (DayMinute(t1) + 1) % 1440 == DayMinute(t2) && t2 < t1 + DAY
  {
    DayMinutes(Minute(t1), 1);
  }

  lemma Doubled(a: nat)
    ensures (a % WRAP + a) % WRAP == 2 * a % WRAP
  {
    AddMod(a, a);
  }

  // ----- triggers -----

  /** `abs((int)(last - pre)) * 100 / pre` in 32-bit arithmetic. */
  function WaveOf(last: nat, pre: nat): int
    requires pre > 0
  {
    var d := I32(last - pre);
    I32(U32(I32((if d < 0 then -d else d) * 100)) / pre)
  }

  function Masks(c: WarnConfig, m: Machine): bool { c.mask || m.denyAll || (m.denyExcept && c.exception) }

  /** The three tests of CheckMachineWarn and CheckViewWarn. */
  function Tests(c: WarnConfig, forView: bool, id: int, attr: int, masked: bool, last: nat, pre: nat): seq<Trigger> {
    (if c.onMin && last < U32(c.min) then [Trigger(Low, forView, id, attr, masked, c.min, last)] else [])
    + (if c.onMax && last > U32(c.max) then [Trigger(High, forView, id, attr, masked, c.max, last)] else [])
    + (if c.onWave && pre > 0 && WaveOf(last, pre) > c.wave
       then [Trigger(Wave, forView, id, attr, masked, c.wave, WaveOf(last, pre))] else [])
  }

  /** The triggers of one report node: its machine configuration and, for exception attributes, configuration 0. */
  function NodeTriggers(env: Env, configs: Configs, r: Reported, now: nat): seq<Trigger> {
    if r.machine !in env.machines then []
    else
      var m := env.machines[r.machine];
      var (last, pre) := Adapt(r.node, now);
      (if (r.machine, r.attr) in configs then
         var c := configs[(r.machine, r.attr)];
         Tests(c, false, r.machine, r.attr, Masks(c, m), last, pre)
       else [])
      + (if r.isException && (0, r.attr) in configs && last > 0
         then [Trigger(Exception, false, r.machine, r.attr, Masks(configs[(0, r.attr)], m), 0, last)] else [])
  }

  function AllNodeTriggers(env: Env, configs: Configs, rs: seq<Reported>, now: nat): seq<Trigger> {
    if |rs| == 0 then []
    else
      var n := |rs| - 1;
      AllNodeTriggers(env, configs, rs[..n], now) + NodeTriggers(env, configs, rs[n], now)
  }

  /** `CheckViewWarn` on the touched configurations. */
  function ViewTriggers(s: Scan, order: seq<Key>): seq<Trigger> {
    if |order| == 0 then []
    else
      var n := |order| - 1;
      var key := order[n];
      ViewTriggers(s, order[..n])
      + (if key in s.configs && s.configs[key].configId in s.touched then
           var c := s.configs[key];
           Tests(c, true, key.0, key.1, c.mask, c.sum, c.preSum)
         else [])
  }

  predicate HasReport(rs: seq<Reported>, key: Key) {
    exists i :: 0 <= i < |rs| && rs[i].machine == key.0 && rs[i].attr == key.1
  }

  /** What `CheckWarnConfig` does with one configuration. */
  function ConfigTrigger(env: Env, configs: Configs, rs: seq<Reported>, key: Key): seq<Trigger>
    requires key in configs
  {
    var c := configs[key];
    if !c.onMin || HasReport(rs, key) || (c.forMachine && key.0 !in env.machines) then []
    else
      [Trigger(Low, !c.forMachine, key.0, key.1,
               if c.forMachine then Masks(c, env.machines[key.0]) else c.mask, c.min, 0)]
  }

  function ConfigTriggers(env: Env, configs: Configs, rs: seq<Reported>, order: seq<Key>): seq<Trigger>
    requires forall i :: 0 <= i < |order| ==> order[i] in configs
  {
    if |order| == 0 then []
    else
      var n := |order| - 1;
      ConfigTriggers(env, configs, rs, order[..n]) + ConfigTrigger(env, configs, rs, order[n])
  }

  /** The hash table visits each configuration once, in some order. */
  ghost predicate Enumerates(order: seq<Key>, configs: Configs) {
    && (forall i, j :: 0 <= i < j < |order| ==> order[i] != order[j])
    && (forall key :: key in order <==> key in configs)
  }

  /** The order of the map of touched configurations: by configuration id. */
  ghost predicate ById(byId: seq<Key>, configs: Configs) {
    && Enumerates(byId, configs)
    && forall i, j :: 0 <= i < j < |byId| ==> configs[byId[i]].configId < configs[byId[j]].configId
  }

  ghost predicate OneNodeEach(rs: seq<Reported>) {
    forall i, j :: 0 <= i < j < |rs| ==> rs[i].machine != rs[j].machine || rs[i].attr != rs[j].attr
  }

  // ----- the triggers of one cause, level and key -----

  predicate Is(t: Trigger, cause: Cause, forView: bool, key: Key) {
    t.cause == cause && t.forView == forView && t.id == key.0 && t.attr == key.1
  }

  function Of(ts: seq<Trigger>, cause: Cause, forView: bool, key: Key): seq<Trigger> {
    if |ts| == 0 then []
    else
      var n := |ts| - 1;
      Of(ts[..n], cause, forView, key) + (if Is(ts[n], cause, forView, key) then [ts[n]] else [])
  }

  lemma {:induction false} OfConcat(a: seq<Trigger>, b: seq<Trigger>, cause: Cause, forView: bool, key: Key)
    ensures Of(a + b, cause, forView, key) == Of(a, cause, forView, key) + Of(b, cause, forView, key)
  {
    hide Is;
    if |b| == 0 {
      assert a + b == a;
    } else {
      var n := |b| - 1;
      OfConcat(a, b[..n], cause, forView, key);
      assert (a + b)[..|a| + n] == a + b[..n];
    }
  }

  lemma OfOne(t: Trigger, cause: Cause, forView: bool, key: Key)
    ensures Of([t], cause, forView, key) == if Is(t, cause, forView, key) then [t] else []
    ensures Of([], cause, forView, key) == []
  {
    hide Is;
    assert [t][..0] == [];
  }

  /** At most one trigger, when its condition holds. */
  function When(cond: bool, t: Trigger): seq<Trigger> { if cond then [t] else [] }

  lemma OfWhen(cond: bool, t: Trigger, cause: Cause, forView: bool, key: Key)
    ensures Of(When(cond, t), cause, forView, key) == When(cond && Is(t, cause, forView, key), t)
  {
    hide Is, Of;
    OfOne(t, cause, forView, key);
  }

  /** The test of one cause on one configuration. */
  function Tested(c: WarnConfig, cause: Cause, forView: bool, key: Key, masked: bool, last: nat, pre: nat)
      : seq<Trigger>
  {
    match cause
    case Low => When(c.onMin && last < U32(c.min), Trigger(Low, forView, key.0, key.1, masked, c.min, last))
    case High => When(c.onMax && last > U32(c.max), Trigger(High, forView, key.0, key.1, masked, c.max, last))
    case Wave =>
      if pre == 0 then []
      else When(c.onWave && WaveOf(last, pre) > c.wave,
                Trigger(Wave, forView, key.0, key.1, masked, c.wave, WaveOf(last, pre)))
    case Exception => []
  }

  lemma TestsAre(c: WarnConfig, view: bool, key: Key, masked: bool, last: nat, pre: nat)
    ensures Tests(c, view, key.0, key.1, masked, last, pre) ==
            Tested(c, Low, view, key, masked, last, pre) + Tested(c, High, view, key, masked, last, pre)
            + Tested(c, Wave, view, key, masked, last, pre)
  {
    hide U32, WaveOf;
  }

  lemma OfTested(c: WarnConfig, kind: Cause, view: bool, k: Key, masked: bool, last: nat, pre: nat,
                 cause: Cause, forView: bool, key: Key)
    ensures Of(Tested(c, kind, view, k, masked, last, pre), cause, forView, key) ==
            if kind == cause && view == forView && k == key
            then Tested(c, cause, forView, key, masked, last, pre) else []
  {
    hide U32, WaveOf, Of;
    var ts := Tested(c, kind, view, k, masked, last, pre);
    OfOne(Trigger(kind, view, k.0, k.1, masked, 0, 0), cause, forView, key);
    if |ts| > 0 {
      assert ts == [ts[0]] && ts[0].cause == kind && ts[0].forView == view && ts[0].id == k.0 && ts[0].attr == k.1;
      OfOne(ts[0], cause, forView, key);
    }
  }

  lemma OfTests(c: WarnConfig, view: bool, k: Key, masked: bool, last: nat, pre: nat,
                cause: Cause, forView: bool, key: Key)
    ensures Of(Tests(c, view, k.0, k.1, masked, last, pre), cause, forView, key) ==
            if view == forView && k == key then Tested(c, cause, forView, key, masked, last, pre) else []
  {
    TestedNoException(c, cause, forView, key, masked, last, pre);
    TestsAre(c, view, k, masked, last, pre);
    var low, high, wave :=
      Tested(c, Low, view, k, masked, last, pre), Tested(c, High, view, k, masked, last, pre),
      Tested(c, Wave, view, k, masked, last, pre);
    hide Of, Tested, Tests;
    OfConcat(low + high, wave, cause, forView, key);
    OfConcat(low, high, cause, forView, key);
    OfTested(c, Low, view, k, masked, last, pre, cause, forView, key);
    OfTested(c, High, view, k, masked, last, pre, cause, forView, key);
    OfTested(c, Wave, view, k, masked, last, pre, cause, forView, key);
  }

  lemma TestedNoException(c: WarnConfig, cause: Cause, forView: bool, key: Key, masked: bool, last: nat, pre: nat)
    ensures cause == Exception ==> Tested(c, cause, forView, key, masked, last, pre) == []
  {
  }

  // ----- node scan -----

  predicate IsFor(r: Reported, key: Key) { r.machine == key.0 && r.attr == key.1 }

  /** The triggers the node scan makes of a report, for its own configuration and, as an exception, for
      configuration 0. */
  function FromNode(env: Env, configs: Configs, r: Reported, now: nat, cause: Cause, key: Key): seq<Trigger> {
    if r.machine !in env.machines || !IsFor(r, key) then []
    else
      var m := env.machines[r.machine];
      var (last, pre) := Adapt(r.node, now);
      if cause == Exception then
        if (0, r.attr) in configs then
          When(r.isException && last > 0,
               Trigger(Exception, false, key.0, key.1, Masks(configs[(0, r.attr)], m), 0, last))
        else []
      else if key in configs then Tested(configs[key], cause, false, key, Masks(configs[key], m), last, pre)
      else []
  }

  lemma OfNode(env: Env, configs: Configs, r: Reported, now: nat, cause: Cause, forView: bool, key: Key)
    ensures Of(NodeTriggers(env, configs, r, now), cause, forView, key) ==
            if forView then [] else FromNode(env, configs, r, now, cause, key)
  {
    hide Adapt, Of, Masks, Tested, Tests;
    var nothing := Trigger(Low, false, 0, 0, false, 0, 0);
    OfOne(nothing, cause, forView, key);
    if r.machine in env.machines {
      var m := env.machines[r.machine];
      var (last, pre) := Adapt(r.node, now);
      var own, zero := (r.machine, r.attr), (0, r.attr);
      var a := if own in configs
        then Tests(configs[own], false, r.machine, r.attr, Masks(configs[own], m), last, pre) else [];
      var b := if zero in configs
        then When(r.isException && last > 0,
                  Trigger(Exception, false, r.machine, r.attr, Masks(configs[zero], m), 0, last)) else [];
      assert NodeTriggers(env, configs, r, now) == a + b;
      OfConcat(a, b, cause, forView, key);
      if own in configs {
        OfTests(configs[own], false, own, Masks(configs[own], m), last, pre, cause, forView, key);
        TestedNoException(configs[own], cause, false, key, Masks(configs[own], m), last, pre);
      }
      if zero in configs {
        OfWhen(r.isException && last > 0,
               Trigger(Exception, false, r.machine, r.attr, Masks(configs[zero], m), 0, last), cause, forView, key);
      }
    }
  }

  lemma {:induction false} OfNodes(env: Env, configs: Configs, rs: seq<Reported>, now: nat, cause: Cause,
                                   forView: bool, key: Key)
    requires OneNodeEach(rs)
    ensures forView || !HasReport(rs, key) ==> Of(AllNodeTriggers(env, configs, rs, now), cause, forView, key) == []
    ensures !forView ==> forall i :: 0 <= i < |rs| && IsFor(rs[i], key) ==>
              Of(AllNodeTriggers(env, configs, rs, now), cause, forView, key) ==
              FromNode(env, configs, rs[i], now, cause, key)
  {
    hide NodeTriggers, Of, FromNode;
    OfOne(Trigger(Low, false, 0, 0, false, 0, 0), cause, forView, key);
    if |rs| > 0 {
      var n := |rs| - 1;
      var init := rs[..n];
      assert forall i :: 0 <= i < n ==> init[i] == rs[i];
      OfNodes(env, configs, init, now, cause, forView, key);
      OfConcat(AllNodeTriggers(env, configs, init, now), NodeTriggers(env, configs, rs[n], now), cause, forView, key);
      OfNode(env, configs, rs[n], now, cause, forView, key);
      if !IsFor(rs[n], key) {
        NotForIsNothing(env, configs, rs[n], now, cause, key);
      }
      if IsFor(rs[n], key) {
        assert !HasReport(init, key);
      }
    }
  }

  lemma NotForIsNothing(env: Env, configs: Configs, r: Reported, now: nat, cause: Cause, key: Key)
    requires !IsFor(r, key)
    ensures FromNode(env, configs, r, now, cause, key) == []
  {
  }

  // ----- view tests and configuration scan -----

  function FromView(s: Scan, cause: Cause, key: Key): seq<Trigger> {
    if key in s.configs && s.configs[key].configId in s.touched then
      var c := s.configs[key];
      Tested(c, cause, true, key, c.mask, c.sum, c.preSum)
    else []
  }

  lemma {:induction false} OfViews(s: Scan, order: seq<Key>, cause: Cause, forView: bool, key: Key)
    requires Distinct(order)
    ensures Of(ViewTriggers(s, order), cause, forView, key) ==
            if forView && key in order then FromView(s, cause, key) else []
  {
    hide Tests, Of, Tested;
    OfOne(Trigger(Low, false, 0, 0, false, 0, 0), cause, forView, key);
    if |order| > 0 {
      var n := |order| - 1;
      var k := order[n];
      OfViews(s, order[..n], cause, forView, key);
      assert order == order[..n] + [k] && k !in order[..n];
      if k in s.configs && s.configs[k].configId in s.touched {
        var c := s.configs[k];
        OfConcat(ViewTriggers(s, order[..n]), Tests(c, true, k.0, k.1, c.mask, c.sum, c.preSum), cause, forView, key);
        OfTests(c, true, k, c.mask, c.sum, c.preSum, cause, forView, key);
      } else {
        assert ViewTriggers(s, order) == ViewTriggers(s, order[..n]);
      }
    }
  }

  function FromConfig(env: Env, configs: Configs, rs: seq<Reported>, cause: Cause, forView: bool, key: Key)
      : seq<Trigger>
    requires key in configs
  {
    var c := configs[key];
    if c.forMachine && key.0 !in env.machines then []
    else
      When(cause == Low && forView == !c.forMachine && c.onMin && !HasReport(rs, key),
           Trigger(Low, forView, key.0, key.1,
                   if c.forMachine then Masks(c, env.machines[key.0]) else c.mask, c.min, 0))
  }

  lemma {:induction false} OfConfigs(env: Env, configs: Configs, rs: seq<Reported>, order: seq<Key>, cause: Cause,
                                     forView: bool, key: Key)
    requires forall i :: 0 <= i < |order| ==> order[i] in configs
    requires Distinct(order) && key in configs
    ensures Of(ConfigTriggers(env, configs, rs, order), cause, forView, key) ==
            if key in order then FromConfig(env, configs, rs, cause, forView, key) else []
  {
    hide Of, ConfigTrigger, FromConfig;
    OfOne(Trigger(Low, false, 0, 0, false, 0, 0), cause, forView, key);
    if |order| > 0 {
      var n := |order| - 1;
      var init, k := order[..n], order[n];
      OfConfigs(env, configs, rs, init, cause, forView, key);
      assert order == init + [k] && k !in init;
      OfConcat(ConfigTriggers(env, configs, rs, init), ConfigTrigger(env, configs, rs, k), cause, forView, key);
      OfConfig(env, configs, rs, k, cause, forView, key);
    }
  }

  lemma OfConfig(env: Env, configs: Configs, rs: seq<Reported>, k: Key, cause: Cause, forView: bool, key: Key)
    requires k in configs && key in configs
    ensures Of(ConfigTrigger(env, configs, rs, k), cause, forView, key) ==
            if k == key then FromConfig(env, configs, rs, cause, forView, key) else []
  {
    hide Of, HasReport, Masks;
    OfOne(Trigger(Low, false, 0, 0, false, 0, 0), cause, forView, key);
    var one := ConfigTrigger(env, configs, rs, k);
    if |one| > 0 {
      assert one == [one[0]];
      OfOne(one[0], cause, forView, key);
    }
  }

  /** All triggers of a round, in the order of the three scans. */
  function RoundTriggers(env: Env, configs: Configs, rs: seq<Reported>, byId: seq<Key>, order: seq<Key>, now: nat)
      : seq<Trigger>
    requires forall i :: 0 <= i < |order| ==> order[i] in configs
  {
    AllNodeTriggers(env, configs, rs, now) + ViewTriggers(ScanAll(env, configs, rs, now), byId)
    + ConfigTriggers(env, configs, rs, order)
  }

  /** What a round enumerates: its configurations in the two orders, one report node per machine and attribute. */
  ghost predicate Proper(configs: Configs, rs: seq<Reported>, byId: seq<Key>, order: seq<Key>) {
    ById(byId, configs) && Enumerates(order, configs) && OneNodeEach(rs)
  }

  lemma OfRound(env: Env, configs: Configs, rs: seq<Reported>, byId: seq<Key>, order: seq<Key>, now: nat,
                cause: Cause, forView: bool, key: Key)
    requires Proper(configs, rs, byId, order) && key in configs
    ensures Of(RoundTriggers(env, configs, rs, byId, order, now), cause, forView, key) ==
            Of(AllNodeTriggers(env, configs, rs, now), cause, forView, key)
            + (if forView then FromView(ScanAll(env, configs, rs, now), cause, key) else [])
            + FromConfig(env, configs, rs, cause, forView, key)
  {
    hide AllNodeTriggers, ViewTriggers, ConfigTriggers, ScanAll, Of, FromView, FromConfig;
    var nodes := AllNodeTriggers(env, configs, rs, now);
    var views := ViewTriggers(ScanAll(env, configs, rs, now), byId);
    OfConcat(nodes + views, ConfigTriggers(env, configs, rs, order), cause, forView, key);
    OfConcat(nodes, views, cause, forView, key);
    OfViews(ScanAll(env, configs, rs, now), byId, cause, forView, key);
    OfConfigs(env, configs, rs, order, cause, forView, key);
  }

  // ----- what a round warns about -----

  /** The triggers of a machine configuration whose machine is known and has a report node: for each cause at most one,
      exactly when the adapted value violates the limit, with that limit, that value and the mask of the configuration
      or the machine. */
  lemma MachineTriggers(env: Env, configs: Configs, rs: seq<Reported>, byId: seq<Key>, order: seq<Key>, now: nat,
                        i: nat)
    requires Proper(configs, rs, byId, order) && i < |rs| && (rs[i].machine, rs[i].attr) in configs
    requires rs[i].machine in env.machines
    ensures var key, m := (rs[i].machine, rs[i].attr), env.machines[rs[i].machine];
            var c, round := configs[key], RoundTriggers(env, configs, rs, byId, order, now);
            var (last, pre) := Adapt(rs[i].node, now);
            var masked := c.mask || m.denyAll || (m.denyExcept && c.exception);
            && Of(round, Low, false, key) ==
               (if c.onMin && last < U32(c.min) then [Trigger(Low, false, key.0, key.1, masked, c.min, last)] else [])
            && Of(round, High, false, key) ==
               (if c.onMax && last > U32(c.max) then [Trigger(High, false, key.0, key.1, masked, c.max, last)] else [])
            && Of(round, Wave, false, key) ==
               (if c.onWave && pre > 0 && WaveOf(last, pre) > c.wave
                then [Trigger(Wave, false, key.0, key.1, masked, c.wave, WaveOf(last, pre))] else [])
  {
    hide AllNodeTriggers, RoundTriggers, Of, Adapt, U32, WaveOf, ScanAll, Proper;
    var key := (rs[i].machine, rs[i].attr);
    assert IsFor(rs[i], key) && HasReport(rs, key);
    ProperNodes(configs, rs, byId, order);
    forall cause ensures Of(RoundTriggers(env, configs, rs, byId, order, now), cause, false, key)
                         == FromNode(env, configs, rs[i], now, cause, key) {
      OfRound(env, configs, rs, byId, order, now, cause, false, key);
      OfNodes(env, configs, rs, now, cause, false, key);
    }
    var round := RoundTriggers(env, configs, rs, byId, order, now);
    assert Of(round, Low, false, key) == FromNode(env, configs, rs[i], now, Low, key);
    assert Of(round, High, false, key) == FromNode(env, configs, rs[i], now, High, key);
    assert Of(round, Wave, false, key) == FromNode(env, configs, rs[i], now, Wave, key);
    var c, last, pre := configs[key], Adapt(rs[i].node, now).0, Adapt(rs[i].node, now).1;
    TestedWave(c, false, key, Masks(c, env.machines[rs[i].machine]), last, pre);
  }

  lemma TestedWave(c: WarnConfig, forView: bool, key: Key, masked: bool, last: nat, pre: nat)
    ensures Tested(c, Wave, forView, key, masked, last, pre) ==
            if c.onWave && pre > 0 && WaveOf(last, pre) > c.wave
            then [Trigger(Wave, forView, key.0, key.1, masked, c.wave, WaveOf(last, pre))] else []
  {
    hide WaveOf;
  }

  lemma ProperNodes(configs: Configs, rs: seq<Reported>, byId: seq<Key>, order: seq<Key>)
    requires Proper(configs, rs, byId, order)
    ensures OneNodeEach(rs) && forall i :: 0 <= i < |order| ==> order[i] in configs
  {
  }

  /** A machine configuration without a report node warns only of its minimum, with the value 0, whatever the
      minimum. */
  lemma SilentMachine(env: Env, configs: Configs, rs: seq<Reported>, byId: seq<Key>, order: seq<Key>, now: nat,
                      key: Key)
    requires Proper(configs, rs, byId, order) && key in configs && configs[key].forMachine && !HasReport(rs, key)
    ensures var c, round := configs[key], RoundTriggers(env, configs, rs, byId, order, now);
            && Of(round, High, false, key) == Of(round, Wave, false, key) == Of(round, Exception, false, key) == []
            && Of(round, Low, false, key) ==
               if key.0 in env.machines && c.onMin then
                 var m := env.machines[key.0];
                 [Trigger(Low, false, key.0, key.1, c.mask || m.denyAll || (m.denyExcept && c.exception), c.min, 0)]
               else []
  {
    hide AllNodeTriggers, RoundTriggers, Of, ScanAll, Proper, HasReport;
    ProperNodes(configs, rs, byId, order);
    forall cause ensures Of(RoundTriggers(env, configs, rs, byId, order, now), cause, false, key)
                         == FromConfig(env, configs, rs, cause, false, key) {
      OfRound(env, configs, rs, byId, order, now, cause, false, key);
      OfNodes(env, configs, rs, now, cause, false, key);
    }
  }

  /** A configuration of a machine that is not known does not warn of the machine. */
  lemma UnknownMachine(env: Env, configs: Configs, rs: seq<Reported>, byId: seq<Key>, order: seq<Key>, now: nat,
                       cause: Cause, key: Key)
    requires Proper(configs, rs, byId, order) && key in configs && key.0 !in env.machines
    ensures forall i :: 0 <= i < |order| ==> order[i] in configs
    ensures Of(RoundTriggers(env, configs, rs, byId, order, now), cause, false, key) == []
  {
    hide AllNodeTriggers, RoundTriggers, Of, ScanAll, Proper;
    ProperNodes(configs, rs, byId, order);
    OfRound(env, configs, rs, byId, order, now, cause, false, key);
    OfNodes(env, configs, rs, now, cause, false, key);
    if i :| 0 <= i < |rs| && IsFor(rs[i], key) {
      assert Of(AllNodeTriggers(env, configs, rs, now), cause, false, key) ==
             FromNode(env, configs, rs[i], now, cause, key);
    }
  }

  /** An exception attribute warns once when its adapted last value is not zero and there is a configuration 0 for
      it. */
  lemma ExceptionTriggers(env: Env, configs: Configs, rs: seq<Reported>, byId: seq<Key>, order: seq<Key>, now: nat,
                          i: nat)
    requires Proper(configs, rs, byId, order) && i < |rs| && rs[i].machine in env.machines
    ensures var key, zero, m := (rs[i].machine, rs[i].attr), (0, rs[i].attr), env.machines[rs[i].machine];
            var last := Adapt(rs[i].node, now).0;
            Of(RoundTriggers(env, configs, rs, byId, order, now), Exception, false, key) ==
            if rs[i].isException && zero in configs && last > 0 then
              var c := configs[zero];
              [Trigger(Exception, false, key.0, key.1, c.mask || m.denyAll || (m.denyExcept && c.exception), 0, last)]
            else []
  {
    hide AllNodeTriggers, ViewTriggers, ConfigTriggers, Of, Adapt, ScanAll;
    var key := (rs[i].machine, rs[i].attr);
    assert IsFor(rs[i], key);
    OfNodes(env, configs, rs, now, Exception, false, key);
    var nodes := AllNodeTriggers(env, configs, rs, now);
    var views := ViewTriggers(ScanAll(env, configs, rs, now), byId);
    OfConcat(nodes + views, ConfigTriggers(env, configs, rs, order), Exception, false, key);
    OfConcat(nodes, views, Exception, false, key);
    OfViews(ScanAll(env, configs, rs, now), byId, Exception, false, key);
    NoExceptionConfigs(env, configs, rs, order, key);
  }

  lemma {:induction false} NoExceptionConfigs(env: Env, configs: Configs, rs: seq<Reported>, order: seq<Key>, key: Key)
    requires forall i :: 0 <= i < |order| ==> order[i] in configs
    ensures Of(ConfigTriggers(env, configs, rs, order), Exception, false, key) == []
  {
    hide Of, HasReport, Masks;
    OfOne(Trigger(Low, false, 0, 0, false, 0, 0), Exception, false, key);
    if |order| > 0 {
      var n := |order| - 1;
      NoExceptionConfigs(env, configs, rs, order[..n], key);
      var one := ConfigTrigger(env, configs, rs, order[n]);
      OfConcat(ConfigTriggers(env, configs, rs, order[..n]), one, Exception, false, key);
      if |one| > 0 {
        assert one == [one[0]];
        OfOne(one[0], Exception, false, key);
      }
    }
  }

  /** The triggers of a view configuration, against the sums after the scan: for the maximum and the wave at most one,
      for the minimum one from the view test and, when no report node has the view's id as its machine, another one with
      the value 0 from the configuration scan. */
  lemma ViewTriggersExact(env: Env, configs: Configs, rs: seq<Reported>, byId: seq<Key>, order: seq<Key>, now: nat,
                          key: Key)
    requires Proper(configs, rs, byId, order) && SoundEnv(env) && key in configs && !configs[key].forMachine
    ensures var c, s := configs[key], Settled(env, configs[key], rs, key, now);
            var round, touched := RoundTriggers(env, configs, rs, byId, order, now), Touched(env, rs, key);
            && Of(round, Low, true, key) ==
               (if touched && c.onMin && s.sum < U32(c.min)
                then [Trigger(Low, true, key.0, key.1, c.mask, c.min, s.sum)] else [])
               + (if c.onMin && !HasReport(rs, key) then [Trigger(Low, true, key.0, key.1, c.mask, c.min, 0)] else [])
            && Of(round, High, true, key) ==
               (if touched && c.onMax && s.sum > U32(c.max)
                then [Trigger(High, true, key.0, key.1, c.mask, c.max, s.sum)] else [])
            && Of(round, Wave, true, key) ==
               (if touched && c.onWave && s.preSum > 0 && WaveOf(s.sum, s.preSum) > c.wave
                then [Trigger(Wave, true, key.0, key.1, c.mask, c.wave, WaveOf(s.sum, s.preSum))] else [])
  {
    hide RoundTriggers, Of, Proper, HasReport, Touched, U32, WaveOf, SumLast, SumPre, SoundEnv;
    ProperNodes(configs, rs, byId, order);
    ViewCause(env, configs, rs, byId, order, now, Low, key);
    ViewCause(env, configs, rs, byId, order, now, High, key);
    ViewCause(env, configs, rs, byId, order, now, Wave, key);
    var c, s := configs[key], Settled(env, configs[key], rs, key, now);
    SettledRules(env, c, rs, key, now);
    hide Settled;
    TestedWave(s, true, key, c.mask, s.sum, s.preSum);
  }

  lemma SettledRules(env: Env, c: WarnConfig, rs: seq<Reported>, key: Key, now: nat)
    ensures Bare(Settled(env, c, rs, key, now)) == Bare(c)
  {
    hide SumLast, SumPre, LeftOver;
  }

  lemma ViewCause(env: Env, configs: Configs, rs: seq<Reported>, byId: seq<Key>, order: seq<Key>, now: nat,
                  cause: Cause, key: Key)
    requires Proper(configs, rs, byId, order) && SoundEnv(env) && key in configs
    requires forall i :: 0 <= i < |order| ==> order[i] in configs
    ensures var s := Settled(env, configs[key], rs, key, now);
            Of(RoundTriggers(env, configs, rs, byId, order, now), cause, true, key) ==
            (if Touched(env, rs, key) then Tested(s, cause, true, key, s.mask, s.sum, s.preSum) else [])
            + FromConfig(env, configs, rs, cause, true, key)
  {
    hide AllNodeTriggers, RoundTriggers, Of, ScanAll, Proper, Settled, Touched, Tested, FromConfig;
    ProperNodes(configs, rs, byId, order);
    ProperIds(configs, rs, byId, order);
    ScanExact(env, configs, rs, now, key);
    ScanSettings(env, configs, rs, now);
    SameRules(ScanAll(env, configs, rs, now).configs, configs, key);
    OfRound(env, configs, rs, byId, order, now, cause, true, key);
    OfNodes(env, configs, rs, now, cause, true, key);
  }

  lemma ProperIds(configs: Configs, rs: seq<Reported>, byId: seq<Key>, order: seq<Key>)
    requires Proper(configs, rs, byId, order)
    ensures UniqueIds(configs)
  {
    forall j, k | j in configs && k in configs && configs[j].configId == configs[k].configId ensures j == k {
      assert j in byId && k in byId;
    }
  }

  lemma SameRules(a: Configs, b: Configs, key: Key)
    requires SameSettings(a, b) && key in b
    ensures key in a
    ensures var c, d := a[key], b[key];
            && c.configId == d.configId && c.mask == d.mask && c.onMin == d.onMin && c.min == d.min
            && c.onMax == d.onMax && c.max == d.max && c.onWave == d.onWave && c.wave == d.wave
  {
    assert Bare(a[key]) == Bare(b[key]);
  }

  /** For a view whose previous round was in another minute of day, or a day ago: the maximum warns exactly when the sum
      of the adapted last values of the reports that count, mod 2^32, is above it. */
  lemma ViewMaxExact(env: Env, configs: Configs, rs: seq<Reported>, byId: seq<Key>, order: seq<Key>, now: nat, key: Key)
    requires Proper(configs, rs, byId, order) && SoundEnv(env) && key in configs && !configs[key].forMachine
    requires Touched(env, rs, key) && configs[key].stamp <= now && now + DAY < WRAP
    requires configs[key].sum < WRAP && configs[key].preSum < WRAP
    requires DayMinute(configs[key].stamp) != DayMinute(now) || now >= configs[key].stamp + DAY
    ensures var c, sum := configs[key], SumLast(env, rs, key, now) % WRAP;
            Of(RoundTriggers(env, configs, rs, byId, order, now), High, true, key) ==
            if c.onMax && sum > U32(c.max) then [Trigger(High, true, key.0, key.1, c.mask, c.max, sum)] else []
  {
    hide RoundTriggers, Of, Proper, Settled, Touched, U32, WaveOf, SumLast, SumPre, DayMinute;
    ViewTriggersExact(env, configs, rs, byId, order, now, key);
    SumsExact(env, configs[key], rs, key, now);
  }

  /** The value the minimum is compared with: the adapted last value, 0 without a report node. */
  ghost predicate Below(configs: Configs, rs: seq<Reported>, key: Key, now: nat)
    requires key in configs
  {
    if HasReport(rs, key)
    then exists i :: 0 <= i < |rs| && rs[i].machine == key.0 && rs[i].attr == key.1
                     && Adapt(rs[i].node, now).0 < U32(configs[key].min)
    else 0 < U32(configs[key].min)
  }

  /** For a machine-level minimum on a known machine a round warns at most once, so the node scan and the
      configuration scan never both do; and it warns exactly when the value is below the minimum, except that a
      minimum of 0 without a report node warns as well. */
  lemma MinOnce(env: Env, configs: Configs, rs: seq<Reported>, byId: seq<Key>, order: seq<Key>, now: nat, key: Key)
    requires key in configs && configs[key].forMachine && configs[key].onMin && key.0 in env.machines
    requires Proper(configs, rs, byId, order)
    ensures var n := |Of(RoundTriggers(env, configs, rs, byId, order, now), Low, false, key)|;
            && n <= 1
            && (n == (if Below(configs, rs, key, now) then 1 else 0) <==>
                !(U32(configs[key].min) == 0 && !HasReport(rs, key)))
  {
    hide RoundTriggers, Of, Adapt, U32, WaveOf;
    if i :| 0 <= i < |rs| && rs[i].machine == key.0 && rs[i].attr == key.1 {
      MachineTriggers(env, configs, rs, byId, order, now, i);
      assert (rs[i].machine, rs[i].attr) == key && HasReport(rs, key);
      assert forall j :: 0 <= j < |rs| && rs[j].machine == key.0 && rs[j].attr == key.1 ==> j == i;
    } else {
      SilentMachine(env, configs, rs, byId, order, now, key);
    }
  }

  // ----- the wave in 32-bit arithmetic -----

  lemma NoGap(q: int, p: int, d: int, s: int, r: int)
    requires d > 0 && q * d + s <= p * d + r && 0 <= s && r < d
    ensures q <= p
  {
    if q > p {
      assert (p + 1) * d == p * d + d;
      Scales(p + 1, q, d);
    }
  }

  lemma Scales(x: int, y: int, d: int)
    requires x <= y && d > 0
    ensures x * d <= y * d
  {
  }

  lemma QuotientGrows(a: nat, b: nat, d: nat)
    requires d > 0 && a <= b
    ensures a / d <= b / d
  {
    NoGap(a / d, b / d, d, a % d, b % d);
  }

  lemma QuotientDrops(a: nat, b: nat, d: nat)
    requires d > 0 && b + d <= a
    ensures b / d < a / d
  {
    assert (b / d + 1) * d == b / d * d + d;
    NoGap(b / d + 1, a / d, d, b % d, a % d);
  }

  /** The wave is the change in per cent of the value before, exactly when a hundred times the change fits 32 bits and
      the wave itself fits an int. */
  lemma WaveExact(last: nat, pre: nat)
    requires last < WRAP && 0 < pre < WRAP
    ensures var d := if last >= pre then last - pre else pre - last;
            WaveOf(last, pre) == d * 100 / pre <==> d * 100 < WRAP && d * 100 / pre < WRAP / 2
  {
    var d: nat := if last >= pre then last - pre else pre - last;
    var r := WaveDividend(last, pre, d);
    hide WaveOf;
    QuotientGrows(r, WRAP - 1, pre);
    QuotientInt(r, pre);
    if d * 100 >= WRAP {
      QuotientDrops(d * 100, r, pre);
    }
  }

  lemma WaveDividend(last: nat, pre: nat, d: nat) returns (r: nat)
    requires last < WRAP && 0 < pre < WRAP && d == if last >= pre then last - pre else pre - last
    ensures WaveOf(last, pre) == I32(r / pre) && r < WRAP
    ensures if d * 100 < WRAP then r == d * 100 else r + pre <= d * 100
  {
    Distance32(last - pre);
    var i := I32(last - pre);
    var e: nat := if i < 0 then -i else i;
    r := e * 100 % WRAP;
    CastBack(e * 100);
    hide U32, I32;
    Smaller(e, d, pre);
  }

  lemma Distance32(x: int)
    requires 0 < x + WRAP && x < WRAP
    ensures var d, i := if x < 0 then -x else x, I32(x);
            (if i < 0 then -i else i) == if d <= WRAP / 2 then d else WRAP - d
  {
  }

  lemma CastBack(x: nat)
    ensures U32(I32(x)) == x % WRAP
  {
  }

  lemma Smaller(e: nat, d: nat, pre: nat)
    requires d < WRAP && pre < WRAP && e == if d <= WRAP / 2 then d else WRAP - d
    ensures if d * 100 < WRAP then e * 100 % WRAP == d * 100 else e * 100 % WRAP + pre <= d * 100
  {
    if d * 100 >= WRAP {
      Remainder(e * 100);
    }
  }

  lemma Remainder(x: nat)
    ensures x % WRAP < WRAP && (x >= WRAP ==> x % WRAP + WRAP <= x)
  {
  }

  lemma QuotientInt(r: nat, pre: nat)
    requires r < WRAP && pre > 0
    ensures 0 <= r / pre < WRAP
    ensures I32(r / pre) == r / pre <==> r / pre < WRAP / 2
    ensures I32(r / pre) <= r / pre
  {
    assert pre >= 1;
    Scales(1, pre, r / pre + 1);
    assert r / pre * pre <= r;
    Unwrapped(r / pre);
  }

  lemma Unwrapped(q: nat)
    ensures q < WRAP ==> (I32(q) == q <==> q < WRAP / 2) && I32(q) <= q
  {
  }

  /** A change whose hundredfold does not fit. */
  lemma WaveOverflows()
    ensures WaveOf(50000000, 1) == 705032604 && (50000000 - 1) * 100 / 1 == 4999999900
  {
  }

  // ----- the program -----

  lemma SameTests(a: WarnConfig, b: WarnConfig, forView: bool, id: int, attr: int, masked: bool, last: nat, pre: nat)
    requires Bare(a) == Bare(b)
    ensures Tests(a, forView, id, attr, masked, last, pre) == Tests(b, forView, id, attr, masked, last, pre)
  {
    hide U32, WaveOf;
  }

  lemma SameNodeTriggers(env: Env, a: Configs, b: Configs, r: Reported, now: nat)
    requires SameSettings(a, b)
    ensures NodeTriggers(env, a, r, now) == NodeTriggers(env, b, r, now)
  {
    hide Adapt, Tests;
    if r.machine in env.machines {
      var own, zero := (r.machine, r.attr), (0, r.attr);
      var (last, pre) := Adapt(r.node, now);
      if own in a {
        assert Bare(a[own]) == Bare(b[own]);
        SameTests(a[own], b[own], false, r.machine, r.attr, Masks(a[own], env.machines[r.machine]), last, pre);
      }
      if zero in a {
        assert Bare(a[zero]) == Bare(b[zero]);
      }
    }
  }

  lemma SameConfigTrigger(env: Env, a: Configs, b: Configs, rs: seq<Reported>, key: Key)
    requires SameSettings(a, b) && key in a
    ensures key in b && ConfigTrigger(env, a, rs, key) == ConfigTrigger(env, b, rs, key)
  {
    assert Bare(a[key]) == Bare(b[key]);
  }

  /** The three tests, each pushing onto the list. */
  method PushTests(c: WarnConfig, forView: bool, id: int, attr: int, masked: bool, last: nat, pre: nat,
                   warns: seq<Trigger>)
      returns (listWarn: seq<Trigger>)
    ensures listWarn == warns + Tests(c, forView, id, attr, masked, last, pre)
  {
    hide U32, WaveOf;
    listWarn := warns;
    if c.onMin && last < U32(c.min) {
      listWarn := listWarn + [Trigger(Low, forView, id, attr, masked, c.min, last)];
    }
    if c.onMax && last > U32(c.max) {
      listWarn := listWarn + [Trigger(High, forView, id, attr, masked, c.max, last)];
    }
    if c.onWave && pre > 0 {
      var w := WaveOf(last, pre);
      if w > c.wave {
        listWarn := listWarn + [Trigger(Wave, forView, id, attr, masked, c.wave, w)];
      }
    }
  }

  class AlarmCheck {
    var configs: Configs
    /** `s_iLastCheckMinIdx`: starts at 0, so the first minute of the day is skipped on the first day. */
    var lastMinute: nat

    constructor (configs: Configs)
      ensures this.configs == configs && lastMinute == 0
    {
      this.configs := configs;
      lastMinute := 0;
    }

    /** The part of the node loop that adds a report to its views. */
    method AddToViews(views: seq<int>, r: Reported, now: nat, touched0: set<int>) returns (touched: set<int>)
      modifies this`configs
      ensures Scan(configs, touched) == AddViews(Scan(old(configs), touched0), views, r, now)
    {
      hide AdaptView, AddReport;
      touched := touched0;
      for q := 0 to |views|
        invariant Scan(configs, touched) == AddViews(Scan(old(configs), touched0), views[..q], r, now)
      {
        assert views[..q + 1][..q] == views[..q];
        var key := (views[q], r.attr);
        if key in configs {
          var c := configs[key];
          if c.configId !in touched {
            touched := touched + {c.configId};
            configs := configs[key := AdaptView(c, now)];
          } else {
            assert touched + {c.configId} == touched;
          }
          configs := configs[key := AddReport(configs[key], r, now)];
        }
      }
      assert views[..|views|] == views;
    }

    /** The scan of the report nodes. */
    method ScanNodes(env: Env, rs: seq<Reported>, now: nat) returns (listWarn: seq<Trigger>, touched: set<int>)
      modifies this`configs
      ensures Scan(configs, touched) == ScanAll(env, old(configs), rs, now)
      ensures listWarn == AllNodeTriggers(env, old(configs), rs, now)
    {
      hide AddViews, NodeTriggers, Views;
      listWarn, touched := [], {};
      for n := 0 to |rs|
        invariant Scan(configs, touched) == ScanAll(env, old(configs), rs[..n], now)
        invariant listWarn == AllNodeTriggers(env, old(configs), rs[..n], now)
      {
        assert rs[..n + 1][..n] == rs[..n];
        ScanSettings(env, old(configs), rs[..n], now);
        SameNodeTriggers(env, configs, old(configs), rs[n], now);
        listWarn := PushNode(env, rs[n], now, listWarn);
        if rs[n].machine in env.machines {
          var views := ReportViews(env, rs[n]);
          touched := AddToViews(views, rs[n], now, touched);
        }
      }
      assert rs[..|rs|] == rs;
    }

    method PushNode(env: Env, r: Reported, now: nat, warns: seq<Trigger>) returns (listWarn: seq<Trigger>)
      ensures listWarn == warns + NodeTriggers(env, configs, r, now)
    {
      hide Adapt, Tests;
      listWarn := warns;
      if r.machine !in env.machines {
        return;
      }
      var m := env.machines[r.machine];
      var (last, pre) := Adapt(r.node, now);
      if (r.machine, r.attr) in configs {
        var c := configs[(r.machine, r.attr)];
        listWarn := PushTests(c, false, r.machine, r.attr, Masks(c, m), last, pre, listWarn);
      }
      if r.isException && (0, r.attr) in configs {
        if last > 0 {
          var masked := Masks(configs[(0, r.attr)], m);
          listWarn := listWarn + [Trigger(Exception, false, r.machine, r.attr, masked, 0, last)];
        }
      }
    }

    /** `CheckAttrWarn` up to the list of triggers; `order` is the order in which the table holds its entries, `byId`
        the order of the map of touched configurations. */
    method CheckAttrWarn(env: Env, rs: seq<Reported>, byId: seq<Key>, order: seq<Key>, now: nat)
        returns (listWarn: seq<Trigger>)
      requires ById(byId, configs) && Enumerates(order, configs)
      modifies this
      ensures lastMinute == DayMinute(now)
      ensures old(lastMinute) == DayMinute(now) ==> configs == old(configs) && listWarn == []
      ensures old(lastMinute) != DayMinute(now) ==>
                && configs == ScanAll(env, old(configs), rs, now).configs
                && listWarn == RoundTriggers(env, old(configs), rs, byId, order, now)
    {
      hide ScanAll, AllNodeTriggers, ViewTriggers, ConfigTriggers, DayMinute, Bare;
      if lastMinute == DayMinute(now) {
        return [];
      }
      lastMinute := DayMinute(now);
      ScanSettings(env, configs, rs, now);
      var touched;
      listWarn, touched := ScanNodes(env, rs, now);
      ByIdKept(byId, old(configs), configs);
      listWarn := PushViews(touched, byId, listWarn);
      ghost var settled := configs;
      listWarn := PushConfigs(env, rs, order, listWarn);
      SameConfigTriggers(env, settled, old(configs), rs, order);
    }

    /** `CheckViewWarn` on every touched configuration, by configuration id. */
    method PushViews(touched: set<int>, byId: seq<Key>, warns: seq<Trigger>) returns (listWarn: seq<Trigger>)
      requires ById(byId, configs)
      ensures listWarn == warns + ViewTriggers(Scan(configs, touched), byId)
    {
      hide Tests;
      listWarn := warns;
      for n := 0 to |byId|
        invariant listWarn == warns + ViewTriggers(Scan(configs, touched), byId[..n])
      {
        assert byId[..n + 1][..n] == byId[..n];
        var key := byId[n];
        if key in configs && configs[key].configId in touched {
          var c := configs[key];
          listWarn := PushTests(c, true, key.0, key.1, c.mask, c.sum, c.preSum, listWarn);
        }
      }
      assert byId[..|byId|] == byId;
    }

    /** `CheckWarnConfig`. */
    method PushConfigs(env: Env, rs: seq<Reported>, order: seq<Key>, warns: seq<Trigger>)
        returns (listWarn: seq<Trigger>)
      requires forall i :: 0 <= i < |order| ==> order[i] in configs
      ensures listWarn == warns + ConfigTriggers(env, configs, rs, order)
    {
      listWarn := warns;
      for n := 0 to |order|
        invariant listWarn == warns + ConfigTriggers(env, configs, rs, order[..n])
      {
        assert order[..n + 1][..n] == order[..n];
        var key := order[n];
        var c := configs[key];
        if !c.onMin || HasReport(rs, key) {
          continue;
        }
        if c.forMachine && key.0 !in env.machines {
          continue;
        }
        var masked := c.mask;
        if c.forMachine && Masks(c, env.machines[key.0]) {
          masked := true;
        }
        listWarn := listWarn + [Trigger(Low, !c.forMachine, key.0, key.1, masked, c.min, 0)];
      }
      assert order[..|order|] == order;
    }
  }

  lemma ByIdKept(byId: seq<Key>, a: Configs, b: Configs)
    requires ById(byId, a) && SameSettings(b, a)
    ensures ById(byId, b)
  {
    forall i | 0 <= i < |byId| ensures byId[i] in b && b[byId[i]].configId == a[byId[i]].configId {
      assert byId[i] in a && Bare(b[byId[i]]) == Bare(a[byId[i]]);
    }
  }

  lemma {:induction false} SameConfigTriggers(env: Env, a: Configs, b: Configs, rs: seq<Reported>, order: seq<Key>)
    requires SameSettings(a, b) && forall i :: 0 <= i < |order| ==> order[i] in a
    ensures forall i :: 0 <= i < |order| ==> order[i] in b
    ensures ConfigTriggers(env, a, rs, order) == ConfigTriggers(env, b, rs, order)
  {
    if |order| > 0 {
      hide ConfigTrigger, Bare;
      var n := |order| - 1;
      SameConfigTriggers(env, a, b, rs, order[..n]);
      SameConfigTrigger(env, a, b, rs, order[n]);
    }
  }

  /** `GetReportViews` on the report's machine and attribute. */
  method ReportViews(env: Env, r: Reported) returns (views: seq<int>)
    ensures views == Views(env, r)
  {
    if r.machine !in env.machineViews || r.attr !in env.attrViews {
      return [];
    }
    views := GetReportViews(env.machineViews[r.machine], env.attrViews[r.attr]);
  }
}
