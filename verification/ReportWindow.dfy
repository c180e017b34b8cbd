/** The per-minute counters of a reported attribute: the writer that shifts them when a report comes in
    (slog_monitor_server) and the correction the alarm check applies when it reads them (slog_check_warn). */
module ReportWindow {
  import opened Word32

  // Times are seconds of local time; `Minute` counts minutes, `DayMinute` is GetDayOfMin.
  function Minute(t: nat): nat { t / 60 }

  function DayMinute(t: nat): nat { Minute(t) % 1440 }

  /** How reports of one minute combine: added (modulo 2^32), smallest, largest or latest. SUM_REPORT_TOTAL adds up
      over all time. */
  datatype Kind = Sum | Min | Max | Latest | Total

  function Combine(kind: Kind, cur: nat, v: nat): nat {
    match kind
    case Min => if v < cur then v else cur
    case Max => if v > cur then v else cur
    case Latest => v
    case _ => (cur + v) % WRAP
  }

  /** TWarnAttrReportInfo: `iMinIdx`, `dwLastReportTime`, `dwCurVal`, `dwLastVal`, `dwPreLastVal`. */
  datatype Node = Node(kind: Kind, minIdx: nat, lastReport: nat, cur: nat, last: nat, pre: nat)

  // ----- what was reported -----

  datatype Report = Report(time: nat, value: nat)

  /** The combined value of the reports of minute `m`, 0 when there were none. */
  function Summary(kind: Kind, h: seq<Report>, m: int): nat {
    if |h| == 0 then 0
    else
      var n := |h| - 1;
      if Minute(h[n].time) != m then Summary(kind, h[..n], m)
      else if n > 0 && Minute(h[n - 1].time) == m then Combine(kind, Summary(kind, h[..n], m), h[n].value)
      else h[n].value
  }

  predicate Ordered(h: seq<Report>) {
    forall i, j :: 0 <= i < j < |h| ==> h[i].time <= h[j].time
  }

  lemma {:induction false} SummaryLater(kind: Kind, h: seq<Report>, m: int)
    requires forall i :: 0 <= i < |h| ==> Minute(h[i].time) < m
    ensures Summary(kind, h, m) == 0
  {
    if |h| > 0 {
      SummaryLater(kind, h[..|h| - 1], m);
    }
  }

  lemma SummaryAppend(kind: Kind, h: seq<Report>, r: Report, m: int)
    requires |h| > 0
    ensures Summary(kind, h + [r], m) ==
            if Minute(r.time) != m then Summary(kind, h, m)
            else if Minute(h[|h| - 1].time) == m then Combine(kind, Summary(kind, h, m), r.value)
            else r.value
  {
    assert (h + [r])[..|h|] == h;
  }

  /** The counters are the summaries of the minute of the last report and of the two minutes before it. */
  ghost predicate Window(n: Node, h: seq<Report>) {
    && |h| > 0 && Ordered(h) && n.kind != Total
    && n.lastReport == h[|h| - 1].time && n.minIdx == DayMinute(n.lastReport)
    && var m := Minute(n.lastReport);
       && n.cur == Summary(n.kind, h, m) && n.last == Summary(n.kind, h, m - 1) && n.pre == Summary(n.kind, h, m - 2)
  }

  // ----- the reader -----

  /** `AdaptReportValue`: the last and the pre-last value as of `now`. */
  function Adapt(n: Node, now: nat): (nat, nat) {
    var idx := DayMinute(now);
    if n.kind == Total then (if n.pre >= n.last then n.pre else n.last, n.pre)
    else if now >= (n.lastReport + DAY) % WRAP then (0, 0)
    else if idx == n.minIdx then (n.last, n.pre)
    else if (n.minIdx + 1) % 1440 == idx then (n.cur, n.last)
    else if (n.minIdx + 2) % 1440 == idx then (0, n.cur)
    else (0, 0)
  }

  /** The check meets the minute of day of the last report on the next day, less than 86400 seconds later. */
  predicate SameMinuteNextDay(n: Node, now: nat) {
    Minute(now) == Minute(n.lastReport) + 1440 && now < n.lastReport + DAY
  }

  // How the minutes of day tell minutes apart within a day.
  lemma DayMinutes(m: nat, k: nat)
    requires k <= 1440
    ensures (m + k) % 1440 == m % 1440 <==> k == 0 || k == 1440
    ensures (m % 1440 + 1) % 1440 == (m + k) % 1440 <==> k == 1
    ensures (m % 1440 + 2) % 1440 == (m + k) % 1440 <==> k == 2
  {
    var q, r := m / 1440, m % 1440;
    assert m == 1440 * q + r;
    if r + k < 1440 {
      DivRem(q, r + k);
    } else {
      DivRem(q + 1, r + k - 1440);
    }
  }

  lemma DivRem(q: nat, r: nat)
    requires r < 1440
    ensures (1440 * q + r) % 1440 == r
  {
  }

  lemma SummariesAfter(n: Node, h: seq<Report>, now: nat)
    requires Window(n, h) && n.lastReport <= now
    ensures forall m :: m > Minute(n.lastReport) ==> Summary(n.kind, h, m) == 0
  {
    forall m | m > Minute(n.lastReport) ensures Summary(n.kind, h, m) == 0 {
      forall i | 0 <= i < |h| ensures Minute(h[i].time) < m {
        assert h[i].time <= h[|h| - 1].time;
      }
      SummaryLater(n.kind, h, m);
    }
  }

  /** What the check reads is the last and the pre-last full minute, across midnight, except when it runs in the
      minute of day of the last report, a day less some seconds later, and the stale counters are not zero. */
  lemma AdaptExact(n: Node, h: seq<Report>, now: nat)
    requires Window(n, h) && n.lastReport <= now && now + DAY < WRAP
    ensures var c := Minute(now);
            Adapt(n, now) == (Summary(n.kind, h, c - 1), Summary(n.kind, h, c - 2)) <==>
            !(SameMinuteNextDay(n, now) && (n.last != 0 || n.pre != 0))
  {
    hide Summary;
    SummariesAfter(n, h, now);
    var m, c := Minute(n.lastReport), Minute(now);
    assert (n.lastReport + DAY) % WRAP == n.lastReport + DAY;
    if now < n.lastReport + DAY {
      assert c - m <= 1440;
      DayMinutes(m, c - m);
    } else {
      assert c - m >= 1440;
    }
  }

  // ----- the writer -----

  class ReportNode {
    var n: Node

    constructor (kind: Kind, time: nat, v: nat)
      ensures n == Node(kind, DayMinute(time), time, v, 0, 0)
    {
      n := Node(kind, DayMinute(time), time, v, 0, 0);
    }

    /** `AddReportToWarnAttrShm` on a node that exists, for attributes kept by the minute. */
    method AddReport(time: nat, v: nat)
      modifies this
      ensures n == Written(old(n), time, v)
    {
      var idx := DayMinute(time);
      if time > (n.lastReport + 120) % WRAP {
        if n.kind == Total {
          n := n.(pre := n.cur, last := n.cur, cur := (n.cur + v) % WRAP);
        } else {
          n := n.(pre := 0, last := 0, cur := v);
        }
      } else if n.minIdx == idx {
        n := n.(cur := Combine(n.kind, n.cur, v));
      } else if n.minIdx + 1 == idx {
        n := n.(pre := n.last, last := n.cur, cur := if n.kind == Total then (n.cur + v) % WRAP else v);
      } else if n.minIdx + 2 == idx {
        n := n.(pre := n.cur);
        if n.kind == Total {
          n := n.(last := n.cur, cur := (n.cur + v) % WRAP);
        } else {
          n := n.(last := 0, cur := v);
        }
      } else {
        if n.kind == Total {
          n := n.(pre := n.cur, last := n.cur, cur := (n.cur + v) % WRAP);
        } else {
          n := n.(pre := 0, last := 0, cur := v);
        }
      }
      n := n.(minIdx := idx, lastReport := time);
    }
  }

  /** The node after a report: same minute combines, the next minute shifts by one, the one after by two, anything
      else starts over. The minute index does not wrap at midnight here. */
  function Written(n: Node, time: nat, v: nat): Node {
    var idx := DayMinute(time);
    var cur := if n.kind == Total then (n.cur + v) % WRAP else v;
    var late := time > (n.lastReport + 120) % WRAP;
    var kept := if n.kind == Total then n.cur else 0;
    if !late && n.minIdx == idx then Node(n.kind, idx, time, Combine(n.kind, n.cur, v), n.last, n.pre)
    else if !late && n.minIdx + 1 == idx then Node(n.kind, idx, time, cur, n.cur, n.last)
    else if !late && n.minIdx + 2 == idx then Node(n.kind, idx, time, cur, kept, n.cur)
    else Node(n.kind, idx, time, cur, kept, kept)
  }

  /** The report loses part of the window: it is the first after midnight within two minutes, or the second minute
      on and more than 120 seconds later, and what should be shifted is not zero. */
  predicate Loses(n: Node, time: nat) {
    var m, m' := Minute(n.lastReport), Minute(time);
    || (m' == m + 1 && n.minIdx == 1439 && (n.cur != 0 || n.last != 0))
    || (m' == m + 2 && (n.minIdx >= 1438 || time > n.lastReport + 120) && n.cur != 0)
  }

  lemma IndexSteps(m: nat, k: nat)
    ensures k == 0 ==> (m + k) % 1440 == m % 1440
    ensures k == 1 ==> (m % 1440 + 1 == (m + k) % 1440 <==> m % 1440 != 1439) && (m + k) % 1440 != m % 1440
                       && m % 1440 + 2 != (m + k) % 1440
    ensures k == 2 ==> (m % 1440 + 2 == (m + k) % 1440 <==> m % 1440 < 1438) && (m + k) % 1440 != m % 1440
                       && m % 1440 + 1 != (m + k) % 1440
  {
  }

  /** The window survives a report exactly when it does not lose. */
  lemma WrittenExact(n: Node, h: seq<Report>, time: nat, v: nat)
    requires Window(n, h) && n.lastReport <= time && time + DAY < WRAP
    ensures Window(Written(n, time, v), h + [Report(time, v)]) <==> !Loses(n, time)
  {
    hide Summary;
    var m: int, m': int := Minute(n.lastReport), Minute(time);
    var h' := h + [Report(time, v)];
    SummariesAfter(n, h, time);
    SummaryAppend(n.kind, h, Report(time, v), m');
    SummaryAppend(n.kind, h, Report(time, v), m' - 1);
    SummaryAppend(n.kind, h, Report(time, v), m' - 2);
    IndexSteps(m, m' - m);
    assert Ordered(h') by {
      forall i | 0 <= i < |h| ensures h[i].time <= time { assert h[i].time <= h[|h| - 1].time; }
    }
    assert h'[|h'| - 1].time == time;
    assert (n.lastReport + 120) % WRAP == n.lastReport + 120;
    if m' >= m + 3 {
      assert time > n.lastReport + 120;
    } else if m' <= m + 1 {
      assert time <= n.lastReport + 120;
    }
  }

  // ----- writer and reader together -----

  /** The node after all reports `h`. */
  function NodeOf(kind: Kind, h: seq<Report>): Node
    requires |h| > 0
  {
    var n := |h| - 1;
    if n == 0 then Node(kind, DayMinute(h[0].time), h[0].time, h[0].value, 0, 0)
    else Written(NodeOf(kind, h[..n]), h[n].time, h[n].value)
  }

  lemma {:induction false} KindKept(kind: Kind, h: seq<Report>)
    requires |h| > 0
    ensures NodeOf(kind, h).kind == kind && NodeOf(kind, h).lastReport == h[|h| - 1].time
    ensures NodeOf(kind, h).minIdx == DayMinute(h[|h| - 1].time)
  {
    if |h| > 1 {
      KindKept(kind, h[..|h| - 1]);
    }
  }

  ghost predicate WindowAt(kind: Kind, h: seq<Report>, n: nat)
    requires 0 < n <= |h|
  {
    Window(NodeOf(kind, h[..n]), h[..n])
  }

  ghost predicate LossAt(kind: Kind, h: seq<Report>, k: nat)
    requires 0 < k < |h|
  {
    Loses(NodeOf(kind, h[..k]), h[k].time)
  }

  /** No report so far has lost anything. */
  ghost predicate LossFree(kind: Kind, h: seq<Report>) { forall k :: 0 < k < |h| ==> !LossAt(kind, h, k) }

  lemma SameBefore(kind: Kind, h: seq<Report>, n: nat)
    requires 0 < n < |h|
    ensures forall k :: 0 < k <= n ==> (WindowAt(kind, h[..n], k) <==> WindowAt(kind, h, k))
    ensures forall k :: 0 < k < n ==> (LossAt(kind, h[..n], k) <==> LossAt(kind, h, k))
  {
    hide Window, Loses, NodeOf;
    forall k | 0 < k <= n ensures WindowAt(kind, h[..n], k) <==> WindowAt(kind, h, k) {
      assert h[..n][..k] == h[..k];
    }
    forall k | 0 < k < n ensures LossAt(kind, h[..n], k) <==> LossAt(kind, h, k) {
      assert h[..n][..k] == h[..k] && h[..n][k] == h[k];
    }
  }

  lemma NextWindow(kind: Kind, h: seq<Report>, n: nat)
    requires kind != Total && Ordered(h) && 0 < n < |h| && h[n].time + DAY < WRAP && WindowAt(kind, h, n)
    ensures WindowAt(kind, h, n + 1) <==> !LossAt(kind, h, n)
  {
    hide Written, Loses, Summary, NodeOf;
    var g := h[..n];
    KindKept(kind, g);
    assert g[n - 1].time <= h[n].time;
    WrittenExact(NodeOf(kind, g), g, h[n].time, h[n].value);
    NodeStep(kind, h[..n + 1]);
    assert h[..n + 1][..n] == g && h[..n + 1] == g + [h[n]];
  }

  /** The counters are the window after every report exactly when no report loses. */
  lemma {:induction false} WindowThroughout(kind: Kind, h: seq<Report>)
    requires kind != Total && |h| > 0 && Ordered(h) && h[|h| - 1].time + DAY < WRAP
    ensures (forall n :: 0 < n <= |h| ==> WindowAt(kind, h, n)) <==> LossFree(kind, h)
  {
    hide WindowAt, LossAt;
    var n := |h| - 1;
    if n == 0 {
      FirstWindow(kind, h);
    } else {
      assert h[..n][n - 1].time <= h[n].time;
      WindowThroughout(kind, h[..n]);
      SameBefore(kind, h, n);
      if WindowAt(kind, h, n) {
        NextWindow(kind, h, n);
      } else {
        assert !WindowAt(kind, h[..n], n);
        var k :| 0 < k < n && LossAt(kind, h[..n], k);
        assert LossAt(kind, h, k);
      }
    }
  }

  lemma FirstWindow(kind: Kind, h: seq<Report>)
    requires kind != Total && |h| > 0
    ensures WindowAt(kind, h, 1)
  {
    OneReport(kind, h[0]);
    assert h[..1] == [h[0]];
  }

  lemma NodeStep(kind: Kind, h: seq<Report>)
    requires |h| > 1
    ensures NodeOf(kind, h) == Written(NodeOf(kind, h[..|h| - 1]), h[|h| - 1].time, h[|h| - 1].value)
  {
  }

  lemma OneReport(kind: Kind, r: Report)
    requires kind != Total
    ensures Window(NodeOf(kind, [r]), [r])
  {
    assert [r][..0] == [];
  }

  // ----- what a node holds after any history -----

  /** Report `k` comes in the minute after the last one of a day, which had reports: the shift to `last` is lost. */
  predicate DropsLast(kind: Kind, h: seq<Report>, k: nat)
    requires 0 < k < |h|
  {
    var m := Minute(h[k - 1].time);
    Minute(h[k].time) == m + 1 && m % 1440 == 1439 && Summary(kind, h[..k], m) != 0
  }

  /** Report `k` loses the shift to `pre`: at midnight, or two minutes on and more than 120 seconds later. */
  predicate DropsPre(kind: Kind, h: seq<Report>, k: nat)
    requires 0 < k < |h|
  {
    var m := Minute(h[k - 1].time);
    || (Minute(h[k].time) == m + 1 && m % 1440 == 1439 && Summary(kind, h[..k], m - 1) != 0)
    || (Minute(h[k].time) == m + 2 && (m % 1440 >= 1438 || h[k].time > h[k - 1].time + 120)
        && Summary(kind, h[..k], m) != 0)
  }

  predicate LastLost(kind: Kind, h: seq<Report>, m: int) {
    exists k :: 0 < k < |h| && Minute(h[k].time) == m && DropsLast(kind, h, k)
  }

  predicate PreLost(kind: Kind, h: seq<Report>, m: int) {
    exists k :: 0 < k < |h| && Minute(h[k].time) == m && DropsPre(kind, h, k)
  }

  /** What is missing in `pre` of a node last reported in minute `m`; losses before the last two minutes do not
      count. */
  predicate PreMissing(kind: Kind, h: seq<Report>, m: int) { PreLost(kind, h, m) || LastLost(kind, h, m - 1) }

  lemma LostAppend(kind: Kind, g: seq<Report>, r: Report, m: int)
    requires |g| > 0
    ensures LastLost(kind, g + [r], m) <==>
            LastLost(kind, g, m) || (Minute(r.time) == m && DropsLast(kind, g + [r], |g|))
    ensures PreLost(kind, g + [r], m) <==>
            PreLost(kind, g, m) || (Minute(r.time) == m && DropsPre(kind, g + [r], |g|))
  {
    hide Summary, Minute;
    var h := g + [r];
    forall k | 0 < k < |g|
      ensures h[k] == g[k] && (DropsLast(kind, h, k) <==> DropsLast(kind, g, k))
      ensures DropsPre(kind, h, k) <==> DropsPre(kind, g, k)
    {
      assert h[..k] == g[..k] && h[k - 1] == g[k - 1];
    }
  }

  /** Nothing is lost for a minute that has no report yet. */
  lemma NotYetLost(kind: Kind, h: seq<Report>, m: int)
    requires |h| > 0 && Ordered(h) && m > Minute(h[|h| - 1].time)
    ensures !LastLost(kind, h, m) && !PreLost(kind, h, m)
  {
    hide DropsLast, DropsPre;
    forall k | 0 < k < |h| ensures Minute(h[k].time) < m { assert h[k].time <= h[|h| - 1].time; }
  }

  lemma NothingAfter(kind: Kind, h: seq<Report>, m: int)
    requires |h| > 0 && Ordered(h) && m > Minute(h[|h| - 1].time)
    ensures Summary(kind, h, m) == 0
  {
    forall i | 0 <= i < |h| ensures Minute(h[i].time) < m { assert h[i].time <= h[|h| - 1].time; }
    SummaryLater(kind, h, m);
  }

  /** A loss in a minute comes from its first report, so it says that the minute before had reports, and the minute
      starts a day when it is `last` that is lost. */
  lemma LostMeans(kind: Kind, h: seq<Report>, m: int)
    requires LastLost(kind, h, m)
    ensures m % 1440 == 0
  {
    hide Summary;
    var k :| 0 < k < |h| && Minute(h[k].time) == m && DropsLast(kind, h, k);
    NextOfLast(Minute(h[k - 1].time));
  }

  lemma NextOfLast(m: nat)
    requires m % 1440 == 1439
    ensures (m + 1) % 1440 == 0
  {
  }

  /** The counters of a node are those of its history, with zeros for what was lost in the last two minutes. */
  ghost predicate Holds(n: Node, kind: Kind, h: seq<Report>) {
    && |h| > 0 && n.kind == kind && n.lastReport == h[|h| - 1].time && n.minIdx == DayMinute(n.lastReport)
    && var m := Minute(n.lastReport);
       && n.cur == Summary(kind, h, m)
       && n.last == (if LastLost(kind, h, m) then 0 else Summary(kind, h, m - 1))
       && n.pre == (if PreMissing(kind, h, m) then 0 else Summary(kind, h, m - 2))
  }

  lemma HoldsStep(n: Node, kind: Kind, g: seq<Report>, r: Report)
    requires kind != Total && Ordered(g + [r]) && Holds(n, kind, g) && r.time + DAY < WRAP
    ensures Holds(Written(n, r.time, r.value), kind, g + [r])
  {
    hide Summary, LastLost, PreLost;
    var h := g + [r];
    assert g == h[..|g|] && Ordered(g) && h[|g| - 1] == g[|g| - 1] && h[|g|] == r;
    assert g[|g| - 1].time <= r.time;
    var m: int, m': int := Minute(n.lastReport), Minute(r.time);
    SummaryAppend(kind, g, r, m');
    SummaryAppend(kind, g, r, m' - 1);
    SummaryAppend(kind, g, r, m' - 2);
    LostAppend(kind, g, r, m');
    LostAppend(kind, g, r, m' - 1);
    IndexSteps(m, m' - m);
    assert (n.lastReport + 120) % WRAP == n.lastReport + 120;
    if m' > m {
      NotYetLost(kind, g, m');
      NothingAfter(kind, g, m');
      if m' > m + 1 {
        NotYetLost(kind, g, m' - 1);
        NothingAfter(kind, g, m' - 1);
        if m' > m + 2 {
          NothingAfter(kind, g, m' - 2);
        }
      } else if LastLost(kind, g, m) {
        LostMeans(kind, g, m);
      }
    }
  }

  /** After every history of reports the node holds the summaries of its last three minutes, except for what the
      reports of the last two minutes lost. */
  lemma {:induction false} NodeHolds(kind: Kind, h: seq<Report>)
    requires kind != Total && |h| > 0 && Ordered(h) && h[|h| - 1].time + DAY < WRAP
    ensures Holds(NodeOf(kind, h), kind, h)
  {
    hide Written, Summary, LastLost, PreLost;
    var n := |h| - 1;
    if n == 0 {
      OneReport(kind, h[0]);
      assert h == [h[0]];
      NothingLost(kind, h);
    } else {
      var g := h[..n];
      assert h == g + [h[n]];
      assert g[n - 1].time <= h[n].time;
      NodeHolds(kind, g);
      HoldsStep(NodeOf(kind, g), kind, g, h[n]);
      NodeStep(kind, h);
    }
  }

  lemma NothingLost(kind: Kind, h: seq<Report>)
    requires |h| == 1
    ensures forall m :: !LastLost(kind, h, m) && !PreLost(kind, h, m)
  {
  }

  /** What is lost was not zero. */
  lemma {:induction false} LostWasThere(kind: Kind, h: seq<Report>, m: int)
    requires |h| > 0 && Ordered(h)
    ensures LastLost(kind, h, m) ==> Summary(kind, h, m - 1) != 0
    ensures PreLost(kind, h, m) ==> Summary(kind, h, m - 2) != 0
  {
    hide Summary, LastLost, PreLost;
    var n := |h| - 1;
    if n == 0 {
      NothingLost(kind, h);
    } else {
      var g := h[..n];
      assert h == g + [h[n]] && g[n - 1] == h[n - 1];
      LostWasThere(kind, g, m);
      LostAppend(kind, g, h[n], m);
      SummaryAppend(kind, g, h[n], m - 1);
      SummaryAppend(kind, g, h[n], m - 2);
      if LastLost(kind, g, m) || PreLost(kind, g, m) {
        LostIsPast(kind, g, m);
      }
      assert g[n - 1].time <= h[n].time;
    }
  }

  lemma LostIsPast(kind: Kind, h: seq<Report>, m: int)
    requires |h| > 0 && Ordered(h) && (LastLost(kind, h, m) || PreLost(kind, h, m))
    ensures m <= Minute(h[|h| - 1].time)
  {
    if m > Minute(h[|h| - 1].time) {
      NotYetLost(kind, h, m);
    }
  }

  /** The counters are the window over everything reported exactly when no report of the last minute lost the shift
      to `last` or to `pre` and no report of the minute before lost the shift to `last`. Earlier losses do not
      matter. */
  lemma WindowOverRuns(kind: Kind, h: seq<Report>)
    requires kind != Total && |h| > 0 && Ordered(h) && h[|h| - 1].time + DAY < WRAP
    ensures var m := Minute(h[|h| - 1].time);
            Window(NodeOf(kind, h), h) <==> !LastLost(kind, h, m) && !PreMissing(kind, h, m)
  {
    hide Summary, LastLost, PreLost, NodeOf;
    var m: int := Minute(h[|h| - 1].time);
    NodeHolds(kind, h);
    LostWasThere(kind, h, m);
    LostWasThere(kind, h, m - 1);
  }

  /** So for every history and every later check: the check reads exactly the last two full minutes of everything
      reported, exactly unless it runs in the minute of the last report or the minute after and what it needs was
      lost in these two minutes, or in the same minute of the next day and something of the two minutes before is
      left. */
  lemma CheckReadsReports(kind: Kind, h: seq<Report>, now: nat)
    requires kind != Total && |h| > 0 && Ordered(h) && h[|h| - 1].time <= now && now + DAY < WRAP
    ensures var n, m, c := NodeOf(kind, h), Minute(h[|h| - 1].time), Minute(now);
            Adapt(n, now) == (Summary(kind, h, c - 1), Summary(kind, h, c - 2)) <==>
            && (c == m ==> !LastLost(kind, h, m) && !PreMissing(kind, h, m))
            && (c == m + 1 ==> !LastLost(kind, h, m))
            && (SameMinuteNextDay(n, now) ==>
                  && (LastLost(kind, h, m) || Summary(kind, h, m - 1) == 0)
                  && (PreMissing(kind, h, m) || Summary(kind, h, m - 2) == 0))
  {
    hide Summary, LastLost, PreLost, NodeOf;
    var n, m: int, c := NodeOf(kind, h), Minute(h[|h| - 1].time), Minute(now);
    NodeHolds(kind, h);
    LostWasThere(kind, h, m);
    LostWasThere(kind, h, m - 1);
    assert (n.lastReport + DAY) % WRAP == n.lastReport + DAY;
    if c > m {
      NothingAfter(kind, h, c);
      if c > m + 1 {
        NothingAfter(kind, h, c - 1);
        if c > m + 2 {
          NothingAfter(kind, h, c - 2);
        }
      }
    }
    if now < n.lastReport + DAY {
      assert c - m <= 1440;
      DayMinutes(m, c - m);
    } else {
      assert c - m >= 1440;
    }
  }

  /** The last minute of a day is forgotten with the first report of the next: 5 reported at 23:59 and 7 at 00:00,
      checked at 00:01, reads 7 and 0. */
  lemma MidnightForgets()
    ensures var h := [Report(86340, 5), Report(86400, 7)];
            && Adapt(NodeOf(Sum, h), 86460) == (7, 0)
            && (Summary(Sum, h, Minute(86460) - 1), Summary(Sum, h, Minute(86460) - 2)) == (7, 5)
  {
    var h := [Report(86340, 5), Report(86400, 7)];
    assert h[..1] == [Report(86340, 5)];
    assert [Report(86340, 5)][..0] == [];
    assert NodeOf(Sum, h[..1]) == Node(Sum, 1439, 86340, 5, 0, 0);
    assert NodeOf(Sum, h) == Node(Sum, 0, 86400, 7, 0, 0);
    assert Summary(Sum, h[..1], 1439) == 5;
  }

  /** A node whose first minute of the day lost the minute before midnight is right again two minutes later. */
  lemma Recovers(v: nat, w: nat)
    requires 0 < v < WRAP && w < WRAP
    ensures var h := [Report(86340, v), Report(86400, w), Report(86460, w), Report(86520, w)];
            !LossFree(Sum, h) && Window(NodeOf(Sum, h), h)
  {
    var h := [Report(86340, v), Report(86400, w), Report(86460, w), Report(86520, w)];
    assert LossAt(Sum, h, 1) by {
      assert h[..1] == [Report(86340, v)] && h[..1][..0] == [];
    }
    forall k | 0 < k < 4 && Minute(h[k].time) >= 1441 ensures !DropsLast(Sum, h, k) && !DropsPre(Sum, h, k) {
      assert k == 2 || k == 3;
    }
    WindowOverRuns(Sum, h);
  }

  /** A check twenty seconds short of a day after the last report reads a counter of the day before. */
  lemma StaleNextDay()
    ensures var h := [Report(59, 5), Report(119, 7)];
            var n := NodeOf(Sum, h);
            && SameMinuteNextDay(n, 86499) && Adapt(n, 86499) == (5, 0)
            && (Summary(Sum, h, Minute(86499) - 1), Summary(Sum, h, Minute(86499) - 2)) == (0, 0)
  {
    var h := [Report(59, 5), Report(119, 7)];
    assert h[..1] == [Report(59, 5)] && h[..1][..0] == [];
    assert NodeOf(Sum, h[..1]) == Node(Sum, 0, 59, 5, 0, 0);
    assert NodeOf(Sum, h) == Node(Sum, 1, 119, 7, 5, 0);
    NothingAfter(Sum, h, 1440);
    NothingAfter(Sum, h, 1439);
  }

  // ----- what a summary is -----

  /** The values reported in minute `m`, in order. */
  function Values(h: seq<Report>, m: int): seq<nat> {
    if |h| == 0 then []
    else
      var n := |h| - 1;
      Values(h[..n], m) + (if Minute(h[n].time) == m then [h[n].value] else [])
  }

  function SumOf(vs: seq<nat>): nat { if |vs| == 0 then 0 else SumOf(vs[..|vs| - 1]) + vs[|vs| - 1] }

  /** `v` is the sum mod 2^32, the least, the greatest or the latest of some values. */
  predicate Summarises(kind: Kind, v: nat, vs: seq<nat>)
    requires |vs| > 0
  {
    match kind
    case Min => v in vs && forall i :: 0 <= i < |vs| ==> v <= vs[i]
    case Max => v in vs && forall i :: 0 <= i < |vs| ==> v >= vs[i]
    case Latest => v == vs[|vs| - 1]
    case _ => v == SumOf(vs) % WRAP
  }

  lemma OneValue(kind: Kind, v: nat)
    requires v < WRAP
    ensures Summarises(kind, v, [v])
  {
    assert [v][..0] == [];
  }

  lemma CombineSummarises(kind: Kind, cur: nat, vs: seq<nat>, v: nat)
    requires |vs| > 0 && Summarises(kind, cur, vs)
    ensures Summarises(kind, Combine(kind, cur, v), vs + [v])
  {
    assert (vs + [v])[..|vs|] == vs && (vs + [v])[|vs|] == v;
    if kind == Sum || kind == Total {
      AddMod(SumOf(vs), v);
    }
  }

  /** Values of a minute are reported one after another. */
  lemma {:induction false} ValuesThere(h: seq<Report>, m: int)
    requires Ordered(h)
    ensures |Values(h, m)| > 0 ==> |h| > 0 && m <= Minute(h[|h| - 1].time)
    ensures |h| > 0 && Minute(h[|h| - 1].time) == m ==> |Values(h, m)| > 0
    ensures |h| > 0 && Minute(h[|h| - 1].time) < m ==> |Values(h, m)| == 0
  {
    if |h| > 1 {
      ValuesThere(h[..|h| - 1], m);
      assert h[|h| - 2].time <= h[|h| - 1].time;
    } else if |h| == 1 {
      assert Values(h[..0], m) == [];
    } else {
      assert Values(h, m) == [];
    }
  }

  /** The summary of a minute is 0 without reports, else the sum mod 2^32, the least, the greatest or the latest of its
      values. */
  lemma {:induction false} SummaryIs(kind: Kind, h: seq<Report>, m: int)
    requires Ordered(h) && forall i :: 0 <= i < |h| ==> h[i].value < WRAP
    ensures var vs := Values(h, m);
            if |vs| == 0 then Summary(kind, h, m) == 0 else Summarises(kind, Summary(kind, h, m), vs)
  {
    hide Combine, Summarises;
    if |h| > 0 {
      var n := |h| - 1;
      var g := h[..n];
      SummaryIs(kind, g, m);
      ValuesThere(g, m);
      if Minute(h[n].time) == m {
        if n > 0 {
          assert g[n - 1].time <= h[n].time;
        }
        if |Values(g, m)| == 0 {
          OneValue(kind, h[n].value);
          assert Values(h, m) == [h[n].value];
        } else {
          CombineSummarises(kind, Summary(kind, g, m), Values(g, m), h[n].value);
        }
      } else {
        assert Values(h, m) == Values(g, m);
      }
    }
  }

  // ----- attributes that add up over all time -----

  /** The sum of everything reported up to minute `m`. */
  function SumUpTo(h: seq<Report>, m: int): nat {
    if |h| == 0 then 0
    else
      var n := |h| - 1;
      SumUpTo(h[..n], m) + (if Minute(h[n].time) <= m then h[n].value else 0)
  }

  lemma SumAppend(g: seq<Report>, r: Report, m: int)
    ensures SumUpTo(g + [r], m) == SumUpTo(g, m) + (if Minute(r.time) <= m then r.value else 0)
  {
    assert (g + [r])[..|g|] == g;
  }

  lemma {:induction false} SumSettled(h: seq<Report>, m: int, m': int)
    requires Ordered(h) && |h| > 0 && Minute(h[|h| - 1].time) <= m <= m'
    ensures SumUpTo(h, m) == SumUpTo(h, m')
  {
    var n := |h| - 1;
    if n > 0 {
      assert h[n - 1].time <= h[n].time;
      SumSettled(h[..n], m, m');
    }
  }

  /** The minute of the last report began with a report that came right after one of the last minute of a day. */
  predicate CrossedMidnight(h: seq<Report>)
    requires |h| > 0
  {
    if |h| == 1 then false
    else
      var m, m' := Minute(h[|h| - 2].time), Minute(h[|h| - 1].time);
      if m' == m then CrossedMidnight(h[..|h| - 1]) else m' == m + 1 && m % 1440 == 1439
  }

  ghost predicate HoldsTotals(n: Node, h: seq<Report>) {
    && |h| > 0 && n.kind == Total && n.lastReport == h[|h| - 1].time && n.minIdx == DayMinute(n.lastReport)
    && var m := Minute(n.lastReport);
       && n.cur == SumUpTo(h, m) % WRAP && n.last == SumUpTo(h, m - 1) % WRAP
       && n.pre == SumUpTo(h, if CrossedMidnight(h) then m - 1 else m - 2) % WRAP
  }

  lemma TotalsStep(n: Node, g: seq<Report>, r: Report)
    requires Ordered(g + [r]) && HoldsTotals(n, g) && r.time + DAY < WRAP
    ensures HoldsTotals(Written(n, r.time, r.value), g + [r])
  {
    hide SumUpTo;
    var h := g + [r];
    assert h[|g| - 1] == g[|g| - 1] && h[|g|] == r && h[..|g|] == g;
    assert g[|g| - 1].time <= r.time;
    assert Ordered(g) by { assert forall i :: 0 <= i < |g| ==> g[i] == h[i]; }
    var m: int, m': int := Minute(n.lastReport), Minute(r.time);
    SumAppend(g, r, m');
    SumAppend(g, r, m' - 1);
    SumAppend(g, r, m' - 2);
    AddMod(SumUpTo(g, m), r.value);
    IndexSteps(m, m' - m);
    assert (n.lastReport + 120) % WRAP == n.lastReport + 120;
    SumSettled(g, m, m');
    if m' > m {
      SumSettled(g, m, m' - 1);
      if m' > m + 1 {
        SumSettled(g, m, m' - 2);
      }
    }
  }

  /** A node of such an attribute holds the sum of everything up to the minute of the last report, up to the minute
      before, and up to the minute before that, except that in the first minute of a day after a report of the last one
      the third is the second. */
  lemma {:induction false} NodeHoldsTotals(h: seq<Report>)
    requires |h| > 0 && Ordered(h) && h[|h| - 1].time + DAY < WRAP && h[0].value < WRAP
    ensures HoldsTotals(NodeOf(Total, h), h)
  {
    hide Written, SumUpTo;
    var n := |h| - 1;
    if n == 0 {
      FirstTotals(h);
    } else {
      var g := h[..n];
      assert h == g + [h[n]];
      assert g[n - 1].time <= h[n].time;
      NodeHoldsTotals(g);
      TotalsStep(NodeOf(Total, g), g, h[n]);
      NodeStep(Total, h);
    }
  }

  lemma FirstTotals(h: seq<Report>)
    requires |h| == 1 && h[0].value < WRAP
    ensures HoldsTotals(NodeOf(Total, h), h)
  {
    assert h[..0] == [];
    assert forall m :: SumUpTo(h[..0], m) == 0;
  }

  lemma {:induction false} SumGrows(h: seq<Report>, m: int, m': int)
    requires m <= m'
    ensures SumUpTo(h, m) <= SumUpTo(h, m')
  {
    if |h| > 0 {
      SumGrows(h[..|h| - 1], m, m');
    }
  }

  /** What the check reads of it, at any time and as long as the sum fits: everything up to the minute before the last
      report, and as the value before that what the node holds. Reports of the last minute are never in it. */
  lemma TotalReads(h: seq<Report>, now: nat)
    requires |h| > 0 && Ordered(h) && h[|h| - 1].time + DAY < WRAP && h[0].value < WRAP
    requires SumUpTo(h, Minute(h[|h| - 1].time)) < WRAP
    ensures var m := Minute(h[|h| - 1].time);
            Adapt(NodeOf(Total, h), now) ==
            (SumUpTo(h, m - 1), SumUpTo(h, if CrossedMidnight(h) then m - 1 else m - 2))
  {
    hide SumUpTo, NodeOf, CrossedMidnight;
    var m: int := Minute(h[|h| - 1].time);
    NodeHoldsTotals(h);
    SumGrows(h, m - 2, m - 1);
    SumGrows(h, m - 1, m);
  }
}
