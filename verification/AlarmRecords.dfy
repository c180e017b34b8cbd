/** Merging of triggers into open alarm records (table mt_warn_info) and the users' status changes. */
module AlarmRecords {
  import opened Word32

  /** An unsigned 32-bit sum. */
  function Sum32(a: nat, b: nat): nat { (a + b) % WRAP }

  /** WARN_DEAL_STATUS_NONE, _DO, _OK and _MASK. */
  datatype Status = Undealt | Dealing | Done | Masked

  /** What makes two triggers the same alarm; the flag is without its mask bit. */
  datatype Key = Key(warnId: int, attrId: int, flag: int)

  /** A row of mt_warn_info; the row at index i has wid i + 1. */
  datatype Row = Row(key: Key, warnTime: nat, lastTime: nat, times: nat, status: Status, startDeal: nat, value: nat)

  datatype Trigger = Trigger(key: Key, masked: bool, value: nat)

  /** A processed trigger, the row it went to and the time. */
  datatype Processed = Processed(trigger: Trigger, row: nat, time: nat)

  /** A warning handed to the send ring: the row and the trigger it came from. */
  datatype Send = Send(row: nat, cause: nat)

  /** `quiet` is WARN_DEAL_TIME_SEC. */
  datatype State = State(clock: nat, quiet: nat, rows: seq<Row>, log: seq<Processed>, sends: seq<Send>)

  // ----- one trigger -----

  predicate Open(r: Row, key: Key) { r.key == key && r.status != Done }

  /** A row the select may return: open, same alarm, no open row of the alarm was created later. */
  predicate Picked(rows: seq<Row>, key: Key, i: nat) {
    && i < |rows| && Open(rows[i], key)
    && forall k :: 0 <= k < |rows| && Open(rows[k], key) ==> rows[k].warnTime <= rows[i].warnTime
  }

  /** The answer of the select; the number of rows stands for an empty answer. */
  predicate Answer(rows: seq<Row>, key: Key, i: nat) {
    if exists k :: 0 <= k < |rows| && Open(rows[k], key) then Picked(rows, key, i) else i == |rows|
  }

  predicate Recent(r: Row, now: nat) { Sum32(r.lastTime, DAY) >= now }

  predicate Announces(s: State, r: Row) {
    r.status == Undealt || (r.status == Dealing && Sum32(r.startDeal, s.quiet) < s.clock)
  }

  function StatusFor(masked: bool): Status { if masked then Masked else Undealt }

  function Merged(r: Row, t: Trigger, now: nat): Row {
    r.(times := r.times + 1, lastTime := now, value := t.value,
       status := if t.masked != (r.status == Masked) then StatusFor(t.masked) else r.status)
  }

  function Opened(t: Trigger, now: nat): Row { Row(t.key, now, now, 1, StatusFor(t.masked), 0, t.value) }

  /** One pass of the loop over the triggers, when the select answered `i`. */
  function Process(s: State, t: Trigger, i: nat): State
    requires i <= |s.rows|
  {
    var merges := i < |s.rows| && Recent(s.rows[i], s.clock);
    var row := if merges then i else |s.rows|;
    var sends := !t.masked && (merges ==> Announces(s, s.rows[i]));
    s.(rows := if merges then s.rows[i := Merged(s.rows[i], t, s.clock)] else s.rows + [Opened(t, s.clock)],
       log := s.log + [Processed(t, row, s.clock)],
       sends := if sends then s.sends + [Send(row, |s.log|)] else s.sends)
  }

  /** `DealMultiWarns`: the chosen rows that stand one status before `to` move to it. */
  function Dealt(r: Row, chosen: bool, to: Status, now: nat): Row {
    if chosen && to == Dealing && r.status == Undealt then r.(status := Dealing, startDeal := now)
    else if chosen && to == Done && r.status == Dealing then r.(status := Done)
    else r
  }

  function Deal(s: State, wids: set<nat>, to: Status): State {
    s.(rows := seq(|s.rows|, i requires 0 <= i < |s.rows| => Dealt(s.rows[i], i + 1 in wids, to, s.clock)))
  }

  // ----- the invariant -----

  /** Of two open rows of one alarm the later one was created a day after the earlier one was last hit. */
  ghost predicate Spaced(rows: seq<Row>) {
    forall i, j ::
      0 <= i < j < |rows| && rows[i].key == rows[j].key && rows[i].status != Done && rows[j].status != Done ==>
      rows[i].lastTime + DAY < rows[j].warnTime
  }

  ghost predicate Timed(rows: seq<Row>, clock: nat) {
    forall i :: 0 <= i < |rows| ==> rows[i].warnTime <= rows[i].lastTime <= clock && rows[i].startDeal <= clock
  }

  function SumTimes(rows: seq<Row>, key: Key): nat {
    if |rows| == 0 then 0
    else
      var n := |rows| - 1;
      SumTimes(rows[..n], key) + (if rows[n].key == key then rows[n].times else 0)
  }

  function Hits(log: seq<Processed>, key: Key): nat {
    if |log| == 0 then 0
    else
      var n := |log| - 1;
      Hits(log[..n], key) + (if log[n].trigger.key == key then 1 else 0)
  }

  ghost predicate Counted(s: State) { forall key :: SumTimes(s.rows, key) == Hits(s.log, key) }

  /** Whether the last trigger that went to row `i` was masked. */
  function LastMasked(log: seq<Processed>, i: nat): bool {
    if |log| == 0 then false
    else
      var n := |log| - 1;
      if log[n].row == i then log[n].trigger.masked else LastMasked(log[..n], i)
  }

  /** A row is masked exactly while the last trigger that went to it was. */
  ghost predicate MaskFollows(s: State) {
    && (forall i :: 0 <= i < |s.rows| ==> (s.rows[i].status == Masked <==> LastMasked(s.log, i)))
    && (forall n :: 0 <= n < |s.log| ==> s.log[n].row < |s.rows|)
  }

  /** Sends come from unmasked triggers of the row they announce, and each trigger sends at most once. */
  ghost predicate SendsFit(s: State) {
    && (forall k :: 0 <= k < |s.sends| ==>
          var Send(row, cause) := s.sends[k];
          cause < |s.log| && s.log[cause].row == row && !s.log[cause].trigger.masked)
    && (forall k, l :: 0 <= k < l < |s.sends| ==> s.sends[k].cause < s.sends[l].cause)
  }

  /** The last and the first log entry of row `i`, -1 for none. */
  function LastOf(log: seq<Processed>, i: nat): (n: int)
    ensures -1 <= n < |log| && (n >= 0 ==> log[n].row == i)
  {
    if |log| == 0 then -1
    else if log[|log| - 1].row == i then |log| - 1 else LastOf(log[..|log| - 1], i)
  }

  function FirstOf(log: seq<Processed>, i: nat): (n: int)
    ensures -1 <= n < |log| && (n >= 0 ==> log[n].row == i)
  {
    if |log| == 0 then -1
    else
      var n := FirstOf(log[..|log| - 1], i);
      if n >= 0 then n else if log[|log| - 1].row == i then |log| - 1 else -1
  }

  /** A row tells the time of its first trigger, and the time and the value of its last. */
  ghost predicate RowFollows(log: seq<Processed>, r: Row, i: nat) {
    && FirstOf(log, i) >= 0 && r.warnTime == log[FirstOf(log, i)].time
    && LastOf(log, i) >= 0 && r.lastTime == log[LastOf(log, i)].time && r.value == log[LastOf(log, i)].trigger.value
  }

  ghost predicate Follows(s: State) {
    && (forall i :: 0 <= i < |s.rows| ==> RowFollows(s.log, s.rows[i], i))
    && (forall n :: 0 <= n < |s.log| ==> s.log[n].row < |s.rows| && s.log[n].trigger.key == s.rows[s.log[n].row].key)
  }

  /** Trigger `n` was handed to the ring. */
  ghost predicate Caused(sends: seq<Send>, n: int) { exists k :: 0 <= k < |sends| && sends[k].cause == n }

  /** An unmasked trigger that opens a record is handed to the ring. */
  ghost predicate Announced(s: State) {
    forall n :: 0 <= n < |s.log| && FirstOf(s.log, s.log[n].row) == n && !s.log[n].trigger.masked ==> Caused(s.sends, n)
  }

  ghost predicate Inv(s: State) {
    && s.clock + DAY < WRAP && s.clock + s.quiet < WRAP
    && Spaced(s.rows) && Timed(s.rows, s.clock) && Counted(s) && MaskFollows(s) && SendsFit(s)
    && Follows(s) && Announced(s)
  }

  // ----- a trigger keeps it -----

  lemma RecentExact(r: Row, now: nat)
    requires r.lastTime <= now && now + DAY < WRAP
    ensures Recent(r, now) <==> r.lastTime + DAY >= now
  {
  }

  /** The row the select answers is the last open one of its alarm. */
  lemma PickedIsLast(rows: seq<Row>, clock: nat, key: Key, i: nat, k: nat)
    requires Spaced(rows) && Timed(rows, clock) && Picked(rows, key, i) && k < |rows| && Open(rows[k], key)
    ensures k <= i && (k < i ==> rows[k].lastTime + DAY < rows[i].warnTime)
  {
  }

  lemma MergeSpaced(rows: seq<Row>, clock: nat, t: Trigger, i: nat)
    requires Spaced(rows) && Timed(rows, clock) && Picked(rows, t.key, i)
    ensures Spaced(rows[i := Merged(rows[i], t, clock)]) && Timed(rows[i := Merged(rows[i], t, clock)], clock)
  {
    forall k | i < k < |rows| ensures !Open(rows[k], t.key) {
      if Open(rows[k], t.key) {
        PickedIsLast(rows, clock, t.key, i, k);
      }
    }
  }

  lemma InsertSpaced(rows: seq<Row>, clock: nat, t: Trigger, i: nat)
    requires Spaced(rows) && Timed(rows, clock) && Answer(rows, t.key, i) && clock + DAY < WRAP
    requires i < |rows| ==> !Recent(rows[i], clock)
    ensures Spaced(rows + [Opened(t, clock)]) && Timed(rows + [Opened(t, clock)], clock)
  {
    forall k | 0 <= k < |rows| && Open(rows[k], t.key) ensures rows[k].lastTime + DAY < clock {
      RecentExact(rows[i], clock);
      PickedIsLast(rows, clock, t.key, i, k);
    }
  }

  lemma {:induction false} SumTimesUpdate(rows: seq<Row>, i: nat, r: Row, key: Key)
    requires i < |rows| && r.key == rows[i].key
    ensures SumTimes(rows[i := r], key) ==
            SumTimes(rows, key) + (if r.key == key then r.times - rows[i].times else 0)
  {
    var n := |rows| - 1;
    if i == n {
      assert rows[i := r][..n] == rows[..n];
    } else {
      assert rows[i := r][..n] == rows[..n][i := r];
      SumTimesUpdate(rows[..n], i, r, key);
    }
  }

  lemma ProcessCounted(s: State, t: Trigger, i: nat)
    requires Counted(s) && Answer(s.rows, t.key, i)
    ensures Counted(Process(s, t, i))
  {
    hide Picked, SumTimes, Hits, Sum32;
    AnswerFits(s.rows, t.key, i);
    var s' := Process(s, t, i);
    forall key ensures SumTimes(s'.rows, key) == Hits(s'.log, key) {
      HitsAppend(s.log, s'.log[|s.log|], key);
      if i < |s.rows| && Recent(s.rows[i], s.clock) {
        SumTimesUpdate(s.rows, i, Merged(s.rows[i], t, s.clock), key);
      } else {
        SumTimesAppend(s.rows, Opened(t, s.clock), key);
      }
      assert SumTimes(s.rows, key) == Hits(s.log, key);
    }
  }

  lemma AnswerFits(rows: seq<Row>, key: Key, i: nat)
    requires Answer(rows, key, i)
    ensures i <= |rows| && (i < |rows| ==> rows[i].key == key && Picked(rows, key, i))
  {
  }

  lemma HitsAppend(log: seq<Processed>, p: Processed, key: Key)
    ensures Hits(log + [p], key) == Hits(log, key) + (if p.trigger.key == key then 1 else 0)
  {
    assert (log + [p])[..|log|] == log;
  }

  lemma SumTimesAppend(rows: seq<Row>, r: Row, key: Key)
    ensures SumTimes(rows + [r], key) == SumTimes(rows, key) + (if r.key == key then r.times else 0)
  {
    assert (rows + [r])[..|rows|] == rows;
  }

  lemma LastMaskedAppend(log: seq<Processed>, p: Processed, i: nat)
    ensures LastMasked(log + [p], i) == if p.row == i then p.trigger.masked else LastMasked(log, i)
  {
    assert (log + [p])[..|log|] == log;
  }

  lemma ProcessMask(s: State, t: Trigger, i: nat)
    requires MaskFollows(s) && Answer(s.rows, t.key, i)
    ensures MaskFollows(Process(s, t, i))
  {
    hide Picked, LastMasked, Sum32, Recent;
    AnswerFits(s.rows, t.key, i);
    var s' := Process(s, t, i);
    forall k | 0 <= k < |s'.rows| ensures s'.rows[k].status == Masked <==> LastMasked(s'.log, k) {
      LastMaskedAppend(s.log, s'.log[|s.log|], k);
    }
  }

  lemma ProcessSends(s: State, t: Trigger, i: nat)
    requires SendsFit(s) && i <= |s.rows|
    ensures SendsFit(Process(s, t, i))
  {
    hide Sum32, Recent, Announces;
    var s' := Process(s, t, i);
    forall k | 0 <= k < |s'.sends|
      ensures s'.sends[k].cause < |s'.log| && s'.log[s'.sends[k].cause].row == s'.sends[k].row
              && !s'.log[s'.sends[k].cause].trigger.masked
    {
      if k < |s.sends| {
        assert s'.sends[k] == s.sends[k];
      }
    }
  }

  lemma EntryAppend(log: seq<Processed>, p: Processed, i: nat)
    ensures LastOf(log + [p], i) == if p.row == i then |log| else LastOf(log, i)
    ensures FirstOf(log + [p], i) == if FirstOf(log, i) >= 0 || p.row != i then FirstOf(log, i) else |log|
  {
    assert (log + [p])[..|log|] == log;
  }

  lemma {:induction false} NoEntry(log: seq<Processed>, i: nat)
    requires forall n :: 0 <= n < |log| ==> log[n].row != i
    ensures FirstOf(log, i) == -1
  {
    if |log| > 0 {
      NoEntry(log[..|log| - 1], i);
    }
  }

  lemma ProcessFollows(s: State, t: Trigger, i: nat)
    requires Follows(s) && Answer(s.rows, t.key, i)
    ensures Follows(Process(s, t, i))
  {
    hide Picked, LastOf, FirstOf, Sum32, Recent, Announces;
    AnswerFits(s.rows, t.key, i);
    var s' := Process(s, t, i);
    var p := s'.log[|s.log|];
    if p.row == |s.rows| {
      NoEntry(s.log, |s.rows|);
    }
    forall k | 0 <= k < |s'.rows| ensures RowFollows(s'.log, s'.rows[k], k) {
      EntryAppend(s.log, p, k);
      if k < |s.rows| {
        assert RowFollows(s.log, s.rows[k], k);
      }
    }
  }

  lemma ProcessAnnounced(s: State, t: Trigger, i: nat)
    requires Announced(s) && Follows(s) && Answer(s.rows, t.key, i)
    ensures Announced(Process(s, t, i))
  {
    hide Picked, LastOf, FirstOf, Sum32, Recent, Announces;
    AnswerFits(s.rows, t.key, i);
    var s' := Process(s, t, i);
    var p := s'.log[|s.log|];
    if p.row < |s.rows| {
      assert RowFollows(s.log, s.rows[p.row], p.row);
    }
    forall n | 0 <= n < |s'.log| && FirstOf(s'.log, s'.log[n].row) == n && !s'.log[n].trigger.masked
      ensures Caused(s'.sends, n)
    {
      EntryAppend(s.log, p, s'.log[n].row);
      if n < |s.log| {
        assert s'.log[n] == s.log[n] && Caused(s.sends, n);
        CausedKept(s.sends, s'.sends, n);
      } else {
        assert s'.sends[|s.sends|].cause == n;
      }
    }
  }

  lemma CausedKept(a: seq<Send>, b: seq<Send>, n: int)
    requires Caused(a, n) && a <= b
    ensures Caused(b, n)
  {
    var k :| 0 <= k < |a| && a[k].cause == n;
    assert b[k].cause == n;
  }

  lemma ProcessKeeps(s: State, t: Trigger, i: nat)
    requires Inv(s) && Answer(s.rows, t.key, i)
    ensures Inv(Process(s, t, i))
  {
    hide Spaced, Timed, Counted, MaskFollows, SendsFit, Follows, Announced, Picked, Answer;
    AnswerFits(s.rows, t.key, i);
    ProcessFollows(s, t, i);
    ProcessAnnounced(s, t, i);
    ProcessCounted(s, t, i);
    ProcessMask(s, t, i);
    ProcessSends(s, t, i);
    if i < |s.rows| && Recent(s.rows[i], s.clock) {
      MergeSpaced(s.rows, s.clock, t, i);
    } else {
      InsertSpaced(s.rows, s.clock, t, i);
    }
  }

  // ----- so do users and time -----

  lemma {:induction false} SumTimesSame(a: seq<Row>, b: seq<Row>, key: Key)
    requires |a| == |b| && forall i :: 0 <= i < |a| ==> a[i].key == b[i].key && a[i].times == b[i].times
    ensures SumTimes(a, key) == SumTimes(b, key)
  {
    if |a| > 0 {
      SumTimesSame(a[..|a| - 1], b[..|b| - 1], key);
    }
  }

  lemma DealKeeps(s: State, wids: set<nat>, to: Status)
    requires Inv(s)
    ensures Inv(Deal(s, wids, to))
  {
    hide SumTimes, Hits, LastMasked, Sum32, FirstOf, LastOf, Caused;
    var s' := Deal(s, wids, to);
    forall i | 0 <= i < |s'.rows| ensures RowFollows(s'.log, s'.rows[i], i) {
      assert RowFollows(s.log, s.rows[i], i);
    }
    forall key ensures SumTimes(s'.rows, key) == Hits(s'.log, key) {
      SumTimesSame(s.rows, s'.rows, key);
    }
  }

  /** Time passes, a trigger is processed on some answer of the select, users change statuses. */
  datatype Action = Tick(dt: nat) | Hit(t: Trigger, answer: nat) | UserDeals(wids: set<nat>, to: Status)

  predicate Enabled(s: State, a: Action) {
    match a
    case Tick(dt) => s.clock + dt + DAY < WRAP && s.clock + dt + s.quiet < WRAP
    case Hit(t, answer) => Answer(s.rows, t.key, answer)
    case UserDeals(_, _) => true
  }

  function Apply(s: State, a: Action): State
    requires Enabled(s, a)
  {
    match a
    case Tick(dt) => s.(clock := s.clock + dt)
    case Hit(t, answer) => AnswerFits(s.rows, t.key, answer); Process(s, t, answer)
    case UserDeals(wids, to) => Deal(s, wids, to)
  }

  /** `r` is a state some run from `s` with the actions `run` ends in. */
  predicate RunsTo(s: State, run: seq<Action>, r: State)
    decreases |run|
  {
    if |run| == 0 then r == s else Enabled(s, run[0]) && RunsTo(Apply(s, run[0]), run[1..], r)
  }

  lemma StepKeeps(s: State, a: Action)
    requires Inv(s) && Enabled(s, a)
    ensures Inv(Apply(s, a))
  {
    match a
    case Tick(_) => hide SumTimes, Hits, LastMasked, FirstOf, LastOf, Caused, RowFollows;
    case Hit(t, answer) => hide Inv; ProcessKeeps(s, t, answer);
    case UserDeals(wids, to) => hide Inv; DealKeeps(s, wids, to);
  }

  lemma {:induction false} RunKeeps(s: State, run: seq<Action>, r: State)
    requires Inv(s) && RunsTo(s, run, r)
    ensures Inv(r)
    decreases |run|
  {
    if |run| > 0 {
      hide Inv, Apply, Enabled;
      StepKeeps(s, run[0]);
      RunKeeps(Apply(s, run[0]), run[1..], r);
    }
  }

  function Start(clock: nat, quiet: nat): State { State(clock, quiet, [], [], []) }

  /** Open rows of one alarm that were hit within the last 24 hours. */
  predicate OpenAndRecent(s: State, key: Key, i: nat) {
    i < |s.rows| && Open(s.rows[i], key) && s.rows[i].lastTime + DAY >= s.clock
  }

  /** Over every run of triggers and status changes from an empty table, whatever the select answers on ties:
      an alarm has at most one open record hit in the last 24 hours, its records' `warn_times` add up to its
      triggers, its mask status, time and value are those of its last trigger, no masked trigger was handed to the
      ring, and every unmasked trigger that opened a record was, once. */
  lemma EveryRun(clock: nat, quiet: nat, run: seq<Action>, s: State)
    requires clock + DAY < WRAP && clock + quiet < WRAP && RunsTo(Start(clock, quiet), run, s)
    ensures forall key, i: nat, j: nat :: OpenAndRecent(s, key, i) && OpenAndRecent(s, key, j) ==> i == j
    ensures forall key :: SumTimes(s.rows, key) == Hits(s.log, key)
    ensures MaskFollows(s) && SendsFit(s) && Follows(s) && Announced(s)
  {
    hide SumTimes, Hits, RunsTo, Follows, Announced;
    assert Inv(Start(clock, quiet)) by { StartInv(clock, quiet); }
    RunKeeps(Start(clock, quiet), run, s);
    forall key, i: nat, j: nat | OpenAndRecent(s, key, i) && OpenAndRecent(s, key, j) ensures i == j {
      OnlyOneRecent(s, key, i, j);
    }
  }

  lemma OnlyOneRecent(s: State, key: Key, i: nat, j: nat)
    requires Inv(s) && OpenAndRecent(s, key, i) && OpenAndRecent(s, key, j)
    ensures i == j
  {
    hide Counted, MaskFollows, SendsFit, Follows, Announced;
  }

  lemma StartInv(clock: nat, quiet: nat)
    requires clock + DAY < WRAP && clock + quiet < WRAP
    ensures Inv(Start(clock, quiet))
  {
  }

  // ----- when an alarm is announced -----

  lemma {:induction false} RunsSplit(s: State, run: seq<Action>, r: State) returns (q: State)
    requires |run| > 0 && RunsTo(s, run, r)
    ensures RunsTo(s, run[..|run| - 1], q) && Enabled(q, run[|run| - 1]) && r == Apply(q, run[|run| - 1])
    decreases |run|
  {
    hide Apply, Enabled;
    var n := |run| - 1;
    if n == 0 {
      q := s;
    } else {
      q := RunsSplit(Apply(s, run[0]), run[1..], r);
      assert run[1..][..n - 1] == run[..n][1..];
    }
  }

  /** Where a trigger goes: to the record of its alarm that is open and was hit in the last 24 hours, else to a new
      one. */
  lemma HitGoes(s: State, t: Trigger, i: nat)
    requires Inv(s) && Answer(s.rows, t.key, i) && i <= |s.rows|
    ensures var p := Process(s, t, i).log[|s.log|];
            && p.trigger == t && p.time == s.clock
            && (if p.row < |s.rows| then OpenAndRecent(s, t.key, p.row)
                else p.row == |s.rows| && forall k: nat :: !OpenAndRecent(s, t.key, k))
  {
    hide Counted, MaskFollows, SendsFit, Follows, Announced;
    AnswerFits(s.rows, t.key, i);
    if i < |s.rows| {
      RecentExact(s.rows[i], s.clock);
    }
    forall k: nat | OpenAndRecent(s, t.key, k) ensures i < |s.rows| && Recent(s.rows[i], s.clock) {
      PickedIsLast(s.rows, s.clock, t.key, i, k);
    }
  }

  /** What a trigger leaves in its record: a new one with one hit, or the old one with one hit more, the new time and
      value, and a status that only masking or unmasking changes. No other record changes. */
  lemma HitRecord(s: State, t: Trigger, i: nat)
    requires i <= |s.rows|
    ensures var s' := Process(s, t, i);
            var row := s'.log[|s.log|].row;
            && row < |s'.rows| && (forall k :: 0 <= k < |s.rows| && k != row ==> s'.rows[k] == s.rows[k])
            && (row == |s.rows| ==>
                  && |s'.rows| == |s.rows| + 1
                  && s'.rows[row] == Row(t.key, s.clock, s.clock, 1, if t.masked then Masked else Undealt, 0, t.value))
            && (row < |s.rows| ==>
                  var r := s.rows[row];
                  && |s'.rows| == |s.rows|
                  && s'.rows[row] == Row(r.key, r.warnTime, s.clock, r.times + 1,
                                         if t.masked then Masked else if r.status == Masked then Undealt else r.status,
                                         r.startDeal, t.value))
  {
    hide Recent, Announces;
  }

  /** A trigger is handed to the ring exactly when it is not masked and it opens a record, or the record was not dealt
      with, or has been in dealing for longer than the quiet time. */
  lemma HitAnnounces(s: State, t: Trigger, i: nat)
    requires Inv(s) && i <= |s.rows|
    ensures var s' := Process(s, t, i);
            var row := s'.log[|s.log|].row;
            && s.sends <= s'.sends && (forall n :: n < |s.log| ==> (Caused(s'.sends, n) <==> Caused(s.sends, n)))
            && (Caused(s'.sends, |s.log|) <==>
                && !t.masked
                && (row < |s.rows| ==>
                      || s.rows[row].status == Undealt
                      || (s.rows[row].status == Dealing && s.rows[row].startDeal + s.quiet < s.clock)))
  {
    hide Counted, MaskFollows, Follows, Announced, Spaced, Recent;
    var s' := Process(s, t, i);
    forall n: int | n < |s.log| ensures Caused(s'.sends, n) <==> Caused(s.sends, n) {
      if Caused(s.sends, n) {
        CausedKept(s.sends, s'.sends, n);
      }
    }
    assert !Caused(s.sends, |s.log|);
    if |s'.sends| > |s.sends| {
      assert s'.sends[|s.sends|].cause == |s.log|;
    }
  }

  /** Over every run, for every trigger: the state it met, where it went, and exactly when it was announced. */
  lemma {:induction false} EveryAnnouncement(clock: nat, quiet: nat, run: seq<Action>, s: State, n: nat)
      returns (m: nat, before: State)
    requires clock + DAY < WRAP && clock + quiet < WRAP && RunsTo(Start(clock, quiet), run, s) && n < |s.log|
    ensures m < |run| && run[m].Hit? && RunsTo(Start(clock, quiet), run[..m], before) && |before.log| == n
    ensures s.log[n].trigger == run[m].t && s.log[n].time == before.clock
    ensures var key, row := run[m].t.key, s.log[n].row;
            && (if row < |before.rows| then OpenAndRecent(before, key, row)
                else row == |before.rows| && forall k: nat :: !OpenAndRecent(before, key, k))
            && (Caused(s.sends, n) <==>
                && !run[m].t.masked
                && (row < |before.rows| ==>
                      || before.rows[row].status == Undealt
                      || (before.rows[row].status == Dealing && before.rows[row].startDeal + quiet < before.clock)))
    decreases |run|
  {
    hide RunsTo, Inv, Answer, Caused, OpenAndRecent, Process;
    var s0 := Start(clock, quiet);
    if |run| == 0 {
      RunsNowhere(s0, run, s);
    } else {
      var last := |run| - 1;
      var q := RunsSplit(s0, run, s);
      StartInv(clock, quiet);
      RunKeeps(s0, run[..last], q);
      QuietKept(s0, run[..last], q);
      if run[last].Hit? {
        AnswerFits(q.rows, run[last].t.key, run[last].answer);
        HitGoes(q, run[last].t, run[last].answer);
        HitAnnounces(q, run[last].t, run[last].answer);
        LogGrows(q, run[last].t, run[last].answer);
      }
      if n == |q.log| {
        m, before := last, q;
      } else {
        m, before := EveryAnnouncement(clock, quiet, run[..last], q, n);
        assert run[..last][..m] == run[..m] && run[..last][m] == run[m];
      }
    }
  }

  lemma RunsNowhere(s: State, run: seq<Action>, r: State)
    requires |run| == 0 && RunsTo(s, run, r)
    ensures r == s
  {
  }

  lemma LogGrows(s: State, t: Trigger, i: nat)
    requires i <= |s.rows|
    ensures |Process(s, t, i).log| == |s.log| + 1 && Process(s, t, i).log[..|s.log|] == s.log
  {
  }

  lemma {:induction false} QuietKept(s: State, run: seq<Action>, r: State)
    requires RunsTo(s, run, r)
    ensures r.quiet == s.quiet
    decreases |run|
  {
    if |run| > 0 {
      QuietKept(Apply(s, run[0]), run[1..], r);
    }
  }

  // ----- what users do -----

  /** A status change moves the chosen records that stand one status before it, starts the clock of dealing, and changes
      nothing else. */
  lemma DealExact(s: State, wids: set<nat>, to: Status, i: nat)
    requires i < |s.rows|
    ensures |Deal(s, wids, to).rows| == |s.rows| && Deal(s, wids, to).log == s.log && Deal(s, wids, to).sends == s.sends
    ensures var r, r' := s.rows[i], Deal(s, wids, to).rows[i];
            && r' == r.(status := r'.status, startDeal := r'.startDeal)
            && (r.status == Undealt ==> r'.status == if to == Dealing && i + 1 in wids then Dealing else Undealt)
            && (r.status == Dealing ==> r'.status == if to == Done && i + 1 in wids then Done else Dealing)
            && (r.status == Done || r.status == Masked ==> r'.status == r.status)
            && r'.startDeal == if r.status == Undealt && r'.status == Dealing then s.clock else r.startDeal
  {
  }

  /** A record that is done stays as it is in every run: no trigger merges into it and no status change reopens it. */
  lemma {:induction false} DoneIsFinal(s: State, run: seq<Action>, r: State, i: nat)
    requires Inv(s) && RunsTo(s, run, r) && i < |s.rows| && s.rows[i].status == Done
    ensures i < |r.rows| && r.rows[i] == s.rows[i]
    decreases |run|
  {
    if |run| > 0 {
      var s' := Apply(s, run[0]);
      assert i < |s'.rows| && s'.rows[i] == s.rows[i] by { DoneStays(s, run[0], i); }
      hide Inv, Apply, Enabled;
      StepKeeps(s, run[0]);
      DoneIsFinal(s', run[1..], r, i);
    }
  }

  lemma DoneStays(s: State, a: Action, i: nat)
    requires Enabled(s, a) && i < |s.rows| && s.rows[i].status == Done
    ensures i < |Apply(s, a).rows| && Apply(s, a).rows[i] == s.rows[i]
  {
    hide Sum32;
    if a.Hit? {
      AnswerFits(s.rows, a.t.key, a.answer);
    }
  }

  // ----- the program -----

  class WarnTable {
    var rows: seq<Row>
    ghost var state: State

    ghost predicate Valid()
      reads this
    {
      rows == state.rows && Inv(state)
    }

    constructor (clock: nat, quiet: nat)
      requires clock + DAY < WRAP && clock + quiet < WRAP
      ensures Valid() && state == Start(clock, quiet)
    {
      rows := [];
      state := Start(clock, quiet);
      new;
      StartInv(clock, quiet);
    }

    /** `select ... order by warn_time_utc desc limit 1`. */
    method Select(key: Key) returns (i: nat)
      ensures Answer(rows, key, i)
    {
      i := |rows|;
      for k := 0 to |rows|
        invariant i == |rows| ==> forall n :: 0 <= n < k ==> !Open(rows[n], key)
        invariant i != |rows| ==> i < k && Open(rows[i], key)
        invariant i != |rows| ==> forall n :: 0 <= n < k && Open(rows[n], key) ==> rows[n].warnTime <= rows[i].warnTime
      {
        if Open(rows[k], key) && (i == |rows| || rows[k].warnTime > rows[i].warnTime) {
          i := k;
        }
      }
    }

    /** The body of the trigger loop of `CheckAttrWarn`; `wid` is what it hands to the send ring, 0 for nothing. */
    method HandleTrigger(t: Trigger, now: nat, quiet: nat) returns (wid: nat, ghost answer: nat)
      requires Valid() && now == state.clock && quiet == state.quiet
      modifies this
      ensures Valid() && Answer(old(rows), t.key, answer) && answer <= |old(rows)|
      ensures state == Process(old(state), t, answer)
      ensures state.sends == old(state.sends) + (if wid == 0 then [] else [Send(wid - 1, |old(state.log)|)])
    {
      hide Inv, Answer, Sum32;
      var i := Select(t.key);
      answer := i;
      AnswerFits(rows, t.key, i);
      ProcessKeeps(state, t, i);
      state := Process(state, t, i);
      wid := 0;
      if i < |rows| && Recent(rows[i], now) {
        var r := rows[i];
        if !t.masked && (r.status == Undealt || (r.status == Dealing && Sum32(r.startDeal, quiet) < now)) {
          wid := i + 1;
        }
        var status := r.status;
        if t.masked != (r.status == Masked) {
          status := if t.masked then Masked else Undealt;
        }
        rows := rows[i := r.(times := r.times + 1, lastTime := now, status := status, value := t.value)];
      } else {
        rows := rows + [Row(t.key, now, now, 1, if t.masked then Masked else Undealt, 0, t.value)];
        if !t.masked {
          wid := |rows|;
        }
      }
    }

    /** `DealMultiWarns`: one update statement over the chosen rows. */
    method DealMultiWarns(wids: set<nat>, to: Status, now: nat)
      requires Valid() && now == state.clock
      modifies this
      ensures Valid() && state == Deal(old(state), wids, to)
    {
      hide Inv;
      for i := 0 to |rows|
        invariant |rows| == |old(rows)| && state == old(state)
        invariant forall k :: 0 <= k < i ==> rows[k] == Dealt(old(rows)[k], k + 1 in wids, to, now)
        invariant forall k :: i <= k < |rows| ==> rows[k] == old(rows)[k]
      {
        if i + 1 in wids {
          if to == Dealing && rows[i].status == Undealt {
            rows := rows[i := rows[i].(status := Dealing, startDeal := now)];
          } else if to == Done && rows[i].status == Dealing {
            rows := rows[i := rows[i].(status := Done)];
          }
        }
      }
      DealKeeps(state, wids, to);
      state := Deal(state, wids, to);
      assert rows == state.rows;
    }

    /** The trigger loop; `wids` are the rows announced to the send ring, in order. */
    method CheckTriggers(triggers: seq<Trigger>, now: nat, quiet: nat) returns (wids: seq<nat>, ghost answers: seq<nat>)
      requires Valid() && now == state.clock && quiet == state.quiet
      modifies this
      ensures Valid() && |answers| == |triggers|
      ensures RunsTo(old(state), Run(triggers, answers), state)
      ensures |state.sends| == |old(state.sends)| + |wids|
      ensures forall a :: 0 <= a < |wids| ==> wids[a] == state.sends[|old(state.sends)| + a].row + 1
    {
      hide Inv, Answer, Process;
      wids, answers := [], [];
      ghost var sends0 := state.sends;
      RunNone(state);
      for k := 0 to |triggers|
        invariant Valid() && state.clock == now && state.quiet == quiet && |answers| == k
        invariant RunsTo(old(state), Run(triggers[..k], answers), state)
        invariant |state.sends| == |sends0| + |wids|
        invariant forall a :: 0 <= a < |wids| ==> wids[a] == state.sends[|sends0| + a].row + 1
      {
        ghost var before := state;
        var wid;
        ghost var answer;
        wid, answer := HandleTrigger(triggers[k], now, quiet);
        ProcessClock(before, triggers[k], answer);
        RunMore(old(state), triggers, answers, before, k, answer);
        answers := answers + [answer];
        if wid != 0 {
          wids := wids + [wid];
        }
      }
      assert triggers[..|triggers|] == triggers;
    }
  }

  /** The triggers as actions, with the answers of their selects. */
  function Run(triggers: seq<Trigger>, answers: seq<nat>): seq<Action>
    requires |triggers| == |answers|
  {
    seq(|triggers|, i requires 0 <= i < |triggers| => Hit(triggers[i], answers[i]))
  }

  lemma RunNone(s: State)
    ensures RunsTo(s, Run([], []), s)
  {
  }

  lemma ProcessClock(s: State, t: Trigger, i: nat)
    requires i <= |s.rows|
    ensures Process(s, t, i).clock == s.clock && Process(s, t, i).quiet == s.quiet
  {
  }

  lemma {:induction false} RunsAppend(s: State, run: seq<Action>, r: State, a: Action)
    requires RunsTo(s, run, r) && Enabled(r, a)
    ensures RunsTo(s, run + [a], Apply(r, a))
    decreases |run|
  {
    hide Apply, Enabled;
    if |run| > 0 {
      RunsAppend(Apply(s, run[0]), run[1..], r, a);
      assert (run + [a])[1..] == run[1..] + [a];
    } else {
      assert (run + [a])[1..] == [];
    }
  }

  lemma RunMore(s: State, triggers: seq<Trigger>, answers: seq<nat>, r: State, k: nat, answer: nat)
    requires k < |triggers| && |answers| == k && RunsTo(s, Run(triggers[..k], answers), r)
    requires Answer(r.rows, triggers[k].key, answer) && answer <= |r.rows|
    ensures RunsTo(s, Run(triggers[..k + 1], answers + [answer]), Process(r, triggers[k], answer))
  {
    hide Process, RunsTo, Answer;
    RunsAppend(s, Run(triggers[..k], answers), r, Hit(triggers[k], answer));
    assert Run(triggers[..k + 1], answers + [answer]) == Run(triggers[..k], answers) + [Hit(triggers[k], answer)];
  }
}
