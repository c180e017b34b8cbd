/** The shared ring of warnings to send: one producer (slog_check_warn) fills slots, several consumer processes
    (slog_deal_warn) drain them. Steps on a whole slot are atomic; everything else interleaves freely. */
module SendRing {
  import opened Word32

  /** A ring slot; `wid` 0 marks it free. `serial` numbers the stored warnings and is history, not shared memory. */
  datatype Slot = Slot(wid: nat, added: nat, serial: nat)

  const FREE: Slot := Slot(0, 0, 0)

  /** MAX_WARN_SEND_NODE_SHM, VALID_SEND_WARN_TIME_SEC and the number of consumer processes. */
  datatype Config = Config(size: nat, valid: nat, processes: nat)

  predicate ValidConfig(c: Config) { c.size > 0 && c.processes > 0 }

  /** `dwWarnAddTime + iValidSendWarnTimeSec`, an unsigned 32-bit sum. */
  function Deadline(c: Config, s: Slot): nat { (s.added + c.valid) % WRAP }

  /** The producer's test for a slot it may recycle. */
  predicate TimedOut(c: Config, s: Slot, now: nat) { s.wid != 0 && Deadline(c, s) < now }

  /** The consumer's test: a warning whose time has come is no longer sent. */
  predicate Expires(c: Config, s: Slot, now: nat) { s.wid != 0 && Deadline(c, s) <= now }

  predicate IsFor(c: Config, s: Slot, p: nat)
    requires ValidConfig(c)
  {
    s.wid % c.processes == p
  }

  predicate Sends(c: Config, s: Slot, p: nat, now: nat)
    requires ValidConfig(c)
  {
    s.wid != 0 && !Expires(c, s, now) && IsFor(c, s, p)
  }

  /** What process `p`, at its time `now`, leaves in a slot: it frees expired ones by their id alone, sends and
      zeroes its own, and passes over the rest. */
  function Scanned(c: Config, s: Slot, p: nat, now: nat): Slot
    requires ValidConfig(c)
  {
    if Expires(c, s, now) then s.(wid := 0) else if Sends(c, s, p, now) then FREE else s
  }

  // ----- the two programs, each on its own -----

  /** The slot `j` places after the cursor. */
  function Around(size: nat, cursor: nat, j: nat): (i: nat)
    requires cursor < size && j <= size
    ensures i < size
  {
    if cursor + j < size then cursor + j else cursor + j - size
  }

  /** How far slot `k` is from the cursor. */
  function Distance(size: nat, cursor: nat, k: nat): (d: nat)
    requires cursor < size && k < size
    ensures d < size && Around(size, cursor, d) == k
  {
    if k >= cursor then k - cursor else k + size - cursor
  }

  /** Where a warning goes: the first free slot from the cursor on, else the first timed-out one. */
  ghost predicate Chosen(c: Config, slots: seq<Slot>, cursor: nat, now: nat, at: nat)
    requires ValidConfig(c) && |slots| == c.size && cursor < c.size
  {
    && at < c.size
    && (if slots[at].wid == 0
        then forall d :: 0 <= d < Distance(c.size, cursor, at) ==> slots[Around(c.size, cursor, d)].wid != 0
        else
          && (forall k :: 0 <= k < c.size ==> slots[k].wid != 0)
          && TimedOut(c, slots[at], now)
          && forall d :: 0 <= d < Distance(c.size, cursor, at) ==> !TimedOut(c, slots[Around(c.size, cursor, d)], now))
  }

  /** Nowhere to put a warning: every slot holds one the producer does not take for timed out. */
  ghost predicate Full(c: Config, slots: seq<Slot>, now: nat) {
    forall k :: 0 <= k < |slots| ==> slots[k].wid != 0 && !TimedOut(c, slots[k], now)
  }

  class Ring {
    const config: Config
    const nodes: array<Slot>
    var lastIndex: nat

    ghost predicate Valid()
      reads this
    {
      ValidConfig(config) && nodes.Length == config.size && lastIndex < config.size
    }

    constructor (c: Config)
      requires ValidConfig(c)
      ensures Valid() && config == c && fresh(nodes) && lastIndex == 0
      ensures forall k :: 0 <= k < c.size ==> nodes[k] == FREE
    {
      config := c;
      nodes := new Slot[c.size](_ => FREE);
      lastIndex := 0;
    }

    /** The search loop of `AddSendWarnToShm`; `i` is where the scan index stands afterwards. */
    method FindSlot(now: nat) returns (at: int, i: nat)
      requires Valid()
      ensures at >= 0 ==> Chosen(config, nodes[..], lastIndex, now, at)
      ensures i == if at >= 0 && nodes[at].wid == 0 then at else lastIndex
      ensures at < 0 ==> Full(config, nodes[..], now)
    {
      hide Deadline;
      var j: nat := 0;
      var timeout := -1;
      i := lastIndex;
      while j < config.size
        invariant j <= config.size && i == Around(config.size, lastIndex, j)
        invariant forall d :: 0 <= d < j ==> nodes[Around(config.size, lastIndex, d)].wid != 0
        invariant -1 <= timeout < config.size
        invariant timeout >= 0 ==>
                    Distance(config.size, lastIndex, timeout) < j && TimedOut(config, nodes[timeout], now)
        invariant forall d :: 0 <= d < (if timeout >= 0 then Distance(config.size, lastIndex, timeout) else j) ==>
                    !TimedOut(config, nodes[Around(config.size, lastIndex, d)], now)
      {
        if nodes[i].wid == 0 {
          return i, i;
        }
        if timeout < 0 && Deadline(config, nodes[i]) < now {
          timeout := i;
        }
        i := i + 1;
        j := j + 1;
        if i >= config.size {
          i := 0;
        }
      }
      forall k | 0 <= k < config.size ensures nodes[k].wid != 0 && (timeout < 0 ==> !TimedOut(config, nodes[k], now)) {
        assert nodes[Around(config.size, lastIndex, Distance(config.size, lastIndex, k))].wid != 0;
      }
      at := timeout;
    }

    /** `AddSendWarnToShm`. */
    method AddSendWarn(wid: nat, serial: nat, now: nat) returns (at: int)
      requires Valid() && wid != 0
      modifies nodes, this`lastIndex
      ensures Valid()
      ensures at >= 0 ==> old(Chosen(config, nodes[..], lastIndex, now, at))
      ensures at >= 0 ==> nodes[..] == old(nodes[..])[at := Slot(wid, now, serial)]
      ensures at >= 0 ==> lastIndex == Around(config.size, if old(nodes[at]).wid == 0 then at else old(lastIndex), 1)
      ensures at < 0 ==> old(Full(config, nodes[..], now)) && nodes[..] == old(nodes[..]) && lastIndex == old(lastIndex)
    {
      hide Chosen, Full;
      var i;
      at, i := FindSlot(now);
      if at < 0 {
        return;
      }
      ChosenInRange(config, nodes[..], lastIndex, now, at);
      nodes[at] := Slot(wid, now, serial);
      lastIndex := i + 1;
      if lastIndex >= config.size {
        lastIndex := 0;
      }
    }

    /** `ScanSendWarnShm` of process `p`; `sent` are the warnings it handled, in slot order. */
    method ScanSendWarn(p: nat, now: nat) returns (sent: seq<Slot>)
      requires Valid()
      modifies nodes
      ensures Valid()
      ensures forall k :: 0 <= k < config.size ==> nodes[k] == Scanned(config, old(nodes[k]), p, now)
      ensures sent == Sent(config, old(nodes[..]), p, now)
      ensures Used(old(nodes[..])) == Used(nodes[..]) + |sent| + Overdue(config, old(nodes[..]), now)
    {
      hide Deadline, IsFor;
      sent := [];
      ghost var before := nodes[..];
      for j := 0 to config.size
        invariant forall k :: 0 <= k < j ==> nodes[k] == Scanned(config, before[k], p, now)
        invariant forall k :: j <= k < config.size ==> nodes[k] == before[k]
        invariant sent == Sent(config, before[..j], p, now)
      {
        assert before[..j + 1][..j] == before[..j];
        if nodes[j].wid == 0 || Deadline(config, nodes[j]) <= now {
          if nodes[j].wid != 0 && Deadline(config, nodes[j]) <= now {
            nodes[j] := nodes[j].(wid := 0);
          }
          continue;
        }
        if !IsFor(config, nodes[j], p) {
          continue;
        }
        sent := sent + [nodes[j]];
        nodes[j] := FREE;
      }
      assert before[..config.size] == before;
      ScanAccounts(config, before, nodes[..], p, now);
    }
  }

  lemma ChosenInRange(c: Config, slots: seq<Slot>, cursor: nat, now: nat, at: nat)
    requires ValidConfig(c) && |slots| == c.size && cursor < c.size && Chosen(c, slots, cursor, now, at)
    ensures at < c.size
  {
  }

  /** The warnings process `p` handles in one scan. */
  function Sent(c: Config, slots: seq<Slot>, p: nat, now: nat): seq<Slot>
    requires ValidConfig(c)
  {
    if |slots| == 0 then []
    else
      var k := |slots| - 1;
      Sent(c, slots[..k], p, now) + (if Sends(c, slots[k], p, now) then [slots[k]] else [])
  }

  /** Whose turn a slot is: a warning of process `p` whose deadline is still to come. */
  predicate Due(c: Config, slot: Slot, p: nat, now: nat)
    requires ValidConfig(c)
  {
    slot.wid != 0 && slot.wid % c.processes == p && now < Deadline(c, slot)
  }

  /** `sent` are the slots at the places `at`, in slot order. */
  predicate Places(slots: seq<Slot>, sent: seq<Slot>, at: seq<nat>) {
    && |at| == |sent|
    && (forall i, j :: 0 <= i < j < |at| ==> at[i] < at[j])
    && (forall i :: 0 <= i < |at| ==> at[i] < |slots| && sent[i] == slots[at[i]])
  }

  lemma PlacesStep(slots: seq<Slot>, sent: seq<Slot>, at: seq<nat>)
    requires |slots| > 0 && Places(slots[..|slots| - 1], sent, at)
    ensures Places(slots, sent, at) && Places(slots, sent + [slots[|slots| - 1]], at + [|slots| - 1])
    ensures forall k :: k in at ==> k < |slots| - 1
  {
  }

  /** A scan handles every warning of its process whose deadline is to come, each once and in slot order, and no other:
      `at` are the places of the handled warnings. */
  lemma {:induction false} SentExact(c: Config, slots: seq<Slot>, p: nat, now: nat) returns (at: seq<nat>)
    requires ValidConfig(c)
    ensures Places(slots, Sent(c, slots, p, now), at)
    ensures forall k :: 0 <= k < |slots| ==> (k in at <==> Due(c, slots[k], p, now))
  {
    hide Due, Sends, Places;
    if |slots| == 0 {
      at := [];
      assert Places(slots, [], []) by { NoPlaces(slots); }
    } else {
      var n := |slots| - 1;
      var init := SentExact(c, slots[..n], p, now);
      PlacesStep(slots, Sent(c, slots[..n], p, now), init);
      DueIsSent(c, slots[n], p, now);
      if !Due(c, slots[n], p, now) {
        assert Sent(c, slots, p, now) == Sent(c, slots[..n], p, now);
      }
      at := if Due(c, slots[n], p, now) then init + [n] else init;
      forall k | 0 <= k < |slots| ensures k in at <==> Due(c, slots[k], p, now) {
        if k < n {
          assert slots[..n][k] == slots[k];
        }
      }
    }
  }

  lemma DueIsSent(c: Config, slot: Slot, p: nat, now: nat)
    requires ValidConfig(c)
    ensures Due(c, slot, p, now) <==> Sends(c, slot, p, now)
  {
  }

  lemma NoPlaces(slots: seq<Slot>)
    ensures Places(slots, [], [])
  {
  }

  function Used(slots: seq<Slot>): nat {
    if |slots| == 0 then 0
    else
      var n := |slots| - 1;
      Used(slots[..n]) + (if slots[n].wid != 0 then 1 else 0)
  }

  /** The warnings in the ring whose deadline has come. */
  function Overdue(c: Config, slots: seq<Slot>, now: nat): nat {
    if |slots| == 0 then 0
    else
      var n := |slots| - 1;
      Overdue(c, slots[..n], now) + (if slots[n].wid != 0 && Deadline(c, slots[n]) <= now then 1 else 0)
  }

  /** What a scan takes out of the ring it has handled or found overdue. */
  lemma {:induction false} ScanAccounts(c: Config, before: seq<Slot>, after: seq<Slot>, p: nat, now: nat)
    requires ValidConfig(c) && |before| == |after|
    requires forall k :: 0 <= k < |before| ==> after[k] == Scanned(c, before[k], p, now)
    ensures Used(before) == Used(after) + |Sent(c, before, p, now)| + Overdue(c, before, now)
  {
    hide Deadline, IsFor;
    if |before| > 0 {
      var n := |before| - 1;
      ScanAccounts(c, before[..n], after[..n], p, now);
    }
  }

  /** A ring that is not full has exactly one slot where a warning goes, and a full ring has none. */
  lemma ChosenOrFull(c: Config, slots: seq<Slot>, cursor: nat, now: nat)
    requires ValidConfig(c) && |slots| == c.size && cursor < c.size
    ensures (exists at :: Chosen(c, slots, cursor, now, at)) <==> !Full(c, slots, now)
    ensures forall a, b :: Chosen(c, slots, cursor, now, a) && Chosen(c, slots, cursor, now, b) ==> a == b
  {
    if at :| Chosen(c, slots, cursor, now, at) {
      ChosenNotFull(c, slots, cursor, now, at);
    }
    if !Full(c, slots, now) {
      var at := FirstChosen(c, slots, cursor, now);
    }
    forall a, b | Chosen(c, slots, cursor, now, a) && Chosen(c, slots, cursor, now, b) ensures a == b {
      ChosenOnce(c, slots, cursor, now, a, b);
    }
  }

  lemma ChosenNotFull(c: Config, slots: seq<Slot>, cursor: nat, now: nat, at: nat)
    requires ValidConfig(c) && |slots| == c.size && cursor < c.size && Chosen(c, slots, cursor, now, at)
    ensures !Full(c, slots, now)
  {
    hide Deadline;
  }

  lemma ChosenOnce(c: Config, slots: seq<Slot>, cursor: nat, now: nat, a: nat, b: nat)
    requires ValidConfig(c) && |slots| == c.size && cursor < c.size
    requires Chosen(c, slots, cursor, now, a) && Chosen(c, slots, cursor, now, b)
    ensures a == b
  {
    hide Deadline;
    var da, db := Distance(c.size, cursor, a), Distance(c.size, cursor, b);
    assert Around(c.size, cursor, da) == a && Around(c.size, cursor, db) == b;
  }

  /** The first slot from the cursor on that satisfies a test. */
  lemma First(c: Config, slots: seq<Slot>, cursor: nat, test: Slot -> bool, d: nat) returns (f: nat)
    requires ValidConfig(c) && |slots| == c.size && cursor < c.size && d < c.size
    requires test(slots[Around(c.size, cursor, d)])
    ensures f <= d && test(slots[Around(c.size, cursor, f)])
    ensures forall e :: 0 <= e < f ==> !test(slots[Around(c.size, cursor, e)])
  {
    f := 0;
    while !test(slots[Around(c.size, cursor, f)])
      invariant f <= d && forall e :: 0 <= e < f ==> !test(slots[Around(c.size, cursor, e)])
      decreases d - f
    {
      f := f + 1;
    }
  }

  lemma FirstChosen(c: Config, slots: seq<Slot>, cursor: nat, now: nat) returns (at: nat)
    requires ValidConfig(c) && |slots| == c.size && cursor < c.size && !Full(c, slots, now)
    ensures Chosen(c, slots, cursor, now, at)
  {
    hide Deadline;
    if k :| 0 <= k < c.size && slots[k].wid == 0 {
      var f := First(c, slots, cursor, (s: Slot) => s.wid == 0, Distance(c.size, cursor, k));
      at := Around(c.size, cursor, f);
      assert Distance(c.size, cursor, at) == f;
    } else {
      var k :| 0 <= k < c.size && TimedOut(c, slots[k], now);
      var f := First(c, slots, cursor, (s: Slot) => TimedOut(c, s, now), Distance(c.size, cursor, k));
      at := Around(c.size, cursor, f);
      assert Distance(c.size, cursor, at) == f;
    }
  }
}
