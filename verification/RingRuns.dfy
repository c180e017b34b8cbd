/** Every interleaving of the producer and the consumer processes over the ring. */
module RingRuns {
  import opened SendRing
  import opened Word32

  /** What became of a stored warning. `at` is the time the acting process had read, `clock` the true time. */
  datatype Fate = Pending | Handled(process: nat, at: nat, clock: nat) | Expired(at: nat) | Recycled(at: nat)

  /** The n-th stored warning. */
  datatype Entry = Entry(wid: nat, added: nat, fate: Fate)

  /** Where the producer stands in `AddSendWarnToShm`; it reads the clock once, before the search. `seen` is history:
      the slots of the search as they were when it read them. */
  datatype Producer =
    | Idle
    | Looking(wid: nat, now: nat, i: nat, j: nat, timeout: int, seen: seq<Slot>)
    | Writing(wid: nat, now: nat, i: nat, target: nat)

  /** Where a consumer stands in `ScanSendWarnShm`; it reads the clock once, before the scan. */
  datatype Consumer = Resting | Scanning(j: nat, now: nat)

  /** A warning that found no slot: the how many-th offer it was, the reading of its search and what the search saw. */
  datatype Drop = Drop(wid: nat, number: nat, now: nat, seen: seq<Slot>)

  datatype State = State(clock: nat, slots: seq<Slot>, cursor: nat, producer: Producer, consumers: seq<Consumer>,
                         entries: seq<Entry>, drops: seq<Drop>, offers: nat)

  /** Time passes; a warning is offered to the idle producer; the producer takes its next step; process `p`
      starts a scan; process `p` deals with its next slot. */
  datatype Action = Tick(dt: nat) | Offer(wid: nat) | Produce | BeginScan(p: nat) | ScanNext(p: nat)

  predicate Shape(c: Config, s: State) {
    && ValidConfig(c) && |s.slots| == c.size && |s.consumers| == c.processes && s.cursor < c.size
    && (forall k :: 0 <= k < c.size && s.slots[k].wid != 0 ==> s.slots[k].serial < |s.entries|)
    && (s.producer.Looking? ==> s.producer.i < c.size && s.producer.j <= c.size && s.producer.timeout < c.size)
    && (s.producer.Writing? ==> s.producer.i < c.size && s.producer.target < c.size)
    && (forall p :: 0 <= p < c.processes && s.consumers[p].Scanning? ==> s.consumers[p].j <= c.size)
  }

  function Next(c: Config, i: nat): nat { if i + 1 >= c.size then 0 else i + 1 }

  function Ended(entries: seq<Entry>, slot: Slot, fate: Fate): seq<Entry>
    requires slot.wid != 0 ==> slot.serial < |entries|
  {
    if slot.wid == 0 then entries else entries[slot.serial := entries[slot.serial].(fate := fate)]
  }

  function ProducerStep(c: Config, s: State): State
    requires Shape(c, s)
  {
    match s.producer
    case Idle => s
    case Looking(wid, now, i, j, timeout, seen) =>
      if j < c.size then
        if s.slots[i].wid == 0 then s.(producer := Writing(wid, now, i, i))
        else
          var timeout' := if timeout < 0 && TimedOut(c, s.slots[i], now) then i else timeout;
          s.(producer := Looking(wid, now, Next(c, i), j + 1, timeout', seen + [s.slots[i]]))
      else if timeout >= 0 then s.(producer := Writing(wid, now, i, timeout))
      else s.(producer := Idle, drops := s.drops + [Drop(wid, s.offers, now, seen)])
    case Writing(wid, now, i, target) =>
      s.(slots := s.slots[target := Slot(wid, now, |s.entries|)],
         entries := Ended(s.entries, s.slots[target], Recycled(now)) + [Entry(wid, now, Pending)],
         cursor := Next(c, i),
         producer := Idle)
  }

  function ConsumerStep(c: Config, s: State, p: nat): State
    requires Shape(c, s) && p < c.processes
  {
    match s.consumers[p]
    case Resting => s
    case Scanning(j, now) =>
      if j == c.size then s.(consumers := s.consumers[p := Resting])
      else
        var slot := s.slots[j];
        var s' := s.(consumers := s.consumers[p := Scanning(j + 1, now)],
                     slots := s.slots[j := Scanned(c, slot, p, now)]);
        if Expires(c, slot, now) then s'.(entries := Ended(s.entries, slot, Expired(now)))
        else if Sends(c, slot, p, now) then s'.(entries := Ended(s.entries, slot, Handled(p, now, s.clock)))
        else s'
  }

  /** One step; an action that is not possible changes nothing. The clock stays where deadlines fit 32 bits. */
  function Apply(c: Config, s: State, a: Action): State
    requires Shape(c, s)
  {
    match a
    case Tick(dt) => if s.clock + dt + c.valid < WRAP then s.(clock := s.clock + dt) else s
    case Offer(wid) =>
      if s.producer.Idle? && wid != 0
      then s.(producer := Looking(wid, s.clock, s.cursor, 0, -1, []), offers := s.offers + 1)
      else s
    case Produce => ProducerStep(c, s)
    case BeginScan(p) =>
      if p < c.processes && s.consumers[p].Resting? then s.(consumers := s.consumers[p := Scanning(0, s.clock)]) else s
    case ScanNext(p) => if p < c.processes then ConsumerStep(c, s, p) else s
  }

  lemma ApplyShape(c: Config, s: State, a: Action)
    requires Shape(c, s)
    ensures Shape(c, Apply(c, s, a))
  {
    hide TimedOut, Expires, Sends, Deadline, IsFor;
  }

  // ----- the invariant -----

  /** A used slot is the slot of a pending entry with the same data. */
  predicate SlotAgrees(entries: seq<Entry>, slot: Slot) {
    slot.wid != 0 ==> slot.serial < |entries| && entries[slot.serial] == Entry(slot.wid, slot.added, Pending)
  }

  predicate FateFits(c: Config, e: Entry) {
    && c.processes > 0 && e.wid != 0
    && match e.fate
       case Pending => true
       case Handled(p, at, clock) => p == e.wid % c.processes && at < e.added + c.valid && at <= clock
       case Expired(at) => e.added + c.valid <= at
       case Recycled(at) => e.added + c.valid < at
  }

  ghost predicate SlotsInv(c: Config, clock: nat, slots: seq<Slot>, entries: seq<Entry>) {
    && clock + c.valid < WRAP
    && (forall k :: 0 <= k < |slots| ==> SlotAgrees(entries, slots[k]) && slots[k].added <= clock)
    && (forall k, l :: 0 <= k < l < |slots| && slots[k].wid != 0 && slots[l].wid != 0 ==>
          slots[k].serial != slots[l].serial)
  }

  ghost predicate EntriesInv(c: Config, slots: seq<Slot>, entries: seq<Entry>) {
    && (forall n :: 0 <= n < |entries| ==> FateFits(c, entries[n]))
    && Tally(entries, Pend) == Used(slots)
  }

  /** A warning that a search cannot displace: its deadline is not before the reading of the search. */
  predicate Unexpired(c: Config, slot: Slot, now: nat) { slot.wid != 0 && slot.added + c.valid >= now }

  /** Every slot the search has read held a warning, and it remembers none exactly when none had timed out. */
  ghost predicate SeenInv(c: Config, clock: nat, now: nat, j: nat, timeout: int, seen: seq<Slot>) {
    && |seen| == j
    && (forall d :: 0 <= d < j ==> seen[d].wid != 0 && seen[d].added <= clock)
    && (timeout < 0 <==> forall d :: 0 <= d < j ==> !TimedOut(c, seen[d], now))
  }

  ghost predicate DropsInv(c: Config, drops: seq<Drop>) {
    forall x :: 0 <= x < |drops| ==> DropFits(c, drops[x])
  }

  predicate DropFits(c: Config, d: Drop) {
    |d.seen| == c.size && forall k :: 0 <= k < c.size ==> Unexpired(c, d.seen[k], d.now)
  }

  /** Nothing the search has passed is timed out unless it remembers a timed-out slot, and what it is about to
      overwrite is free or timed out. */
  ghost predicate ProducerInv(c: Config, clock: nat, slots: seq<Slot>, cursor: nat, producer: Producer) {
    |slots| == c.size && cursor < c.size &&
    match producer
    case Idle => true
    case Looking(wid, now, i, j, timeout, seen) =>
      && SeenInv(c, clock, now, j, timeout, seen)
      && wid != 0 && now <= clock && j <= c.size && i == Around(c.size, cursor, j) && timeout < c.size
      && (timeout >= 0 && slots[timeout].wid != 0 ==> TimedOut(c, slots[timeout], now))
      && (timeout < 0 ==> forall d :: 0 <= d < j ==> !TimedOut(c, slots[Around(c.size, cursor, d)], now))
    case Writing(wid, now, i, target) =>
      && wid != 0 && now <= clock && i < c.size && target < c.size
      && (slots[target].wid != 0 ==> TimedOut(c, slots[target], now))
  }

  ghost predicate ConsumersInv(clock: nat, consumers: seq<Consumer>) {
    forall p :: 0 <= p < |consumers| && consumers[p].Scanning? ==> consumers[p].now <= clock
  }

  ghost predicate Inv(c: Config, s: State) {
    && Shape(c, s)
    && SlotsInv(c, s.clock, s.slots, s.entries) && EntriesInv(c, s.slots, s.entries)
    && ProducerInv(c, s.clock, s.slots, s.cursor, s.producer) && ConsumersInv(s.clock, s.consumers)
    && DropsInv(c, s.drops) && s.offers == |s.entries| + |s.drops| + (if s.producer.Idle? then 0 else 1)
  }

  // ----- counting -----

  datatype FateKind = Pend | Hand | Exp | Rec

  function KindOf(f: Fate): FateKind {
    match f
    case Pending => Pend
    case Handled(_, _, _) => Hand
    case Expired(_) => Exp
    case Recycled(_) => Rec
  }

  function Tally(entries: seq<Entry>, kind: FateKind): nat {
    if |entries| == 0 then 0
    else
      var n := |entries| - 1;
      Tally(entries[..n], kind) + (if KindOf(entries[n].fate) == kind then 1 else 0)
  }

  lemma {:induction false} UsedUpdate(slots: seq<Slot>, k: nat, slot: Slot)
    requires k < |slots|
    ensures Used(slots[k := slot]) ==
            Used(slots) - (if slots[k].wid != 0 then 1 else 0) + (if slot.wid != 0 then 1 else 0)
  {
    var n := |slots| - 1;
    if k == n {
      assert slots[k := slot][..n] == slots[..n];
    } else {
      assert slots[k := slot][..n] == slots[..n][k := slot];
      UsedUpdate(slots[..n], k, slot);
    }
  }

  lemma {:induction false} TallyUpdate(entries: seq<Entry>, k: nat, e: Entry, kind: FateKind)
    requires k < |entries|
    ensures Tally(entries[k := e], kind) ==
            Tally(entries, kind) - (if KindOf(entries[k].fate) == kind then 1 else 0)
                                 + (if KindOf(e.fate) == kind then 1 else 0)
  {
    hide KindOf;
    var n := |entries| - 1;
    if k == n {
      assert entries[k := e][..n] == entries[..n];
    } else {
      assert entries[k := e][..n] == entries[..n][k := e];
      TallyUpdate(entries[..n], k, e, kind);
    }
  }

  lemma TallyAppend(entries: seq<Entry>, e: Entry, kind: FateKind)
    ensures Tally(entries + [e], kind) == Tally(entries, kind) + (if KindOf(e.fate) == kind then 1 else 0)
  {
    assert (entries + [e])[..|entries|] == entries;
  }

  lemma {:induction false} TallyTotal(entries: seq<Entry>)
    ensures |entries| == Tally(entries, Pend) + Tally(entries, Hand) + Tally(entries, Exp) + Tally(entries, Rec)
  {
    if |entries| > 0 {
      TallyTotal(entries[..|entries| - 1]);
    }
  }

  // ----- what each kind of step keeps -----

  lemma FreeKeepsSlots(c: Config, clock: nat, slots: seq<Slot>, entries: seq<Entry>, k: nat, freed: Slot, fate: Fate)
    requires SlotsInv(c, clock, slots, entries) && k < |slots| && slots[k].wid != 0
    requires freed.wid == 0 && freed.added <= clock
    ensures SlotsInv(c, clock, slots[k := freed], Ended(entries, slots[k], fate))
  {
    var slots', entries' := slots[k := freed], Ended(entries, slots[k], fate);
    forall l | 0 <= l < |slots'| ensures SlotAgrees(entries', slots'[l]) {
      if l != k {
        assert SlotAgrees(entries, slots[l]);
      }
    }
  }

  lemma FreeKeepsEntries(c: Config, slots: seq<Slot>, entries: seq<Entry>, k: nat, freed: Slot, fate: Fate)
    requires EntriesInv(c, slots, entries) && k < |slots| && slots[k].wid != 0 && freed.wid == 0 && !fate.Pending?
    requires SlotAgrees(entries, slots[k])
    requires FateFits(c, entries[slots[k].serial].(fate := fate))
    ensures EntriesInv(c, slots[k := freed], Ended(entries, slots[k], fate))
  {
    hide FateFits, Tally, Used;
    UsedUpdate(slots, k, freed);
    TallyUpdate(entries, slots[k].serial, entries[slots[k].serial].(fate := fate), Pend);
  }

  lemma FreeKeepsProducer(c: Config, clock: nat, slots: seq<Slot>, cursor: nat, producer: Producer, k: nat, freed: Slot)
    requires ProducerInv(c, clock, slots, cursor, producer) && k < |slots| && freed.wid == 0
    ensures ProducerInv(c, clock, slots[k := freed], cursor, producer)
  {
    hide Deadline, Around;
  }

  lemma StoreKeepsSlots(c: Config, clock: nat, slots: seq<Slot>, entries: seq<Entry>, k: nat, wid: nat, now: nat)
    requires SlotsInv(c, clock, slots, entries) && k < |slots| && slots[k].wid == 0 && wid != 0 && now <= clock
    ensures SlotsInv(c, clock, slots[k := Slot(wid, now, |entries|)], entries + [Entry(wid, now, Pending)])
  {
    var slots', entries' := slots[k := Slot(wid, now, |entries|)], entries + [Entry(wid, now, Pending)];
    forall l | 0 <= l < |slots'| ensures SlotAgrees(entries', slots'[l]) && slots'[l].added <= clock {
      if l != k {
        assert SlotAgrees(entries, slots[l]);
      }
    }
    forall a, b | 0 <= a < b < |slots'| && slots'[a].wid != 0 && slots'[b].wid != 0
      ensures slots'[a].serial != slots'[b].serial
    {
      assert SlotAgrees(entries, slots[a]) && SlotAgrees(entries, slots[b]);
    }
  }

  lemma StoreKeepsEntries(c: Config, slots: seq<Slot>, entries: seq<Entry>, k: nat, wid: nat, now: nat)
    requires EntriesInv(c, slots, entries) && k < |slots| && slots[k].wid == 0 && wid != 0 && c.processes > 0
    ensures EntriesInv(c, slots[k := Slot(wid, now, |entries|)], entries + [Entry(wid, now, Pending)])
  {
    hide Tally, Used;
    UsedUpdate(slots, k, Slot(wid, now, |entries|));
    TallyAppend(entries, Entry(wid, now, Pending), Pend);
  }

  lemma NoWrap(c: Config, clock: nat, slot: Slot)
    requires slot.added <= clock && clock + c.valid < WRAP
    ensures Deadline(c, slot) == slot.added + c.valid
  {
  }

  lemma WritingKeeps(c: Config, s: State)
    requires Inv(c, s) && s.producer.Writing?
    ensures Inv(c, Apply(c, s, Produce))
  {
    hide SlotsInv, EntriesInv, Tally, Used, Deadline, Shape;
    ApplyShape(c, s, Produce);
    var Writing(wid, now, i, target) := s.producer;
    var old_slot := s.slots[target];
    var slots1 := s.slots[target := FREE];
    var entries1 := Ended(s.entries, old_slot, Recycled(now)) by { ShapeSerial(c, s, target); }
    ShapeSizes(c, s);
    if old_slot.wid != 0 {
      SlotFacts(c, s, target);
      NoWrap(c, s.clock, old_slot);
      FreeKeepsSlots(c, s.clock, s.slots, s.entries, target, FREE, Recycled(now));
      FreeKeepsEntries(c, s.slots, s.entries, target, FREE, Recycled(now));
    } else {
      FreeFree(c, s.clock, s.slots, s.entries, target);
    }
    StoreKeepsSlots(c, s.clock, slots1, entries1, target, wid, now);
    StoreKeepsEntries(c, slots1, entries1, target, wid, now);
    assert slots1[target := Slot(wid, now, |s.entries|)] == s.slots[target := Slot(wid, now, |s.entries|)];
  }

  lemma ShapeSizes(c: Config, s: State)
    requires Shape(c, s)
    ensures ValidConfig(c) && |s.slots| == c.size && |s.consumers| == c.processes && s.cursor < c.size
  {
  }

  lemma ShapeSerial(c: Config, s: State, k: nat)
    requires Shape(c, s) && k < c.size
    ensures s.slots[k].wid != 0 ==> s.slots[k].serial < |s.entries|
  {
  }

  /** What the invariant says of one used slot. */
  lemma SlotFacts(c: Config, s: State, k: nat)
    requires Inv(c, s) && k < |s.slots| && s.slots[k].wid != 0
    ensures s.clock + c.valid < WRAP && s.slots[k].added <= s.clock && SlotAgrees(s.entries, s.slots[k])
    ensures FateFits(c, s.entries[s.slots[k].serial])
  {
    hide Tally, Used;
    assert SlotAgrees(s.entries, s.slots[k]);
  }

  lemma FreeFree(c: Config, clock: nat, slots: seq<Slot>, entries: seq<Entry>, k: nat)
    requires SlotsInv(c, clock, slots, entries) && EntriesInv(c, slots, entries) && k < |slots| && slots[k].wid == 0
    ensures SlotsInv(c, clock, slots[k := FREE], entries) && EntriesInv(c, slots[k := FREE], entries)
  {
    hide Tally, Used, FateFits;
    UsedUpdate(slots, k, FREE);
    var slots' := slots[k := FREE];
    forall l | 0 <= l < |slots'| ensures SlotAgrees(entries, slots'[l]) && slots'[l].added <= clock {
      if l != k {
        assert SlotAgrees(entries, slots[l]);
      }
    }
  }

  lemma LookingKeeps(c: Config, s: State)
    requires Inv(c, s) && s.producer.Looking?
    ensures Inv(c, Apply(c, s, Produce))
  {
    hide SlotsInv, EntriesInv, Deadline, Shape, SeenInv, DropFits;
    ApplyShape(c, s, Produce);
    ShapeSizes(c, s);
    var Looking(wid, now, i, j, timeout, seen) := s.producer;
    if j < c.size {
      if s.slots[i].wid != 0 {
        SeenStep(c, s);
      }
    } else {
      SeenAll(c, s);
    }
  }

  lemma SeenStep(c: Config, s: State)
    requires Inv(c, s) && s.producer.Looking? && s.producer.j < c.size && s.slots[s.producer.i].wid != 0
    ensures var Looking(wid, now, i, j, timeout, seen) := s.producer;
            var timeout' := if timeout < 0 && TimedOut(c, s.slots[i], now) then i else timeout;
            SeenInv(c, s.clock, now, j + 1, timeout', seen + [s.slots[i]])
  {
    hide EntriesInv, Deadline, DropsInv;
    var Looking(wid, now, i, j, timeout, seen) := s.producer;
    assert s.slots[i].added <= s.clock;
    assert forall d :: 0 <= d < j ==> (seen + [s.slots[i]])[d] == seen[d];
    assert (seen + [s.slots[i]])[j] == s.slots[i];
  }

  /** At the end of the search none is remembered exactly when every slot it read was unexpired. */
  lemma SeenAll(c: Config, s: State)
    requires Inv(c, s) && s.producer.Looking? && s.producer.j == c.size
    ensures s.producer.timeout < 0 <==> DropFits(c, Drop(s.producer.wid, s.offers, s.producer.now, s.producer.seen))
  {
    hide EntriesInv, Tally, Used, DropsInv, Deadline;
    forall k | 0 <= k < c.size
      ensures Unexpired(c, s.producer.seen[k], s.producer.now) <==> !TimedOut(c, s.producer.seen[k], s.producer.now)
    {
      NoWrap(c, s.clock, s.producer.seen[k]);
    }
  }

  lemma ScanKeeps(c: Config, s: State, p: nat)
    requires Inv(c, s) && p < c.processes && s.consumers[p].Scanning? && s.consumers[p].j < c.size
    ensures Inv(c, Apply(c, s, ScanNext(p)))
  {
    hide SlotsInv, EntriesInv, ProducerInv, Tally, Used, Deadline, Shape;
    ApplyShape(c, s, ScanNext(p));
    ShapeSizes(c, s);
    var j, now := s.consumers[p].j, s.consumers[p].now;
    var slot := s.slots[j];
    var freed := Scanned(c, slot, p, now);
    if freed.wid == 0 && slot.wid != 0 {
      SlotFacts(c, s, j);
      NoWrap(c, s.clock, slot);
      var fate := if Expires(c, slot, now) then Expired(now) else Handled(p, now, s.clock);
      FreeKeepsSlots(c, s.clock, s.slots, s.entries, j, freed, fate);
      FreeKeepsEntries(c, s.slots, s.entries, j, freed, fate);
      FreeKeepsProducer(c, s.clock, s.slots, s.cursor, s.producer, j, freed);
    } else {
      assert freed == slot;
      assert s.slots[j := slot] == s.slots;
    }
  }

  lemma TickKeeps(c: Config, s: State, dt: nat)
    requires Inv(c, s)
    ensures Inv(c, Apply(c, s, Tick(dt)))
  {
    hide Tally, Used, Deadline, Around, FateFits, SlotAgrees;
  }

  lemma OfferKeeps(c: Config, s: State, wid: nat)
    requires Inv(c, s)
    ensures Inv(c, Apply(c, s, Offer(wid)))
  {
    hide SlotsInv, EntriesInv, Deadline;
  }

  lemma BeginKeeps(c: Config, s: State, p: nat)
    requires Inv(c, s)
    ensures Inv(c, Apply(c, s, BeginScan(p)))
  {
    hide SlotsInv, EntriesInv, ProducerInv;
  }

  /** Every step of every process keeps the invariant. */
  lemma StepKeeps(c: Config, s: State, a: Action)
    requires Inv(c, s)
    ensures Inv(c, Apply(c, s, a))
  {
    match a
    case Tick(dt) => TickKeeps(c, s, dt);
    case Offer(wid) => OfferKeeps(c, s, wid);
    case BeginScan(p) => BeginKeeps(c, s, p);
    case Produce =>
      hide SlotsInv, EntriesInv, ProducerInv, ConsumersInv;
      if s.producer.Looking? {
        LookingKeeps(c, s);
      } else if s.producer.Writing? {
        WritingKeeps(c, s);
      }
    case ScanNext(p) =>
      hide SlotsInv, EntriesInv, ProducerInv;
      if p < c.processes && s.consumers[p].Scanning? && s.consumers[p].j < c.size {
        ScanKeeps(c, s, p);
      }
  }

  // ----- whole runs -----

  /** An empty ring, the producer idle and every consumer resting. */
  function Start(c: Config, clock: nat): State {
    State(clock, seq(c.size, _ => FREE), 0, Idle, seq(c.processes, _ => Resting), [], [], 0)
  }

  function Exec(c: Config, s: State, run: seq<Action>): (r: State)
    requires Shape(c, s)
    ensures Shape(c, r)
    decreases |run|
  {
    if |run| == 0 then s
    else
      ApplyShape(c, s, run[0]);
      Exec(c, Apply(c, s, run[0]), run[1..])
  }

  lemma StartInv(c: Config, clock: nat)
    requires ValidConfig(c) && clock + c.valid < WRAP
    ensures Inv(c, Start(c, clock))
  {
    UsedNone(Start(c, clock).slots);
  }

  lemma {:induction false} UsedNone(slots: seq<Slot>)
    requires forall k :: 0 <= k < |slots| ==> slots[k] == FREE
    ensures Used(slots) == 0
  {
    if |slots| > 0 {
      UsedNone(slots[..|slots| - 1]);
    }
  }

  lemma {:induction false} RunKeeps(c: Config, s: State, run: seq<Action>)
    requires Inv(c, s)
    ensures Inv(c, Exec(c, s, run))
    decreases |run|
  {
    if |run| > 0 {
      hide Apply, SlotsInv, EntriesInv, ProducerInv, ConsumersInv;
      StepKeeps(c, s, run[0]);
      RunKeeps(c, Apply(c, s, run[0]), run[1..]);
    }
  }

  ghost predicate Timely(c: Config, s: State) {
    forall n :: 0 <= n < |s.entries| ==> FateFits(c, s.entries[n])
  }

  /** In every interleaving from an empty ring: every stored warning is handled, expired, recycled or still in its
      slot; only process `wid mod N` handles it, by its own clock reading before its deadline; it expires and is
      recycled only at or after its deadline. Every offered warning is stored, dropped or being placed. */
  lemma EveryRun(c: Config, clock: nat, run: seq<Action>)
    requires ValidConfig(c) && clock + c.valid < WRAP
    ensures var s := Exec(c, Start(c, clock), run);
            && |s.entries| == Tally(s.entries, Hand) + Tally(s.entries, Exp) + Tally(s.entries, Rec) + Used(s.slots)
            && s.offers == |s.entries| + |s.drops| + (if s.producer.Idle? then 0 else 1)
            && Timely(c, s)
            && Inv(c, s)
  {
    hide Start, Exec, Tally, Used, FateFits, ProducerInv, SlotsInv, Shape, DropsInv;
    StartInv(c, clock);
    RunKeeps(c, Start(c, clock), run);
    TallyTotal(Exec(c, Start(c, clock), run).entries);
  }

  /** One step leaves the data of every entry alone, and the fate of every entry that has one. */
  lemma StepFinal(c: Config, s: State, a: Action, n: nat)
    requires Inv(c, s) && n < |s.entries|
    ensures var s' := Apply(c, s, a);
            && n < |s'.entries| && s'.entries[n].wid == s.entries[n].wid && s'.entries[n].added == s.entries[n].added
            && (!s.entries[n].fate.Pending? ==> s'.entries[n] == s.entries[n])
  {
    hide EntriesInv, ProducerInv, ConsumersInv, Deadline;
    if a.Produce? && s.producer.Writing? {
      assert SlotAgrees(s.entries, s.slots[s.producer.target]);
    } else if a.ScanNext? && a.p < c.processes && s.consumers[a.p].Scanning? && s.consumers[a.p].j < c.size {
      assert SlotAgrees(s.entries, s.slots[s.consumers[a.p].j]);
    }
  }

  /** No stored warning ends twice: what has been handled, has expired or was recycled stays so for the rest of
      every run. */
  lemma {:induction false} FateIsFinal(c: Config, s: State, run: seq<Action>, n: nat)
    requires Inv(c, s) && n < |s.entries| && !s.entries[n].fate.Pending?
    ensures var s' := Exec(c, s, run); n < |s'.entries| && s'.entries[n] == s.entries[n]
    decreases |run|
  {
    if |run| > 0 {
      hide Apply, SlotsInv, EntriesInv, ProducerInv, ConsumersInv;
      StepKeeps(c, s, run[0]);
      StepFinal(c, s, run[0], n);
      FateIsFinal(c, Apply(c, s, run[0]), run[1..], n);
    }
  }

  /** The producer overwrites only free or timed-out slots. */
  lemma OverwritesOnlyTimedOut(c: Config, s: State)
    requires Inv(c, s) && s.producer.Writing?
    ensures var slot := s.slots[s.producer.target];
            slot.wid != 0 ==> slot.added + c.valid < s.producer.now <= s.clock
  {
    hide EntriesInv, Tally, Used;
    var slot := s.slots[s.producer.target];
    NoWrap(c, s.clock, slot);
  }


  // ----- runs, one action at a time -----

  lemma ExecNone(c: Config, s: State)
    requires Shape(c, s)
    ensures Exec(c, s, []) == s
  {
  }

  lemma {:induction false} ExecConcat(c: Config, s: State, a: seq<Action>, b: seq<Action>)
    requires Shape(c, s)
    ensures Exec(c, s, a + b) == Exec(c, Exec(c, s, a), b)
    decreases |a|
  {
    hide Apply, Shape;
    if |a| == 0 {
      assert a + b == b;
    } else {
      assert (a + b)[0] == a[0] && (a + b)[1..] == a[1..] + b;
      ApplyShape(c, s, a[0]);
      ExecConcat(c, Apply(c, s, a[0]), a[1..], b);
    }
  }

  lemma ExecOne(c: Config, s: State, a: Action)
    requires Shape(c, s)
    ensures Exec(c, s, [a]) == Apply(c, s, a)
  {
    hide Apply, Shape;
    ApplyShape(c, s, a);
    ExecNone(c, Apply(c, s, a));
    assert [a][1..] == [];
  }

  lemma {:induction false} ExecSnoc(c: Config, s: State, run: seq<Action>, a: Action)
    requires Shape(c, s)
    ensures Exec(c, s, run + [a]) == Apply(c, Exec(c, s, run), a)
  {
    hide Apply, Shape, Exec;
    ExecConcat(c, s, run, [a]);
    ExecOne(c, Exec(c, s, run), a);
  }

  lemma {:induction false} ExecLast(c: Config, s: State, run: seq<Action>)
    requires Shape(c, s) && |run| > 0
    ensures Exec(c, s, run) == Apply(c, Exec(c, s, run[..|run| - 1]), run[|run| - 1])
  {
    hide Apply, Shape, Exec;
    var n := |run| - 1;
    ExecSnoc(c, s, run[..n], run[n]);
    assert run[..n] + [run[n]] == run;
  }

  // ----- drops -----

  /** The producer gives a warning up exactly when its search has read every slot and each of them, at the moment it
      was read, held a warning with a deadline not before the reading. */
  lemma DropExact(c: Config, s: State)
    requires Inv(c, s)
    ensures Apply(c, s, Produce).drops != s.drops <==>
            && s.producer.Looking? && |s.producer.seen| == c.size
            && forall k :: 0 <= k < c.size ==> Unexpired(c, s.producer.seen[k], s.producer.now)
    ensures Apply(c, s, Produce).drops != s.drops ==>
              forall k :: 0 <= k < c.size ==> !TimedOut(c, s.slots[k], s.producer.now)
  {
    hide EntriesInv, SlotsInv, Deadline, TimedOut, DropsInv, Unexpired;
    if s.producer.Looking? && s.producer.j == c.size {
      SeenAll(c, s);
      if s.producer.timeout < 0 {
        forall k | 0 <= k < c.size ensures !TimedOut(c, s.slots[k], s.producer.now) {
          assert Around(c.size, s.cursor, Distance(c.size, s.cursor, k)) == k;
        }
      }
    }
  }

  /** What a search has seen was there: before some action of the run, in the same search, the slot was so. */
  lemma {:induction false} SeenWasThere(c: Config, s0: State, run: seq<Action>, d: nat) returns (m: nat)
    requires Inv(c, s0) && s0.producer.Idle?
    requires Exec(c, s0, run).producer.Looking? && d < |Exec(c, s0, run).producer.seen|
    ensures m < |run|
    ensures var s, moment := Exec(c, s0, run), Exec(c, s0, run[..m]);
            && moment.producer.Looking? && moment.offers == s.offers && s.producer.now <= moment.clock
            && d < c.size && s.cursor < c.size && moment.slots[Around(c.size, s.cursor, d)] == s.producer.seen[d]
    decreases |run|
  {
    hide Exec, Apply, Shape, SlotsInv, EntriesInv, ProducerInv, ConsumersInv, DropsInv;
    if |run| == 0 {
      ExecNone(c, s0);
    } else {
      var n := |run| - 1;
      var g, s1 := run[..n], Exec(c, s0, run[..n]);
      ExecLast(c, s0, run);
      RunKeeps(c, s0, g);
      SeenGrows(c, s1, run[n], d);
      if s1.producer.Looking? && d < |s1.producer.seen| {
        m := SeenWasThere(c, s0, g, d);
        assert run[..m] == g[..m];
      } else {
        m := n;
      }
    }
  }

  /** A step of a search adds the slot it reads and keeps what was seen before. */
  lemma SeenGrows(c: Config, s: State, a: Action, d: nat)
    requires Inv(c, s)
    requires Apply(c, s, a).producer.Looking? && d < |Apply(c, s, a).producer.seen|
    ensures var s' := Apply(c, s, a);
            && s.producer.Looking? && s'.offers == s.offers && s'.cursor == s.cursor && s.cursor < c.size == |s.slots|
            && d < c.size && s'.producer.now == s.producer.now <= s.clock
            && (if d < |s.producer.seen| then s'.producer.seen[d] == s.producer.seen[d]
                else s'.producer.seen[d] == s.slots[Around(c.size, s.cursor, d)])
  {
    hide SlotsInv, EntriesInv, DropsInv, Deadline;
    StepKeeps(c, s, a);
  }

  /** In every run, a warning is dropped only if every slot, at some moment of its search, held a warning with a
      deadline not before the reading of the search. */
  lemma {:induction false} EveryDrop(c: Config, clock: nat, run: seq<Action>, x: nat, k: nat) returns (m: nat)
    requires ValidConfig(c) && clock + c.valid < WRAP && x < |Exec(c, Start(c, clock), run).drops| && k < c.size
    ensures m < |run|
    ensures var drop, moment := Exec(c, Start(c, clock), run).drops[x], Exec(c, Start(c, clock), run[..m]);
            && moment.producer.Looking? && moment.offers == drop.number && drop.now <= moment.clock
            && Unexpired(c, moment.slots[k], drop.now)
    decreases |run|
  {
    hide Exec, Shape, Apply, Start, SlotsInv, EntriesInv, ProducerInv, ConsumersInv, DropsInv;
    var s0 := Start(c, clock);
    StartInv(c, clock);
    StartShape(c, clock);
    if |run| == 0 {
      ExecNone(c, s0);
    } else {
      var n := |run| - 1;
      var g, s1 := run[..n], Exec(c, s0, run[..n]);
      ExecLast(c, s0, run);
      RunKeeps(c, s0, g);
      DropGrows(c, s1, run[n], x);
      if x < |s1.drops| {
        m := EveryDrop(c, clock, g, x, k);
        assert run[..m] == g[..m];
      } else {
        m := SeenWasThere(c, s0, g, Distance(c.size, s1.cursor, k));
        assert run[..m] == g[..m];
      }
    }
  }

  lemma StartShape(c: Config, clock: nat)
    requires ValidConfig(c)
    ensures Start(c, clock).producer.Idle? && Start(c, clock).drops == [] && Shape(c, Start(c, clock))
  {
  }

  lemma DropGrows(c: Config, s: State, a: Action, x: nat)
    requires Inv(c, s) && x < |Apply(c, s, a).drops|
    ensures s.cursor < c.size
    ensures if x < |s.drops| then Apply(c, s, a).drops[x] == s.drops[x]
            else
              && s.producer.Looking? && |s.producer.seen| == c.size
              && Apply(c, s, a).drops[x] == Drop(s.producer.wid, s.offers, s.producer.now, s.producer.seen)
              && forall k :: 0 <= k < c.size ==> Unexpired(c, s.producer.seen[k], s.producer.now)
  {
    hide SlotsInv, EntriesInv, DropsInv, Deadline, Unexpired;
    if a.Produce? {
      DropExact(c, s);
    }
  }

  // ----- handling in time -----

  predicate InTime(c: Config, e: Entry) { e.fate.Handled? ==> e.fate.clock < e.added + c.valid }

  ghost predicate AllInTime(c: Config, s: State) { forall n :: 0 <= n < |s.entries| ==> InTime(c, s.entries[n]) }

  /** A consumer comes to a warning whose deadline has passed, with a clock reading from before the deadline. */
  predicate LateScan(c: Config, s: State, a: Action)
    requires Shape(c, s)
  {
    && a.ScanNext? && a.p < c.processes && s.consumers[a.p].Scanning? && s.consumers[a.p].j < c.size
    && var slot := s.slots[s.consumers[a.p].j];
       Sends(c, slot, a.p, s.consumers[a.p].now) && Deadline(c, slot) <= s.clock
  }

  /** A step keeps every handled warning handled before its deadline exactly unless it is a late scan. */
  lemma InTimeStep(c: Config, s: State, a: Action)
    requires Inv(c, s) && AllInTime(c, s)
    ensures AllInTime(c, Apply(c, s, a)) <==> !LateScan(c, s, a)
  {
    hide EntriesInv, ProducerInv, DropsInv, SlotsInv, Deadline;
    var s' := Apply(c, s, a);
    if a.ScanNext? && a.p < c.processes && s.consumers[a.p].Scanning? && s.consumers[a.p].j < c.size {
      var slot := s.slots[s.consumers[a.p].j];
      if slot.wid != 0 {
        SlotFacts(c, s, s.consumers[a.p].j);
        NoWrap(c, s.clock, slot);
        assert InTime(c, s'.entries[slot.serial]) <==> !LateScan(c, s, a);
      }
    } else if a.Produce? && s.producer.Writing? {
      ShapeSerial(c, s, s.producer.target);
    }
  }

  ghost predicate NoLateScan(c: Config, s: State, run: seq<Action>)
    requires Shape(c, s)
    decreases |run|
  {
    |run| == 0 || (!LateScan(c, s, run[0]) && (ApplyShape(c, s, run[0]); NoLateScan(c, Apply(c, s, run[0]), run[1..])))
  }

  /** Over every run, all handled warnings were handled before their deadlines exactly when no consumer made a late
      scan. */
  lemma {:induction false} InTimeRun(c: Config, s: State, run: seq<Action>)
    requires Inv(c, s) && AllInTime(c, s)
    ensures AllInTime(c, Exec(c, s, run)) <==> NoLateScan(c, s, run)
    decreases |run|
  {
    hide Apply, Shape, LateScan, InTime, SlotsInv, EntriesInv, ProducerInv, ConsumersInv, DropsInv;
    if |run| > 0 {
      var s' := Apply(c, s, run[0]);
      StepKeeps(c, s, run[0]);
      InTimeStep(c, s, run[0]);
      if AllInTime(c, s') {
        InTimeRun(c, s', run[1..]);
      } else {
        var n :| 0 <= n < |s'.entries| && !InTime(c, s'.entries[n]);
        LateIsEnded(c, s'.entries[n]);
        FateIsFinal(c, s', run[1..], n);
      }
    }
  }

  lemma LateIsEnded(c: Config, e: Entry)
    requires !InTime(c, e)
    ensures !e.fate.Pending?
  {
  }

  lemma InTimeExact(c: Config, clock: nat, run: seq<Action>)
    requires ValidConfig(c) && clock + c.valid < WRAP
    ensures AllInTime(c, Exec(c, Start(c, clock), run)) <==> NoLateScan(c, Start(c, clock), run)
  {
    StartInv(c, clock);
    InTimeRun(c, Start(c, clock), run);
  }

  // ----- runs at the boundary, on rings of every size -----

  /** The ring after `n` warnings stored at `clock`. */
  function Filled(c: Config, clock: nat, n: nat): seq<Slot> {
    seq(c.size, (k: nat) => if k < n then Slot(1, clock, k) else FREE)
  }

  function Stored(clock: nat, n: nat): seq<Entry> { seq(n, _ => Entry(1, clock, Pending)) }

  function FillState(c: Config, clock: nat, n: nat): State {
    State(clock, Filled(c, clock, n), if n == c.size then 0 else n, Idle, seq(c.processes, _ => Resting),
          Stored(clock, n), [], n)
  }

  function FillRun(n: nat): seq<Action> { if n == 0 then [] else FillRun(n - 1) + [Offer(1)] + [Produce] + [Produce] }

  lemma FillShape(c: Config, clock: nat, n: nat)
    requires ValidConfig(c) && n <= c.size
    ensures Shape(c, FillState(c, clock, n))
  {
  }

  lemma FillStep(c: Config, clock: nat, n: nat)
    requires ValidConfig(c) && n < c.size && Shape(c, FillState(c, clock, n))
    ensures var s1 := Apply(c, FillState(c, clock, n), Offer(1));
            Shape(c, s1) && var s2 := Apply(c, s1, Produce);
            Shape(c, s2) && Apply(c, s2, Produce) == FillState(c, clock, n + 1)
  {
    var s := FillState(c, clock, n);
    var s1 := s.(producer := Looking(1, clock, n, 0, -1, []), offers := n + 1);
    assert Apply(c, s, Offer(1)) == s1;
    var s2 := s1.(producer := Writing(1, clock, n, n));
    assert Apply(c, s1, Produce) == s2;
    assert Filled(c, clock, n)[n := Slot(1, clock, n)] == Filled(c, clock, n + 1);
    assert Stored(clock, n) + [Entry(1, clock, Pending)] == Stored(clock, n + 1);
  }

  lemma {:induction false} Fills(c: Config, clock: nat, n: nat)
    requires ValidConfig(c) && n <= c.size
    ensures Shape(c, Start(c, clock)) && Exec(c, Start(c, clock), FillRun(n)) == FillState(c, clock, n)
  {
    StartShape(c, clock);
    if n == 0 {
      assert Filled(c, clock, 0) == Start(c, clock).slots;
    } else {
      hide Apply, Shape, FillState, Exec, Start;
      var s0, run := Start(c, clock), FillRun(n - 1);
      Fills(c, clock, n - 1);
      FillShape(c, clock, n - 1);
      FillStep(c, clock, n - 1);
      ExecSnoc(c, s0, run, Offer(1));
      ExecSnoc(c, s0, run + [Offer(1)], Produce);
      ExecSnoc(c, s0, run + [Offer(1)] + [Produce], Produce);
    }
  }

  /** A consumer that starts its scan in time and reaches the slot when the deadline has come handles the warning
      late, on every ring. */
  lemma StaleReadingIsLate(c: Config, clock: nat)
    requires ValidConfig(c) && 0 < c.valid && clock + 2 * c.valid < WRAP
    ensures var p := 1 % c.processes;
            var run := FillRun(1) + [BeginScan(p)] + [Tick(c.valid)] + [ScanNext(p)];
            var s := Exec(c, Start(c, clock), run);
            s.entries == [Entry(1, clock, Handled(p, clock, clock + c.valid))] && !InTime(c, s.entries[0])
  {
    var p := 1 % c.processes;
    var s0, run := Start(c, clock), FillRun(1);
    Fills(c, clock, 1);
    FillShape(c, clock, 1);
    StaleSteps(c, clock, p);
    hide Apply, Shape, FillState, Exec, Start, FillRun;
    ExecSnoc(c, s0, run, BeginScan(p));
    ExecSnoc(c, s0, run + [BeginScan(p)], Tick(c.valid));
    ExecSnoc(c, s0, run + [BeginScan(p)] + [Tick(c.valid)], ScanNext(p));
  }

  lemma StaleSteps(c: Config, clock: nat, p: nat)
    requires ValidConfig(c) && 0 < c.valid && clock + 2 * c.valid < WRAP && p == 1 % c.processes
    requires Shape(c, FillState(c, clock, 1))
    ensures var s1 := Apply(c, FillState(c, clock, 1), BeginScan(p));
            Shape(c, s1) && var s2 := Apply(c, s1, Tick(c.valid));
            Shape(c, s2) && Apply(c, s2, ScanNext(p)).entries == [Entry(1, clock, Handled(p, clock, clock + c.valid))]
  {
    var s := FillState(c, clock, 1);
    assert p < c.processes;
    var s1 := s.(consumers := s.consumers[p := Scanning(0, clock)]);
    assert Apply(c, s, BeginScan(p)) == s1;
    var s2 := s1.(clock := clock + c.valid);
    assert Apply(c, s1, Tick(c.valid)) == s2;
    var slot := Slot(1, clock, 0);
    assert s2.slots[0] == slot;
    NoWrap(c, clock, slot);
    assert Sends(c, slot, p, clock);
    assert s.entries == [Entry(1, clock, Pending)];
  }

  function Times(n: nat): seq<Action> { if n == 0 then [] else Times(n - 1) + [Produce] }

  /** The search over a full ring, at the second in which every deadline falls. */
  function LookState(c: Config, clock: nat, j: nat): State
    requires j <= c.size
  {
    var now := clock + c.valid;
    var seen := Filled(c, clock, c.size)[..j];
    FillState(c, clock, c.size).(clock := now, offers := c.size + 1,
      producer := Looking(2, now, if j == c.size then 0 else j, j, -1, seen))
  }

  lemma LookShape(c: Config, clock: nat, j: nat)
    requires ValidConfig(c) && j <= c.size
    ensures Shape(c, LookState(c, clock, j))
  {
  }

  lemma LookStep(c: Config, clock: nat, j: nat)
    requires ValidConfig(c) && clock + c.valid < WRAP && j < c.size && Shape(c, LookState(c, clock, j))
    ensures Apply(c, LookState(c, clock, j), Produce) == LookState(c, clock, j + 1)
  {
    var full := Filled(c, clock, c.size);
    NoWrap(c, clock, full[j]);
    assert full[..j] + [full[j]] == full[..j + 1];
  }

  lemma {:induction false} Looks(c: Config, clock: nat, j: nat)
    requires ValidConfig(c) && clock + c.valid < WRAP && j <= c.size && Shape(c, LookState(c, clock, 0))
    ensures Exec(c, LookState(c, clock, 0), Times(j)) == LookState(c, clock, j)
  {
    hide Apply, Shape, LookState, Exec;
    if j == 0 {
      ExecNone(c, LookState(c, clock, 0));
    } else {
      Looks(c, clock, j - 1);
      LookShape(c, clock, j - 1);
      LookStep(c, clock, j - 1);
      ExecSnoc(c, LookState(c, clock, 0), Times(j - 1), Produce);
    }
  }

  lemma LookEnds(c: Config, clock: nat)
    requires ValidConfig(c) && clock + 2 * c.valid < WRAP && Shape(c, FillState(c, clock, c.size))
    requires Shape(c, LookState(c, clock, c.size))
    ensures var s1 := Apply(c, FillState(c, clock, c.size), Tick(c.valid));
            Shape(c, s1) && Apply(c, s1, Offer(2)) == LookState(c, clock, 0)
    ensures var s := Apply(c, LookState(c, clock, c.size), Produce);
            |s.drops| == 1 && s.drops[0].wid == 2 && s.slots == Filled(c, clock, c.size) && s.clock == clock + c.valid
  {
    assert Filled(c, clock, c.size)[..0] == [];
  }

  /** At the second of the deadline the two tests differ: the producer drops a warning although the consumers take
      every slot of the ring for expired. */
  lemma DropsAtDeadline(c: Config, clock: nat)
    requires ValidConfig(c) && clock + 2 * c.valid < WRAP
    ensures var run := FillRun(c.size) + [Tick(c.valid)] + [Offer(2)] + Times(c.size) + [Produce];
            var s := Exec(c, Start(c, clock), run);
            |s.drops| == 1 && s.drops[0].wid == 2 && forall k :: 0 <= k < c.size ==> Expires(c, s.slots[k], s.clock)
  {
    var s0, run := Start(c, clock), FillRun(c.size);
    Fills(c, clock, c.size);
    FillShape(c, clock, c.size);
    LookShape(c, clock, 0);
    LookShape(c, clock, c.size);
    LookEnds(c, clock);
    Looks(c, clock, c.size);
    DeadlineReached(c, clock);
    hide Apply, Shape, FillState, LookState, Exec, Start, FillRun, Times, Filled, Expires;
    ExecSnoc(c, s0, run, Tick(c.valid));
    ExecSnoc(c, s0, run + [Tick(c.valid)], Offer(2));
    ExecConcat(c, s0, run + [Tick(c.valid)] + [Offer(2)], Times(c.size));
    ExecSnoc(c, s0, run + [Tick(c.valid)] + [Offer(2)] + Times(c.size), Produce);
  }

  lemma DeadlineReached(c: Config, clock: nat)
    requires clock + c.valid < WRAP
    ensures forall k :: 0 <= k < c.size ==> Expires(c, Filled(c, clock, c.size)[k], clock + c.valid)
  {
  }
}
