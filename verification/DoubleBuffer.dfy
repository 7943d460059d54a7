/** The sampling interrupt and the UDP send task share two ring buffers under two locks.
    This module is the protocol as a state machine: one step is a whole interrupt, or one
    take, check, read or give of the task.  Samples carry the number of the tick that took
    them, which the program does not store. */
module DoubleBuffer {
  import opened Words

  const VALUES := 50000

  datatype Sample = Sample(tick: nat, value: nat)

  datatype Buf = Buf(contents: seq<Sample>, full: bool, time: int)

  datatype Owner = Free | Isr | Task

  /** One ring buffer, its lock and the interrupt's holder flag for it. */
  datatype Channel = Channel(buf: Buf, owner: Owner, holder: bool)

  datatype Pc = Take | Check | Drain | Give

  /** The samples of one drained buffer with the timestamp that was sent for them. */
  datatype Batch = Batch(channel: int, time: int, samples: seq<Sample>)

  /** Fixed for a run: buffer size, sensor id, start of the measurement. */
  datatype Config = Config(size: nat, id: nat, start: int) {
    predicate Valid() {
      size >= 2
    }
  }

  /** `clock`, `written`, `batches`, `cycle` and `current` are history: the time of every
      tick, every sample ever written, every finished batch, the finished batches of the
      running send cycle, and the samples read from the buffer being drained. */
  datatype State = State(
    ch1: Channel, ch2: Channel, lastWritten: int, testVar: nat,
    pc: Pc, lastRead: int, counter: nat, packet: seq<int>,
    clock: seq<int>, written: seq<Sample>, batches: seq<Batch>, cycle: seq<Batch>,
    current: seq<Sample>)
  {
    function Ch(k: int): Channel {
      if k == 1 then ch1 else ch2
    }

    function With(k: int, c: Channel): State {
      if k == 1 then this.(ch1 := c) else this.(ch2 := c)
    }

    /** The buffer the interrupt fills next, and the one the task visits next. */
    function Target(): int {
      if lastWritten == 2 then 1 else 2
    }

    function Reading(): int {
      if lastRead == 2 then 1 else 2
    }
  }

  function Init(cfg: Config): State {
    var c := Channel(Buf([], false, 0), Free, false);
    State(c, c, 2, 0, Take, 2, 0, seq(2 * cfg.size + 4, _ => 0), [], [], [], [], [])
  }

  // ---------------------------------------------------------------- the interrupt

  function Put(cfg: Config, b: Buf, s: Sample): Buf {
    var contents := if |b.contents| < cfg.size then b.contents + [s] else [s];
    Buf(contents, b.full || |contents| == cfg.size, b.time)
  }

  /** The branch of write_task for one buffer: the new channel, whether the sample was
      written, and whether the buffer is finished. */
  function IsrOn(cfg: Config, c: Channel, s: Sample, now: int): (Channel, bool, bool) {
    if !c.holder then
      if c.owner == Free && !c.buf.full then
        (Channel(Put(cfg, c.buf.(time := now), s), Isr, true), true, false)
      else
        // the lock is taken, or it is free but the buffer still full: then given back
        (c, false, false)
    else
      var b := Put(cfg, c.buf, s);
      if b.full then (Channel(b, Free, false), true, true)
      else (c.(buf := b), true, false)
  }

  function NextSample(st: State): Sample {
    Sample(|st.clock|, if st.testVar + 1 == VALUES then 0 else st.testVar + 1)
  }

  /** write_task, called at time `now`. */
  function Tick(cfg: Config, st: State, now: int): State {
    var s := NextSample(st);
    var st0 := st.(testVar := s.value, clock := st.clock + [now]);
    if st.lastWritten != 1 && st.lastWritten != 2 then st0
    else
      var k := st.Target();
      var (c, wrote, done) := IsrOn(cfg, st.Ch(k), s, now);
      var st1 := if wrote then st0.(written := st.written + [s]) else st0;
      (if done then st1.(lastWritten := k) else st1).With(k, c)
  }

  // ---------------------------------------------------------------- the task

  /** get_timediff_us: the difference in microseconds, cut to 32 bits. */
  function TimeWord(time: int, start: int): int {
    (time - start) % U32
  }

  function Store(packet: seq<int>, i: nat, v: int): seq<int> {
    if i < |packet| then packet[i := v] else packet
  }

  /** One step of send_task_udp. */
  function TaskStep(cfg: Config, st: State): State {
    var k := st.Reading();
    var c := st.Ch(k);
    match st.pc
    case Take =>
      if c.owner != Free then st else st.With(k, c.(owner := Task)).(pc := Check)
    case Check =>
      if !c.buf.full then st.(pc := Give)
      else st.(pc := Drain, current := [], counter := st.counter + 2,
               packet := Store(Store(st.packet, st.counter, cfg.id), st.counter + 1,
                               TimeWord(c.buf.time, cfg.start)))
    case Drain =>
      if !c.buf.full || c.buf.contents == [] then
        var b := Batch(k, c.buf.time, st.current);
        st.(pc := Give, batches := st.batches + [b], cycle := st.cycle + [b], current := [])
      else
        var s := c.buf.contents[0];
        var rest := c.buf.contents[1..];
        st.With(k, c.(buf := Buf(rest, rest != [], c.buf.time)))
          .(current := st.current + [s], counter := st.counter + 1,
            packet := Store(st.packet, st.counter, s.value))
    case Give =>
      var st1 := st.With(k, c.(owner := Free)).(pc := Take, lastRead := k);
      // after buffer 2 the packet is complete and the next cycle begins
      if k == 2 then st1.(counter := 0, cycle := []) else st1
  }

  datatype Step = IsrTick(now: int) | SendStep

  function Next(cfg: Config, st: State, step: Step): State {
    match step
    case IsrTick(now) => Tick(cfg, st, now)
    case SendStep => TaskStep(cfg, st)
  }

  /** The state after any interleaving of interrupts and task steps. */
  function Run(cfg: Config, steps: seq<Step>): State {
    if steps == [] then Init(cfg)
    else Next(cfg, Run(cfg, steps[..|steps| - 1]), steps[|steps| - 1])
  }

  // ---------------------------------------------------------------- the invariant

  /** Consecutive ticks, each with the value the interrupt counts. */
  ghost predicate Consecutive(s: seq<Sample>) {
    forall i :: 0 <= i < |s| ==> s[i] == Sample(s[0].tick + i, (s[0].tick + i + 1) % VALUES)
  }

  /** Consecutive samples whose timestamp is the time of the first. */
  ghost predicate Stamped(s: seq<Sample>, time: int, clock: seq<int>) {
    Consecutive(s) && (s != [] ==> s[0].tick + |s| <= |clock| && clock[s[0].tick] == time)
  }

  ghost predicate BatchOk(cfg: Config, b: Batch, clock: seq<int>) {
    |b.samples| == cfg.size && Stamped(b.samples, b.time, clock) && (b.channel == 1 || b.channel == 2)
  }

  /** What holds of buffer `k` and its lock between any two steps. */
  ghost predicate LockInv(cfg: Config, st: State, k: int) {
    var c := st.Ch(k);
    var n := |c.buf.contents|;
    // the flag tells who owns the lock
    && (c.holder <==> c.owner == Isr)
    && (c.owner == Task <==> k == st.Reading() && st.pc != Take)
    // the interrupt owns only the buffer it is filling: begun, and not yet full
    && (c.owner == Isr ==> k == st.Target() && 0 < n < cfg.size && !c.buf.full)
    // a free buffer is empty or freshly full
    && (c.owner == Free ==> n == if c.buf.full then cfg.size else 0)
    && (c.owner == Task && st.pc == Check ==> n == if c.buf.full then cfg.size else 0)
    && (c.owner == Task && st.pc == Drain ==> (c.buf.full <==> n > 0) && |st.current| + n == cfg.size)
    && (c.owner == Task && st.pc == Give ==> n == 0 && !c.buf.full)
  }

  ghost predicate Locks(cfg: Config, st: State) {
    && st.lastWritten in {1, 2} && st.lastRead in {1, 2}
    && st.testVar == |st.clock| % VALUES
    && (st.pc != Drain ==> st.current == [])
    && LockInv(cfg, st, 1) && LockInv(cfg, st, 2)
  }

  /** The samples in buffer `k`, with those already taken out by the running drain. */
  ghost function Pending(st: State, k: int): seq<Sample> {
    var c := st.Ch(k);
    if c.owner == Task then st.current + c.buf.contents else c.buf.contents
  }

  ghost predicate DataInv(st: State, k: int) {
    && Stamped(Pending(st, k), st.Ch(k).buf.time, st.clock)
    && (st.Ch(k).owner == Isr && Pending(st, k) != [] ==>
          Pending(st, k)[0].tick + |Pending(st, k)| == |st.clock|)
  }

  ghost predicate BatchesOk(cfg: Config, batches: seq<Batch>, clock: seq<int>) {
    forall i :: 0 <= i < |batches| ==> BatchOk(cfg, batches[i], clock)
  }

  ghost predicate Inv(cfg: Config, st: State) {
    Locks(cfg, st) && DataInv(st, 1) && DataInv(st, 2) && BatchesOk(cfg, st.batches, st.clock)
  }

  lemma InitInv(cfg: Config)
    requires cfg.Valid()
    ensures Inv(cfg, Init(cfg))
  {
  }

  lemma PutConsecutive(s: seq<Sample>, time: int, clock: seq<int>, now: int)
    requires Stamped(s, time, clock) && (s != [] ==> s[0].tick + |s| == |clock|)
    requires s == [] ==> time == now
    ensures Stamped(s + [Sample(|clock|, (|clock| + 1) % VALUES)], time, clock + [now])
  {
  }

  lemma StampedLater(s: seq<Sample>, time: int, clock: seq<int>, now: int)
    requires Stamped(s, time, clock)
    ensures Stamped(s, time, clock + [now])
  {
  }

  lemma TickFields(cfg: Config, st: State, now: int)
    requires cfg.Valid() && st.lastWritten in {1, 2} && st.testVar == |st.clock| % VALUES
    ensures var st' := Tick(cfg, st, now);
            && st'.testVar == |st'.clock| % VALUES
            && st'.lastWritten == (if IsrOn(cfg, st.Ch(st.Target()), NextSample(st), now).2
                                   then st.Target() else st.lastWritten)
            && st'.pc == st.pc && st'.lastRead == st.lastRead && st'.current == st.current
  {
  }

  lemma TickKeepsLocks(cfg: Config, st: State, now: int)
    requires cfg.Valid() && Locks(cfg, st)
    ensures Locks(cfg, Tick(cfg, st, now))
  {
    TickChannel(cfg, st, now, 1);
    TickChannel(cfg, st, now, 2);
    TickFields(cfg, st, now);
  }

  /** The interrupt writes into buffer `k` exactly in these cases. */
  predicate Writes(st: State, k: int) {
    && k == st.Target()
    && (st.Ch(k).owner == Isr || (st.Ch(k).owner == Free && !st.Ch(k).buf.full))
  }

  lemma TickPending(cfg: Config, st: State, now: int, k: int)
    requires cfg.Valid() && Locks(cfg, st) && (k == 1 || k == 2)
    ensures var st' := Tick(cfg, st, now); var c := st.Ch(k); var c' := st'.Ch(k);
            && st'.clock == st.clock + [now] && st'.batches == st.batches
            && (Writes(st, k) ==>
                 && Pending(st', k) == Pending(st, k) + [Sample(|st.clock|, (|st.clock| + 1) % VALUES)]
                 && c'.buf.time == (if c.owner == Isr then c.buf.time else now)
                 && (c.owner != Isr ==> Pending(st, k) == []))
            && (!Writes(st, k) ==>
                 c'.owner != Isr && Pending(st', k) == Pending(st, k) && c'.buf.time == c.buf.time)
  {
    TickChannel(cfg, st, now, k);
    TickLeavesTask(cfg, st, now);
  }

  lemma TickChannel(cfg: Config, st: State, now: int, k: int)
    requires st.lastWritten in {1, 2} && (k == 1 || k == 2)
    ensures var st' := Tick(cfg, st, now);
            && st'.clock == st.clock + [now] && st'.batches == st.batches
            && st'.written == (if IsrOn(cfg, st.Ch(st.Target()), NextSample(st), now).1
                               then st.written + [NextSample(st)] else st.written)
            && st'.Ch(k) == if k == st.Target() then IsrOn(cfg, st.Ch(k), NextSample(st), now).0 else st.Ch(k)
  {
  }

  lemma TickKeepsData(cfg: Config, st: State, now: int, k: int)
    requires cfg.Valid() && Locks(cfg, st) && (k == 1 || k == 2) && DataInv(st, k)
    ensures DataInv(Tick(cfg, st, now), k)
  {
    TickPending(cfg, st, now, k);
    var c := st.Ch(k);
    if Writes(st, k) {
      if c.owner == Isr {
        PutConsecutive(Pending(st, k), c.buf.time, st.clock, now);
      } else {
        PutConsecutive([], now, st.clock, now);
      }
    } else {
      StampedLater(Pending(st, k), c.buf.time, st.clock, now);
    }
  }

  lemma TickKeepsBatches(cfg: Config, batches: seq<Batch>, clock: seq<int>, now: int)
    requires BatchesOk(cfg, batches, clock)
    ensures BatchesOk(cfg, batches, clock + [now])
  {
    forall i | 0 <= i < |batches| ensures BatchOk(cfg, batches[i], clock + [now]) {
      StampedLater(batches[i].samples, batches[i].time, clock, now);
    }
  }

  lemma TaskKeepsLocks(cfg: Config, st: State)
    requires cfg.Valid() && Locks(cfg, st)
    ensures Locks(cfg, TaskStep(cfg, st))
  {
    match st.pc {
      case Take =>
      case Check =>
      case Drain =>
      case Give =>
    }
  }

  lemma TaskKeepsPending(cfg: Config, st: State, k: int)
    requires cfg.Valid() && Locks(cfg, st) && (k == 1 || k == 2)
    ensures var st' := TaskStep(cfg, st);
            && st'.clock == st.clock
            && st'.Ch(k).buf.time == st.Ch(k).buf.time
            && (st'.Ch(k).owner == Isr <==> st.Ch(k).owner == Isr)
            && Pending(st', k) == (if |st'.batches| == |st.batches| || k != st.Reading() then Pending(st, k) else [])
  {
    var c := st.Ch(k);
    if k == st.Reading() && st.pc == Drain && c.buf.contents != [] {
      assert (st.current + [c.buf.contents[0]]) + c.buf.contents[1..] == st.current + c.buf.contents;
    }
  }

  lemma TaskKeepsData(cfg: Config, st: State, k: int)
    requires cfg.Valid() && Locks(cfg, st) && (k == 1 || k == 2) && DataInv(st, k)
    ensures DataInv(TaskStep(cfg, st), k)
  {
    TaskKeepsPending(cfg, st, k);
  }

  lemma TaskKeepsBatches(cfg: Config, st: State)
    requires cfg.Valid() && Inv(cfg, st)
    ensures BatchesOk(cfg, TaskStep(cfg, st).batches, st.clock)
  {
    var k := st.Reading();
    var c := st.Ch(k);
    if st.pc == Drain && c.buf.contents == [] {
      assert st.current + c.buf.contents == st.current;
      assert BatchOk(cfg, Batch(k, c.buf.time, st.current), st.clock);
    }
  }

  /** One interrupt keeps the invariant. */
  lemma TickKeepsInv(cfg: Config, st: State, now: int)
    requires cfg.Valid() && Inv(cfg, st)
    ensures Inv(cfg, Tick(cfg, st, now))
  {
    TickKeepsLocks(cfg, st, now);
    TickKeepsData(cfg, st, now, 1);
    TickKeepsData(cfg, st, now, 2);
    TickKeepsBatches(cfg, st.batches, st.clock, now);
    TickPending(cfg, st, now, 1);
  }

  /** One step of the task keeps the invariant. */
  lemma TaskKeepsInv(cfg: Config, st: State)
    requires cfg.Valid() && Inv(cfg, st)
    ensures Inv(cfg, TaskStep(cfg, st))
  {
    TaskKeepsLocks(cfg, st);
    TaskKeepsData(cfg, st, 1);
    TaskKeepsData(cfg, st, 2);
    TaskKeepsBatches(cfg, st);
    TaskKeepsPending(cfg, st, 1);
  }

  /** Every interleaving keeps the invariant. */
  lemma {:induction false} RunInv(cfg: Config, steps: seq<Step>)
    requires cfg.Valid()
    ensures Inv(cfg, Run(cfg, steps))
  {
    if steps == [] {
      InitInv(cfg);
    } else {
      RunInv(cfg, steps[..|steps| - 1]);
      var st := Run(cfg, steps[..|steps| - 1]);
      match steps[|steps| - 1]
      case IsrTick(now) => TickKeepsInv(cfg, st, now);
      case SendStep => TaskKeepsInv(cfg, st);
    }
  }

  // ---------------------------------------------------------------- what follows at once

  /** SAFETY of the locks over every interleaving: each holder flag is set exactly while the
      interrupt owns that lock, the interrupt never owns both, and a free buffer is empty
      or freshly full, so the task never finds a partially filled one. */
  lemma {:induction false} LocksAreSafe(cfg: Config, steps: seq<Step>)
    requires cfg.Valid()
    ensures var st := Run(cfg, steps);
            && (st.ch1.holder <==> st.ch1.owner == Isr) && (st.ch2.holder <==> st.ch2.owner == Isr)
            && !(st.ch1.owner == Isr && st.ch2.owner == Isr)
            && (forall k :: (k == 1 || k == 2) && st.Ch(k).owner == Free ==>
                  |st.Ch(k).buf.contents| == if st.Ch(k).buf.full then cfg.size else 0)
            && (st.pc == Check ==>
                 var c := st.Ch(st.Reading());
                 c.owner == Task && |c.buf.contents| == if c.buf.full then cfg.size else 0)
  {
    RunInv(cfg, steps);
  }

  /** INTEGRITY: every drained batch is `size` samples of consecutive ticks, with values
      counting modulo 50000, and carries the time of its first tick. */
  lemma {:induction false} BatchesAreWhole(cfg: Config, steps: seq<Step>, i: nat)
    requires cfg.Valid() && i < |Run(cfg, steps).batches|
    ensures var st := Run(cfg, steps); var b := st.batches[i];
            && |b.samples| == cfg.size
            && b.samples[0].tick + cfg.size <= |st.clock|
            && b.time == st.clock[b.samples[0].tick]
            && forall j :: 0 <= j < cfg.size ==>
                 b.samples[j] == Sample(b.samples[0].tick + j, (b.samples[0].tick + j + 1) % VALUES)
  {
    RunInv(cfg, steps);
    var st := Run(cfg, steps);
    assert BatchOk(cfg, st.batches[i], st.clock);
  }

  // ---------------------------------------------------------------- conservation

  function Flat(batches: seq<Batch>): seq<Sample> {
    if batches == [] then [] else Flat(batches[..|batches| - 1]) + batches[|batches| - 1].samples
  }

  /** In the order of the ticks, each tick at most once. */
  ghost predicate Ascending(s: seq<Sample>, limit: nat) {
    && (forall i, j :: 0 <= i < j < |s| ==> s[i].tick < s[j].tick)
    && (forall i :: 0 <= i < |s| ==> s[i].tick < limit)
  }

  ghost predicate Conserved(st: State) {
    && Ascending(st.written, |st.clock|)
    && multiset(st.written) ==
         multiset(Flat(st.batches)) + multiset(Pending(st, 1)) + multiset(Pending(st, 2))
  }

  lemma TickWrites(cfg: Config, st: State, now: int)
    requires cfg.Valid() && Locks(cfg, st)
    ensures Tick(cfg, st, now).written ==
            if Writes(st, st.Target())
            then st.written + [Sample(|st.clock|, (|st.clock| + 1) % VALUES)] else st.written
  {
    TickChannel(cfg, st, now, st.Target());
  }

  lemma AscendingAppend(w: seq<Sample>, n: nat, s: Sample)
    requires Ascending(w, n) && s.tick == n
    ensures Ascending(w + [s], n + 1) && Ascending(w, n + 1)
  {
  }

  lemma TickConserves(cfg: Config, st: State, now: int)
    requires cfg.Valid() && Locks(cfg, st) && Conserved(st)
    ensures Conserved(Tick(cfg, st, now))
  {
    var st' := Tick(cfg, st, now);
    TickPending(cfg, st, now, 1);
    TickPending(cfg, st, now, 2);
    TickWrites(cfg, st, now);
    var grows := if Writes(st, 1) then 1 else if Writes(st, 2) then 2 else 0;
    TickBalance(st, st', Sample(|st.clock|, (|st.clock| + 1) % VALUES), now, grows);
  }

  /** The bookkeeping of one written sample. */
  lemma TickBalance(st: State, st': State, s: Sample, now: int, grows: int)
    requires Conserved(st) && s.tick == |st.clock|
    requires st'.clock == st.clock + [now] && st'.batches == st.batches
    requires st'.written == if grows == 0 then st.written else st.written + [s]
    requires grows in {0, 1, 2}
    requires Pending(st', 1) == if grows == 1 then Pending(st, 1) + [s] else Pending(st, 1)
    requires Pending(st', 2) == if grows == 2 then Pending(st, 2) + [s] else Pending(st, 2)
    ensures Conserved(st')
  {
    AscendingAppend(st.written, |st.clock|, s);
    SumGrows(st.written, Flat(st.batches), Pending(st, 1), Pending(st, 2), s);
    SumGrows(st.written, Flat(st.batches), Pending(st, 2), Pending(st, 1), s);
  }

  lemma SumGrows(w: seq<Sample>, f: seq<Sample>, p: seq<Sample>, q: seq<Sample>, s: Sample)
    requires multiset(w) == multiset(f) + multiset(p) + multiset(q)
    ensures multiset(w + [s]) == multiset(f) + multiset(p + [s]) + multiset(q)
  {
  }

  lemma TaskBatches(cfg: Config, st: State)
    requires cfg.Valid() && Locks(cfg, st)
    ensures var st' := TaskStep(cfg, st); var k := st.Reading();
            && st'.written == st.written
            && (st'.batches == st.batches ||
                st'.batches == st.batches + [Batch(k, st.Ch(k).buf.time, Pending(st, k))])
  {
    var k := st.Reading();
    if st.pc == Drain && st.Ch(k).buf.contents == [] {
      assert st.current + st.Ch(k).buf.contents == st.current;
    }
  }

  lemma {:induction false} FlatAppend(batches: seq<Batch>, b: Batch)
    ensures Flat(batches + [b]) == Flat(batches) + b.samples
  {
    assert (batches + [b])[..|batches|] == batches;
  }

  lemma TaskConserves(cfg: Config, st: State)
    requires cfg.Valid() && Locks(cfg, st) && Conserved(st)
    ensures Conserved(TaskStep(cfg, st))
  {
    TaskKeepsPending(cfg, st, 1);
    TaskKeepsPending(cfg, st, 2);
    TaskBatches(cfg, st);
    var k := st.Reading();
    FlatAppend(st.batches, Batch(k, st.Ch(k).buf.time, Pending(st, k)));
    TaskBalance(st, TaskStep(cfg, st), k);
  }

  /** The bookkeeping of one finished batch. */
  lemma TaskBalance(st: State, st': State, k: int)
    requires Conserved(st) && st'.clock == st.clock && st'.written == st.written && (k == 1 || k == 2)
    requires (st'.batches == st.batches && Pending(st', k) == Pending(st, k)) ||
             (Flat(st'.batches) == Flat(st.batches) + Pending(st, k) && Pending(st', k) == [])
    requires Pending(st', 3 - k) == Pending(st, 3 - k)
    ensures Conserved(st')
  {
  }

  /** CONSERVATION over every interleaving: what was written is exactly what was drained or
      is still buffered, sample by sample. */
  lemma {:induction false} RunConserves(cfg: Config, steps: seq<Step>)
    requires cfg.Valid()
    ensures Conserved(Run(cfg, steps))
  {
    if steps != [] {
      var front := steps[..|steps| - 1];
      RunConserves(cfg, front);
      RunInv(cfg, front);
      match steps[|steps| - 1]
      case IsrTick(now) => TickConserves(cfg, Run(cfg, front), now);
      case SendStep => TaskConserves(cfg, Run(cfg, front));
    }
  }

  lemma {:induction false} AscendingOnce(s: seq<Sample>, limit: nat, x: Sample)
    requires Ascending(s, limit)
    ensures multiset(s)[x] <= 1
  {
    if s != [] {
      var n := |s| - 1;
      AscendingOnce(s[..n], limit, x);
      assert s == s[..n] + [s[n]];
      assert x == s[n] ==> x !in s[..n];
    }
  }

  /** No sample is drained twice, or drained and still buffered. */
  lemma {:induction false} NothingTwice(cfg: Config, steps: seq<Step>, x: Sample)
    requires cfg.Valid()
    ensures var st := Run(cfg, steps);
            multiset(Flat(st.batches))[x] + multiset(Pending(st, 1))[x] + multiset(Pending(st, 2))[x] <= 1
  {
    RunConserves(cfg, steps);
    var st := Run(cfg, steps);
    AscendingOnce(st.written, |st.clock|, x);
  }

  // ---------------------------------------------------------------- the packet

  function Values(s: seq<Sample>): (r: seq<int>)
    ensures |r| == |s|
  {
    seq(|s|, i requires 0 <= i < |s| => s[i].value)
  }

  function Header(cfg: Config, time: int): seq<int> {
    [cfg.id, TimeWord(time, cfg.start)]
  }

  /** Sensor id, time of the first sample, samples. */
  function Layout(cfg: Config, b: Batch): seq<int> {
    Header(cfg, b.time) + Values(b.samples)
  }

  function LayoutAll(cfg: Config, batches: seq<Batch>): seq<int> {
    if batches == [] then []
    else LayoutAll(cfg, batches[..|batches| - 1]) + Layout(cfg, batches[|batches| - 1])
  }

  /** What the packet buffer holds up to `counter`. */
  ghost function Filled(cfg: Config, st: State): seq<int> {
    LayoutAll(cfg, st.cycle) +
    if st.pc == Drain then Header(cfg, st.Ch(st.Reading()).buf.time) + Values(st.current) else []
  }

  /** Which buffers can have been drained in the running cycle. */
  ghost predicate CycleInv(cfg: Config, st: State) {
    && |st.cycle| <= (if st.Reading() == 2 then 1 else 0) + (if st.pc == Give then 1 else 0)
    && (forall i :: 0 <= i < |st.cycle| ==> |st.cycle[i].samples| == cfg.size)
    && (|st.cycle| == 2 ==> st.cycle[0].channel == 1)
    && (|st.cycle| == 1 && !(st.Reading() == 2 && st.pc == Give) ==> st.cycle[0].channel == 1)
    && (|st.cycle| == 2 ==> st.cycle[1].channel == 2)
  }

  ghost predicate PacketInv(cfg: Config, st: State) {
    && |st.packet| == 2 * cfg.size + 4
    && CycleInv(cfg, st)
    && st.counter == |Filled(cfg, st)| <= |st.packet|
    && st.packet[..st.counter] == Filled(cfg, st)
  }

  lemma LayoutLength(cfg: Config, batches: seq<Batch>)
    requires |batches| <= 2
    requires forall i :: 0 <= i < |batches| ==> |batches[i].samples| == cfg.size
    ensures |LayoutAll(cfg, batches)| == |batches| * (cfg.size + 2)
  {
    if |batches| == 2 {
      assert batches[..1][..0] == [];
    }
  }

  lemma TaskKeepsCycle(cfg: Config, st: State)
    requires cfg.Valid() && Locks(cfg, st) && CycleInv(cfg, st)
    ensures CycleInv(cfg, TaskStep(cfg, st))
  {
  }

  lemma {:induction false} LayoutAppend(cfg: Config, batches: seq<Batch>, b: Batch)
    ensures LayoutAll(cfg, batches + [b]) == LayoutAll(cfg, batches) + Layout(cfg, b)
  {
    assert (batches + [b])[..|batches|] == batches;
  }

  lemma ValuesAppend(s: seq<Sample>, x: Sample)
    ensures Values(s + [x]) == Values(s) + [x.value]
  {
  }

  lemma ConcatAssociates<T>(a: seq<T>, b: seq<T>, c: seq<T>, d: seq<T>)
    ensures a + (b + (c + d)) == (a + (b + c)) + d
  {
  }

  lemma DrainFills(cfg: Config, st: State)
    requires cfg.Valid() && Locks(cfg, st) && st.pc == Drain
    ensures var c := st.Ch(st.Reading());
            Filled(cfg, TaskStep(cfg, st)) ==
              if c.buf.contents != [] then Filled(cfg, st) + [c.buf.contents[0].value] else Filled(cfg, st)
  {
    var c := st.Ch(st.Reading());
    if c.buf.contents == [] {
      LayoutAppend(cfg, st.cycle, Batch(st.Reading(), c.buf.time, st.current));
      assert Filled(cfg, TaskStep(cfg, st)) == LayoutAll(cfg, TaskStep(cfg, st).cycle);
    } else {
      ValuesAppend(st.current, c.buf.contents[0]);
      var value := c.buf.contents[0].value;
      ConcatAssociates(LayoutAll(cfg, st.cycle), Header(cfg, c.buf.time), Values(st.current), [value]);
    }
  }

  /** Every word the task stores is the next word of the layout. */
  lemma TaskFills(cfg: Config, st: State)
    requires cfg.Valid() && Locks(cfg, st)
    ensures var c := st.Ch(st.Reading());
            Filled(cfg, TaskStep(cfg, st)) ==
              if st.pc == Check && c.buf.full then Filled(cfg, st) + Header(cfg, c.buf.time)
              else if st.pc == Drain && c.buf.contents != [] then Filled(cfg, st) + [c.buf.contents[0].value]
              else if st.pc == Give && st.Reading() == 2 then []
              else Filled(cfg, st)
  {
    var c := st.Ch(st.Reading());
    if st.pc == Drain {
      DrainFills(cfg, st);
    } else {
      var all := LayoutAll(cfg, st.cycle);
      assert Filled(cfg, st) == all;
      assert all + (Header(cfg, c.buf.time) + []) == all + Header(cfg, c.buf.time);
    }
  }

  lemma StoreExtends(packet: seq<int>, filled: seq<int>, v: int)
    requires |filled| < |packet| && packet[..|filled|] == filled
    ensures |Store(packet, |filled|, v)| == |packet|
    ensures Store(packet, |filled|, v)[..|filled| + 1] == filled + [v]
  {
  }

  lemma StoreHeader(cfg: Config, packet: seq<int>, filled: seq<int>, time: int)
    requires |filled| + 1 < |packet| && packet[..|filled|] == filled
    ensures var p := Store(Store(packet, |filled|, cfg.id), |filled| + 1, TimeWord(time, cfg.start));
            |p| == |packet| && p[..|filled| + 2] == filled + Header(cfg, time)
  {
    StoreExtends(packet, filled, cfg.id);
    StoreExtends(Store(packet, |filled|, cfg.id), filled + [cfg.id], TimeWord(time, cfg.start));
  }

  lemma FilledFits(cfg: Config, st: State)
    requires cfg.Valid() && Locks(cfg, st) && CycleInv(cfg, st)
    ensures |Filled(cfg, st)| <= 2 * cfg.size + 4
    ensures st.pc == Check ==> |Filled(cfg, st)| + 2 <= 2 * cfg.size + 4
    ensures st.pc == Drain && st.Ch(st.Reading()).buf.contents != [] ==>
              |Filled(cfg, st)| + 1 <= 2 * cfg.size + 4
  {
    LayoutLength(cfg, st.cycle);
  }

  lemma TaskKeepsPacket(cfg: Config, st: State)
    requires cfg.Valid() && Locks(cfg, st) && PacketInv(cfg, st)
    ensures PacketInv(cfg, TaskStep(cfg, st))
  {
    TaskKeepsCycle(cfg, st);
    TaskKeepsLocks(cfg, st);
    FilledFits(cfg, st);
    FilledFits(cfg, TaskStep(cfg, st));
    TaskFills(cfg, st);
    TaskStores(cfg, st);
  }

  lemma TaskStores(cfg: Config, st: State)
    requires cfg.Valid() && Locks(cfg, st) && PacketInv(cfg, st)
    ensures var st' := TaskStep(cfg, st); var c := st.Ch(st.Reading()); var filled := Filled(cfg, st);
            && |st'.packet| == |st.packet|
            && st'.counter <= |st'.packet|
            && st'.packet[..st'.counter] ==
                 if st.pc == Check && c.buf.full then filled + Header(cfg, c.buf.time)
                 else if st.pc == Drain && c.buf.contents != [] then filled + [c.buf.contents[0].value]
                 else if st.pc == Give && st.Reading() == 2 then []
                 else filled
  {
    FilledFits(cfg, st);
    var c := st.Ch(st.Reading());
    if st.pc == Check && c.buf.full {
      StoreHeader(cfg, st.packet, Filled(cfg, st), c.buf.time);
    } else if st.pc == Drain && c.buf.contents != [] {
      StoreExtends(st.packet, Filled(cfg, st), c.buf.contents[0].value);
    }
  }

  lemma {:induction false} RunPacket(cfg: Config, steps: seq<Step>)
    requires cfg.Valid()
    ensures PacketInv(cfg, Run(cfg, steps))
  {
    if steps != [] {
      var front := steps[..|steps| - 1];
      var st := Run(cfg, front);
      RunPacket(cfg, front);
      RunInv(cfg, front);
      match steps[|steps| - 1]
      case IsrTick(now) => TickKeepsFilled(cfg, st, now);
      case SendStep => TaskKeepsPacket(cfg, st);
    }
  }

  /** The interrupt touches nothing that the packet is made from. */
  lemma TickLeavesTask(cfg: Config, st: State, now: int)
    requires cfg.Valid() && Locks(cfg, st)
    ensures var st' := Tick(cfg, st, now);
            && st'.pc == st.pc && st'.lastRead == st.lastRead && st'.counter == st.counter
            && st'.packet == st.packet && st'.cycle == st.cycle && st'.current == st.current
            && (st.pc != Take ==> st'.Ch(st.Reading()) == st.Ch(st.Reading()))
  {
  }

  lemma TickKeepsFilled(cfg: Config, st: State, now: int)
    requires cfg.Valid() && Locks(cfg, st) && PacketInv(cfg, st)
    ensures PacketInv(cfg, Tick(cfg, st, now))
  {
    TickLeavesTask(cfg, st, now);
    assert Filled(cfg, Tick(cfg, st, now)) == Filled(cfg, st);
  }

  lemma {:induction false} InitAll(cfg: Config)
    requires cfg.Valid()
    ensures Inv(cfg, Init(cfg)) && Conserved(Init(cfg)) && PacketInv(cfg, Init(cfg))
  {
    RunInv(cfg, []);
    RunConserves(cfg, []);
    RunPacket(cfg, []);
  }

  lemma TwoBatches(cfg: Config, cycle: seq<Batch>)
    requires |cycle| == 2
    ensures LayoutAll(cfg, cycle) == Layout(cfg, cycle[0]) + Layout(cfg, cycle[1])
  {
    assert LayoutAll(cfg, cycle[..1]) == LayoutAll(cfg, cycle[..1][..0]) + Layout(cfg, cycle[0]);
  }

  /** LAYOUT: when a packet is sent (the task gives back buffer 2), its filled part is the
      batches drained in this cycle, and with both buffers drained it is the whole packet:
      id, time and samples of buffer 1, then of buffer 2. */
  lemma {:induction false} PacketIsLaidOut(cfg: Config, steps: seq<Step>)
    requires cfg.Valid()
    ensures var st := Run(cfg, steps);
            && st.counter <= |st.packet| == 2 * cfg.size + 4
            && (st.pc == Give && st.Reading() == 2 ==>
                  st.packet[..st.counter] == LayoutAll(cfg, st.cycle))
            && (st.pc == Give && st.Reading() == 2 && |st.cycle| == 2 ==>
                  && st.cycle[0].channel == 1 && st.cycle[1].channel == 2
                  && st.packet == Layout(cfg, st.cycle[0]) + Layout(cfg, st.cycle[1]))
  {
    RunPacket(cfg, steps);
    var st := Run(cfg, steps);
    if st.pc == Give && st.Reading() == 2 {
      assert Filled(cfg, st) == LayoutAll(cfg, st.cycle);
      if |st.cycle| == 2 {
        LayoutLength(cfg, st.cycle);
        TwoBatches(cfg, st.cycle);
        assert st.packet[..st.counter] == st.packet;
      }
    }
  }

  /** From word `at` on: sensor id, microseconds from the start of the measurement to the first
      sample, and the samples. */
  ghost predicate Carries(cfg: Config, b: Batch, w: seq<int>, at: nat) {
    && |b.samples| == cfg.size && at + 2 + cfg.size <= |w|
    && w[at] == cfg.id && w[at + 1] == (b.time - cfg.start) % 0x1_0000_0000
    && forall i :: 0 <= i < cfg.size ==> w[at + 2 + i] == b.samples[i].value
  }

  lemma LayoutWords(cfg: Config, b1: Batch, b2: Batch)
    requires cfg.Valid() && |b1.samples| == |b2.samples| == cfg.size
    ensures var w := Layout(cfg, b1) + Layout(cfg, b2);
            |w| == 2 * cfg.size + 4 && Carries(cfg, b1, w, 0) && Carries(cfg, b2, w, cfg.size + 2)
  {
  }

  /** The same word by word, for buffer 1 and then for buffer 2. */
  lemma {:induction false} PacketWords(cfg: Config, steps: seq<Step>)
    requires cfg.Valid()
    ensures var st := Run(cfg, steps);
            st.pc == Give && st.Reading() == 2 && |st.cycle| == 2 ==>
              && st.cycle[0].channel == 1 && st.cycle[1].channel == 2 && |st.packet| == 2 * cfg.size + 4
              && Carries(cfg, st.cycle[0], st.packet, 0) && Carries(cfg, st.cycle[1], st.packet, cfg.size + 2)
  {
    var st := Run(cfg, steps);
    PacketIsLaidOut(cfg, steps);
    RunPacket(cfg, steps);
    if st.pc == Give && st.Reading() == 2 && |st.cycle| == 2 { LayoutWords(cfg, st.cycle[0], st.cycle[1]); }
  }

  /** One step changes the packet only below the new `counter`. */
  lemma StepKeepsTail(cfg: Config, st: State, step: Step, i: nat)
    requires cfg.Valid() && Locks(cfg, st) && PacketInv(cfg, st)
    requires Next(cfg, st, step).counter <= i < |st.packet| && st.counter <= i
    ensures |Next(cfg, st, step).packet| == |st.packet| && Next(cfg, st, step).packet[i] == st.packet[i]
  {
    match step
    case IsrTick(now) => TickLeavesTask(cfg, st, now);
    case SendStep =>
  }

  /** STALE WORDS: the whole array is sent in every cycle, but only the first `counter` words are
      of this cycle.  That is all of it if and only if both buffers were drained. */
  lemma {:induction false} PacketIsFreshIff(cfg: Config, steps: seq<Step>)
    requires cfg.Valid()
    ensures var st := Run(cfg, steps);
            st.pc == Give && st.Reading() == 2 ==> (st.counter == |st.packet| <==> |st.cycle| == 2)
  {
    RunPacket(cfg, steps);
    var st := Run(cfg, steps);
    if st.pc == Give && st.Reading() == 2 {
      LayoutLength(cfg, st.cycle);
      assert Filled(cfg, st) == LayoutAll(cfg, st.cycle);
    }
  }

  /** Without any sample so far the task sends an array of zeros. */
  lemma {:induction false} EmptyPacketIsSent(cfg: Config)
    requires cfg.Valid()
    ensures var st := Run(cfg, FiveSteps());
            st.pc == Give && st.Reading() == 2 && st.cycle == [] && st.packet == seq(2 * cfg.size + 4, _ => 0)
  {
    var five := FiveSteps();
    assert five[..4] == [SendStep, SendStep, SendStep, SendStep] && five[..4][..3] == [SendStep, SendStep, SendStep];
    assert five[..4][..3][..2] == [SendStep, SendStep] && five[..4][..3][..2][..1] == [SendStep];
    assert five[..4][..3][..2][..1][..0] == [];
    var s1 := TaskStep(cfg, Init(cfg));
    var s2 := TaskStep(cfg, s1);
    var s3 := TaskStep(cfg, s2);
    assert Run(cfg, five[..4][..3][..2][..1]) == s1;
    assert Run(cfg, five[..4][..3][..2]) == s2;
    assert Run(cfg, five[..4][..3]) == s3;
    assert Run(cfg, five[..4]) == TaskStep(cfg, s3);
  }

  /** Take, check and give buffer 1, then take and check buffer 2. */
  function FiveSteps(): seq<Step> {
    [SendStep, SendStep, SendStep, SendStep, SendStep]
  }

  /** The test before sending is meant to pass when more than 50 ms have gone by since the last
      send; it subtracts the wrong way round.  Its answer is the right one exactly when no time
      has passed, or more than 50 ms that are not close to a multiple of 2^32 microseconds. */
  lemma PacingTest(endSend: int, beginSend: int)
    requires endSend <= beginSend
    ensures var d := beginSend - endSend;
            && (TimeWord(endSend, beginSend) > 50000 <==> 0 < d % U32 < U32 - 50000)
            && ((TimeWord(endSend, beginSend) > 50000 <==> d > 50000) <==>
                 d == 0 || (d > 50000 && 0 < d % U32 < U32 - 50000))
  {
    var d := beginSend - endSend;
    assert (-d) % U32 == if d % U32 == 0 then 0 else U32 - d % U32;
  }

  /** One microsecond after the last send the test lets the next one pass. */
  lemma PacingTestPassesAtOnce(endSend: int)
    ensures TimeWord(endSend, endSend + 1) > 50000
  {
    PacingTest(endSend, endSend + 1);
  }
}
