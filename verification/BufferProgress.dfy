/** What the double-buffer protocol achieves: the interrupt changes to the other buffer when it
    has filled one, and the task drains every full buffer, whatever happens in between. */
module BufferProgress {
  import opened DoubleBuffer
  import opened Words

  // ---------------------------------------------------------------- the interrupt alternates

  /** This step fills buffer `k`. */
  ghost predicate Fills(cfg: Config, st: State, step: Step, k: int) {
    (k == 1 || k == 2) && !st.Ch(k).buf.full && Next(cfg, st, step).Ch(k).buf.full
  }

  /** A buffer that the interrupt has filled is left: the other one comes next. */
  lemma FilledBufferIsLeft(cfg: Config, st: State, now: int, k: int)
    requires cfg.Valid() && Locks(cfg, st) && Fills(cfg, st, IsrTick(now), k)
    ensures st.Target() == k && Tick(cfg, st, now).Target() == 3 - k
    ensures Tick(cfg, st, now).Ch(k).owner == Free
  {
    TickChannel(cfg, st, now, k);
    TickFields(cfg, st, now);
  }

  /** A buffer that is not filled yet is kept. */
  lemma UnfilledBufferIsKept(cfg: Config, st: State, step: Step)
    requires cfg.Valid() && Locks(cfg, st)
    requires !Fills(cfg, st, step, 1) && !Fills(cfg, st, step, 2)
    ensures Next(cfg, st, step).lastWritten == st.lastWritten
  {
    if step.IsrTick? {
      TickChannel(cfg, st, step.now, st.Target());
      TickFields(cfg, st, step.now);
    }
  }

  /** The task fills nothing. */
  lemma TaskFillsNothing(cfg: Config, st: State, k: int)
    requires cfg.Valid() && Locks(cfg, st)
    ensures !Fills(cfg, st, SendStep, k) && TaskStep(cfg, st).lastWritten == st.lastWritten
  {
  }

  /** The buffer filled last in a run; before the first one, buffer 2. */
  ghost function LastFilled(cfg: Config, steps: seq<Step>): int {
    if steps == [] then 2
    else
      var front, step := steps[..|steps| - 1], steps[|steps| - 1];
      if Fills(cfg, Run(cfg, front), step, 1) then 1
      else if Fills(cfg, Run(cfg, front), step, 2) then 2
      else LastFilled(cfg, front)
  }

  lemma {:induction false} LastFilledIsLastWritten(cfg: Config, steps: seq<Step>)
    requires cfg.Valid()
    ensures LastFilled(cfg, steps) == Run(cfg, steps).lastWritten && LastFilled(cfg, steps) in {1, 2}
  {
    if steps != [] {
      var front, step := steps[..|steps| - 1], steps[|steps| - 1];
      var st := Run(cfg, front);
      RunInv(cfg, front);
      LastFilledIsLastWritten(cfg, front);
      if Fills(cfg, st, step, 1) {
        FillsByTick(cfg, st, step, 1);
      } else if Fills(cfg, st, step, 2) {
        FillsByTick(cfg, st, step, 2);
      } else {
        UnfilledBufferIsKept(cfg, st, step);
      }
    }
  }

  lemma FillsByTick(cfg: Config, st: State, step: Step, k: int)
    requires cfg.Valid() && Locks(cfg, st) && Fills(cfg, st, step, k)
    ensures st.lastWritten == 3 - k && Next(cfg, st, step).lastWritten == k
  {
    match step
    case IsrTick(now) => FilledBufferIsLeft(cfg, st, now, k);
    case SendStep => TaskFillsNothing(cfg, st, k);
  }

  /** FILLS ALTERNATE over every interleaving: each buffer that is filled is the other one than
      the buffer filled before, the first one is buffer 1, and the next samples go to the
      buffer not filled last. */
  lemma {:induction false} FillsAlternate(cfg: Config, steps: seq<Step>, step: Step, k: int)
    requires cfg.Valid() && Fills(cfg, Run(cfg, steps), step, k)
    ensures k == 3 - LastFilled(cfg, steps)
    ensures Run(cfg, steps + [step]).Target() == 3 - k
  {
    RunInv(cfg, steps);
    LastFilledIsLastWritten(cfg, steps);
    FillsByTick(cfg, Run(cfg, steps), step, k);
    assert (steps + [step])[..|steps|] == steps;
  }

  /** At this tick the next sample is written or dropped, depending on buffer `k` alone: it is
      dropped exactly if the task holds the buffer, or has not drained it yet. */
  ghost predicate DroppedIffTaken(cfg: Config, st: State, now: int, k: int) {
    var written, c := Tick(cfg, st, now).written, st.Ch(k);
    && (written == st.written <==> c.owner == Task || (c.owner == Free && c.buf.full))
    && (written != st.written ==> written == st.written + [Sample(|st.clock|, (|st.clock| + 1) % VALUES)])
  }

  /** A SAMPLE IS DROPPED, over every interleaving, exactly if the buffer whose turn it is, the
      one not filled last, is held by the task or not drained yet. */
  lemma {:induction false} SampleDroppedIff(cfg: Config, steps: seq<Step>, now: int)
    requires cfg.Valid()
    ensures DroppedIffTaken(cfg, Run(cfg, steps), now, 3 - LastFilled(cfg, steps))
  {
    RunInv(cfg, steps);
    LastFilledIsLastWritten(cfg, steps);
    DroppedByTickIff(cfg, Run(cfg, steps), now, 3 - LastFilled(cfg, steps));
  }

  lemma DroppedByTickIff(cfg: Config, st: State, now: int, k: int)
    requires cfg.Valid() && Locks(cfg, st) && k == 3 - st.lastWritten
    ensures DroppedIffTaken(cfg, st, now, k)
  {
    TickWrites(cfg, st, now);
    assert st.Target() == k;
    assert |st.written + [Sample(|st.clock|, (|st.clock| + 1) % VALUES)]| == |st.written| + 1;
  }

  /** The interrupt holds a lock no longer than it takes to fill the buffer: each of its ticks
      adds one sample, and the last one gives the lock back. */
  lemma IsrFills(cfg: Config, st: State, now: int, k: int)
    requires cfg.Valid() && Locks(cfg, st) && (k == 1 || k == 2) && st.Ch(k).owner == Isr
    ensures var c, c' := st.Ch(k).buf.contents, Tick(cfg, st, now).Ch(k);
            && |c'.buf.contents| == |c| + 1
            && (if |c| + 1 == cfg.size then c'.owner == Free && c'.buf.full else c'.owner == Isr)
  {
    TickChannel(cfg, st, now, k);
  }

  // ---------------------------------------------------------------- the task drains

  /** The task waits for a lock that the interrupt holds. */
  predicate Blocked(st: State) {
    st.pc == Take && st.Ch(st.Reading()).owner == Isr
  }

  /** A full buffer to be drained: its number, time and samples, and how many batches there
      were at the start. */
  datatype Goal = Goal(k: int, time: int, samples: seq<Sample>, before: nat)

  /** The buffer is waiting, or being drained. */
  ghost predicate Waiting(cfg: Config, st: State, g: Goal) {
    var c := st.Ch(g.k);
    && Locks(cfg, st) && (g.k == 1 || g.k == 2)
    && |g.samples| == cfg.size && g.before <= |st.batches| && c.buf.time == g.time
    && if st.Reading() == g.k && st.pc != Take
       then st.pc != Give && (st.pc == Check ==> c.buf.full) && Pending(st, g.k) == g.samples
       else c.owner == Free && c.buf.full && c.buf.contents == g.samples
  }

  ghost predicate Drained(st: State, g: Goal) {
    exists i :: g.before <= i < |st.batches| && st.batches[i] == Batch(g.k, g.time, g.samples)
  }

  /** Steps the task still needs for the buffer it is at. */
  ghost function Here(cfg: Config, st: State): nat {
    var c := st.Ch(st.Reading());
    match st.pc
    case Take => cfg.size + 4
    case Check => if c.buf.full then cfg.size + 3 else 2
    case Drain => |c.buf.contents| + 2
    case Give => 1
  }

  /** Steps the task still needs until the batch is there. */
  ghost function Togo(cfg: Config, st: State, g: Goal): int {
    if st.Reading() == g.k then Here(cfg, st) - 1 else Here(cfg, st) + cfg.size + 3
  }

  /** Every step of the task that is not blocked brings it closer. */
  lemma TaskProgress(cfg: Config, st: State, g: Goal)
    requires cfg.Valid() && Waiting(cfg, st, g) && !Blocked(st)
    ensures var st' := TaskStep(cfg, st);
            Drained(st', g) || (Waiting(cfg, st', g) && Togo(cfg, st', g) < Togo(cfg, st, g))
  {
    TaskKeepsLocks(cfg, st);
    TaskKeepsPending(cfg, st, g.k);
    if st.Reading() == g.k {
      AtTheBuffer(cfg, st, g);
    } else {
      AtTheOther(cfg, st, g);
    }
  }

  lemma AtTheBuffer(cfg: Config, st: State, g: Goal)
    requires cfg.Valid() && Waiting(cfg, st, g) && !Blocked(st) && st.Reading() == g.k
    requires Locks(cfg, TaskStep(cfg, st))
    ensures var st' := TaskStep(cfg, st);
            Drained(st', g) || (Waiting(cfg, st', g) && Togo(cfg, st', g) < Togo(cfg, st, g))
  {
    var st', c := TaskStep(cfg, st), st.Ch(g.k);
    if st.pc == Drain {
      if c.buf.contents == [] {
        assert st.current + c.buf.contents == st.current;
        assert st'.batches[|st.batches|] == Batch(g.k, g.time, g.samples);
      } else {
        assert (st.current + [c.buf.contents[0]]) + c.buf.contents[1..] == st.current + c.buf.contents;
      }
    } else if st.pc == Check {
      assert [] + c.buf.contents == st.current + c.buf.contents;
    }
  }

  lemma AtTheOther(cfg: Config, st: State, g: Goal)
    requires cfg.Valid() && Waiting(cfg, st, g) && !Blocked(st) && st.Reading() != g.k
    requires Locks(cfg, TaskStep(cfg, st))
    ensures var st' := TaskStep(cfg, st);
            Waiting(cfg, st', g) && Togo(cfg, st', g) < Togo(cfg, st, g)
  {
  }

  /** Nothing else takes it further away. */
  lemma OthersKeepWaiting(cfg: Config, st: State, step: Step, g: Goal)
    requires cfg.Valid() && Waiting(cfg, st, g) && (step.IsrTick? || Blocked(st))
    ensures Waiting(cfg, Next(cfg, st, step), g) && Togo(cfg, Next(cfg, st, step), g) == Togo(cfg, st, g)
  {
    match step
    case IsrTick(now) =>
      TickKeepsLocks(cfg, st, now);
      TickLeavesTask(cfg, st, now);
      TickChannel(cfg, st, now, g.k);
    case SendStep =>
  }

  lemma BatchesGrow(cfg: Config, st: State, step: Step, g: Goal)
    requires Drained(st, g)
    ensures Drained(Next(cfg, st, step), g)
  {
    var i :| g.before <= i < |st.batches| && st.batches[i] == Batch(g.k, g.time, g.samples);
    assert Next(cfg, st, step).batches[i] == st.batches[i];
  }

  /** How many steps of the task in a run from `st` are not blocked. */
  ghost function Effective(cfg: Config, st: State, steps: seq<Step>): nat {
    if steps == [] then 0
    else
      var front, step := steps[..|steps| - 1], steps[|steps| - 1];
      Effective(cfg, st, front) + if step.SendStep? && !Blocked(RunFrom(cfg, st, front)) then 1 else 0
  }

  function RunFrom(cfg: Config, st: State, steps: seq<Step>): State {
    if steps == [] then st
    else Next(cfg, RunFrom(cfg, st, steps[..|steps| - 1]), steps[|steps| - 1])
  }

  lemma {:induction false} RunFromContinues(cfg: Config, first: seq<Step>, more: seq<Step>)
    ensures RunFrom(cfg, Run(cfg, first), more) == Run(cfg, first + more)
  {
    if more == [] {
      assert first + more == first;
    } else {
      RunFromContinues(cfg, first, more[..|more| - 1]);
      assert (first + more)[..|first + more| - 1] == first + more[..|more| - 1];
    }
  }

  /** From any state in which a buffer waits. */
  lemma {:induction false} WaitingIsDrained(cfg: Config, st: State, steps: seq<Step>, g: Goal)
    requires cfg.Valid() && Waiting(cfg, st, g)
    ensures var st' := RunFrom(cfg, st, steps);
            || Drained(st', g)
            || (Waiting(cfg, st', g) && Togo(cfg, st', g) + Effective(cfg, st, steps) <= Togo(cfg, st, g))
  {
    if steps != [] {
      var front, step := steps[..|steps| - 1], steps[|steps| - 1];
      WaitingIsDrained(cfg, st, front, g);
      var mid := RunFrom(cfg, st, front);
      if Drained(mid, g) {
        BatchesGrow(cfg, mid, step, g);
      } else if step.SendStep? && !Blocked(mid) {
        TaskProgress(cfg, mid, g);
      } else {
        OthersKeepWaiting(cfg, mid, step, g);
      }
    }
  }

  ghost function Ticks(steps: seq<Step>): nat {
    if steps == [] then 0 else Ticks(steps[..|steps| - 1]) + if steps[|steps| - 1].IsrTick? then 1 else 0
  }

  /** While the task waits for the interrupt, each tick brings the buffer one sample closer. */
  lemma {:induction false} StaysBlocked(cfg: Config, st: State, steps: seq<Step>)
    requires cfg.Valid() && Locks(cfg, st) && Blocked(st)
    requires |st.Ch(st.Reading()).buf.contents| + Ticks(steps) < cfg.size
    ensures var st', k := RunFrom(cfg, st, steps), st.Reading();
            && Locks(cfg, st') && Blocked(st') && st'.Reading() == k
            && |st'.Ch(k).buf.contents| == |st.Ch(k).buf.contents| + Ticks(steps)
  {
    if steps != [] {
      var front, step := steps[..|steps| - 1], steps[|steps| - 1];
      StaysBlocked(cfg, st, front);
      var mid := RunFrom(cfg, st, front);
      match step
      case IsrTick(now) => BlockedTick(cfg, mid, now);
      case SendStep =>
    }
  }

  lemma BlockedTick(cfg: Config, st: State, now: int)
    requires cfg.Valid() && Locks(cfg, st) && Blocked(st)
    ensures var st', k, n := Tick(cfg, st, now), st.Reading(), |st.Ch(st.Reading()).buf.contents| + 1;
            && Locks(cfg, st') && st'.Reading() == k && st'.pc == Take && |st'.Ch(k).buf.contents| == n
            && if n < cfg.size then Blocked(st') else st'.Ch(k).owner == Free && st'.Ch(k).buf.full
  {
    TickKeepsLocks(cfg, st, now);
    TickLeavesTask(cfg, st, now);
    IsrFills(cfg, st, now, st.Reading());
  }

  /** NO DEADLOCK: whatever happens in between, the tick that brings the last sample lets the
      task through, to a full buffer. */
  lemma {:induction false} BlockedEnds(cfg: Config, st: State, steps: seq<Step>, now: int)
    requires cfg.Valid() && Locks(cfg, st) && Blocked(st)
    requires |st.Ch(st.Reading()).buf.contents| + Ticks(steps) + 1 == cfg.size
    ensures var st', k := RunFrom(cfg, st, steps + [IsrTick(now)]), st.Reading();
            && st'.pc == Take && st'.Reading() == k && !Blocked(st')
            && st'.Ch(k).owner == Free && st'.Ch(k).buf.full
  {
    StaysBlocked(cfg, st, steps);
    BlockedTick(cfg, RunFrom(cfg, st, steps), now);
    assert (steps + [IsrTick(now)])[..|steps|] == steps;
  }

  /** EVERY FULL BUFFER IS DRAINED: after any run that leaves buffer `k` full and free, every
      continuation with 2 * size + 8 steps of the task that are not blocked has its samples,
      with their time, as a new batch. */
  lemma {:induction false} FullBufferIsDrained(cfg: Config, steps: seq<Step>, more: seq<Step>, k: int)
    requires cfg.Valid() && (k == 1 || k == 2)
    requires Run(cfg, steps).Ch(k).owner == Free && Run(cfg, steps).Ch(k).buf.full
    requires Effective(cfg, Run(cfg, steps), more) >= 2 * cfg.size + 8
    ensures var st := Run(cfg, steps);
            Drained(Run(cfg, steps + more), Goal(k, st.Ch(k).buf.time, st.Ch(k).buf.contents, |st.batches|))
  {
    var st := Run(cfg, steps);
    var g := Goal(k, st.Ch(k).buf.time, st.Ch(k).buf.contents, |st.batches|);
    RunInv(cfg, steps);
    WaitingIsDrained(cfg, st, more, g);
    RunFromContinues(cfg, steps, more);
    RunInv(cfg, steps + more);
    TogoBounds(cfg, Run(cfg, steps + more), g);
    TogoBounds(cfg, st, g);
  }

  lemma TogoBounds(cfg: Config, st: State, g: Goal)
    requires cfg.Valid() && Locks(cfg, st)
    ensures 0 <= Togo(cfg, st, g) <= 2 * cfg.size + 7
  {
  }

  /** UNDISTURBED: a free full buffer whose turn it is is drained by exactly size + 3 steps of
      the task, and one more gives its lock back, empty. */
  lemma {:induction false} DrainTakesSizePlusFour(cfg: Config, st: State)
    requires cfg.Valid() && Locks(cfg, st) && st.pc == Take
    requires st.Ch(st.Reading()).owner == Free && st.Ch(st.Reading()).buf.full
    ensures var k := st.Reading(); var b := Batch(k, st.Ch(k).buf.time, st.Ch(k).buf.contents);
            var done := TaskSteps(cfg, st, cfg.size + 3); var free := TaskSteps(cfg, st, cfg.size + 4);
            && done.batches == st.batches + [b]
            && free.batches == done.batches && free.pc == Take && free.Reading() == 3 - k
            && free.Ch(k) == Channel(Buf([], false, st.Ch(k).buf.time), Free, st.Ch(k).holder)
  {
    var n := cfg.size;
    DrainEmpties(cfg, st);
    DrainEnds(cfg, TaskSteps(cfg, st, 2 + n), st.Reading());
    assert TaskSteps(cfg, st, n + 3) == TaskStep(cfg, TaskSteps(cfg, st, 2 + n));
    assert TaskSteps(cfg, st, n + 4) == TaskStep(cfg, TaskSteps(cfg, st, n + 3));
  }

  lemma {:induction false} DrainEmpties(cfg: Config, st: State)
    requires cfg.Valid() && Locks(cfg, st) && st.pc == Take
    requires st.Ch(st.Reading()).owner == Free && st.Ch(st.Reading()).buf.full
    ensures var s, k := TaskSteps(cfg, st, 2 + cfg.size), st.Reading();
            && s.pc == Drain && s.lastRead == st.lastRead && s.batches == st.batches
            && s.current == st.Ch(k).buf.contents
            && s.Ch(k) == Channel(Buf([], false, st.Ch(k).buf.time), Task, st.Ch(k).holder)
  {
    var n, all := cfg.size, st.Ch(st.Reading()).buf.contents;
    DrainBegins(cfg, st);
    DrainReads(cfg, st, TaskSteps(cfg, st, 2), n);
    assert all[..n] == all && all[n..] == [];
  }

  /** Take and check. */
  lemma {:induction false} DrainBegins(cfg: Config, st: State)
    requires cfg.Valid() && Locks(cfg, st) && st.pc == Take
    requires st.Ch(st.Reading()).owner == Free && st.Ch(st.Reading()).buf.full
    ensures var s, k := TaskSteps(cfg, st, 2), st.Reading();
            && Locks(cfg, s) && s.pc == Drain && s.current == [] && s.lastRead == st.lastRead && s.batches == st.batches
            && s.Ch(k) == st.Ch(k).(owner := Task) && |st.Ch(k).buf.contents| == cfg.size
  {
    var st1 := TaskStep(cfg, st);
    TaskKeepsLocks(cfg, st);
    TaskKeepsLocks(cfg, st1);
    assert TaskSteps(cfg, st, 0) == st && TaskSteps(cfg, st, 1) == st1;
    assert TaskSteps(cfg, st, 2) == TaskStep(cfg, st1);
  }

  /** Leaving the loop and giving the lock back. */
  lemma DrainEnds(cfg: Config, s: State, k: int)
    requires s.pc == Drain && s.Reading() == k && s.lastRead in {1, 2} && s.Ch(k).buf.contents == []
    ensures var done := TaskStep(cfg, s); var free := TaskStep(cfg, done);
            && done.batches == s.batches + [Batch(k, s.Ch(k).buf.time, s.current)]
            && free.batches == done.batches && free.pc == Take && free.Reading() == 3 - k
            && free.Ch(k) == s.Ch(k).(owner := Free)
  {
  }

  function TaskSteps(cfg: Config, st: State, n: nat): State {
    if n == 0 then st else TaskStep(cfg, TaskSteps(cfg, st, n - 1))
  }

  /** After `j` reads. */
  lemma {:induction false} DrainReads(cfg: Config, st: State, st2: State, j: nat)
    requires cfg.Valid() && st2 == TaskSteps(cfg, st, 2) && Locks(cfg, st2) && st2.pc == Drain && st2.current == []
    requires j <= |st2.Ch(st2.Reading()).buf.contents|
    ensures var k := st2.Reading(); var c := st2.Ch(k); var s := TaskSteps(cfg, st, 2 + j);
            && s.pc == Drain && s.lastRead == st2.lastRead && s.batches == st2.batches
            && s.current == c.buf.contents[..j]
            && s.Ch(k) == Channel(Buf(c.buf.contents[j..], j < |c.buf.contents|, c.buf.time), c.owner, c.holder)
  {
    var k := st2.Reading();
    var all := st2.Ch(k).buf.contents;
    if j > 0 {
      DrainReads(cfg, st, st2, j - 1);
      var s := TaskSteps(cfg, st, 2 + (j - 1));
      assert TaskSteps(cfg, st, 2 + j) == TaskStep(cfg, s);
      DrainStep(cfg, s, k);
      ReadOff(all, j);
    }
  }

  lemma ReadOff(all: seq<Sample>, j: nat)
    requires 0 < j <= |all|
    ensures all[j - 1..][0] == all[j - 1] && all[j - 1..][1..] == all[j..]
    ensures all[..j - 1] + [all[j - 1]] == all[..j]
  {
  }

  lemma DrainStep(cfg: Config, s: State, k: int)
    requires s.pc == Drain && s.Reading() == k && s.Ch(k).buf.contents != [] && s.Ch(k).buf.full
    ensures var s', c := TaskStep(cfg, s), s.Ch(k);
            && s'.pc == Drain && s'.lastRead == s.lastRead && s'.batches == s.batches
            && s'.current == s.current + [c.buf.contents[0]]
            && s'.Ch(k) == c.(buf := Buf(c.buf.contents[1..], |c.buf.contents| > 1, c.buf.time))
  {
  }
}
