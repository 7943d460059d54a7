/** The program behind the protocol: write_task and send_task_udp over the two ring buffers,
    their locks and the packet array, proved to be the state machine of DoubleBuffer. */
module SensorBoard {
  import opened DoubleBuffer
  import opened RingBuffers

  /** A FreeRTOS mutex together with the interrupt's MutexHolder flag for it. */
  class Mutex {
    var owner: Owner
    var holder: bool

    constructor ()
      ensures owner == Free && !holder
    {
      owner, holder := Free, false;
    }
  }

  ghost function Chan(rb: RingBuffer<Sample>, m: Mutex): Channel
    requires rb.Valid()
    reads rb, rb.sensValue, m
  {
    Channel(Buf(rb.Contents(), rb.full, rb.timestamp), m.owner, m.holder)
  }

  class Board {
    const cfg: Config
    const rb1: RingBuffer<Sample>
    const rb2: RingBuffer<Sample>
    const mutex1: Mutex
    const mutex2: Mutex
    // the interrupt
    var lastBufferWritten: int
    var testVar: nat
    var tick: nat          // numbers the samples; not a variable of the program
    // the task
    var pc: Pc
    var lastBufferRead: int
    var counter: nat
    const bufferArray: array<int>
    // history
    ghost var clock: seq<int>
    ghost var written: seq<Sample>
    ghost var batches: seq<Batch>
    ghost var cycle: seq<Batch>
    ghost var current: seq<Sample>

    ghost predicate Shape()
      reads this, rb1, rb2
    {
      && rb1 != rb2 && mutex1 != mutex2 && rb1.sensValue != rb2.sensValue
      && rb1.Valid() && rb2.Valid() && rb1.size == rb2.size == cfg.size
      && tick == |clock|
    }

    ghost function State(): State
      requires Shape()
      reads this, rb1, rb1.sensValue, rb2, rb2.sensValue, mutex1, mutex2, bufferArray
    {
      DoubleBuffer.State(Chan(rb1, mutex1), Chan(rb2, mutex2), lastBufferWritten, testVar,
                         pc, lastBufferRead, counter, bufferArray[..],
                         clock, written, batches, cycle, current)
    }

    /** Holds at every moment, whatever the interleaving of the two methods below. */
    ghost predicate Valid()
      reads this, rb1, rb1.sensValue, rb2, rb2.sensValue, mutex1, mutex2, bufferArray
    {
      && cfg.Valid() && Shape()
      && Inv(cfg, State()) && Conserved(State()) && PacketInv(cfg, State())
    }

    constructor (cfg: Config)
      requires cfg.Valid()
      ensures Valid() && State() == Init(cfg) && this.cfg == cfg
    {
      this.cfg := cfg;
      rb1 := new RingBuffer<Sample>(cfg.size);
      rb2 := new RingBuffer<Sample>(cfg.size);
      mutex1 := new Mutex();
      mutex2 := new Mutex();
      lastBufferWritten, testVar, tick := 2, 0, 0;
      pc, lastBufferRead, counter := Take, 2, 0;
      bufferArray := new int[2 * cfg.size + 4](_ => 0);
      clock, written, batches, cycle, current := [], [], [], [], [];
      new;
      assert bufferArray[..] == seq(2 * cfg.size + 4, _ => 0);
      assert State() == Init(cfg);
      InitAll(cfg);
    }

    /** write_task, as one uninterruptible step. */
    method WriteTask(now: int)
      requires Valid()
      modifies this, rb1, rb1.sensValue, rb2, rb2.sensValue, mutex1, mutex2
      ensures Valid()
      ensures State() == Tick(cfg, old(State()), now)
    {
      ghost var st := State();
      TickKeepsInv(cfg, st, now);
      TickConserves(cfg, st, now);
      TickKeepsFilled(cfg, st, now);
      Interrupt(now);
    }

    method Interrupt(now: int)
      requires Shape()
      modifies this, rb1, rb1.sensValue, rb2, rb2.sensValue, mutex1, mutex2
      ensures Shape()
      ensures State() == Tick(cfg, old(State()), now)
    {
      ghost var st := State();
      testVar := testVar + 1;
      if testVar == VALUES {
        testVar := 0;
      }
      var s := Sample(tick, testVar);
      tick, clock := tick + 1, clock + [now];
      assert s == NextSample(st) && State() == st.(testVar := s.value, clock := st.clock + [now]);
      if lastBufferWritten == 2 {
        Branch(rb1, mutex1, 1, s, now);
      } else if lastBufferWritten == 1 {
        Branch(rb2, mutex2, 2, s, now);
      }
    }

    method Branch(rb: RingBuffer<Sample>, m: Mutex, k: int, s: Sample, now: int)
      requires Shape() && (k == 1 || k == 2)
      requires if k == 1 then rb == rb1 && m == mutex1 else rb == rb2 && m == mutex2
      modifies `written, `lastBufferWritten, rb, rb.sensValue, m
      ensures Shape()
      ensures var st := old(State()); var (c, wrote, done) := IsrOn(cfg, st.Ch(k), s, now);
              State() == st.(written := if wrote then st.written + [s] else st.written,
                             lastWritten := if done then k else st.lastWritten).With(k, c)
    {
      ghost var st := State();
      var wrote, done := FillBuffer(cfg, rb, m, s, now);
      assert Chan(if k == 1 then rb2 else rb1, if k == 1 then mutex2 else mutex1) == st.Ch(3 - k);
      if wrote {
        written := written + [s];
      }
      if done {
        lastBufferWritten := k;
      }
    }

    /** The branch for one buffer; `wrote` and `done` tell which way it went. */
    static method FillBuffer(ghost cfg: Config, rb: RingBuffer<Sample>, m: Mutex, s: Sample, now: int)
      returns (wrote: bool, done: bool)
      requires rb.Valid() && rb.size == cfg.size
      modifies rb, rb.sensValue, m
      ensures rb.Valid()
      ensures (Chan(rb, m), wrote, done) == IsrOn(cfg, old(Chan(rb, m)), s, now)
    {
      wrote, done := false, false;
      if !m.holder {
        if m.owner == Free {
          m.owner, m.holder := Isr, true;
          var full := rb.IsFull();
          if !full {
            rb.WriteTimestamp(now);
            rb.Write(s);
            wrote := true;
          } else {
            m.owner, m.holder := Free, false;
          }
        }
      } else {
        rb.Write(s);
        wrote := true;
        var full := rb.IsFull();
        if full {
          m.owner, m.holder := Free, false;
          done := true;
        }
      }
    }

    /** One step of send_task_udp: take, check, one read, or give. */
    method SendStep()
      requires Valid()
      modifies this, rb1, rb1.sensValue, rb2, rb2.sensValue, mutex1, mutex2, bufferArray
      ensures Valid()
      ensures State() == TaskStep(cfg, old(State()))
    {
      ghost var st := State();
      TaskKeepsInv(cfg, st);
      TaskConserves(cfg, st);
      TaskKeepsPacket(cfg, st);
      FilledFits(cfg, st);
      if lastBufferRead == 2 {
        Step(rb1, mutex1, 1);
      } else {
        Step(rb2, mutex2, 2);
      }
    }

    /** The iteration of the task's loop for buffer `k`. */
    method Step(rb: RingBuffer<Sample>, m: Mutex, k: int)
      requires Shape() && k == State().Reading()
      requires if k == 1 then rb == rb1 && m == mutex1 else rb == rb2 && m == mutex2
      requires pc == Check ==> counter + 2 <= bufferArray.Length
      requires pc == Drain && rb.Contents() != [] ==> counter < bufferArray.Length
      modifies this, rb, rb.sensValue, m, bufferArray
      ensures Shape()
      ensures State() == TaskStep(cfg, old(State()))
    {
      match pc
      case Take =>
        if m.owner == Free {
          m.owner, pc := Task, Check;
        }
      case Check => StepCheck(rb, k);
      case Drain => StepDrain(rb, k);
      case Give =>
        m.owner, pc, lastBufferRead := Free, Take, k;
        if k == 2 {
          counter, cycle := 0, [];
        }
    }

    method PutWord(v: int)
      requires counter < bufferArray.Length
      modifies `counter, bufferArray
      ensures bufferArray[..] == Store(old(bufferArray[..]), old(counter), v)
      ensures counter == old(counter) + 1
    {
      bufferArray[counter] := v;
      counter := counter + 1;
    }

    /** The full test, and the two words in front of the samples. */
    method StepCheck(rb: RingBuffer<Sample>, ghost k: int)
      requires Shape() && k == State().Reading() && rb == (if k == 1 then rb1 else rb2)
      requires pc == Check && counter + 2 <= bufferArray.Length
      modifies this, bufferArray
      ensures Shape()
      ensures State() == TaskStep(cfg, old(State()))
    {
      var full := rb.IsFull();
      if full {
        PutWord(cfg.id);
        PutWord(TimeWord(rb.timestamp, cfg.start));
        pc, current := Drain, [];
      } else {
        pc := Give;
      }
    }

    /** One round of `while (is_full(...))`. */
    method StepDrain(rb: RingBuffer<Sample>, ghost k: int)
      requires Shape() && k == State().Reading() && rb == (if k == 1 then rb1 else rb2)
      requires pc == Drain && (rb.Contents() != [] ==> counter < bufferArray.Length)
      modifies this, rb, bufferArray
      ensures Shape()
      ensures State() == TaskStep(cfg, old(State()))
    {
      var full := rb.IsFull();
      if full {
        ReadOne(rb, k);
      } else {
        pc := Give;
        ghost var b := Batch(k, rb.timestamp, current);
        batches, cycle, current := batches + [b], cycle + [b], [];
      }
    }

    method ReadOne(rb: RingBuffer<Sample>, ghost k: int)
      requires Shape() && k == State().Reading() && rb == (if k == 1 then rb1 else rb2)
      requires pc == Drain && rb.full && counter < bufferArray.Length
      modifies `counter, `current, rb, bufferArray
      ensures Shape()
      ensures State() == TaskStep(cfg, old(State()))
    {
      ghost var st := State();
      var s := rb.Read();
      PutWord(s.value);
      current := current + [s];
      assert Chan(if k == 1 then rb2 else rb1, if k == 1 then mutex2 else mutex1) == st.Ch(3 - k);
    }
  }
}
