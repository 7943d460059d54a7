/** The sensor ring buffer: a bounded queue whose full flag is sticky.  Once set, the flag
    stays set while the buffer is being drained and falls only when it is empty. */
module RingBuffers {

  class RingBuffer<T(0)> {
    var writeIndex: nat
    var readIndex: nat
    var timestamp: int
    var full: bool
    const size: nat
    const sensValue: array<T>

    ghost predicate Valid()
      reads this
    {
      0 < size == sensValue.Length && writeIndex < size && readIndex < size
    }

    /** The queued values, oldest first. */
    ghost function Contents(): (s: seq<T>)
      requires Valid()
      reads this, sensValue
      ensures |s| <= size
    {
      if readIndex < writeIndex || (readIndex == writeIndex && !full)
      then sensValue[readIndex..writeIndex]
      else sensValue[readIndex..] + sensValue[..writeIndex]
    }

    /** init_buffer. */
    constructor (size: nat)
      requires size > 0
      ensures Valid() && fresh(sensValue) && this.size == size
      ensures Contents() == [] && !full && timestamp == 0
    {
      writeIndex, readIndex, timestamp, full := 0, 0, 0, false;
      this.size := size;
      sensValue := new T[size];
    }

    method WriteTimestamp(time: int)
      modifies `timestamp
      ensures timestamp == time
    {
      timestamp := time;
    }

    /** write_to_buffer: appends; all `size` slots are usable; a write into a buffer that
        holds `size` values leaves only the new one. */
    method Write(data: T)
      requires Valid()
      modifies `writeIndex, `full, sensValue
      ensures Valid()
      ensures Contents() == if old(|Contents()|) < size then old(Contents()) + [data] else [data]
      ensures full <==> old(full) || |Contents()| == size
    {
      NextIndex(writeIndex, size);
      if (writeIndex + 1) % size == readIndex {
        full := true;
      }
      ghost var slots := sensValue[..];
      sensValue[writeIndex] := data;
      assert sensValue[..] == slots[writeIndex := data];
      writeIndex := (writeIndex + 1) % size;
    }

    /** read_from_buffer: takes the oldest value; the flag falls exactly on emptying. */
    method Read() returns (data: T)
      requires Valid() && Contents() != []
      modifies `readIndex, `full
      ensures Valid()
      ensures data == old(Contents()[0]) && Contents() == old(Contents()[1..])
      ensures full <==> old(full) && Contents() != []
    {
      NextIndex(readIndex, size);
      data := sensValue[readIndex];
      readIndex := (readIndex + 1) % size;
      if readIndex == writeIndex {
        full := false;
      }
    }

    method IsFull() returns (r: bool)
      ensures r == full
    {
      r := full;
    }

    /** The drain loop of the send tasks: `while (is_full(...))`.  From a freshly full
        buffer it performs exactly `size` reads and leaves the buffer empty. */
    method Drain(target: array<T>, counter: nat) returns (next: nat)
      requires Valid() && full && |Contents()| == size && target != sensValue
      requires counter + size <= target.Length
      modifies `readIndex, `full, target
      ensures Valid() && Contents() == [] && !full
      ensures next == counter + size
      ensures target[counter..next] == old(Contents())
      ensures target[..counter] == old(target[..counter]) && target[next..] == old(target[next..])
    {
      ghost var all := Contents();
      next := counter;
      while full
        invariant Valid() && counter <= next <= counter + size
        invariant Contents() == all[next - counter..]
        invariant full <==> next < counter + size
        invariant target[counter..next] == all[..next - counter]
        invariant target[..counter] == old(target[..counter])
        invariant target[next..] == old(target[next..])
        decreases counter + size - next
      {
        var v := Read();
        target[next] := v;
        next := next + 1;
        assert target[counter..next] == target[counter..next - 1] + [v];
      }
    }
  }

  lemma NextIndex(i: nat, size: nat)
    requires i < size
    ensures (i + 1) % size == if i + 1 == size then 0 else i + 1
  {
  }
}
