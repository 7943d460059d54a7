/** A body that is cut into blocks on one side and put together again on the other:
    statements over every run of deliveries, in any order and with any repetition. */
module EndToEnd {
  import opened Words
  import opened BlockCut
  import opened ReceivedBlocks
  import opened Reassembly

  /** One transfer as its sender sees it. */
  datatype Sending = Sending(sent: seq<Byte>, szx: nat, size1: nat, fmt: nat, qblock: bool) {
    ghost predicate Valid() {
      szx <= 6 && size1 < U32 && |sent| <= Offset(MAX_NUM + 1, szx)
    }

    function End(k: nat): nat {
      Min(|sent|, Offset(k, szx) + Chunk(szx))
    }

    /** Block `k` exists and is not empty. */
    predicate IsBlock(k: nat) {
      k <= MAX_NUM && Offset(k, szx) < |sent|
    }

    /** The request that carries block `k`: M on all but the last one. */
    function Cut(k: nat): Packet
    {
      Packet(k, Offset(k, szx) + Chunk(szx) < |sent|, szx, qblock, size1, fmt, true, Slice(sent, k, szx))
    }

    /** A delivery of one of the blocks, over any kind of message. */
    ghost predicate IsCut(p: Packet) {
      IsBlock(p.num) && p == Cut(p.num).(nonConfirmable := p.nonConfirmable)
    }

    /** All bytes of block `k` are in the buffer. */
    ghost predicate Stored(body: Body, k: nat) {
      && body.Body?
      && forall i :: Offset(k, szx) <= i < End(k) ==> i < |body.cells| && body.cells[i] == Val(sent[i])
    }

    /** Nothing of block `k` is in the buffer. */
    ghost predicate Missing(body: Body, k: nat) {
      body.Body? ==> Offset(k, szx) < |body.cells| && body.cells[Offset(k, szx)] == Junk
    }

    /** The length kept so far covers the received blocks and no more. */
    ghost predicate LengthInv(total: nat, blocks: set<nat>) {
      && size1 <= total
      && (forall k :: k in blocks ==> IsBlock(k) && End(k) <= total)
      && (total == size1 || exists k :: k in blocks && total == End(k))
    }

    /** Every received block is in the buffer, or it is lost for good. */
    ghost predicate BytesInv(t: Transfer)
      requires t.Busy?
    {
      && (t.body.Body? ==> |t.body.cells| == t.total && t.blocks != {})
      && (forall k :: k in t.blocks ==> Stored(t.body, k) || (t.lost && Missing(t.body, k)))
      && (t.lost ==> exists k :: k in t.blocks && Missing(t.body, k))
    }

    /** What every reachable receiver state satisfies. */
    ghost predicate Inv(t: Transfer) {
      t.Busy? ==> t.fmt == fmt && LengthInv(t.total, t.blocks) && BytesInv(t)
    }

    /** The handed body is the sent one, byte for byte and in length. */
    ghost predicate IsOriginal(o: Outcome) {
      o.Handed? && o.body == Body(Vals(sent)) && o.length == |sent|
    }
  }

  lemma CutSlice(s: Sending, k: nat)
    requires s.IsBlock(k)
    ensures Slice(s.sent, k, s.szx) == s.sent[Offset(k, s.szx)..s.End(k)]
    ensures Offset(k, s.szx) < s.End(k) <= |s.sent|
    ensures |Slice(s.sent, k, s.szx)| <= Chunk(s.szx)
  {
  }

  /** Different blocks do not overlap. */
  lemma BlocksDisjoint(s: Sending, j: nat, k: nat)
    requires s.IsBlock(j) && s.IsBlock(k) && j < k
    ensures s.End(j) <= Offset(k, s.szx)
  {
    TimesMonotone(j, k, Chunk(s.szx));
  }

  /** What the buffer holds after a block was copied in. */
  lemma BuildEffect(body: Body, data: seq<Byte>, offset: nat, total: nat, memory: bool)
    requires data != [] && offset + |data| <= total
    requires body.Body? ==> |body.cells| == total || (|body.cells| < total && offset + |data| == total)
    ensures var r := Build(body, data, offset, total, memory);
            r.Body? ==>
              && |r.cells| == total
              && (forall i :: offset <= i < offset + |data| ==> r.cells[i] == Val(data[i - offset]))
              && (forall i :: 0 <= i < total && !(offset <= i < offset + |data|) ==>
                    r.cells[i] == (if body.Body? && i < |body.cells| then body.cells[i] else Junk))
  {
  }

  /** Storing a new block keeps the other blocks as they were. */
  lemma BuildKeeps(s: Sending, t: Transfer, k: nat, memory: bool)
    requires t.Busy? && s.Inv(t) && s.IsBlock(k) && k !in t.blocks
    ensures var total := Max(t.total, s.End(k));
            var body := Build(t.body, Slice(s.sent, k, s.szx), Offset(k, s.szx), total, memory);
            body.Body? ==>
              && |body.cells| == total
              && s.Stored(body, k)
              && forall j :: j in t.blocks ==>
                   && (s.Stored(t.body, j) ==> s.Stored(body, j))
                   && (s.Missing(t.body, j) ==> s.Missing(body, j))
  {
    CutSlice(s, k);
    var total := Max(t.total, s.End(k));
    BuildEffect(t.body, Slice(s.sent, k, s.szx), Offset(k, s.szx), total, memory);
    var body := Build(t.body, Slice(s.sent, k, s.szx), Offset(k, s.szx), total, memory);
    if body.Body? {
      forall j | j in t.blocks
        ensures s.Stored(t.body, j) ==> s.Stored(body, j)
        ensures s.Missing(t.body, j) ==> s.Missing(body, j)
      {
        BlockUntouched(s, t.body, body, j, k);
      }
    }
  }

  /** A block outside the copied bytes keeps its content. */
  lemma BlockUntouched(s: Sending, before: Body, after: Body, j: nat, k: nat)
    requires s.IsBlock(j) && s.IsBlock(k) && j != k
    requires after.Body? && s.End(j) <= |after.cells|
    requires forall i :: 0 <= i < |after.cells| && !(Offset(k, s.szx) <= i < s.End(k)) ==>
               after.cells[i] == (if before.Body? && i < |before.cells| then before.cells[i] else Junk)
    ensures s.Stored(before, j) ==> s.Stored(after, j)
    ensures s.Missing(before, j) ==> s.Missing(after, j)
  {
    CutSlice(s, j);
    if j < k { BlocksDisjoint(s, j, k); } else { BlocksDisjoint(s, k, j); }
  }

  lemma LengthGrows(s: Sending, total: nat, blocks: set<nat>, k: nat)
    requires s.LengthInv(total, blocks) && s.IsBlock(k)
    ensures s.LengthInv(Max(total, s.End(k)), blocks + {k})
  {
    assert k in blocks + {k};
    if total != s.size1 {
      var j :| j in blocks && total == s.End(j);
      assert j in blocks + {k};
    }
  }

  lemma StoredShape(s: Sending, t: Transfer, p: Packet, env: Env)
    requires t.Busy? && s.IsCut(p)
    ensures var r := Reassembly.Stored(t, p, p.data, env);
            && r.total == Max(t.total, s.End(p.num))
            && r.body == Build(t.body, Slice(s.sent, p.num, s.szx), Offset(p.num, s.szx), r.total, env.memory)
  {
    CutSlice(s, p.num);
    CutFields(s, p);
  }

  lemma CutFields(s: Sending, p: Packet)
    requires s.IsCut(p)
    ensures p.szx == s.szx && p.data == Slice(s.sent, p.num, s.szx) && p.data != []
    ensures Offset(p.num, p.szx) + |p.data| == s.End(p.num)
    ensures p.m <==> s.End(p.num) < |s.sent|
  {
    CutSlice(s, p.num);
  }

  lemma StoredKeepsInv(s: Sending, t: Transfer, p: Packet, env: Env)
    requires t.Busy? && s.Inv(t) && s.IsCut(p) && p.num !in t.blocks
    ensures s.Inv(Reassembly.Stored(t, p, p.data, env))
  {
    var t' := Reassembly.Stored(t, p, p.data, env);
    StoredShape(s, t, p, env);
    LengthGrows(s, t.total, t.blocks, p.num);
    BuildKeeps(s, t, p.num, env.memory);
    assert p.num in t'.blocks;
    if t'.lost {
      if t'.body.Body? {
        var j :| j in t.blocks && s.Missing(t.body, j);
        assert j in t'.blocks && s.Missing(t'.body, j);
      } else {
        assert s.Missing(t'.body, p.num);
      }
    }
  }

  /** The transfer a packet works on, and that transfer once the packet is recorded. */
  ghost function Current(t: Transfer, p: Packet): (r: Transfer)
    ensures r.Busy?
  {
    if t.Idle? then Busy(p.size1, {}, NoBody, p.fmt, false) else t
  }

  ghost function Recorded(t: Transfer, p: Packet, env: Env): (r: Transfer)
    ensures r.Busy?
  {
    if p.num in Current(t, p).blocks then Current(t, p)
    else Reassembly.Stored(Current(t, p), p, p.data, env)
  }

  lemma RecordedKeepsInv(s: Sending, t: Transfer, p: Packet, env: Env)
    requires s.Inv(t) && s.IsCut(p)
    ensures s.Inv(Recorded(t, p, env)) && p.num in Recorded(t, p, env).blocks
  {
    if p.num !in Current(t, p).blocks {
      StoredKeepsInv(s, Current(t, p), p, env);
    }
  }

  /** The possible results of one delivery. */
  lemma ReceiveShape(s: Sending, t: Transfer, p: Packet, env: Env)
    requires s.Inv(t) && s.IsCut(p)
    ensures p.data != [] && p.data[..Min(|p.data|, Chunk(p.szx))] == p.data
    ensures var r := Receive(t, p, env); var cur := Current(t, p); var rec := Recorded(t, p, env);
            r == if t.Idle? && (p.num != 0 || !p.m) then (Idle, Isolated(p.data, Offset(p.num, p.szx), r.1.total))
                 else if t.Idle? && !env.record then (Idle, OutOfMemory)
                 else if p.qblock && p.size1 != cur.total then (Idle, Refused(SizeMismatch))
                 else if RunCount(rec.blocks) >= RBLOCK_CNT && p.num !in cur.blocks then (Idle, Refused(TooManyMissing))
                 else if rec.body == NoBody && p.num !in cur.blocks then (rec, RawPacket)
                 else Conclude(rec, p, env)
  {
    CutSlice(s, p.num);
    assert p.szx == s.szx && p.data == Slice(s.sent, p.num, s.szx);
    assert p.data[..Min(|p.data|, Chunk(p.szx))] == p.data;
    assert Store(Current(t, p), p, p.data, env) ==
           if p.num in Current(t, p).blocks then Conclude(Current(t, p), p, env)
           else if RunCount(Current(t, p).blocks + {p.num}) >= RBLOCK_CNT then (Idle, Refused(TooManyMissing))
           else if Recorded(t, p, env).body == NoBody then (Recorded(t, p, env), RawPacket)
           else Conclude(Recorded(t, p, env), p, env);
  }

  /** Safety, one step: the invariant is kept. */
  lemma ReceiveKeepsInv(s: Sending, t: Transfer, p: Packet, env: Env)
    requires s.Inv(t) && s.IsCut(p)
    ensures s.Inv(Receive(t, p, env).0)
  {
    ReceiveShape(s, t, p, env);
    RecordedKeepsInv(s, t, p, env);
  }

  // ---------------------------------------------------------------- what is handed over

  ghost predicate Lost(t: Transfer) {
    t.Busy? && t.lost
  }

  /** The announced size that makes a hand-over by a packet with M = `m` right. */
  predicate SizeOk(s: Sending, m: bool) {
    if m then s.size1 == |s.sent| else s.size1 <= |s.sent|
  }

  /** All blocks of the body are in the set. */
  ghost predicate HasAll(s: Sending, blocks: set<nat>) {
    forall k: nat :: s.IsBlock(k) ==> k in blocks
  }

  lemma BlocksAreCounted(s: Sending)
    requires s.Valid() && s.sent != []
    ensures var n := TotalBlocks(|s.sent|, s.szx);
            n >= 1 && forall k: nat :: k < n <==> s.IsBlock(k)
  {
    var n := BlockCount(|s.sent|, s.szx);
    TotalIsCount(s);
    BlockCountExact(|s.sent|, s.szx, 0);
    forall k: nat ensures k < n <==> s.IsBlock(k) { CountedBlock(s, k); }
  }

  lemma TotalIsCount(s: Sending)
    requires s.Valid()
    ensures TotalBlocks(|s.sent|, s.szx) == BlockCount(|s.sent|, s.szx)
  {
    StartFits(MAX_NUM, s.szx);
  }

  lemma CountedBlock(s: Sending, k: nat)
    requires s.Valid()
    ensures k < BlockCount(|s.sent|, s.szx) <==> s.IsBlock(k)
  {
    BlockCountExact(|s.sent|, s.szx, k);
    if MAX_NUM < k { TimesMonotone(MAX_NUM + 1, k, Chunk(s.szx)); }
  }

  /** The completeness test asks for exactly the blocks of the body. */
  lemma AllInIsComplete(s: Sending, blocks: set<nat>)
    requires s.Valid() && s.sent != [] && blocks != {}
    requires forall k :: k in blocks ==> s.IsBlock(k)
    ensures AllIn(blocks, TotalBlocks(|s.sent|, s.szx)) <==> HasAll(s, blocks)
  {
    var n := TotalBlocks(|s.sent|, s.szx);
    BlocksAreCounted(s);
    if HasAll(s, blocks) { assert s.IsBlock(n - 1); }
    if AllIn(blocks, n) {
      var b :| b in blocks;
      assert b == 0 || 0 in blocks;
      assert n > 1 ==> n - 1 in blocks;
    }
  }

  /** A complete buffer without losses is the body. */
  lemma CompleteIsOriginal(s: Sending, t: Transfer)
    requires t.Busy? && s.Inv(t) && !t.lost && t.total == |s.sent| && t.blocks != {} && HasAll(s, t.blocks)
    requires s.Valid()
    ensures t.body == Body(Vals(s.sent))
  {
    var b :| b in t.blocks;
    assert s.Stored(t.body, b);
    forall i | 0 <= i < |s.sent| ensures t.body.cells[i] == Val(s.sent[i]) {
      var k := Quot(i, Chunk(s.szx));
      if MAX_NUM < k { TimesMonotone(MAX_NUM + 1, k, Chunk(s.szx)); }
      assert s.IsBlock(k);
      assert s.Stored(t.body, k);
    }
  }

  /** With the last block in, the length is right iff Size1 did not exceed it; on a block
      before the last one, iff Size1 was exact. */
  lemma LengthRightIff(s: Sending, t: Transfer, p: Packet, env: Env)
    requires s.Inv(t) && s.IsCut(p) && (p.m ==> Current(t, p).total == s.size1)
    ensures Recorded(t, p, env).total == |s.sent| <==> SizeOk(s, p.m)
  {
    RecordedKeepsInv(s, t, p, env);
    var rec := Recorded(t, p, env);
    CutSlice(s, p.num);
    if p.num !in Current(t, p).blocks { StoredShape(s, Current(t, p), p, env); }
    if !p.m {
      assert s.End(p.num) == |s.sent|;
      if rec.total != s.size1 {
        var k :| k in rec.blocks && rec.total == s.End(k);
      }
    }
  }

  lemma LostIsNotOriginal(s: Sending, rec: Transfer)
    requires rec.Busy? && s.Inv(rec) && rec.lost
    ensures rec.body != Body(Vals(s.sent))
  {
    var k :| k in rec.blocks && s.Missing(rec.body, k);
    assert s.IsBlock(k);
    var i := Offset(k, s.szx);
    assert Vals(s.sent)[i] == Val(s.sent[i]);
  }

  /** A complete transfer holds the body if and only if nothing was lost and the length is
      right. */
  lemma ConcludedIsOriginalIff(s: Sending, rec: Transfer)
    requires s.Valid() && s.sent != [] && rec.Busy? && s.Inv(rec) && rec.blocks != {}
    requires AllIn(rec.blocks, TotalBlocks(rec.total, s.szx))
    ensures s.IsOriginal(Handed(rec.body, rec.total)) <==> !rec.lost && rec.total == |s.sent|
  {
    if rec.lost {
      LostIsNotOriginal(s, rec);
    } else if rec.total == |s.sent| {
      AllInIsComplete(s, rec.blocks);
      CompleteIsOriginal(s, rec);
    }
  }

  /** When and what a delivery hands over as one body. */
  lemma HandedShape(s: Sending, t: Transfer, p: Packet, env: Env)
    requires s.Inv(t) && s.IsCut(p) && Receive(t, p, env).1.Handed?
    ensures var rec := Recorded(t, p, env);
            && Receive(t, p, env) == (Idle, Handed(rec.body, rec.total))
            && AllIn(rec.blocks, TotalBlocks(rec.total, s.szx))
            && (rec.lost <==> Lost(t))
            && (p.m ==> Current(t, p).total == s.size1)
  {
    ReceiveShape(s, t, p, env);
    CutFields(s, p);
  }

  /** THE END-TO-END THEOREM, one delivery: a body that is handed over equals the body that
      was cut, byte for byte and in length, if and only if no block was lost for lack of
      memory and the announced size was right. */
  lemma HandedIsOriginalIff(s: Sending, t: Transfer, p: Packet, env: Env)
    requires s.Valid() && s.Inv(t) && s.IsCut(p)
    ensures var o := Receive(t, p, env).1;
            o.Handed? ==> (s.IsOriginal(o) <==> !Lost(t) && SizeOk(s, p.m))
  {
    if Receive(t, p, env).1.Handed? {
      HandedShape(s, t, p, env);
      RecordedKeepsInv(s, t, p, env);
      LengthRightIff(s, t, p, env);
      ConcludedIsOriginalIff(s, Recorded(t, p, env));
    }
  }

  // ---------------------------------------------------------------- whole runs

  datatype Event = Event(p: Packet, env: Env)

  /** The state after a run of deliveries, starting without a transfer. */
  ghost function After(events: seq<Event>): Transfer {
    if events == [] then Idle
    else var n := |events| - 1; Receive(After(events[..n]), events[n].p, events[n].env).0
  }

  /** What delivery number `i` of a run leads to. */
  ghost function OutcomeAt(events: seq<Event>, i: nat): Outcome
    requires i < |events|
  {
    Receive(After(events[..i]), events[i].p, events[i].env).1
  }

  ghost predicate AllCut(s: Sending, events: seq<Event>) {
    forall i :: 0 <= i < |events| ==> s.IsCut(events[i].p)
  }

  ghost predicate MemoryOk(events: seq<Event>) {
    forall i :: 0 <= i < |events| ==> events[i].env.memory && events[i].env.record
  }

  lemma {:induction false} ReachableInv(s: Sending, events: seq<Event>)
    requires AllCut(s, events)
    ensures s.Inv(After(events))
  {
    if events != [] {
      var n := |events| - 1;
      ReachableInv(s, events[..n]);
      ReceiveKeepsInv(s, After(events[..n]), events[n].p, events[n].env);
    }
  }

  /** The bytes of this block cannot be stored: it is new, memory fails, and there is no
      buffer yet or it is too short for the length with this block. */
  ghost predicate FailsToStore(t: Transfer, p: Packet, env: Env) {
    var cur := Current(t, p);
    && p.num !in cur.blocks
    && !env.memory
    && (cur.body == NoBody || |cur.body.cells| < Max(cur.total, Offset(p.num, p.szx) + |p.data|))
  }

  /** At some delivery since the transfer in progress began, the bytes could not be stored. */
  ghost predicate StoreFailed(events: seq<Event>) {
    exists i :: 0 <= i < |events| && FailedAt(events, i)
  }

  /** At delivery `i`, after which the transfer stayed in progress. */
  ghost predicate FailedAt(events: seq<Event>, i: nat)
    requires i < |events|
  {
    && FailsToStore(After(events[..i]), events[i].p, events[i].env)
    && forall j :: i < j <= |events| ==> BusyAt(events, j)
  }

  ghost predicate BusyAt(events: seq<Event>, j: nat)
    requires j <= |events|
  {
    After(events[..j]).Busy?
  }

  lemma BuildFails(s: Sending, t: Transfer, p: Packet, env: Env)
    requires s.IsCut(p) && p.num !in Current(t, p).blocks
    ensures Recorded(t, p, env).lost <==> Current(t, p).lost || FailsToStore(t, p, env)
  {
    CutFields(s, p);
  }

  /** One delivery that leaves the transfer in progress. */
  lemma LostStep(s: Sending, t: Transfer, p: Packet, env: Env)
    requires s.Inv(t) && s.IsCut(p)
    ensures Lost(Receive(t, p, env).0) <==>
            Receive(t, p, env).0.Busy? && (Lost(t) || FailsToStore(t, p, env))
  {
    ReceiveShape(s, t, p, env);
    if p.num !in Current(t, p).blocks { BuildFails(s, t, p, env); }
  }

  lemma {:induction false} FailedAtStep(events: seq<Event>, i: nat)
    requires i + 1 < |events|
    ensures FailedAt(events, i) <==> FailedAt(events[..|events| - 1], i) && BusyAt(events, |events|)
  {
    var front := events[..|events| - 1];
    forall j | 0 <= j < |events| ensures BusyAt(events, j) <==> BusyAt(front, j) {
      assert front[..j] == events[..j];
    }
    assert front[..i] == events[..i];
  }

  lemma {:induction false} StoreFailedStep(events: seq<Event>)
    requires events != []
    ensures var n := |events| - 1;
            StoreFailed(events) <==>
              BusyAt(events, |events|) &&
              (FailsToStore(After(events[..n]), events[n].p, events[n].env) || StoreFailed(events[..n]))
  {
    var n := |events| - 1;
    assert FailedAt(events, n) <==>
           FailsToStore(After(events[..n]), events[n].p, events[n].env) && BusyAt(events, |events|);
    forall i | 0 <= i < n
      ensures FailedAt(events, i) <==> FailedAt(events[..n], i) && BusyAt(events, |events|)
    {
      FailedAtStep(events, i);
    }
  }

  /** What the mark stands for, in terms of the deliveries alone. */
  lemma {:induction false} LostIffStoreFailed(s: Sending, events: seq<Event>)
    requires AllCut(s, events)
    ensures Lost(After(events)) <==> StoreFailed(events)
  {
    if events != [] {
      var n := |events| - 1;
      LostIffStoreFailed(s, events[..n]);
      ReachableInv(s, events[..n]);
      LostStep(s, After(events[..n]), events[n].p, events[n].env);
      StoreFailedStep(events);
      assert events[..n + 1] == events;
    }
  }

  /** THE END-TO-END THEOREM: in every run of deliveries of the blocks of one body, in any
      order, with any repetition and any loss. */
  lemma {:induction false} EveryRunIsSafe(s: Sending, events: seq<Event>, i: nat)
    requires s.Valid() && AllCut(s, events) && i < |events|
    ensures var o := OutcomeAt(events, i);
            o.Handed? ==>
              (s.IsOriginal(o) <==> !StoreFailed(events[..i]) && SizeOk(s, events[i].p.m))
  {
    ReachableInv(s, events[..i]);
    LostIffStoreFailed(s, events[..i]);
    HandedIsOriginalIff(s, After(events[..i]), events[i].p, events[i].env);
  }

  lemma MemoryBuilds(body: Body, data: seq<Byte>, offset: nat, total: nat)
    requires total > 0
    ensures Build(body, data, offset, total, true).Body?
  {
  }

  lemma RecordedUnlost(s: Sending, t: Transfer, p: Packet, env: Env)
    requires s.IsCut(p) && env.memory && !Lost(t)
    ensures !Recorded(t, p, env).lost
    ensures Recorded(t, p, env).blocks == Current(t, p).blocks + {p.num}
    ensures p.num !in Current(t, p).blocks ==> Recorded(t, p, env).body.Body?
  {
    CutFields(s, p);
    var cur := Current(t, p);
    var offset := Offset(p.num, p.szx);
    MemoryBuilds(cur.body, p.data, offset, Max(cur.total, offset + |p.data|));
    if p.num in cur.blocks { assert cur.blocks + {p.num} == cur.blocks; }
  }

  /** Without a failed allocation nothing is ever lost. */
  lemma {:induction false} NothingLost(s: Sending, events: seq<Event>)
    requires AllCut(s, events) && MemoryOk(events)
    ensures !Lost(After(events))
  {
    if events != [] {
      var n := |events| - 1;
      var t, p, env := After(events[..n]), events[n].p, events[n].env;
      NothingLost(s, events[..n]);
      ReachableInv(s, events[..n]);
      ReceiveShape(s, t, p, env);
      RecordedUnlost(s, t, p, env);
    }
  }

  /** As section 2 of RFC 7959 promises it: with memory, and with a Size1 that is absent,
      right or too small (Block1), every body handed over is the one that was sent. */
  lemma {:induction false} Block1BodiesAreOriginal(s: Sending, events: seq<Event>, i: nat)
    requires s.Valid() && AllCut(s, events) && MemoryOk(events) && i < |events|
    requires !s.qblock && s.size1 <= |s.sent|
    ensures var o := OutcomeAt(events, i); o.Handed? ==> s.IsOriginal(o)
  {
    EveryRunIsSafe(s, events, i);
    NothingLost(s, events[..i]);
    LostIffStoreFailed(s, events[..i]);
    ReachableInv(s, events[..i]);
    if OutcomeAt(events, i).Handed? {
      var t, p, env := After(events[..i]), events[i].p, events[i].env;
      ReceiveShape(s, t, p, env);
    }
  }

  /** The same for Q-Block1, where Size1 has to be exact. */
  lemma {:induction false} QBlock1BodiesAreOriginal(s: Sending, events: seq<Event>, i: nat)
    requires s.Valid() && AllCut(s, events) && MemoryOk(events) && i < |events|
    requires s.qblock && s.size1 == |s.sent|
    ensures var o := OutcomeAt(events, i); o.Handed? ==> s.IsOriginal(o)
  {
    EveryRunIsSafe(s, events, i);
    NothingLost(s, events[..i]);
    LostIffStoreFailed(s, events[..i]);
  }

  // ---------------------------------------------------------------- completeness

  /** The block numbers delivered in a run. */
  ghost function Nums(events: seq<Event>): set<nat> {
    if events == [] then {} else Nums(events[..|events| - 1]) + {events[|events| - 1].p.num}
  }

  /** The numbers delivered so far never need all slots of the range array. */
  ghost predicate FewRuns(events: seq<Event>) {
    events != [] ==> FewRuns(events[..|events| - 1]) && RunCount(Nums(events)) < RBLOCK_CNT
  }

  /** The length kept after a run: the announced one, or where the received blocks reach. */
  ghost function Length(s: Sending, events: seq<Event>): nat {
    if events == [] then s.size1
    else Max(Length(s, events[..|events| - 1]), s.End(events[|events| - 1].p.num))
  }

  /** The last delivery of the run completes the body as far as the receiver can tell. */
  ghost predicate Completes(s: Sending, events: seq<Event>)
    requires events != []
  {
    && (s.qblock || !events[|events| - 1].p.m)
    && AllIn(Nums(events), TotalBlocks(Length(s, events), s.szx))
  }

  /** For Q-Block1: an earlier block reached beyond the announced size. */
  ghost predicate Outgrown(s: Sending, events: seq<Event>)
    requires events != []
  {
    s.qblock && Length(s, events[..|events| - 1]) != s.size1
  }

  /** ONE DELIVERY on the way: a block is recorded, and the body handed over exactly if all
      blocks up to the length kept are in. */
  lemma DeliveryStep(s: Sending, t: Transfer, p: Packet, env: Env)
    requires s.Valid() && s.Inv(t) && !Lost(t) && s.IsCut(p) && env.memory && env.record
    requires t.Idle? ==> p.num == 0 && p.m
    requires RunCount(Current(t, p).blocks + {p.num}) < RBLOCK_CNT
    ensures s.qblock && Current(t, p).total != s.size1 ==> Receive(t, p, env) == (Idle, Refused(SizeMismatch))
    ensures !(s.qblock && Current(t, p).total != s.size1) ==>
              var rec := Recorded(t, p, env); var r := Receive(t, p, env);
              && !rec.lost && rec.blocks == Current(t, p).blocks + {p.num}
              && rec.total == Max(Current(t, p).total, s.End(p.num))
              && r == Conclude(rec, p, env) && rec.body.Body?
              && (r.1.Handed? <==> (s.qblock || !p.m) && AllIn(rec.blocks, TotalBlocks(rec.total, s.szx)))
              && (r.1.Handed? ==> (s.IsOriginal(r.1) <==> SizeOk(s, p.m)))
  {
    ReceiveShape(s, t, p, env);
    RecordedUnlost(s, t, p, env);
    RecordedKeepsInv(s, t, p, env);
    RecordedLength(s, t, p, env);
    CutFields(s, p);
    HandedIsOriginalIff(s, t, p, env);
  }

  lemma RecordedLength(s: Sending, t: Transfer, p: Packet, env: Env)
    requires s.Inv(t) && s.IsCut(p)
    ensures Recorded(t, p, env).total == Max(Current(t, p).total, s.End(p.num))
  {
    if p.num !in Current(t, p).blocks { StoredShape(s, Current(t, p), p, env); }
  }

  lemma {:induction false} FewRunsBefore(events: seq<Event>, i: nat)
    requires FewRuns(events) && i < |events|
    ensures FewRuns(events[..i]) && RunCount(Nums(events[..i]) + {events[i].p.num}) < RBLOCK_CNT
  {
    var front := events[..|events| - 1];
    if i < |front| {
      FewRunsBefore(front, i);
      assert front[..i] == events[..i];
    }
  }

  /** A run that begins with block 0, within the limits of memory and of the range array. */
  ghost predicate Started(s: Sending, events: seq<Event>) {
    && s.Valid() && |s.sent| > Chunk(s.szx)
    && AllCut(s, events) && MemoryOk(events) && FewRuns(events)
    && (events != [] ==> events[0].p.num == 0)
  }

  /** No delivery completed the body or was refused. */
  ghost predicate Underway(s: Sending, events: seq<Event>) {
    forall j :: 1 <= j <= |events| ==> !Completes(s, events[..j]) && !Outgrown(s, events[..j])
  }

  lemma UnderwayBefore(s: Sending, events: seq<Event>, n: nat)
    requires Underway(s, events) && n <= |events|
    ensures Underway(s, events[..n])
  {
    assert forall j :: 1 <= j <= n ==> events[..n][..j] == events[..j];
  }

  lemma StartedBefore(s: Sending, events: seq<Event>, i: nat)
    requires Started(s, events) && i <= |events|
    ensures Started(s, events[..i])
    ensures i < |events| ==> RunCount(Nums(events[..i]) + {events[i].p.num}) < RBLOCK_CNT
    ensures i < |events| ==> Nums(events[..i + 1]) == Nums(events[..i]) + {events[i].p.num}
    ensures i < |events| ==> Length(s, events[..i + 1]) == Max(Length(s, events[..i]), s.End(events[i].p.num))
  {
    if i < |events| {
      FewRunsBefore(events, i);
      assert events[..i + 1][..i] == events[..i];
    } else {
      assert events[..i] == events;
    }
  }

  /** Until then exactly the delivered blocks are recorded. */
  lemma {:induction false} Collected(s: Sending, events: seq<Event>)
    requires Started(s, events) && Underway(s, events)
    ensures s.Inv(After(events)) && !Lost(After(events))
    ensures if events == [] then After(events).Idle?
            else After(events).Busy? && After(events).blocks == Nums(events) && After(events).total == Length(s, events)
  {
    ReachableInv(s, events);
    if events != [] {
      var n := |events| - 1;
      var front, e := events[..n], events[n];
      StartedBefore(s, events, n);
      UnderwayBefore(s, events, n);
      Collected(s, front);
      assert events[..n + 1] == events;
      DeliveryStep(s, After(front), e.p, e.env);
    }
  }

  /** COMPLETENESS, Block1 and Q-Block1, whatever size was announced: a run that begins with
      block 0 hands a body over at the first delivery after which all blocks up to the length
      kept are in, in any order and with any repetition, and that body is the original exactly
      if the announced size was right.  CompletesIff says when that is. */
  lemma {:induction false} AnyOrderDelivers(s: Sending, events: seq<Event>, n: nat)
    requires Started(s, events) && n < |events| && Underway(s, events[..n])
    ensures var o, upTo := OutcomeAt(events, n), events[..n + 1];
            && (Outgrown(s, upTo) ==> o == Refused(SizeMismatch))
            && (!Outgrown(s, upTo) ==> (o.Handed? <==> Completes(s, upTo)))
            && (o.Handed? ==> (s.IsOriginal(o) <==> SizeOk(s, events[n].p.m)))
  {
    var upTo := events[..n + 1];
    assert upTo[..n] == events[..n] && upTo[n] == events[n];
    StartedBefore(s, events, n);
    Collected(s, events[..n]);
    DeliveryStep(s, After(events[..n]), events[n].p, events[n].env);
  }

  /** How the deliveries before that are answered: a block with M by 2.31, for Q-Block1 only
      at the end of a payload set without gaps. */
  lemma {:induction false} EarlierAnswers(s: Sending, events: seq<Event>, n: nat)
    requires Started(s, events) && n < |events| && Underway(s, events[..n + 1])
    ensures var p := events[n].p;
            OutcomeAt(events, n) ==
              if p.m && (s.qblock ==>
                           EndsPayloadSet(Nums(events[..n + 1]), events[n].env.maxPayloads) && p.nonConfirmable)
              then AskNext(p.num, p.m, p.szx) else Quiet
  {
    var upTo := events[..n + 1];
    UnderwayBefore(s, upTo, n);
    assert upTo[..n] == events[..n] && upTo[..n + 1] == upTo && upTo[n] == events[n];
    StartedBefore(s, events, n);
    Collected(s, events[..n]);
    DeliveryStep(s, After(events[..n]), events[n].p, events[n].env);
  }

  /** A 2.31 for Q-Block1 carries the number of the packet at hand.  That is the end of the
      payload set exactly if the block behind it is not in; when the last blocks of a set
      arrive in another order, an inner block is acknowledged. */
  lemma AnswerNamesTheEndIff(blocks: set<nat>, maxPayloads: nat, num: nat)
    requires EndsPayloadSet(blocks, maxPayloads) && num in blocks
    ensures forall e :: e in blocks && e + 1 !in blocks ==> (num == e <==> num + 1 !in blocks)
  {
    forall e | e in blocks && e + 1 !in blocks && num + 1 !in blocks ensures num == e {
      if num < e { TwoEnds(blocks, num, e); }
      if e < num { TwoEnds(blocks, e, num); }
    }
  }

  lemma TwoEnds(blocks: set<nat>, e: nat, e': nat)
    requires e in blocks && e' in blocks && e + 1 !in blocks && e < e'
    ensures RunCount(blocks) >= 2
  {
    var a, b := RunStart(blocks, e), RunStart(blocks, e');
    assert {a, b} <= RunStarts(blocks);
    assert |RunStarts(blocks)| == |RunStarts(blocks) - {a, b}| + |{a, b}|;
  }

  /** The first number of the run that `e` belongs to. */
  ghost function RunStart(blocks: set<nat>, e: nat): (a: nat)
    requires e in blocks
    ensures a <= e && StartsRun(blocks, a) && forall x :: a <= x <= e ==> x in blocks
  {
    if e == 0 || e - 1 !in blocks then e else RunStart(blocks, e - 1)
  }

  // ---------------------------------------------------------------- when a run completes

  /** The announced size under which the transfer is meant to work. */
  predicate SizeAnnounced(s: Sending) {
    if s.qblock then s.size1 == |s.sent| else s.size1 <= |s.sent|
  }

  lemma {:induction false} NumsAreBlocks(s: Sending, events: seq<Event>)
    requires AllCut(s, events)
    ensures forall k :: k in Nums(events) ==> s.IsBlock(k)
    ensures events != [] ==> events[|events| - 1].p.num in Nums(events)
  {
    if events != [] { NumsAreBlocks(s, events[..|events| - 1]); }
  }

  lemma {:induction false} LengthBounds(s: Sending, events: seq<Event>)
    requires AllCut(s, events)
    ensures s.size1 <= Length(s, events) <= Max(s.size1, |s.sent|)
    ensures events != [] && !events[|events| - 1].p.m ==> Length(s, events) == Max(s.size1, |s.sent|)
  {
    if events != [] {
      var e := events[|events| - 1];
      LengthBounds(s, events[..|events| - 1]);
      CutSlice(s, e.p.num);
      CutFields(s, e.p);
    }
  }

  /** With the last block in, the completeness test asks for all blocks, and for no more
      than the length kept has. */
  lemma AllInUpTo(s: Sending, blocks: set<nat>, total: nat)
    requires s.Valid() && s.sent != [] && forall k :: k in blocks ==> s.IsBlock(k)
    requires BlockCount(|s.sent|, s.szx) - 1 in blocks
    ensures AllIn(blocks, total) <==> HasAll(s, blocks) && total <= BlockCount(|s.sent|, s.szx)
  {
    var n := BlockCount(|s.sent|, s.szx);
    BlocksAreCounted(s);
    TotalIsCount(s);
    if AllIn(blocks, total) {
      forall k: nat | s.IsBlock(k) ensures k in blocks { assert k == n - 1 || k < n - 1; }
    }
    if HasAll(s, blocks) && 1 < total <= n { assert s.IsBlock(total - 1); }
  }

  /** When that is.  With the announced size right (Block1: not too large), once every block is
      in, for Block1 with the packet without M.  For Block1 with a larger size, the same if that
      size has no more blocks than the body, and never otherwise. */
  lemma {:induction false} CompletesIff(s: Sending, events: seq<Event>)
    requires s.Valid() && s.sent != [] && AllCut(s, events) && events != []
    ensures var m, all := events[|events| - 1].p.m, HasAll(s, Nums(events));
            && (SizeAnnounced(s) ==> !Outgrown(s, events) && (Completes(s, events) <==> all && (s.qblock || !m)))
            && (!s.qblock ==>
                 (Completes(s, events) <==>
                   all && !m && TotalBlocks(Max(s.size1, |s.sent|), s.szx) <= BlockCount(|s.sent|, s.szx)))
  {
    NumsAreBlocks(s, events);
    LengthBounds(s, events);
    LengthBounds(s, events[..|events| - 1]);
    TotalIsCount(s);
    if s.qblock {
      if SizeAnnounced(s) { AllInIsComplete(s, Nums(events)); }
    } else if !events[|events| - 1].p.m {
      LastIsLast(s, events[|events| - 1].p);
      AllInUpTo(s, Nums(events), TotalBlocks(Max(s.size1, |s.sent|), s.szx));
    }
  }

  /** The packet without M carries the last block. */
  lemma LastIsLast(s: Sending, p: Packet)
    requires s.Valid() && s.IsCut(p) && !p.m
    ensures p.num == BlockCount(|s.sent|, s.szx) - 1
  {
    BlockCountExact(|s.sent|, s.szx, p.num);
    BlockCountExact(|s.sent|, s.szx, p.num + 1);
  }

  /** An announced size with more blocks than the body is never reached, for either option. */
  lemma {:induction false} OversizedNeverCompletes(s: Sending, events: seq<Event>)
    requires s.Valid() && s.sent != [] && AllCut(s, events) && events != [] && s.size1 >= |s.sent|
    requires TotalBlocks(s.size1, s.szx) > BlockCount(|s.sent|, s.szx)
    ensures !Completes(s, events)
  {
    var total := TotalBlocks(s.size1, s.szx);
    NumsAreBlocks(s, events);
    LengthBounds(s, events);
    BlockCountExact(|s.sent|, s.szx, 0);
    CountedBlock(s, total - 1);
  }

  /** No delivery completes the body as it was sent. */
  ghost predicate Incomplete(s: Sending, events: seq<Event>) {
    forall i :: 0 <= i < |events| ==> !(HasAll(s, Nums(events[..i + 1])) && (s.qblock || !events[i].p.m))
  }

  /** AS THE STANDARDS PROMISE IT: with the size announced as it should be, the original is
      handed over at the first delivery with every block in (for Block1, of a packet without M)
      and at no earlier one. */
  lemma {:induction false} AnnouncedSizeDelivers(s: Sending, events: seq<Event>, n: nat)
    requires Started(s, events) && SizeAnnounced(s) && n < |events| && Incomplete(s, events[..n])
    ensures var o := OutcomeAt(events, n);
            && (o.Handed? <==> HasAll(s, Nums(events[..n + 1])) && (s.qblock || !events[n].p.m))
            && (o.Handed? ==> s.IsOriginal(o))
  {
    var front, upTo := events[..n], events[..n + 1];
    assert AllCut(s, front) && AllCut(s, upTo);
    assert Underway(s, front) by {
      forall j | 1 <= j <= n ensures !Completes(s, front[..j]) && !Outgrown(s, front[..j]) {
        assert front[..j - 1 + 1] == front[..j];
        CompletesIff(s, front[..j]);
      }
    }
    CompletesIff(s, upTo);
    AnyOrderDelivers(s, events, n);
  }

  // ---------------------------------------------------------------- packets without a transfer

  /** Packets go to the application by themselves exactly if no transfer is in progress and they
      do not begin one: the part of the payload that belongs to the block, at its place. */
  lemma IsolatedIff(t: Transfer, p: Packet, env: Env)
    ensures var (t', o) := Receive(t, p, env);
            && (o.Isolated? <==> t.Idle? && (p.num == 0 ==> !p.m))
            && (o.Isolated? ==> t'.Idle? && o.offset == Offset(p.num, p.szx) && o.data <= p.data)
            && (o.Isolated? && p.num != 0 ==> |o.data| == Min(|p.data|, Chunk(p.szx)))
            && (o.Isolated? && p.num == 0 ==> o.data == p.data)
  {
  }

  /** The total given with a block that goes to the application by itself never exceeds the
      body, and it shows exactly whether bytes follow the block. */
  lemma IsolatedTotal(s: Sending, p: Packet, env: Env)
    requires s.IsCut(p)
    ensures var o := Receive(Idle, p, env).1;
            o.Isolated? ==>
              var end := o.offset + |o.data|;
              && end <= o.total <= |s.sent| && o.data == s.sent[o.offset..end]
              && (p.m <==> end < o.total) && (p.m <==> end < |s.sent|)
  {
    CutFields(s, p);
    CutSlice(s, p.num);
  }

  /** When a packet ends the transfer without handing a body over, or begins none. */
  lemma RefusedIff(t: Transfer, p: Packet, env: Env)
    ensures var (t', o) := Receive(t, p, env);
            && (o == OutOfMemory <==> t.Idle? && p.num == 0 && p.m && !env.record)
            && (o == Refused(FormatMismatch) <==> t.Busy? && p.fmt != t.fmt)
            && (o == Refused(SizeMismatch) <==> t.Busy? && p.fmt == t.fmt && p.qblock && p.size1 != t.total)
            && (o.Refused? || o == OutOfMemory ==> t'.Idle?)
  {
  }

  /** A payload longer than the block counts only up to the block size, unless it is a body in
      one message. */
  lemma OversizedIsCut(t: Transfer, p: Packet, env: Env)
    requires t.Idle? && p.num == 0 ==> p.m
    ensures Receive(t, p, env) == Receive(t, p.(data := p.data[..Min(|p.data|, Chunk(p.szx))]), env)
  {
    var data := p.data[..Min(|p.data|, Chunk(p.szx))];
    var q := p.(data := data);
    assert q.data[..Min(|q.data|, Chunk(q.szx))] == data;
    forall cur: Transfer | cur.Busy? ensures Store(cur, p, data, env) == Store(cur, q, data, env) {
      SamePayload(cur, p, q, data, env);
    }
  }

  lemma SamePayload(t: Transfer, p: Packet, q: Packet, data: seq<Byte>, env: Env)
    requires t.Busy? && q == p.(data := data)
    ensures Store(t, p, data, env) == Store(t, q, data, env)
  {
    var t' := Reassembly.Stored(t, p, data, env);
    assert t' == Reassembly.Stored(t, q, data, env);
    assert Conclude(t', p, env) == Conclude(t', q, env);
    assert Conclude(t, p, env) == Conclude(t, q, env);
  }

  // ---------------------------------------------------------------- where it fails

  lemma SmallRunCounts()
    ensures RunCount({0}) == 1 && RunCount({0, 1}) == 1
  {
    assert RunStarts({0}) == {0} && RunStarts({0, 1}) == {0};
  }

  /** Q-Block1 without Size1: block 0 alone is taken for the whole body. */
  lemma QBlock1NeedsSize1(s: Sending, env: Env)
    requires s.Valid() && s.qblock && s.size1 == 0 && |s.sent| > Chunk(s.szx)
    requires env.memory && env.record
    ensures var o := Receive(Idle, s.Cut(0), env).1;
            o.Handed? && o.length == Chunk(s.szx) && !s.IsOriginal(o)
  {
    var p := s.Cut(0);
    CutFields(s, p);
    ReceiveShape(s, Idle, p, env);
    RecordedUnlost(s, Idle, p, env);
    StoredShape(s, Current(Idle, p), p, env);
    SmallRunCounts();
    var rec := Recorded(Idle, p, env);
    assert rec.blocks == {0} && rec.total == Chunk(s.szx);
    StartFits(0, s.szx);
    assert Quot(Offset(2, s.szx) - 1, Chunk(s.szx)) == 1;
  }

  /** Block1 with a Size1 one byte too large: both blocks arrive and a wrong body goes out. */
  lemma Size1TooLarge(s: Sending, env: Env)
    requires s.Valid() && !s.qblock && |s.sent| == Chunk(s.szx) + 1 && s.size1 == Chunk(s.szx) + 2
    requires env.memory && env.record
    ensures var o := Receive(Receive(Idle, s.Cut(0), env).0, s.Cut(1), env).1;
            o.Handed? && o.length == |s.sent| + 1 && !s.IsOriginal(o)
  {
    var t := Receive(Idle, s.Cut(0), env).0;
    OversizedPair(s, env);
    CutFields(s, s.Cut(0));
    CutFields(s, s.Cut(1));
    ReceiveKeepsInv(s, Idle, s.Cut(0), env);
    HandedLength(s, t, s.Cut(1), env);
  }

  lemma OversizedPair(s: Sending, env: Env)
    requires s.Valid() && !s.qblock && |s.sent| == Chunk(s.szx) + 1 && s.size1 == Chunk(s.szx) + 2
    requires env.memory && env.record
    ensures var t := Receive(Idle, s.Cut(0), env).0; var o := Receive(t, s.Cut(1), env).1;
            t.Busy? && t.total == s.size1 && o.Handed? && !s.IsOriginal(o)
  {
    var events := [Event(s.Cut(0), env), Event(s.Cut(1), env)];
    TwoEvents(s, env);
    CompletesIff(s, events);
    SameCount(s);
    AnyOrderDelivers(s, events, 1);
    assert events[..1] == [events[0]] && events[..2] == events && events[..1][..0] == [];
    Collected(s, events[..1]);
    assert After(events[..1]) == Receive(Idle, s.Cut(0), env).0;
    LengthBounds(s, events[..1]);
  }

  lemma HandedLength(s: Sending, t: Transfer, p: Packet, env: Env)
    requires s.Inv(t) && s.IsCut(p) && Receive(t, p, env).1.Handed?
    ensures Receive(t, p, env).1.length == Max(Current(t, p).total, s.End(p.num))
  {
    HandedShape(s, t, p, env);
    RecordedLength(s, t, p, env);
  }

  lemma SameCount(s: Sending)
    requires s.Valid() && |s.sent| == Chunk(s.szx) + 1 && s.size1 == Chunk(s.szx) + 2
    ensures TotalBlocks(s.size1, s.szx) == BlockCount(|s.sent|, s.szx) == 2
  {
    StartFits(0, s.szx);
    QuotUnique(|s.sent| + Chunk(s.szx) - 1, Chunk(s.szx), 2);
    QuotUnique(s.size1 + Chunk(s.szx) - 1, Chunk(s.szx), 2);
  }

  lemma {:induction false} PairNums(a: Event, b: Event)
    ensures Nums([a]) == {a.p.num} && Nums([a, b]) == {a.p.num, b.p.num}
  {
    assert [a][..0] == [] && [a, b][..1] == [a];
    assert Nums([a]) == Nums([]) + {a.p.num};
    assert Nums([a, b]) == Nums([a]) + {b.p.num};
  }

  lemma TwoEvents(s: Sending, env: Env)
    requires s.Valid() && Chunk(s.szx) < |s.sent| <= Offset(2, s.szx) && env.memory && env.record
    ensures var events := [Event(s.Cut(0), env), Event(s.Cut(1), env)];
            && Started(s, events) && HasAll(s, Nums(events)) && !s.Cut(1).m
            && (!s.qblock ==> Underway(s, events[..1]))
  {
    var events := [Event(s.Cut(0), env), Event(s.Cut(1), env)];
    CutFields(s, s.Cut(0));
    CutFields(s, s.Cut(1));
    SmallRunCounts();
    assert events[..1] == [events[0]] && events[..1][..0] == [];
    PairNums(events[0], events[1]);
    forall k: nat | s.IsBlock(k) ensures k <= 1 {
      if k > 1 { TimesMonotone(2, k, Chunk(s.szx)); }
    }
    assert events[..1][..1] == events[..1];
  }

  /** A block whose bytes could not be stored is never stored later: the body is handed over
      all the same, with a hole. */
  lemma FailedAllocationLeavesHole(s: Sending, env0: Env, env1: Env)
    requires s.Valid() && !s.qblock && s.size1 == |s.sent|
    requires Chunk(s.szx) < |s.sent| <= Offset(2, s.szx)
    requires env0.record && !env0.memory && env1.memory
    ensures var t := Receive(Idle, s.Cut(0), env0).0;
            var o := Receive(t, s.Cut(1), env1).1;
            o.Handed? && !s.IsOriginal(o)
  {
    var p, q := s.Cut(0), s.Cut(1);
    CutFields(s, p);
    CutFields(s, q);
    SmallRunCounts();
    assert Recorded(Idle, p, env0).blocks == {0};
    ReceiveShape(s, Idle, p, env0);
    ReceiveKeepsInv(s, Idle, p, env0);
    HoleIsHandedOver(s, Receive(Idle, p, env0).0, q, env1);
  }

  lemma HoleIsHandedOver(s: Sending, t: Transfer, q: Packet, env: Env)
    requires s.Valid() && !s.qblock && s.size1 == |s.sent| && env.memory
    requires Chunk(s.szx) < |s.sent| <= Offset(2, s.szx)
    requires t.Busy? && t.lost && t.blocks == {0} && s.Inv(t)
    requires s.IsCut(q) && q.num == 1
    ensures Receive(t, q, env).1.Handed? && !s.IsOriginal(Receive(t, q, env).1)
  {
    var rec := Recorded(t, q, env);
    assert rec.blocks == {0, 1};
    assert rec.body.Body? by {
      var offset := Offset(q.num, q.szx);
      CutFields(s, q);
      MemoryBuilds(t.body, q.data, offset, Max(t.total, offset + |q.data|));
    }
    assert AllIn(rec.blocks, TotalBlocks(rec.total, q.szx)) by {
      CutFields(s, q);
      LengthRightIff(s, t, q, env);
      RecordedKeepsInv(s, t, q, env);
      PairIsAll(s);
    }
    assert Receive(t, q, env).1.Handed? by {
      CutFields(s, q);
      SmallRunCounts();
      ReceiveShape(s, t, q, env);
    }
    HandedIsOriginalIff(s, t, q, env);
  }

  /** WHEN THE MISSING BUFFER IS READ, for any packet: it reaches a transfer of its format (and, for
      Q-Block1, size), it may complete it, all blocks are in already, but there is no buffer,
      and it brings nothing new: no payload, or a known block. */
  lemma NullReadIff(t: Transfer, p: Packet, env: Env)
    ensures var cur, data := Current(t, p), p.data[..Min(|p.data|, Chunk(p.szx))];
            Receive(t, p, env).1.NullRead? <==>
              && (t.Idle? ==> p.num == 0 && p.m && env.record)
              && p.fmt == cur.fmt && (p.qblock ==> p.size1 == cur.total)
              && (!p.m || p.qblock)
              && cur.body == NoBody && (data == [] || p.num in cur.blocks)
              && AllIn(cur.blocks, TotalBlocks(cur.total, p.szx))
  {
  }

  /** For the blocks of a body, which are not empty: the block is known, and nothing was ever
      stored. */
  lemma CutNullReadIff(s: Sending, t: Transfer, p: Packet, env: Env)
    requires s.Inv(t) && s.IsCut(p)
    ensures Receive(t, p, env).1.NullRead? <==>
            && t.Busy? && t.body == NoBody && p.num in t.blocks
            && (s.qblock ==> t.total == s.size1) && (s.qblock || !p.m)
            && AllIn(t.blocks, TotalBlocks(t.total, s.szx))
  {
    CutFields(s, p);
    CutSlice(s, p.num);
    NullReadIff(t, p, env);
  }

  /** It happens with all memory there is: one Q-Block1 packet with M, without payload and
      without Size1. */
  lemma EmptyQBlockReadsNull(szx: nat, fmt: nat, nonConfirmable: bool, env: Env)
    requires szx <= 6 && env.record
    ensures Receive(Idle, Packet(0, true, szx, true, 0, fmt, nonConfirmable, []), env).1 == NullRead
  {
    StartFits(0, szx);
    NullReadIff(Idle, Packet(0, true, szx, true, 0, fmt, nonConfirmable, []), env);
  }

  /** And with two empty Block1 packets, the first with M, the second without. */
  lemma EmptyBlocksReadNull(szx: nat, fmt: nat, nonConfirmable: bool, env: Env)
    requires szx <= 6 && env.record
    ensures var t := Receive(Idle, Packet(0, true, szx, false, 0, fmt, nonConfirmable, []), env).0;
            Receive(t, Packet(1, false, szx, false, 0, fmt, nonConfirmable, []), env).1 == NullRead
  {
    StartFits(0, szx);
    var t := Receive(Idle, Packet(0, true, szx, false, 0, fmt, nonConfirmable, []), env).0;
    assert t == Busy(0, {}, NoBody, fmt, false);
    NullReadIff(t, Packet(1, false, szx, false, 0, fmt, nonConfirmable, []), env);
  }

  /** It happens: both blocks of a body arrive while memory fails, then the second again. */
  lemma RepeatReadsNull(s: Sending, env: Env)
    requires s.Valid() && !s.qblock && s.size1 == |s.sent|
    requires Chunk(s.szx) < |s.sent| <= Offset(2, s.szx)
    requires env.record && !env.memory
    ensures var t := Receive(Receive(Idle, s.Cut(0), env).0, s.Cut(1), env).0;
            Receive(t, s.Cut(1), env).1 == NullRead
  {
    var t, q := Receive(Receive(Idle, s.Cut(0), env).0, s.Cut(1), env).0, s.Cut(1);
    BothBlocksLost(s, env);
    CutFields(s, q);
    PairIsAll(s);
    CutNullReadIff(s, t, q, env);
  }

  /** A body of two blocks. */
  lemma PairIsAll(s: Sending)
    requires s.Valid() && Chunk(s.szx) < |s.sent| <= Offset(2, s.szx)
    ensures AllIn({0, 1}, TotalBlocks(|s.sent|, s.szx))
  {
    forall k: nat | s.IsBlock(k) ensures k <= 1 {
      if k > 1 { TimesMonotone(2, k, Chunk(s.szx)); }
    }
    TimesIsProduct(1, Chunk(s.szx));
    assert s.IsBlock(0) && s.IsBlock(1);
    AllInIsComplete(s, {0, 1});
  }

  lemma BothBlocksLost(s: Sending, env: Env)
    requires s.Valid() && !s.qblock && s.size1 == |s.sent|
    requires Chunk(s.szx) < |s.sent| <= Offset(2, s.szx)
    requires env.record && !env.memory
    ensures var t := Receive(Receive(Idle, s.Cut(0), env).0, s.Cut(1), env).0;
            s.Inv(t) && t.Busy? && t.blocks == {0, 1} && t.body == NoBody && t.total == |s.sent|
  {
    var p, q := s.Cut(0), s.Cut(1);
    CutFields(s, p);
    CutFields(s, q);
    SmallRunCounts();
    ReceiveShape(s, Idle, p, env);
    ReceiveKeepsInv(s, Idle, p, env);
    var t0 := Receive(Idle, p, env).0;
    assert Recorded(Idle, p, env).blocks == {0};
    ReceiveShape(s, t0, q, env);
    ReceiveKeepsInv(s, t0, q, env);
    assert t0.blocks + {1} == {0, 1};
    LengthRightIff(s, t0, q, env);
  }
}
