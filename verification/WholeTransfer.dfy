/** From sender to receiver: the messages of a sending run are the packets that EndToEnd
    speaks about, so its theorems hold of whatever part of a run arrives, in any order. */
module WholeTransfer {
  import opened BlockCut
  import opened EndToEnd
  import opened Reassembly
  import opened ReceivedBlocks
  import opened Words
  import Bursts = QBlockBursts
  import Run = SendRun

  // ---------------------------------------------------------------- Block1

  /** The message as the server receives it. */
  function Received(s: Sending, o: Run.Outcome, nonConfirmable: bool): Packet
    requires o.Sent?
  {
    Packet(o.num, o.m, o.szx, s.qblock, s.size1, s.fmt, nonConfirmable, o.payload)
  }

  /** The message that one acknowledgement makes the client send. */
  function Next(data: seq<Byte>, p: Run.Progress, ack: Run.Ack): seq<Run.Outcome> {
    var o := Run.Step(data, p.x, ack).1;
    if !p.over && o.Sent? then [o] else []
  }

  /** All messages of a run, the first block in front. */
  function Messages(data: seq<Byte>, szx: nat, acks: seq<Run.Ack>): seq<Run.Outcome> {
    if acks == [] then [Message(data, szx, 0)]
    else
      var front := acks[..|acks| - 1];
      Messages(data, szx, front) + Next(data, Run.Run(data, szx, front), acks[|acks| - 1])
  }

  /** The server acknowledges as expected and leaves the block size alone. */
  ghost predicate Steady(data: seq<Byte>, szx: nat, acks: seq<Run.Ack>) {
    data != [] && Run.AllExpected(data, szx, acks) && forall i :: 0 <= i < |acks| ==> acks[i].szx == szx
  }

  lemma {:induction false} SteadyBefore(data: seq<Byte>, szx: nat, acks: seq<Run.Ack>)
    requires Steady(data, szx, acks) && acks != []
    ensures Steady(data, szx, acks[..|acks| - 1])
    ensures Run.Expected(data, Run.Run(data, szx, acks[..|acks| - 1]).x, acks[|acks| - 1])
  {
    var front := acks[..|acks| - 1];
    forall i | 0 <= i < |front| ensures Run.Expected(data, Run.Run(data, szx, front[..i]).x, front[i]) {
      assert front[..i] == acks[..i];
    }
  }

  /** Message number `j` carries block `j`: its slice, and M unless it is the last. */
  ghost predicate InOrder(data: seq<Byte>, szx: nat, ms: seq<Run.Outcome>) {
    forall j :: 0 <= j < |ms| ==> ms[j] == Message(data, szx, j) && Offset(j, szx) < |data|
  }

  function Message(data: seq<Byte>, szx: nat, j: nat): Run.Outcome {
    Run.Sent(j, Offset(j, szx) + Chunk(szx) < |data|, szx, Slice(data, j, szx))
  }

  /** The messages so far are the blocks up to the one sent last, or all of them. */
  ghost predicate InStep(data: seq<Byte>, szx: nat, p: Run.Progress, ms: seq<Run.Outcome>) {
    && InOrder(data, szx, ms)
    && if p.over then Offset(|ms|, szx) >= |data| else p.x.blkSize == szx && p.x.lastBlock + 2 == |ms|
  }

  /** A run sends the blocks 0, 1, 2, ... once each; when it is over, all of them. */
  lemma {:induction false} RunSendsInOrder(data: seq<Byte>, szx: nat, acks: seq<Run.Ack>)
    requires Steady(data, szx, acks)
    ensures InStep(data, szx, Run.Run(data, szx, acks), Messages(data, szx, acks))
  {
    if acks == [] {
      StartInStep(data, szx);
    } else {
      var front, ack := acks[..|acks| - 1], acks[|acks| - 1];
      SteadyBefore(data, szx, acks);
      RunSendsInOrder(data, szx, front);
      Run.RunTiles(data, szx, front);
      NextInStep(data, szx, Run.Run(data, szx, front), Messages(data, szx, front), ack);
    }
  }

  lemma StartInStep(data: seq<Byte>, szx: nat)
    requires data != []
    ensures InStep(data, szx, Run.Start(data, szx), [Message(data, szx, 0)])
  {
  }

  lemma NextInStep(data: seq<Byte>, szx: nat, p: Run.Progress, ms: seq<Run.Outcome>, ack: Run.Ack)
    requires data != [] && Run.Tiled(data, p) && InStep(data, szx, p, ms) && ack.szx == szx
    requires Run.Expected(data, p.x, ack)
    ensures InStep(data, szx, Run.Advance(data, p, ack), ms + Next(data, p, ack))
  {
    NextInOrder(data, szx, p, ack);
    OneMoreInOrder(data, szx, ms, Next(data, p, ack));
  }

  lemma OneMoreInOrder(data: seq<Byte>, szx: nat, ms: seq<Run.Outcome>, next: seq<Run.Outcome>)
    requires InOrder(data, szx, ms)
    requires next == [] || (next == [Message(data, szx, |ms|)] && Offset(|ms|, szx) < |data|)
    ensures InOrder(data, szx, ms + next)
  {
  }

  lemma NextInOrder(data: seq<Byte>, szx: nat, p: Run.Progress, ack: Run.Ack)
    requires data != [] && Run.Tiled(data, p) && (!p.over ==> p.x.blkSize == szx && Run.Expected(data, p.x, ack))
    requires ack.szx == szx
    ensures var q := Run.Advance(data, p, ack); var n := p.x.lastBlock + 2;
            if p.over then Next(data, p, ack) == [] && q == p
            else if ack.num == p.x.lastBlock then Next(data, p, ack) == [] && q == p
            else if Offset(n, szx) >= |data| then Next(data, p, ack) == [] && q.over
            else
              && Next(data, p, ack) == [Message(data, szx, n)]
              && !q.over && q.x.blkSize == szx && q.x.lastBlock + 1 == n
  {
    if !p.over && ack.num == p.x.lastBlock + 1 { Run.AckSameSize(data, p.x, ack); }
  }

  /** Every message of a run is a packet of the body. */
  lemma MessagesAreCuts(s: Sending, acks: seq<Run.Ack>, o: Run.Outcome, nonConfirmable: bool)
    requires s.Valid() && Steady(s.sent, s.szx, acks) && o in Messages(s.sent, s.szx, acks)
    ensures o.Sent? && s.IsCut(Received(s, o, nonConfirmable))
  {
    RunSendsInOrder(s.sent, s.szx, acks);
    var ms := Messages(s.sent, s.szx, acks);
    var j :| 0 <= j < |ms| && ms[j] == o;
    BlockCountExact(|s.sent|, s.szx, j);
    CountedBlock(s, j);
  }

  /** Each delivery brings some message of the run. */
  ghost predicate FromRun(s: Sending, acks: seq<Run.Ack>, events: seq<Event>) {
    forall i :: 0 <= i < |events| ==> Brings(s, Messages(s.sent, s.szx, acks), events[i].p)
  }

  ghost predicate Brings(s: Sending, ms: seq<Run.Outcome>, p: Packet) {
    exists o :: o in ms && o.Sent? && p == Received(s, o, p.nonConfirmable)
  }

  lemma {:induction false} RunDelivers(s: Sending, acks: seq<Run.Ack>, events: seq<Event>)
    requires s.Valid() && Steady(s.sent, s.szx, acks) && FromRun(s, acks, events)
    ensures AllCut(s, events)
  {
    var ms := Messages(s.sent, s.szx, acks);
    forall i | 0 <= i < |events| ensures s.IsCut(events[i].p) {
      var p := events[i].p;
      assert Brings(s, ms, p);
      var o :| o in ms && o.Sent? && p == Received(s, o, p.nonConfirmable);
      MessagesAreCuts(s, acks, o, p.nonConfirmable);
    }
  }

  /** WHOLE TRANSFER, Block1: whatever messages of whatever sending run arrive, in any order
      and with any repetition, a body handed over is the one that was given to the sender if
      and only if storing never failed and Size1 was right. */
  lemma {:induction false} Block1TransferIsSafe(s: Sending, acks: seq<Run.Ack>, events: seq<Event>, i: nat)
    requires s.Valid() && Steady(s.sent, s.szx, acks) && FromRun(s, acks, events) && i < |events|
    ensures var o := OutcomeAt(events, i);
            o.Handed? ==> (s.IsOriginal(o) <==> !StoreFailed(events[..i]) && SizeOk(s, events[i].p.m))
  {
    RunDelivers(s, acks, events);
    EveryRunIsSafe(s, events, i);
  }

  /** And it arrives: of a finished run, once every message was delivered, the first delivery
      of the last block after all others hands the body over. */
  lemma {:induction false} Block1TransferCompletes(s: Sending, acks: seq<Run.Ack>, events: seq<Event>, n: nat)
    requires !s.qblock && Steady(s.sent, s.szx, acks) && Run.Run(s.sent, s.szx, acks).over
    requires Started(s, events) && SizeAnnounced(s) && n < |events| && Incomplete(s, events[..n])
    requires forall o :: o in Messages(s.sent, s.szx, acks) && o.Sent? ==> o.num in Nums(events[..n + 1])
    ensures events[n].p.m || s.IsOriginal(OutcomeAt(events, n))
  {
    var ms := Messages(s.sent, s.szx, acks);
    RunSendsInOrder(s.sent, s.szx, acks);
    forall k: nat | s.IsBlock(k) ensures k in Nums(events[..n + 1]) {
      if |ms| <= k { TimesMonotone(|ms|, k, Chunk(s.szx)); }
      assert ms[k] in ms;
    }
    AnnouncedSizeDelivers(s, events, n);
  }

  // ---------------------------------------------------------------- Q-Block1

  /** Only blocks of the body go out in bursts. */
  lemma {:induction false} BurstsAreCuts(s: Sending, mp: nat, k: nat)
    requires s.Valid() && s.sent != [] && mp > 0
    ensures var n := BlockCount(|s.sent|, s.szx);
            forall b :: b in Bursts.After(k, n, mp).sent ==> s.IsCut(s.Cut(b))
  {
    var n := BlockCount(|s.sent|, s.szx);
    BlockCountExact(|s.sent|, s.szx, 0);
    if mp >= 3 {
      Bursts.BurstsCover(k, n, mp);
      NumbersBelow(0, Bursts.After(k, n, mp).last + 1);
    } else {
      Bursts.BurstsStuck(k, n, mp);
    }
    forall b | b in Bursts.After(k, n, mp).sent ensures s.IsCut(s.Cut(b)) { CountedBlock(s, b); }
  }

  lemma {:induction false} NumbersBelow(from: nat, to: nat)
    ensures forall b: nat :: b in Bursts.Numbers(from, to) <==> from <= b < to
  {
    if from < to { NumbersBelow(from, to - 1); }
  }

  /** Each delivery brings a block that went out in the first burst or one of `k` later ones. */
  ghost predicate FromBursts(s: Sending, mp: nat, k: nat, events: seq<Event>)
    requires mp > 0
  {
    forall i :: 0 <= i < |events| ==>
      var p := events[i].p;
      && p.num in Bursts.After(k, BlockCount(|s.sent|, s.szx), mp).sent
      && p == s.Cut(p.num).(nonConfirmable := p.nonConfirmable)
  }

  /** WHOLE TRANSFER, Q-Block1: a body handed over is the original, and once all blocks went
      out and arrived, the delivery that brought the last missing one hands it over. */
  lemma {:induction false} QBlock1TransferDelivers(s: Sending, mp: nat, k: nat, events: seq<Event>, n: nat)
    requires s.Valid() && s.qblock && s.size1 == |s.sent| && s.sent != [] && mp > 0
    requires FromBursts(s, mp, k, events) && MemoryOk(events) && n < |events|
    ensures OutcomeAt(events, n).Handed? ==> s.IsOriginal(OutcomeAt(events, n))
    ensures var m := BlockCount(|s.sent|, s.szx);
            && Started(s, events) && Incomplete(s, events[..n])
            && Bursts.After(k, m, mp).last + 1 == m
            && (forall b :: b in Bursts.After(k, m, mp).sent ==> b in Nums(events[..n + 1]))
            ==> s.IsOriginal(OutcomeAt(events, n))
  {
    var m := BlockCount(|s.sent|, s.szx);
    BurstsAreCuts(s, mp, k);
    assert AllCut(s, events);
    QBlock1BodiesAreOriginal(s, events, n);
    if Started(s, events) && Incomplete(s, events[..n]) && Bursts.After(k, m, mp).last + 1 == m
       && (forall b :: b in Bursts.After(k, m, mp).sent ==> b in Nums(events[..n + 1]))
    {
      AllBlocksWentOut(s, mp, k);
      assert HasAll(s, Nums(events[..n + 1]));
      AnnouncedSizeDelivers(s, events, n);
    }
  }

  lemma {:induction false} AllBlocksWentOut(s: Sending, mp: nat, k: nat)
    requires s.Valid() && s.sent != [] && mp > 0
    requires var m := BlockCount(|s.sent|, s.szx); Bursts.After(k, m, mp).last + 1 == m
    ensures forall b: nat :: s.IsBlock(b) ==> b in Bursts.After(k, BlockCount(|s.sent|, s.szx), mp).sent
  {
    var m := BlockCount(|s.sent|, s.szx);
    if mp >= 3 {
      BlockCountExact(|s.sent|, s.szx, 0);
      Bursts.BurstsCover(k, m, mp);
      NumbersBelow(0, m);
    } else {
      Bursts.BurstsStuck(k, m, mp);
    }
    forall b: nat | s.IsBlock(b) ensures b in Bursts.After(k, m, mp).sent { CountedBlock(s, b); }
  }

  // ---------------------------------------------------------------- a change of size breaks it

  /** The numbers after a change of size that the client can continue with: a larger size
      counts back to a number that was sent before, a smaller one leaves a number out. */
  lemma SizeChangeNumbers(data: seq<Byte>, x: Run.Xmit, ack: Run.Ack)
    requires Run.Inv(data, x) && ack.num == x.lastBlock + 1 && Run.GoodSize(data, x, ack.szx)
    requires ack.szx != x.blkSize && x.offset + Chunk(x.blkSize) < |data|
    ensures var o := Run.Step(data, x, ack).1;
            && o.Sent? && o.szx == ack.szx
            && (ack.szx > x.blkSize ==> o.num <= ack.num)
            && (ack.szx < x.blkSize ==> o.num > ack.num + 1)
  {
    Run.AckContinuesIff(data, x, ack);
    if ack.szx < x.blkSize {
      Run.AckReduces(data, x, ack);
      Run.RatioGrows(ack.num + 1, x.blkSize - ack.szx);
    } else {
      Run.EnlargedState(data, x, ack);
    }
  }

  /** The receiver takes a packet with a known number for a repetition, whatever its size: its
      bytes are not stored. */
  lemma KnownNumberIsNotStored(t: Transfer, p: Packet, env: Env)
    requires t.Busy? && p.num in t.blocks
    ensures var (t', o) := Receive(t, p, env);
            && (t'.Busy? ==> t' == t)
            && (o.Handed? ==> o.body == t.body)
  {
  }

  /** Without the number that was left out nothing behind it completes a body. */
  lemma SkippedNumberNeverCompletes(blocks: set<nat>, skipped: nat, num: nat, total: nat)
    requires skipped !in blocks && num in blocks && skipped < num
    ensures !AllIn(blocks, total)
  {
  }

  /** The receiver after the first `k` blocks in order. */
  ghost function FirstBlocks(s: Sending, k: nat): Transfer
    requires Offset(k, s.szx) <= |s.sent|
  {
    if k == 0 then Idle
    else Busy(|s.sent|, UpTo(k), Body(Vals(s.sent[..Offset(k, s.szx)]) + JunkCells(|s.sent| - Offset(k, s.szx))),
              s.fmt, false)
  }

  ghost function UpTo(k: nat): (r: set<nat>)
    ensures forall b: nat :: b in r <==> b < k
  {
    if k == 0 then {} else UpTo(k - 1) + {k - 1}
  }

  lemma UpToIsOneRun(k: nat)
    requires k > 0
    ensures RunCount(UpTo(k)) == 1
  {
    assert RunStarts(UpTo(k)) == {0};
  }

  lemma FirstBlocksStep(s: Sending, k: nat, env: Env)
    requires s.Valid() && !s.qblock && s.size1 == |s.sent| && env.memory && env.record
    requires s.IsBlock(k) && s.Cut(k).m && Offset(k, s.szx) <= |s.sent|
    ensures Offset(k + 1, s.szx) <= |s.sent|
    ensures Receive(FirstBlocks(s, k), s.Cut(k), env).0 == FirstBlocks(s, k + 1)
  {
    var p, t := s.Cut(k), FirstBlocks(s, k);
    assert s.IsCut(p);
    CutFields(s, p);
    CutSlice(s, k);
    FirstBlocksStored(s, k, env);
    UpToIsOneRun(k + 1);
    assert RunCount(Current(t, p).blocks + {k}) == 1;
    assert Receive(t, p, env) == Store(Current(t, p), p, p.data, env);
    assert Store(Current(t, p), p, p.data, env) == Conclude(FirstBlocks(s, k + 1), p, env);
  }

  lemma FirstBlocksStored(s: Sending, k: nat, env: Env)
    requires s.Valid() && s.size1 == |s.sent| && env.memory
    requires s.IsBlock(k) && Offset(k + 1, s.szx) <= |s.sent|
    ensures var t, p := FirstBlocks(s, k), s.Cut(k);
            && Current(t, p).blocks == UpTo(k) && UpTo(k) + {k} == UpTo(k + 1)
            && p.data == p.data[..Min(|p.data|, Chunk(p.szx))] != []
            && Reassembly.Stored(Current(t, p), p, p.data, env) == FirstBlocks(s, k + 1)
  {
    CutSlice(s, k);
    FirstBlocksBytes(s, k);
  }

  lemma FirstBlocksBytes(s: Sending, k: nat)
    requires s.Valid() && Offset(k + 1, s.szx) <= |s.sent| && s.IsBlock(k)
    ensures var before := if k == 0 then JunkCells(|s.sent|) else FirstBlocks(s, k).body.cells;
            |before| == |s.sent| && |Slice(s.sent, k, s.szx)| == Chunk(s.szx) &&
            Overwrite(before, Slice(s.sent, k, s.szx), Offset(k, s.szx)) == FirstBlocks(s, k + 1).body.cells
  {
  }

  /** 96 bytes, sent in four blocks of 16 and, after an acknowledgement in 32-byte blocks, a
      last one of 32: its number 2 is known, so its bytes are dropped, and the body goes out
      with nothing in their place. */
  lemma GrownBlockIsLost(s: Sending, env: Env)
    requires s.Valid() && !s.qblock && s.szx == 0 && s.size1 == |s.sent| == 96 && env.memory && env.record
    ensures var x, o := Run.Xmit(0, 48, 2), Run.Sent(2, false, 1, s.sent[64..96]);
            var kept := Vals(s.sent[..64]) + JunkCells(32);
            && Run.Inv(s.sent, x) && Run.Step(s.sent, x, Run.Ack(3, 1)).1 == o
            && Receive(InTurn(s, 4, env), Received(s, o, false), env).1 == Handed(Body(kept), 96)
            && kept != Vals(s.sent)
  {
    var kept := Vals(s.sent[..64]) + JunkCells(32);
    GrownMessage(s.sent);
    TimesIsProduct(4, 16);
    Run.SmallOffsets();
    InTurnIs(s, 4, env);
    assert InTurn(s, 4, env) == Busy(96, UpTo(4), Body(kept), s.fmt, false);
    GrownBlockIsKnown(s, kept, env);
    assert kept[64] == Junk;
  }

  lemma GrownMessage(data: seq<Byte>)
    requires |data| == 96
    ensures Run.Inv(data, Run.Xmit(0, 48, 2))
    ensures Run.Step(data, Run.Xmit(0, 48, 2), Run.Ack(3, 1)).1 == Run.Sent(2, false, 1, data[64..96])
  {
    Run.SmallOffsets();
    QuotUnique(64, 32, 2);
    assert Run.Aligned(64, 1);
    assert Run.Step(data, Run.Xmit(0, 48, 2), Run.Ack(3, 1)) == Run.After(data, Run.Xmit(1, 32, 2), 1, 1);
  }

  lemma GrownBlockIsKnown(s: Sending, kept: seq<Cell>, env: Env)
    requires s.Valid() && !s.qblock && s.size1 == |s.sent| == 96
    ensures var o := Run.Sent(2, false, 1, s.sent[64..96]);
            Receive(Busy(96, UpTo(4), Body(kept), s.fmt, false), Received(s, o, false), env).1 == Handed(Body(kept), 96)
  {
    Run.SmallOffsets();
    QuotUnique(96 + 31, 32, 3);
    assert 2 in UpTo(4) && TotalBlocks(96, 1) == 3;
  }

  /** The receiver after blocks 0 to k - 1. */
  ghost function InTurn(s: Sending, k: nat, env: Env): Transfer {
    if k == 0 then Idle else Receive(InTurn(s, k - 1, env), s.Cut(k - 1), env).0
  }

  lemma BlockBefore(s: Sending, k: nat)
    requires 0 < k <= MAX_NUM && Offset(k, s.szx) < |s.sent|
    ensures s.IsBlock(k - 1) && s.Cut(k - 1).m && Offset(k - 1, s.szx) + Chunk(s.szx) == Offset(k, s.szx)
  {
  }

  lemma {:induction false} InTurnIs(s: Sending, k: nat, env: Env)
    requires s.Valid() && !s.qblock && s.size1 == |s.sent| && env.memory && env.record
    requires Offset(k, s.szx) < |s.sent| && k <= MAX_NUM
    ensures InTurn(s, k, env) == FirstBlocks(s, k)
  {
    if k == 0 {
      assert InTurn(s, 0, env) == Idle;
    } else {
      var j := k - 1;
      BlockBefore(s, k);
      InTurnIs(s, j, env);
      InTurnNext(s, j, env);
      assert j + 1 == k;
    }
  }

  lemma InTurnNext(s: Sending, j: nat, env: Env)
    requires s.Valid() && !s.qblock && s.size1 == |s.sent| && env.memory && env.record
    requires s.IsBlock(j) && s.Cut(j).m && InTurn(s, j, env) == FirstBlocks(s, j)
    ensures Offset(j + 1, s.szx) <= |s.sent| && InTurn(s, j + 1, env) == FirstBlocks(s, j + 1)
  {
    FirstBlocksStep(s, j, env);
    assert InTurn(s, j + 1, env) == Receive(InTurn(s, j, env), s.Cut(j), env).0;
  }
}
