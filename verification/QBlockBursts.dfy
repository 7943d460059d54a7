/** Sending a body with Q-Block1 in non-confirmable messages (section 7.2 of RFC 9177): a
    first burst of MAX_PAYLOADS blocks, and one more burst each time the timer runs out. */
module QBlockBursts {
  import opened Words
  import opened BlockCut

  /** n % c for unsigned numbers. */
  function Rem(n: nat, c: nat): (r: nat)
    requires c > 0
    ensures r < c
  {
    n - Times(Quot(n, c), c)
  }

  lemma {:induction false} RemOfSum(j: nat, r: nat, c: nat)
    requires r < c
    ensures Rem(Times(j, c) + r, c) == r
  {
    QuotUnique(Times(j, c) + r, c, j);
  }

  /** The numbers [from, to). */
  function Numbers(from: nat, to: nat): seq<nat> {
    if to <= from then [] else Numbers(from, to - 1) + [to - 1]
  }

  lemma {:induction false} NumbersJoin(a: nat, b: nat, c: nat)
    requires a <= b <= c
    ensures Numbers(a, b) + Numbers(b, c) == Numbers(a, c)
  {
    if b < c { NumbersJoin(a, b, c - 1); }
  }

  /** Where a burst that sends block `k` stops: at the end of a payload set or of the body
      (`n` blocks). */
  function BurstEnd(k: nat, n: nat, mp: nat): nat
    requires mp > 0
    decreases n - k
  {
    if k + 1 >= n || Rem(k, mp) + 1 == mp then k else BurstEnd(k + 1, n, mp)
  }

  /** The last block sent once coap_send_q_blocks was called for block `num`. */
  function CallEnd(num: nat, n: nat, mp: nat): nat
    requires mp > 0
  {
    if num + 1 < n && Rem(num + 1, mp) + 1 != mp then BurstEnd(num + 1, n, mp) else num
  }

  /** Last block sent, and all blocks sent, in order. */
  datatype Progress = Progress(last: nat, sent: seq<nat>)

  function First(n: nat, mp: nat): Progress
    requires mp > 0
  {
    var e := CallEnd(0, n, mp);
    Progress(e, [0] + Numbers(1, e + 1))
  }

  /** A timer that finds blocks left to send. */
  function Timer(p: Progress, n: nat, mp: nat): Progress
    requires mp > 0
  {
    if p.last + 1 >= n then p
    else
      var e := CallEnd(p.last, n, mp);
      Progress(e, p.sent + Numbers(p.last + 1, e + 1))
  }

  /** The state after the first burst and `k` timers. */
  function After(k: nat, n: nat, mp: nat): Progress
    requires mp > 0
  {
    if k == 0 then First(n, mp) else Timer(After(k - 1, n, mp), n, mp)
  }

  // ---------------------------------------------------------------- the routine

  class QXmit {
    const data: seq<Byte>
    const blkSize: nat
    const maxPayloads: nat
    var offset: nat
    var lastPayload: nat     // time of the last burst, 0 when there is nothing left
    var lastAllSent: nat     // time when the last block went out, 0 before
    ghost var sent: seq<nat> // numbers of the blocks that went out

    ghost function N(): nat {
      BlockCount(|data|, blkSize)
    }

    ghost predicate Valid()
      reads this
    {
      maxPayloads > 0 && data != [] && (lastAllSent == 0 || lastPayload == 0)
    }

    constructor (data: seq<Byte>, blkSize: nat, maxPayloads: nat)
      requires maxPayloads > 0 && data != []
      ensures Valid() && this.data == data && this.blkSize == blkSize && this.maxPayloads == maxPayloads
      ensures offset == 0 && lastPayload == 0 && lastAllSent == 0 && sent == []
    {
      this.data, this.blkSize, this.maxPayloads := data, blkSize, maxPayloads;
      offset, lastPayload, lastAllSent, sent := 0, 0, 0, [];
    }

    /** The progress that the fields stand for, once block 0 was sent. */
    ghost predicate At(p: Progress)
      reads this
    {
      && offset == Offset(p.last, blkSize) && sent == p.sent && p.last < N()
      && (lastAllSent != 0 <==> p.last + 1 == N()) && (lastPayload == 0 <==> p.last + 1 == N())
    }

    /** The message for block `k` goes out; it carries exactly that block's slice, and M
        unless it is the last. */
    ghost method Send(k: nat, m: bool, payload: seq<Byte>)
      requires payload == Slice(data, k, blkSize) != [] && (m <==> k + 1 < N())
      modifies `sent
      ensures sent == old(sent) + [k]
    {
      sent := sent + [k];
    }

    /** coap_send_q_blocks for a non-confirmable request: `incPdu` sends block `num` itself,
        then follow the rest of the payload set. */
    method SendQBlocks(num: nat, m: bool, incPdu: bool, now: nat)
      requires Valid() && now > 0 && num < N() && offset == Offset(num, blkSize)
      requires (m <==> num + 1 < N()) && lastAllSent == 0
      modifies this
      ensures Valid()
      ensures var e := CallEnd(num, N(), maxPayloads);
              && offset == Offset(e, blkSize) && num <= e < N()
              && sent == old(sent) + Numbers(if incPdu then num else num + 1, e + 1)
              && (if e + 1 == N() then lastPayload == 0 && lastAllSent == now
                  else lastPayload == now && lastAllSent == 0)
    {
      ghost var before := sent;
      var more := m;
      if incPdu {
        MoreBlocks(data, blkSize, num);
        Send(num, m, Slice(data, num, blkSize));
      }
      ghost var begun := sent;
      if m && Rem(num + 1, maxPayloads) + 1 != maxPayloads {
        more := SendRest(num);
      }
      NumbersFirst(before, begun, num, CallEnd(num, N(), maxPayloads), incPdu);
      if !more {
        lastPayload, lastAllSent := 0, now;
      } else {
        lastPayload := now;
      }
    }

    /** The loop: blocks behind `num` up to the end of the payload set or of the body. */
    method SendRest(num: nat) returns (more: bool)
      requires Valid() && num + 1 < N()
      modifies `offset, `sent
      ensures Valid()
      ensures var e := BurstEnd(num + 1, N(), maxPayloads);
              && num < e < N() && offset == Offset(e, blkSize) && (more <==> e + 1 < N())
              && sent == old(sent) + Numbers(num + 1, e + 1)
    {
      ghost var n, e := N(), BurstEnd(num + 1, N(), maxPayloads);
      var k, next := num, true;
      more := true;
      while next
        invariant Valid() && num <= k < n && (more <==> k + 1 < n)
        invariant k > num ==> offset == Offset(k, blkSize)
        invariant sent == old(sent) + Numbers(num + 1, k + 1)
        invariant if next then more && BurstEnd(k + 1, n, maxPayloads) == e else k == e > num
        decreases n - k
      {
        k := k + 1;
        offset := Offset(k, blkSize);
        more := offset + Chunk(blkSize) < |data|;
        MoreBlocks(data, blkSize, k);
        next := more && Rem(k, maxPayloads) + 1 != maxPayloads;
        assert if next then BurstEnd(k + 1, n, maxPayloads) == e else k == e;
        var slice := Slice(data, k, blkSize);
        if slice == [] {
          break;   // never: block k is not empty
        }
        Send(k, more, slice);
        assert sent == old(sent) + Numbers(num + 1, k + 1) by { NumbersStep(old(sent), num + 1, k); }
      }
    }

    /** Sending the request: coap_send_q_block1 with block 0. */
    method SendFirst(now: nat)
      requires Valid() && now > 0 && offset == 0 && lastAllSent == 0 && sent == []
      modifies this
      ensures Valid() && At(After(0, N(), maxPayloads))
    {
      BlockCountExact(|data|, blkSize, 0);
      BlockCountExact(|data|, blkSize, 1);
      SendQBlocks(0, Chunk(blkSize) < |data|, true, now);
      NumbersFirst([], [0], 0, CallEnd(0, N(), maxPayloads), true);
    }

    /** coap_block_check_q_block1_xmit for this transfer; `due` when the timer ran out. */
    method CheckTimer(due: bool, now: nat, ghost k: nat)
      requires Valid() && now > 0 && At(After(k, N(), maxPayloads))
      modifies this
      ensures Valid() && At(if due then After(k + 1, N(), maxPayloads) else After(k, N(), maxPayloads))
    {
      ghost var p := After(k, N(), maxPayloads);
      if lastPayload != 0 && due {
        QuotOfOffset(p.last, blkSize);
        var num := Quot(offset, Chunk(blkSize));
        MoreBlocks(data, blkSize, num);
        SendQBlocks(num, offset + Chunk(blkSize) < |data|, false, now);
      }
    }
  }

  lemma MoreBlocks(data: seq<Byte>, szx: nat, k: nat)
    ensures Offset(k, szx) + Chunk(szx) < |data| <==> k + 1 < BlockCount(|data|, szx)
    ensures Slice(data, k, szx) != [] <==> k < BlockCount(|data|, szx)
  {
    BlockCountExact(|data|, szx, k);
    BlockCountExact(|data|, szx, k + 1);
  }

  lemma {:induction false} NumbersFirst(before: seq<nat>, begun: seq<nat>, num: nat, e: nat, first: bool)
    requires num <= e && begun == if first then before + [num] else before
    ensures begun + Numbers(num + 1, e + 1) == before + Numbers(if first then num else num + 1, e + 1)
    ensures e == num ==> begun + Numbers(num + 1, e + 1) == begun
  {
    NumbersJoin(num, num + 1, e + 1);
    assert Numbers(num, num) == [];
    assert Numbers(num, num + 1) == [num];
  }

  lemma NumbersStep(before: seq<nat>, from: nat, k: nat)
    requires from <= k
    ensures before + Numbers(from, k) + [k] == before + Numbers(from, k + 1)
  {
  }

  lemma QuotOfOffset(k: nat, szx: nat)
    ensures Quot(Offset(k, szx), Chunk(szx)) == k
  {
    QuotUnique(Offset(k, szx), Chunk(szx), k);
  }

  // ---------------------------------------------------------------- payloads

  function Payloads(data: seq<Byte>, szx: nat, nums: seq<nat>): seq<Byte> {
    if nums == [] then [] else Payloads(data, szx, nums[..|nums| - 1]) + Slice(data, nums[|nums| - 1], szx)
  }

  lemma {:induction false} PayloadsAppend(data: seq<Byte>, szx: nat, nums: seq<nat>, k: nat)
    ensures Payloads(data, szx, nums + [k]) == Payloads(data, szx, nums) + Slice(data, k, szx)
  {
    assert (nums + [k])[..|nums|] == nums;
  }

  lemma {:induction false} PayloadsOfPrefix(data: seq<Byte>, szx: nat, n: nat)
    ensures Payloads(data, szx, Numbers(0, n)) == Concat(data, szx, n)
  {
    if n > 0 {
      var front := Numbers(0, n - 1);
      PayloadsOfPrefix(data, szx, n - 1);
      PayloadsAppend(data, szx, front, n - 1);
      assert Numbers(0, n) == front + [n - 1];
    }
  }

  // ---------------------------------------------------------------- whole runs

  /** Within payload set `j`, a burst runs to the end of the set or of the body. */
  lemma {:induction false} BurstEndExact(k: nat, j: nat, n: nat, mp: nat)
    requires mp > 0 && Times(j, mp) <= k < Times(j, mp) + mp && k < n
    ensures BurstEnd(k, n, mp) == Min(Times(j, mp) + mp, n) - 1
    decreases n - k
  {
    RemOfSum(j, k - Times(j, mp), mp);
    if k + 1 < n && Rem(k, mp) + 1 != mp {
      BurstEndExact(k + 1, j, n, mp);
    }
  }

  /** Any call, for a block whose successor lies in payload set `j`: it runs to the end of that
      set or of the body, but sends nothing if only one block of the set is left. */
  lemma {:induction false} CallEndAnywhere(num: nat, j: nat, n: nat, mp: nat)
    requires mp > 0 && num < n && Times(j, mp) <= num + 1 < Times(j, mp) + mp
    ensures CallEnd(num, n, mp) == if num + 2 == Times(j, mp) + mp then num else Min(Times(j, mp) + mp, n) - 1
  {
    RemOfSum(j, num + 1 - Times(j, mp), mp);
    if num + 1 < n { BurstEndExact(num + 1, j, n, mp); }
  }

  /** A call after payload set `k` was finished (or, with `k` == 0, after block 0). */
  lemma {:induction false} CallEndExact(num: nat, k: nat, n: nat, mp: nat)
    requires mp >= 3 && num < n
    requires num == if k == 0 then 0 else Times(k, mp) - 1
    ensures CallEnd(num, n, mp) == Min(Times(k, mp) + mp, n) - 1
  {
    CallEndAnywhere(num, k, n, mp);
  }

  /** EXACTLY ONCE, IN ORDER: with MAX_PAYLOADS of at least 3, the first burst and `k` timers
      send the blocks 0, 1, 2, ... up to the end of payload set `k`. */
  lemma {:induction false} BurstsCover(k: nat, n: nat, mp: nat)
    requires mp >= 3 && n > 0
    ensures After(k, n, mp).last == Min(Times(k + 1, mp), n) - 1
    ensures After(k, n, mp).sent == Numbers(0, After(k, n, mp).last + 1)
  {
    if k == 0 {
      CallEndExact(0, 0, n, mp);
      NumbersFirst([], [0], 0, First(n, mp).last, true);
    } else {
      var p := After(k - 1, n, mp);
      BurstsCover(k - 1, n, mp);
      if p.last + 1 < n {
        CallEndExact(p.last, k, n, mp);
        NumbersJoin(0, p.last + 1, After(k, n, mp).last + 1);
      }
    }
  }

  lemma {:induction false} SentLength(k: nat, n: nat, mp: nat)
    requires mp >= 3 && n > 0
    ensures |After(k, n, mp).sent| == Min(Times(k + 1, mp), n)
    ensures k == 0 ==> Times(k + 1, mp) == mp
  {
    BurstsCover(k, n, mp);
    assert Times(k + 1, mp) == Times(k, mp) + mp;
    NumbersLength(0, Min(Times(k + 1, mp), n));
  }

  /** No burst is longer than MAX_PAYLOADS. */
  lemma BurstsAreBounded(k: nat, n: nat, mp: nat)
    requires mp > 0 && n > 0
    ensures |After(0, n, mp).sent| <= mp
    ensures |After(k + 1, n, mp).sent| - |After(k, n, mp).sent| <= mp
  {
    if mp >= 3 {
      SentLength(0, n, mp);
      SentLength(k, n, mp);
      SentLength(k + 1, n, mp);
    } else {
      BurstsStuck(0, n, mp);
      BurstsStuck(k, n, mp);
      BurstsStuck(k + 1, n, mp);
    }
  }

  lemma {:induction false} NumbersLength(from: nat, to: nat)
    requires from <= to
    ensures |Numbers(from, to)| == to - from
  {
    if from < to { NumbersLength(from, to - 1); }
  }

  /** With 1 or 2 the first burst is block 0 alone and no timer ever sends another block. */
  lemma {:induction false} BurstsStuck(k: nat, n: nat, mp: nat)
    requires mp == 1 || mp == 2
    ensures After(k, n, mp) == Progress(0, [0])
  {
    if mp == 1 { RemOfSum(1, 0, 1); } else { RemOfSum(0, 1, 2); }
    if k > 0 { BurstsStuck(k - 1, n, mp); }
  }

  /** THE EXACT CONDITION for Q-Block1 over non-confirmable messages: the body goes out, and
      then as a whole, if and only if it is a single block or MAX_PAYLOADS is at least 3. */
  lemma BodyGoesOutIff(data: seq<Byte>, szx: nat, mp: nat)
    requires mp > 0 && data != []
    ensures var n := BlockCount(|data|, szx);
            (exists k :: After(k, n, mp).last + 1 == n) <==> (mp >= 3 || n == 1)
    ensures var n := BlockCount(|data|, szx);
            forall k :: After(k, n, mp).last + 1 == n ==>
              Payloads(data, szx, After(k, n, mp).sent) == data
  {
    var n := BlockCount(|data|, szx);
    BlockCountExact(|data|, szx, 0);
    if mp >= 3 {
      BurstsCover(n, n, mp);
      TimesGrows(n + 1, mp);
      assert After(n, n, mp).last + 1 == n;
    } else if n == 1 {
      BurstsStuck(0, n, mp);
      assert After(0, n, mp).last + 1 == n;
    }
    forall k | After(k, n, mp).last + 1 == n
      ensures mp >= 3 || n == 1
      ensures Payloads(data, szx, After(k, n, mp).sent) == data
    {
      if mp >= 3 { BurstsCover(k, n, mp); } else { BurstsStuck(k, n, mp); }
      assert After(k, n, mp).sent == Numbers(0, n) by {
        if mp < 3 { assert Numbers(0, 1) == [0]; }
      }
      PayloadsOfPrefix(data, szx, n);
      AllBlocksAreTheBody(data, szx);
    }
  }

  lemma {:induction false} TimesGrows(k: nat, c: nat)
    requires c > 0
    ensures Times(k, c) >= k
  {
    if k > 0 { TimesGrows(k - 1, c); }
  }
}
