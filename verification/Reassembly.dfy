/** The receiving side of a large request (Block1 of RFC 7959, Q-Block1 of RFC 9177) in a
    session that asked for single bodies: blocks arrive in any order, are remembered in a
    block list and copied into a growing buffer, and the body is handed to the application
    once it is complete. */
module Reassembly {
  import opened Words
  import opened BlockCut
  import opened ReceivedBlocks

  /** One byte of allocated memory: not yet written, or holding a value. */
  datatype Cell = Junk | Val(b: Byte)

  datatype Body = NoBody | Body(cells: seq<Cell>)

  function Vals(s: seq<Byte>): (r: seq<Cell>)
    ensures |r| == |s| && forall i :: 0 <= i < |s| ==> r[i] == Val(s[i])
  {
    seq(|s|, i requires 0 <= i < |s| => Val(s[i]))
  }

  // ---------------------------------------------------------------- the buffer

  function JunkCells(n: nat): (r: seq<Cell>)
    ensures |r| == n && forall i :: 0 <= i < n ==> r[i] == Junk
  {
    seq(n, _ => Junk)
  }

  function Overwrite(cells: seq<Cell>, data: seq<Byte>, offset: nat): (r: seq<Cell>)
    requires offset + |data| <= |cells|
    ensures |r| == |cells|
    ensures forall i :: 0 <= i < |r| ==>
              r[i] == if offset <= i < offset + |data| then Val(data[i - offset]) else cells[i]
  {
    cells[..offset] + Vals(data) + cells[offset + |data|..]
  }

  /** realloc: keeps the common prefix, the rest is not initialised. */
  function Resize(cells: seq<Cell>, n: nat): (r: seq<Cell>)
    ensures |r| == n
    ensures forall i :: 0 <= i < n ==> r[i] == if i < |cells| then cells[i] else Junk
  {
    seq(n, i requires 0 <= i => if i < |cells| then cells[i] else Junk)
  }

  /** coap_block_build_body; `memory` tells whether allocations succeed. */
  function Build(body: Body, data: seq<Byte>, offset: nat, total: nat, memory: bool): Body {
    if body == NoBody && (total == 0 || !memory) then NoBody
    else
      var cells := if body == NoBody then JunkCells(total) else body.cells;
      if offset + |data| <= total && |cells| >= total then Body(Overwrite(cells, data, offset))
      else if !memory then NoBody
      else Body(Overwrite(Resize(cells, offset + |data|), data, offset))
  }

  ghost function Contents(a: array?<Cell>): Body
    reads a
  {
    if a == null then NoBody else Body(a[..])
  }

  /** Copies in place when the block fits, otherwise moves to a buffer of the right size. */
  method BuildBody(body: array?<Cell>, data: seq<Byte>, offset: nat, total: nat, memory: bool)
    returns (r: array?<Cell>)
    modifies body
    ensures Contents(r) == Build(old(Contents(body)), data, offset, total, memory)
    ensures r != null && r != body ==> fresh(r)
  {
    r := body;
    if r == null && total != 0 {
      if memory {
        r := new Cell[total](_ => Junk);
        assert r[..] == JunkCells(total);
      }
    }
    if r == null {
      return;
    }
    if offset + |data| <= total && r.Length >= total {
      CopyIn(r, data, offset);
    } else {
      if !memory {
        return null;
      }
      var n := offset + |data|;
      var grown := new Cell[n](i reads r => if 0 <= i < r.Length then r[i] else Junk);
      assert grown[..] == Resize(r[..], n);
      r := grown;
      CopyIn(r, data, offset);
    }
  }

  /** memcpy into the buffer. */
  method CopyIn(a: array<Cell>, data: seq<Byte>, offset: nat)
    requires offset + |data| <= a.Length
    modifies a
    ensures a[..] == Overwrite(old(a[..]), data, offset)
  {
    forall i | 0 <= i < |data| {
      a[offset + i] := Val(data[i]);
    }
  }

  // ---------------------------------------------------------------- one packet

  /** A request with a Block1 or Q-Block1 option; `size1` is 0 when the option is absent. */
  datatype Packet = Packet(num: nat, m: bool, szx: nat, qblock: bool, size1: nat, fmt: nat,
                           nonConfirmable: bool, data: seq<Byte>)
  {
    predicate Valid() {
      num <= MAX_NUM && szx <= 6 && size1 < U32
    }
  }

  /** What the environment decides: memory for a transfer record and for the body buffer,
      and MAX_PAYLOADS of the session. */
  datatype Env = Env(record: bool, memory: bool, maxPayloads: nat)

  datatype Reason = FormatMismatch | SizeMismatch | TooManyMissing

  datatype Outcome =
    | Isolated(data: seq<Byte>, offset: nat, total: nat)  // to the application, untracked
    | Handed(body: Body, length: nat)                     // to the application, as one body
    | NullRead                                            // the same, but there is no buffer to read
    | RawPacket                                           // to the application, no body built
    | AskNext(num: nat, m: bool, szx: nat)                // 2.31
    | Quiet
    | Refused(reason: Reason)                             // 4.08, transfer dropped
    | OutOfMemory                                         // 5.00

  /** A transfer in progress, with the block list seen as a set.  `lost` records that a
      block was counted as received although its bytes could not be stored. */
  datatype Transfer = Idle | Busy(total: nat, blocks: set<nat>, body: Body, fmt: nat, lost: bool)

  /** The received blocks are one run that ends a payload set. */
  ghost predicate EndsPayloadSet(blocks: set<nat>, maxPayloads: nat) {
    && RunCount(blocks) == 1
    && maxPayloads > 0
    && exists e :: e in blocks && e + 1 !in blocks && (e % maxPayloads) + 1 == maxPayloads
  }

  /** The number of blocks in `total` bytes, computed on 32 bits. */
  function TotalBlocks(total: nat, szx: nat): nat {
    Quot((total + Chunk(szx) - 1) % U32, Chunk(szx))
  }

  /** After a block is in: hand the body over, ask for more, or wait. */
  ghost function Conclude(t: Transfer, p: Packet, env: Env): (r: (Transfer, Outcome))
    requires t.Busy?
    ensures r.0 == t || r.0 == Idle
  {
    var complete := AllIn(t.blocks, TotalBlocks(t.total, p.szx));
    if complete && (!p.m || p.qblock) then
      (Idle, if t.body == NoBody then NullRead else Handed(t.body, t.total))
    else if !p.m then
      (t, Quiet)
    else if p.qblock && !(EndsPayloadSet(t.blocks, env.maxPayloads) && p.nonConfirmable) then
      (t, Quiet)
    else
      (t, AskNext(p.num, p.m, p.szx))
  }

  /** The transfer with one more block. */
  function Stored(t: Transfer, p: Packet, data: seq<Byte>, env: Env): (r: Transfer)
    requires t.Busy?
    ensures r.Busy?
  {
    var offset := Offset(p.num, p.szx);
    var total := Max(t.total, offset + |data|);
    var body := Build(t.body, data, offset, total, env.memory);
    Busy(total, t.blocks + {p.num}, body, t.fmt, t.lost || body == NoBody)
  }

  /** Records and stores one block, unless it is known or would need too many ranges. */
  ghost function Store(t: Transfer, p: Packet, data: seq<Byte>, env: Env): (Transfer, Outcome)
    requires t.Busy?
  {
    if data == [] || p.num in t.blocks then
      Conclude(t, p, env)
    else if RunCount(t.blocks + {p.num}) >= RBLOCK_CNT then
      (Idle, Refused(TooManyMissing))
    else
      var t' := Stored(t, p, data, env);
      if t'.body == NoBody then (t', RawPacket) else Conclude(t', p, env)
  }

  /** What one request does to a transfer, in terms of the set of received blocks. */
  ghost function Receive(t: Transfer, p: Packet, env: Env): (Transfer, Outcome) {
    var data := p.data[..Min(|p.data|, Chunk(p.szx))];
    var offset := Offset(p.num, p.szx);
    if t.Idle? && p.num != 0 then
      (Idle, Isolated(data, offset, |data| + offset + if p.m then 1 else 0))
    else if t.Idle? && !p.m then
      (Idle, Isolated(p.data, 0, |p.data|))
    else if t.Idle? && !env.record then
      (Idle, OutOfMemory)
    else
      var cur := if t.Idle? then Busy(p.size1, {}, NoBody, p.fmt, false) else t;
      if p.fmt != cur.fmt then (Idle, Refused(FormatMismatch))
      else if p.qblock && p.size1 != cur.total then (Idle, Refused(SizeMismatch))
      else Store(cur, p, data, env)
  }

  // ---------------------------------------------------------------- the receiver

  /** The receiver with its range array and its body buffer (one resource, one request
      tag; the part of coap_lg_srcv_t that reassembly uses). */
  class Receiver {
    var active: bool
    var total: nat
    var fmt: nat
    var rec: BlockList
    var body: array?<Cell>
    ghost var lost: bool

    ghost predicate Valid()
      reads this, rec, rec.range, body
    {
      rec.Valid() && rec.range.Length == RBLOCK_CNT && U32 - 1 !in rec.Blocks()
    }

    ghost function State(): Transfer
      reads this, rec, rec.range, body
      requires Valid()
    {
      if !active then Idle else Busy(total, rec.Blocks(), Contents(body), fmt, lost)
    }

    constructor ()
      ensures Valid() && State() == Idle && fresh(rec) && fresh(rec.range) && body == null
    {
      active, total, fmt, lost := false, 0, 0, false;
      rec := new BlockList(RBLOCK_CNT);
      body := null;
    }

    /** coap_handle_request_put_block refines Receive. */
    method PutBlock(p: Packet, env: Env, now: nat) returns (o: Outcome)
      requires Valid() && p.Valid() && env.maxPayloads > 0
      modifies this, rec, rec.range, body
      ensures Valid()
      ensures fresh({rec, rec.range} - old({rec, rec.range}))
      ensures body != null && body != old(body) ==> fresh(body)
      ensures (State(), o) == Receive(old(State()), p, env)
    {
      StartFits(p.num, p.szx);
      var data := p.data[..Min(|p.data|, Chunk(p.szx))];
      var offset := (Offset(p.num, p.szx)) % U32;
      if !active && p.num != 0 {
        return Isolated(data, offset, |data| + offset + if p.m then 1 else 0);
      }
      if !active && !(offset == 0 && !p.m) {
        if !env.record {
          return OutOfMemory;
        }
        active, total, fmt, lost := true, p.size1, p.fmt, false;
        rec := new BlockList(RBLOCK_CNT);
        body := null;
      }
      if !active {
        return Isolated(p.data, 0, |p.data|);
      }
      if p.fmt != fmt {
        active := false;
        return Refused(FormatMismatch);
      }
      if p.qblock && p.size1 != total {
        active := false;
        return Refused(SizeMismatch);
      }
      o := StoreBlock(p, data, offset, env, now);
    }

    method StoreBlock(p: Packet, data: seq<Byte>, offset: nat, env: Env, now: nat) returns (o: Outcome)
      requires Valid() && p.Valid() && env.maxPayloads > 0 && active
      requires offset == Offset(p.num, p.szx)
      modifies this, rec, rec.range, body
      ensures Valid() && rec == old(rec)
      ensures body != null && body != old(body) ==> fresh(body)
      ensures (State(), o) == Store(old(State()), p, data, env)
    {
      var seen := true;
      if |data| > 0 {
        seen := rec.CheckIfReceived(p.num);
      }
      if seen {
        o := Finish(p, env);
      } else {
        o := StoreNew(p, data, offset, env, now);
      }
    }

    method StoreNew(p: Packet, data: seq<Byte>, offset: nat, env: Env, now: nat) returns (o: Outcome)
      requires Valid() && p.Valid() && env.maxPayloads > 0 && active
      requires offset == Offset(p.num, p.szx) && data != [] && p.num !in rec.Blocks()
      modifies this, rec, rec.range, body
      ensures Valid() && rec == old(rec)
      ensures body != null && body != old(body) ==> fresh(body)
      ensures (State(), o) == Store(old(State()), p, data, env)
    {
      ghost var t := State();
      var ok := rec.Update(p.num, now);
      assert body == old(body) && Contents(body) == t.body;
      if !ok {
        active := false;
        return Refused(TooManyMissing);
      }
      KeepBytes(data, offset, env.memory);
      assert State() == Stored(t, p, data, env);
      if body == null {
        return RawPacket;
      }
      o := Finish(p, env);
    }

    /** Raises the length first, then copies: the copy never has to outgrow the length. */
    method KeepBytes(data: seq<Byte>, offset: nat, memory: bool)
      modifies `total, `body, `lost, body
      ensures total == Max(old(total), offset + |data|)
      ensures Contents(body) == Build(old(Contents(body)), data, offset, total, memory)
      ensures body != null && body != old(body) ==> fresh(body)
      ensures lost == (old(lost) || body == null)
    {
      if total < offset + |data| {
        total := offset + |data|;
      }
      body := BuildBody(body, data, offset, total, memory);
      lost := lost || body == null;
    }

    method Finish(p: Packet, env: Env) returns (o: Outcome)
      requires Valid() && p.Valid() && env.maxPayloads > 0 && active
      modifies this`active
      ensures Valid()
      ensures (State(), o) == Conclude(old(State()), p, env)
    {
      var complete := rec.CheckAllBlocksIn(TotalBlocks(total, p.szx));
      if p.m || !complete {
        if !p.m {
          return Quiet;
        }
        if !(p.qblock && complete) {
          if p.qblock {
            if !(rec.used == 1 && (rec.range[0].end % env.maxPayloads) + 1 == env.maxPayloads) {
              OneRange(rec, env.maxPayloads);
              return Quiet;
            }
            OneRange(rec, env.maxPayloads);
            if !p.nonConfirmable {
              return Quiet;
            }
          }
          return AskNext(p.num, p.m, p.szx);
        }
      }
      active := false;
      if body == null {
        return NullRead;   // p->body_data->s
      }
      return Handed(Body(body[..]), total);
    }
  }

  lemma OneRange(rec: BlockList, maxPayloads: nat)
    requires rec.Valid() && maxPayloads > 0
    ensures EndsPayloadSet(rec.Blocks(), maxPayloads) <==>
            rec.used == 1 && (rec.range[0].end % maxPayloads) + 1 == maxPayloads
  {
    var rs := rec.range[..rec.used];
    RangesAreRuns(rs);
    if rec.used == 1 {
      var e := rs[0].end;
      assert Covers(rs, e) by { assert rs[0].Has(e); }
      assert e in rec.Blocks() && e + 1 !in rec.Blocks();
      forall x: nat | x in rec.Blocks()
        ensures x <= e && (x < e ==> x + 1 in rec.Blocks())
      {
        assert rs[0].Has(x);
        if x < e {
          assert rs[0].Has(x + 1);
          assert Covers(rs, x + 1);
        }
      }
    }
  }
}
