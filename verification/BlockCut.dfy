/** Cutting a body into blocks (section 2 of RFC 7959): choosing the block size that fits
    a message, and adding one block's slice of the body to it. */
module BlockCut {
  import opened VarUint
  import opened Words

  function Pow2(n: nat): (p: nat)
    ensures p >= 1
  {
    if n == 0 then 1 else 2 * Pow2(n - 1)
  }

  lemma {:induction false} Pow2Add(m: nat, n: nat)
    ensures Pow2(m + n) == Pow2(m) * Pow2(n)
  {
    if m > 0 { Pow2Add(m - 1, n); }
  }

  lemma {:induction false} Pow2Monotone(m: nat, n: nat)
    requires m <= n
    ensures Pow2(m) <= Pow2(n)
  {
    if m < n { Pow2Monotone(m, n - 1); }
  }

  /** Block size in bytes for a size exponent: 1 << (szx + 4). */
  function Chunk(szx: nat): (c: nat)
    ensures c >= 16
  {
    16 * Pow2(szx)
  }

  const MAX_NUM := 0xFFFFF

  /** Where block `num` starts: num << (szx + 4). */
  function Offset(num: nat, szx: nat): nat {
    Times(num, Chunk(szx))
  }

  // Offsets are 32-bit unsigned; for a 20-bit number and a size exponent up to 6 they
  // stay below 2^30.
  lemma StartFits(num: nat, szx: nat)
    requires num <= MAX_NUM && szx <= 6
    ensures Chunk(szx) <= 1024 && Offset(num, szx) + Chunk(szx) <= 0x4000_0000 < U32
  {
    Pow2Monotone(szx, 6);
    assert Pow2(3) == 8 && Pow2(6) == 64;
    TimesIsProduct(num, Chunk(szx));
    MulMonotone(num, MAX_NUM, Chunk(szx), 1024);
  }

  lemma MulMonotone(a: nat, b: nat, c: nat, d: nat)
    requires a <= b && c <= d
    ensures a * c <= b * d
  {
    assert b * d - a * c == (b - a) * d + a * (d - c);
  }

  // ---------------------------------------------------------------- choosing the size

  /** Position of the highest set bit, counted from 1. */
  function Fls(i: nat): nat {
    if i == 0 then 0 else 1 + Fls(i / 2)
  }

  lemma {:induction false} FlsBounds(i: nat)
    ensures i < Pow2(Fls(i))
    ensures i > 0 ==> Fls(i) > 0 && Pow2(Fls(i) - 1) <= i
  {
    if i > 0 { FlsBounds(i / 2); }
  }

  /** coap_flsll. */
  method Flsll(i: nat) returns (n: nat)
    ensures n == Fls(i)
  {
    n := 0;
    var j := i;
    while j != 0
      invariant n + Fls(j) == Fls(i)
      decreases j
    {
      j := j / 2;
      n := n + 1;
    }
  }

  datatype Block = Block(num: nat, m: bool, szx: nat, chunkSize: nat)

  /** The bytes of `data` that block `num` carries. */
  function Slice(data: seq<Byte>, num: nat, szx: nat): seq<Byte> {
    var start := Offset(num, szx);
    if |data| <= start then [] else data[start..Min(|data|, start + Chunk(szx))]
  }

  /** What setup_block_b promises: the block starts where the requested one did, its
      payload fits into `avail` bytes, M tells whether bytes remain, and the size is the
      largest that is needed and fits. */
  ghost predicate Fitted(avail: nat, start: nat, szx: nat, total: nat, block: Block)
    requires start <= total
  {
    && block.chunkSize == Chunk(block.szx)
    && Offset(block.num, block.szx) == start
    && Min(total - start, block.chunkSize) <= avail
    && (block.m <==> start + Min(total - start, block.chunkSize) < total)
    && block.szx <= szx
    && (block.szx == szx <==> Chunk(szx) <= avail || total - start < avail)
    && (block.szx < szx ==> block.chunkSize <= avail < Chunk(block.szx + 1))
  }

  /** The size exponent setup_block_b chooses; Shrink says what the reduced one is. */
  function SizeFor(avail: nat, rest: nat, szx: nat): nat {
    if avail < Chunk(szx) && rest >= avail then (if Fls(avail) < 5 then 0 else Fls(avail) - 5) else szx
  }

  /** The block that is fitted, from the inputs alone. */
  function Choice(avail: nat, num: nat, szx: nat, total: nat): Block
    requires Offset(num, szx) <= total
  {
    var rest := total - Offset(num, szx);
    var s := SizeFor(avail, rest, szx);
    Block(if s < szx then num * Pow2(szx - s) else num, Chunk(s) < rest, s, Chunk(s))
  }

  /** setup_block_b for an unreliable session (no BERT): `avail` bytes are left in the
      message, `total` is the length of the body. */
  method SetupBlock(avail: nat, num: nat, szx: nat, total: nat) returns (ok: bool, block: Block)
    requires num <= MAX_NUM && szx <= 6 && Offset(num, szx) <= total
    ensures ok <==> avail >= 16 || total - Offset(num, szx) < avail
    ensures ok ==> Fitted(avail, Offset(num, szx), szx, total, block) && block == Choice(avail, num, szx, total)
  {
    StartFits(num, szx);
    var start := Offset(num, szx) % U32;
    var newNum, newSize := num, szx;
    if avail < Chunk(szx) && total - start >= avail {
      if avail < 16 {
        return false, Block(num, false, szx, Chunk(szx));
      }
      newNum, newSize := Shrink(avail, num, szx);
    }
    block := Block(newNum, Chunk(newSize) < total - start, newSize, Chunk(newSize));
    FittedBy(avail, start, szx, total, block);
    SizeIs(avail, total - start, szx, newSize);
    ChoiceBy(avail, num, szx, total, block);
    return true, block;
  }

  /** The same offset in the largest size that fits: num <<= szx - newSize. */
  method Shrink(avail: nat, num: nat, szx: nat) returns (newNum: nat, newSize: nat)
    requires 16 <= avail < Chunk(szx)
    ensures newSize < szx && Chunk(newSize) <= avail < Chunk(newSize + 1)
    ensures Offset(newNum, newSize) == Offset(num, szx)
    ensures Fls(avail) >= 5 && newSize == Fls(avail) - 5 && newNum == num * Pow2(szx - newSize)
  {
    newSize := FitSize(avail, szx);
    newNum := num * Pow2(szx - newSize);
    Rescale(num, newSize, szx);
  }

  lemma FittedBy(avail: nat, start: nat, szx: nat, total: nat, b: Block)
    requires start <= total && Offset(b.num, b.szx) == start
    requires b.chunkSize == Chunk(b.szx) && (b.m <==> b.chunkSize < total - start)
    requires if avail < Chunk(szx) && total - start >= avail
             then b.szx < szx && b.chunkSize <= avail < Chunk(b.szx + 1)
             else b.szx == szx
    ensures Fitted(avail, start, szx, total, b)
  {
  }

  lemma SizeIs(avail: nat, rest: nat, szx: nat, s: nat)
    requires if avail < Chunk(szx) && rest >= avail then Fls(avail) >= 5 && s == Fls(avail) - 5 else s == szx
    ensures s == SizeFor(avail, rest, szx)
  {
  }

  lemma ChoiceBy(avail: nat, num: nat, szx: nat, total: nat, b: Block)
    requires Offset(num, szx) <= total && b.szx == SizeFor(avail, total - Offset(num, szx), szx)
    requires b.chunkSize == Chunk(b.szx) && (b.m <==> b.chunkSize < total - Offset(num, szx))
    requires b.num == if b.szx < szx then num * Pow2(szx - b.szx) else num
    ensures b == Choice(avail, num, szx, total)
  {
  }

  /** The largest size exponent whose block fits. */
  method FitSize(avail: nat, ghost szx: nat) returns (newSize: nat)
    requires 16 <= avail < Chunk(szx)
    ensures newSize < szx && Chunk(newSize) <= avail < Chunk(newSize + 1)
    ensures Fls(avail) >= 5 && newSize == Fls(avail) - 5
  {
    var fls := Flsll(avail);
    FlsBounds(avail);
    assert Pow2(4) == 16;
    if fls < 5 { Pow2Monotone(fls, 4); }
    newSize := fls - 5;
    Pow2Add(4, newSize);
    Pow2Add(4, newSize + 1);
    if szx <= newSize { Pow2Monotone(szx, newSize); }
  }

  /** num <<= szx - newSize keeps the byte offset. */
  lemma Rescale(num: nat, newSize: nat, szx: nat)
    requires newSize <= szx
    ensures Offset(num * Pow2(szx - newSize), newSize) == Offset(num, szx)
  {
    var a, b := Pow2(szx - newSize), Chunk(newSize);
    assert a * b == Chunk(szx) by {
      Pow2Add(szx - newSize, newSize);
      MulAssociates(a, 16, Pow2(newSize));
      MulAssociates(16, a, Pow2(newSize));
    }
    TimesIsProduct(num * a, b);
    TimesIsProduct(num, Chunk(szx));
    MulAssociates(num, a, b);
  }

  lemma MulAssociates(a: nat, b: nat, c: nat)
    ensures (a * b) * c == a * (b * c)
  {
  }

  datatype WriteResult = Illegal | NoRoom | Written(block: Block, opt: seq<Byte>)

  // ---------------------------------------------------------------- the message

  /** What the space of an option value depends on: the length of the value already there, if
      any; the bytes of the option's own header, and how many bytes the header of the option
      behind it loses when this one is inserted. */
  datatype Slot = Slot(prior: Option<nat>, header: nat, saved: nat) {
    /** The free space coap_update_option asks for. */
    function Asked(len: nat): nat {
      match prior
      case None => header + len
      case Some(was) => if len > was then len - was else 0
    }

    /** By how much the message grows. */
    function Growth(len: nat): int {
      match prior
      case None => header + len - saved
      case Some(was) => len - was
    }

    /** What is left of `avail` bytes; without enough space the option stays as it was. */
    function Left(avail: nat, len: nat): int {
      if Asked(len) <= avail then avail - Growth(len) else avail
    }
  }

  /** A message: its size, its Block option and its payload. */
  class Pdu {
    var used: nat
    const maxSize: nat
    const header: nat
    const saved: nat
    var option: Option<seq<Byte>>
    var hasData: bool
    var payload: seq<Byte>

    ghost predicate Valid()
      reads this
    {
      && |payload| <= used <= maxSize
      && (!hasData ==> payload == [])
      && 1 <= header <= 3 && saved <= 2
      && |payload| + (if option.Some? then header + |option.value| else saved) <= used
    }

    /** A message without a Block option and without payload. */
    constructor (used: nat, maxSize: nat, header: nat, saved: nat)
      requires saved <= used <= maxSize && 1 <= header <= 3 && saved <= 2
      ensures Valid() && this.used == used && this.maxSize == maxSize && !hasData && option == None
      ensures OptionSlot() == Slot(None, header, saved)
    {
      this.used, this.maxSize, this.header, this.saved := used, maxSize, header, saved;
      option, hasData, payload := None, false, [];
    }

    /** Space in front of the payload marker, as setup_block_b measures it. */
    function Avail(): nat
      requires Valid()
      reads this
    {
      maxSize - (used - |payload|)
    }

    function OptionSlot(): Slot
      reads this
    {
      Slot(if option.None? then None else Some(|option.value|), header, saved)
    }

    /** coap_update_option for the Block option; its callers do not look at the result. */
    method UpdateOption(value: seq<Byte>)
      requires Valid()
      modifies `used, `option
      ensures Valid()
      ensures maxSize - used == old(OptionSlot()).Left(old(maxSize - used), |value|)
      ensures used == old(used) + if old(OptionSlot()).Asked(|value|) <= old(maxSize - used)
                                  then old(OptionSlot()).Growth(|value|) else 0
      ensures option == if old(OptionSlot()).Asked(|value|) <= old(maxSize - used) then Some(value) else old(option)
    {
      if option.None? {
        if used + header + |value| > maxSize {
          return;
        }
        used := used + header + |value| - saved;
      } else {
        if |value| > |option.value| && used + |value| - |option.value| > maxSize {
          return;
        }
        used := used + |value| - |option.value|;
      }
      option := Some(value);
    }

    /** coap_write_block_b_opt: results -2, -3 and 1. */
    method WriteBlockOpt(num: nat, szx: nat, length: nat) returns (r: WriteResult)
      requires Valid() && num <= MAX_NUM && szx <= 6
      modifies `used, `option
      ensures Valid()
      ensures var start, avail := Offset(num, szx), old(Avail());
              && (r == Illegal <==> num != 0 && length <= start)
              && (r == NoRoom <==> r != Illegal && avail < 16 && length - start >= avail)
              && (r.Written? ==>
                   && start <= length && Fitted(avail, start, szx, length, r.block)
                   && r.block == Choice(avail, num, szx, length)
                   && r.opt == Shortest(BlockValue(r.block.num, r.block.m, r.block.szx))
                   && Value(r.opt) == BlockValue(r.block.num, r.block.m, r.block.szx)
                   && |r.opt| == OptionLength(avail, num, szx, length)
                   && maxSize - used == old(OptionSlot()).Left(old(maxSize - used), |r.opt|))
      ensures r.Written? && old(OptionSlot()).Asked(|r.opt|) <= old(maxSize - used) ==> option == Some(r.opt)
      ensures !r.Written? ==> unchanged(this)
    {
      StartFits(num, szx);
      var start := Offset(num, szx) % U32;
      if num != 0 && length <= start {
        return Illegal;
      }
      assert num == 0 ==> start == 0;
      var ok, block := SetupBlock(Avail(), num, szx, length);
      if !ok {
        return NoRoom;
      }
      var v := BlockValue(block.num, block.m, block.szx);
      ValueOfShortest(v);
      UpdateOption(Shortest(v));
      r := Written(block, Shortest(v));
    }

    /** coap_add_data: the payload and one marker byte in front of it. */
    method AddData(data: seq<Byte>) returns (ok: bool)
      requires Valid()
      modifies `used, `hasData, `payload
      ensures Valid()
      ensures ok <==> data == [] || (!old(hasData) && old(used) + |data| + 1 <= maxSize)
      ensures ok && data != [] ==> hasData && payload == data && used == old(used) + |data| + 1
      ensures !ok || data == [] ==> unchanged(this)
    {
      if |data| == 0 {
        return true;
      }
      if hasData || used + |data| + 1 > maxSize {
        return false;
      }
      used := used + 1;
      hasData, payload := true, data;
      used := used + |data|;
      return true;
    }

    /** coap_add_block and (without BERT) coap_add_block_b_data. */
    method AddBlock(data: seq<Byte>, num: nat, szx: nat) returns (ok: bool)
      requires Valid() && Offset(num, szx) < U32
      modifies `used, `hasData, `payload
      ensures Valid()
      ensures ok <==> Slice(data, num, szx) != [] && !old(hasData)
                      && old(used) + |Slice(data, num, szx)| + 1 <= maxSize
      ensures ok ==> hasData && payload == Slice(data, num, szx)
      ensures !ok ==> unchanged(this)
    {
      var start := (Offset(num, szx)) % U32;
      if |data| <= start {
        return false;
      }
      ok := AddData(data[start..start + Min(|data| - start, Chunk(szx))]);
    }

    /** Any other option of `size` bytes, added behind the others if there is space. */
    method AddOption(size: nat)
      requires Valid()
      modifies `used
      ensures Valid()
      ensures maxSize - used == LeftAfter(old(maxSize - used), size)
      ensures used == old(used) + if old(used) + size <= maxSize then size else 0
    {
      if used + size <= maxSize {
        used := used + size;
      }
    }

    /** A fitted block is written and then added: coap_write_block_b_opt, and
        coap_add_block_b_data with the block it leaves. */
    method WriteAndAdd(data: seq<Byte>, num: nat, szx: nat) returns (ok: bool)
      requires Valid() && num <= MAX_NUM && szx <= 6
      modifies this
      ensures Valid()
      ensures ok <==> !old(hasData) && FittedGoesOut(old(Avail()), old(OptionSlot()), num, szx, |data|)
      ensures ok ==> var start := Offset(num, szx);
                     payload == data[start..start + FittedPayload(old(Avail()), num, szx, |data|)]
    {
      ghost var avail, slot := Avail(), OptionSlot();
      var r := WriteBlockOpt(num, szx, |data|);
      if !r.Written? {
        return false;
      }
      ok := AddFitted(data, r.block, avail, slot, num, szx);
    }

    /** The second half, for the block that was chosen. */
    method AddFitted(data: seq<Byte>, block: Block, ghost avail: nat, ghost slot: Slot, ghost num: nat, ghost szx: nat)
      returns (ok: bool)
      requires Valid() && num <= MAX_NUM && szx <= 6
      requires Offset(num, szx) <= |data| && (avail >= 16 || |data| - Offset(num, szx) < avail)
      requires block == Choice(avail, num, szx, |data|)
      requires !hasData ==> maxSize - used == slot.Left(avail, OptionLength(avail, num, szx, |data|))
      modifies `used, `hasData, `payload
      ensures Valid()
      ensures ok <==> !old(hasData) && FittedGoesOut(avail, slot, num, szx, |data|)
      ensures ok ==> var start := Offset(num, szx);
                     payload == data[start..start + FittedPayload(avail, num, szx, |data|)]
    {
      StartFits(num, szx);
      ChoiceKeepsStart(avail, num, szx, |data|);
      FittedRoom(avail, slot, data, num, szx);
      ok := AddBlock(data, block.num, block.szx);
    }

    /** coap_write_block_opt, which fits a copy of the block; then an option of `extra` bytes (the
        Size2 option in coap_add_data_blocked_response; 0 for none); then coap_add_block with
        the block that was asked for. */
    method WriteCopyAndAdd(data: seq<Byte>, num: nat, szx: nat, extra: nat) returns (ok: bool)
      requires Valid() && num <= MAX_NUM && szx <= 6
      modifies this
      ensures Valid()
      ensures ok <==> !old(hasData) && RequestedGoesOut(old(Avail()), old(OptionSlot()), num, szx, |data|, extra)
      ensures ok ==> payload == Slice(data, num, szx)
    {
      StartFits(num, szx);
      ghost var avail, slot := Avail(), OptionSlot();
      var r := WriteBlockOpt(num, szx, |data|);
      if !r.Written? {
        return false;
      }
      AddOption(extra);
      RequestedRoom(avail, slot, data, num, szx, extra);
      ok := AddBlock(data, num, szx);
    }
  }

  /** What is left of `left` bytes after an option of `size` bytes, which is skipped if it does
      not fit. */
  function LeftAfter(left: int, size: nat): int {
    if size <= left then left - size else left
  }

  lemma ChoiceKeepsStart(avail: nat, num: nat, szx: nat, length: nat)
    requires Offset(num, szx) <= length && (avail >= 16 || length - Offset(num, szx) < avail)
    ensures var b := Choice(avail, num, szx, length); Offset(b.num, b.szx) == Offset(num, szx) && b.szx <= szx
  {
    var rest := length - Offset(num, szx);
    if avail < Chunk(szx) && rest >= avail {
      FlsBounds(avail);
      assert Pow2(4) == 16;
      if Fls(avail) < 5 { Pow2Monotone(Fls(avail), 4); }
      var s := Fls(avail) - 5;
      Pow2Add(4, s);
      if szx <= s { Pow2Monotone(szx, s); }
      Rescale(num, s, szx);
    }
  }

  lemma SliceSize(data: seq<Byte>, num: nat, szx: nat)
    requires Offset(num, szx) < |data|
    ensures |Slice(data, num, szx)| == Min(|data| - Offset(num, szx), Chunk(szx))
  {
  }

  lemma ChoiceSlice(avail: nat, data: seq<Byte>, num: nat, szx: nat)
    requires CanFit(avail, num, szx, |data|)
    ensures var b, start := Choice(avail, num, szx, |data|), Offset(num, szx);
            Slice(data, b.num, b.szx) == data[start..start + FittedPayload(avail, num, szx, |data|)]
  {
    ChoiceKeepsStart(avail, num, szx, |data|);
  }

  /** A block is found for the request. */
  predicate CanFit(avail: nat, num: nat, szx: nat, length: nat) {
    var start := Offset(num, szx);
    start < length && (avail >= 16 || length - start < avail)
  }

  /** The length of the option for the fitted block. */
  function OptionLength(avail: nat, num: nat, szx: nat, length: nat): nat
    requires Offset(num, szx) <= length
  {
    var b := Choice(avail, num, szx, length);
    |Shortest(BlockValue(b.num, b.m, b.szx))|
  }

  /** How many bytes the fitted block carries. */
  function FittedPayload(avail: nat, num: nat, szx: nat, length: nat): nat
    requires Offset(num, szx) <= length
  {
    var rest := length - Offset(num, szx);
    Min(rest, Chunk(SizeFor(avail, rest, szx)))
  }

  /** When a fitted block can be added to its message: `avail` free bytes have to take the
      payload of the chosen size, one marker byte, and what the Block option grows by, if it
      can be written at all. */
  predicate FittedGoesOut(avail: nat, slot: Slot, num: nat, szx: nat, length: nat) {
    && CanFit(avail, num, szx, length)
    && var len := OptionLength(avail, num, szx, length);
       FittedPayload(avail, num, szx, length) + 1 + (if slot.Asked(len) <= avail then slot.Growth(len) else 0) <= avail
  }

  /** The same for the block in the size that was asked for, with another option added. */
  predicate RequestedGoesOut(avail: nat, slot: Slot, num: nat, szx: nat, length: nat, extra: nat) {
    && CanFit(avail, num, szx, length)
    && Min(length - Offset(num, szx), Chunk(szx)) + 1 <=
         LeftAfter(slot.Left(avail, OptionLength(avail, num, szx, length)), extra)
  }

  /** The values behind WriteAndAdd: the space left decides. */
  lemma FittedRoom(avail: nat, slot: Slot, data: seq<Byte>, num: nat, szx: nat)
    requires Offset(num, szx) <= |data| && (avail >= 16 || |data| - Offset(num, szx) < avail)
    ensures var b := Choice(avail, num, szx, |data|); var slice := Slice(data, b.num, b.szx);
            slice != [] && |slice| + 1 <= slot.Left(avail, OptionLength(avail, num, szx, |data|)) <==>
            FittedGoesOut(avail, slot, num, szx, |data|)
    ensures CanFit(avail, num, szx, |data|) ==>
              var b, start := Choice(avail, num, szx, |data|), Offset(num, szx);
              Slice(data, b.num, b.szx) == data[start..start + FittedPayload(avail, num, szx, |data|)]
  {
    if Offset(num, szx) < |data| {
      ChoiceSlice(avail, data, num, szx);
    } else {
      ChoiceKeepsStart(avail, num, szx, |data|);
    }
  }

  /** The values behind WriteCopyAndAdd. */
  lemma RequestedRoom(avail: nat, slot: Slot, data: seq<Byte>, num: nat, szx: nat, extra: nat)
    requires Offset(num, szx) <= |data| && (avail >= 16 || |data| - Offset(num, szx) < avail)
    ensures var slice := Slice(data, num, szx);
            slice != [] && |slice| + 1 <= LeftAfter(slot.Left(avail, OptionLength(avail, num, szx, |data|)), extra) <==>
            RequestedGoesOut(avail, slot, num, szx, |data|, extra)
  {
    if Offset(num, szx) < |data| { SliceSize(data, num, szx); }
  }

  /** The block that was asked for takes its bytes, a marker and what the Block option grows by;
      the other option takes its bytes if these are left behind the Block option. */
  lemma RequestedIff(avail: nat, slot: Slot, num: nat, szx: nat, length: nat, extra: nat)
    requires CanFit(avail, num, szx, length)
    ensures var start, len := Offset(num, szx), OptionLength(avail, num, szx, length);
            var grown := if slot.Asked(len) <= avail then slot.Growth(len) else 0;
            var needed := Min(length - start, Chunk(szx)) + 1 + grown;
            RequestedGoesOut(avail, slot, num, szx, length, extra) <==>
              needed + (if grown + extra <= avail then extra else 0) <= avail
  {
  }

  /** 64 bytes left, 64-byte blocks, 128 bytes to send, a Block option that does not grow: the
      marker alone is too much. */
  lemma ExactFillFails()
    ensures CanFit(64, 0, 2, 128) && !FittedGoesOut(64, Slot(Some(1), 1, 0), 0, 2, 128)
  {
    assert Pow2(1) == 2;
    assert Chunk(2) == 64;
  }

  /** 17 bytes left, 16-byte blocks, 64 bytes to send, no Block option yet: the option takes
      the byte that the marker would need. */
  lemma OptionTakesTheRoom()
    ensures CanFit(17, 0, 0, 64) && !FittedGoesOut(17, Slot(None, 1, 0), 0, 0, 64)
  {
    assert Chunk(0) == 16;
    assert SizeFor(17, 64, 0) == 0;
  }

  /** A reduced size stays in the copy: the block that was asked for is then too large, unless
      the option shrinks. */
  lemma ReducedCopyFails(avail: nat, slot: Slot, num: nat, szx: nat, length: nat, extra: nat)
    requires CanFit(avail, num, szx, length) && avail < Chunk(szx) && length - Offset(num, szx) >= avail
    requires slot.Growth(OptionLength(avail, num, szx, length)) >= 0
    ensures !RequestedGoesOut(avail, slot, num, szx, length, extra)
  {
  }

  /** 20 bytes left, 32-byte blocks asked for, 64 bytes to send: fitted with 16 bytes, sent with
      none. */
  lemma CopyOfTwentyFails(extra: nat)
    ensures CanFit(20, 0, 1, 64) && !RequestedGoesOut(20, Slot(Some(1), 1, 0), 0, 1, 64, extra)
  {
    assert Pow2(1) == 2 && Chunk(1) == 32 && Chunk(0) == 16;
    assert SizeFor(20, 64, 1) == 0;
    assert Choice(20, 0, 1, 64) == Block(0, true, 0, 16);
    assert Shortest(8) == Shortest(0) + [8];
    ReducedCopyFails(20, Slot(Some(1), 1, 0), 0, 1, 64, extra);
  }

  /** Eight spare bytes are always enough. */
  lemma RoomyBlockGoesOut(avail: nat, slot: Slot, num: nat, szx: nat, length: nat)
    requires CanFit(avail, num, szx, length) && szx <= 6 && num <= MAX_NUM && 1 <= slot.header <= 3
    requires FittedPayload(avail, num, szx, length) + 8 <= avail
    ensures FittedGoesOut(avail, slot, num, szx, length)
  {
    OptionIsShort(avail, num, szx, length);
  }

  /** The option value is a 32-bit number, also where the block number outgrows its 20 bits. */
  lemma OptionIsShort(avail: nat, num: nat, szx: nat, length: nat)
    requires CanFit(avail, num, szx, length) && szx <= 6 && num <= MAX_NUM
    ensures OptionLength(avail, num, szx, length) <= 4
  {
    var b := Choice(avail, num, szx, length);
    StartFits(num, szx);
    ChoiceKeepsStart(avail, num, szx, length);
    TimesIsProduct(b.num, Chunk(b.szx));
    MulMonotone(b.num, b.num, 16, Chunk(b.szx));
    assert Pow256(4) == U32 by { assert Pow256(2) == 0x1_0000; }
    ShortestLength(BlockValue(b.num, b.m, b.szx), 4);
  }

  // ---------------------------------------------------------------- the cuts tile the body

  function BlockCount(length: nat, szx: nat): nat {
    Quot(length + Chunk(szx) - 1, Chunk(szx))
  }

  /** Blocks below the block count are the non-empty ones. */
  lemma BlockCountExact(length: nat, szx: nat, num: nat)
    ensures num < BlockCount(length, szx) <==> Offset(num, szx) < length
  {
    var n := BlockCount(length, szx);
    if num < n { TimesMonotone(num, n, Chunk(szx)); } else { TimesMonotone(n, num, Chunk(szx)); }
  }

  function Concat(data: seq<Byte>, szx: nat, n: nat): seq<Byte> {
    if n == 0 then [] else Concat(data, szx, n - 1) + Slice(data, n - 1, szx)
  }

  lemma SliceExtends(data: seq<Byte>, a: nat, c: nat)
    ensures data[..Min(|data|, a)] + (if |data| <= a then [] else data[a..Min(|data|, a + c)])
         == data[..Min(|data|, a + c)]
  {
  }

  lemma TileStep(data: seq<Byte>, szx: nat, n: nat)
    ensures data[..Min(|data|, Offset(n, szx))] + Slice(data, n, szx) == data[..Min(|data|, Offset(n + 1, szx))]
  {
    SliceExtends(data, Offset(n, szx), Chunk(szx));
  }

  /** The first `n` blocks are the first `n` times chunk bytes. */
  lemma {:induction false} BlocksTile(data: seq<Byte>, szx: nat, n: nat)
    ensures Concat(data, szx, n) == data[..Min(|data|, Offset(n, szx))]
  {
    if n > 0 {
      BlocksTile(data, szx, n - 1);
      TileStep(data, szx, n - 1);
    }
  }

  /** All blocks together are the body. */
  lemma AllBlocksAreTheBody(data: seq<Byte>, szx: nat)
    ensures Concat(data, szx, BlockCount(|data|, szx)) == data
  {
    var n := BlockCount(|data|, szx);
    BlocksTile(data, szx, n);
    BlockCountExact(|data|, szx, n);
  }
}
