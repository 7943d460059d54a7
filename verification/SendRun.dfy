/** The sending side of a large request with Block1 (section 2 of RFC 7959): every response
    that acknowledges a block makes the client send the next one, possibly in a size that
    the server asked for. */
module SendRun {
  import opened Words
  import opened BlockCut

  /** The Block1 option of a 2.xx response. */
  datatype Ack = Ack(num: nat, szx: nat)

  /** The fields of a large transmission: size exponent in use, offset of the block sent
      last, and number of the block acknowledged last (-1 before the first). */
  datatype Xmit = Xmit(blkSize: nat, offset: nat, lastBlock: int)

  datatype Outcome =
    | Sent(num: nat, m: bool, szx: nat, payload: seq<Byte>)
    | Ignored                       // taken for a duplicate
    | Finished                      // everything acknowledged, transmission deleted
    | Failed                        // nothing to send at the computed offset

  /** pos % size == 0 */
  predicate Aligned(pos: nat, szx: nat) {
    Offset(Quot(pos, Chunk(szx)), szx) == pos
  }

  /** The block before `num + 1` is acknowledged: number, offset and M of the next block
      follow the transfer, its slice follows the size in the response. */
  function After(data: seq<Byte>, x: Xmit, num: nat, szx: nat): (Xmit, Outcome) {
    if x.lastBlock == num then (x, Ignored)
    else
      var x' := Xmit(x.blkSize, Offset(num + 1, x.blkSize), num);
      if x'.offset >= |data| then (x', Finished)
      else
        var payload := Slice(data, num + 1, szx);
        if payload == [] then (x', Failed)
        else (x', Sent(num + 1, x'.offset + Chunk(x'.blkSize) < |data|, szx, payload))
  }

  /** What coap_handle_response_send_block makes of one acknowledgement. */
  function Step(data: seq<Byte>, x: Xmit, ack: Ack): (Xmit, Outcome) {
    var end := x.offset + Chunk(x.blkSize);
    if ack.szx != x.blkSize && Aligned(end, ack.szx) then
      // the number of the block sent last, counted in the new size
      QuotPositive(end, ack.szx);
      After(data, Xmit(ack.szx, end - Chunk(ack.szx), x.lastBlock), Quot(end, Chunk(ack.szx)) - 1, ack.szx)
    else
      After(data, x, ack.num, ack.szx)
  }

  /** The block sent last is the one after the block acknowledged last. */
  ghost predicate Inv(data: seq<Byte>, x: Xmit) {
    x.lastBlock >= -1 && x.offset == Offset(x.lastBlock + 1, x.blkSize) && x.offset < |data|
  }

  class LgXmit {
    const data: seq<Byte>
    var blkSize: nat
    var offset: nat
    var lastBlock: int

    ghost function State(): Xmit
      reads this
    {
      Xmit(blkSize, offset, lastBlock)
    }

    /** The transmission after its first block went out. */
    constructor (data: seq<Byte>, szx: nat)
      requires data != []
      ensures this.data == data && State() == Xmit(szx, 0, -1) && Inv(data, State())
    {
      this.data, blkSize, offset, lastBlock := data, szx, 0, -1;
    }

    /** coap_handle_response_send_block, for the transmission the token has led to. */
    method HandleAck(ack: Ack) returns (o: Outcome)
      requires ack.num <= MAX_NUM && ack.szx <= 6
      modifies this
      ensures (State(), o) == Step(data, old(State()), ack)
    {
      ghost var x := State();
      var end := offset + Chunk(blkSize);
      if ack.szx != blkSize && Aligned(end, ack.szx) {
        // the number of the block sent last, counted in the new size
        QuotPositive(end, ack.szx);
        var num := Quot(end, Chunk(ack.szx)) - 1;
        blkSize := ack.szx;
        offset := Offset(num, blkSize);
        assert Step(data, x, ack) == After(data, State(), num, ack.szx);
        o := Proceed(num, ack.szx);
      } else {
        assert Step(data, x, ack) == After(data, State(), ack.num, ack.szx);
        o := Proceed(ack.num, ack.szx);
      }
    }

    /** Skips a duplicate, or sends the block after `num`. */
    method Proceed(num: nat, szx: nat) returns (o: Outcome)
      modifies `lastBlock, `offset
      ensures (State(), o) == After(data, old(State()), num, szx)
    {
      if lastBlock == num {
        return Ignored;
      }
      lastBlock := num;
      offset := Offset(num + 1, blkSize);
      if offset < |data| {
        var m := offset + Chunk(blkSize) < |data|;
        var payload := Slice(data, num + 1, szx);
        if payload == [] {
          return Failed;
        }
        return Sent(num + 1, m, szx, payload);
      }
      return Finished;
    }
  }

  lemma QuotPositive(end: nat, szx: nat)
    requires end > 0 && Aligned(end, szx)
    ensures Quot(end, Chunk(szx)) > 0
    ensures end >= Chunk(szx) && Offset(Quot(end, Chunk(szx)) - 1, szx) == end - Chunk(szx)
  {
  }

  lemma {:induction false} TimesInjective(j: nat, k: nat, c: nat)
    requires c > 0 && Times(j, c) == Times(k, c)
    ensures j == k
  {
    if j < k { TimesMonotone(j, k, c); }
    if k < j { TimesMonotone(k, j, c); }
  }

  // ---------------------------------------------------------------- one acknowledgement

  /** The next block starts exactly where the block sent last ended, or nothing is left and
      the transmission is over. */
  ghost predicate Continues(data: seq<Byte>, x: Xmit, x': Xmit, o: Outcome) {
    var end := x.offset + Chunk(x.blkSize);
    if end >= |data| then o == Finished
    else
      && o.Sent?
      && Offset(o.num, o.szx) == end == x'.offset
      && o.szx == x'.blkSize && x'.lastBlock + 1 == o.num
      && o.payload == data[end..Min(|data|, end + Chunk(o.szx))]
      && (o.m <==> end + Chunk(o.szx) < |data|)
  }

  /** In a smaller size every boundary of the larger size is a boundary. */
  lemma ReductionAligned(num: nat, szx: nat, newSzx: nat)
    requires newSzx <= szx
    ensures Aligned(Offset(num, szx), newSzx)
    ensures Quot(Offset(num, szx), Chunk(newSzx)) == num * Pow2(szx - newSzx)
  {
    Rescale(num, newSzx, szx);
    QuotUnique(Offset(num, szx), Chunk(newSzx), num * Pow2(szx - newSzx));
  }

  lemma AckSameSize(data: seq<Byte>, x: Xmit, ack: Ack)
    requires Inv(data, x) && ack.num == x.lastBlock + 1 && ack.szx == x.blkSize
    ensures var (x', o) := Step(data, x, ack); Continues(data, x, x', o)
  {
  }

  /** After a change of size the transmission continues unless the recomputed number looks
      like the one acknowledged before. */
  lemma ResizedContinues(data: seq<Byte>, x: Xmit, ack: Ack)
    requires Inv(data, x) && ack.szx != x.blkSize && Aligned(x.offset + Chunk(x.blkSize), ack.szx)
    ensures var (x', o) := Step(data, x, ack);
            var q := Quot(x.offset + Chunk(x.blkSize), Chunk(ack.szx));
            && (Continues(data, x, x', o) <==> x.lastBlock != q - 1)
            && (o == Ignored <==> x.lastBlock == q - 1)
            && x'.blkSize == ack.szx && x'.lastBlock + 1 == q
  {
    var end := x.offset + Chunk(x.blkSize);
    QuotPositive(end, ack.szx);
    var y, num := Xmit(ack.szx, end - Chunk(ack.szx), x.lastBlock), Quot(end, Chunk(ack.szx)) - 1;
    assert Step(data, x, ack) == After(data, y, num, ack.szx);
    AfterContinues(data, x, y, num);
  }

  lemma AfterContinues(data: seq<Byte>, x: Xmit, y: Xmit, num: nat)
    requires y.lastBlock == x.lastBlock && Offset(num + 1, y.blkSize) == x.offset + Chunk(x.blkSize)
    ensures var (x', o) := After(data, y, num, y.blkSize);
            && (Continues(data, x, x', o) <==> x.lastBlock != num)
            && (o == Ignored <==> x.lastBlock == num)
            && x'.blkSize == y.blkSize && x'.lastBlock == num
  {
  }

  lemma AckReduces(data: seq<Byte>, x: Xmit, ack: Ack)
    requires Inv(data, x) && ack.num == x.lastBlock + 1 && ack.szx < x.blkSize
    ensures var (x', o) := Step(data, x, ack);
            && Continues(data, x, x', o)
            && x'.blkSize == ack.szx
            && x'.lastBlock + 1 == (ack.num + 1) * Pow2(x.blkSize - ack.szx)
  {
    ReducedCount(x.lastBlock + 2, x.blkSize, ack.szx);
    ResizedContinues(data, x, ack);
  }

  lemma ReducedCount(n: nat, szx: nat, newSzx: nat)
    requires n > 0 && newSzx < szx
    ensures Aligned(Offset(n, szx), newSzx)
    ensures Quot(Offset(n, szx), Chunk(newSzx)) == n * Pow2(szx - newSzx) >= n + n
  {
    ReductionAligned(n, szx, newSzx);
    RatioGrows(n, szx - newSzx);
  }

  lemma RatioGrows(n: nat, d: nat)
    requires n > 0 && d > 0
    ensures n * Pow2(d) >= n + n
  {
    assert Pow2(d) == 2 * Pow2(d - 1);
    MulMonotone(n, n, 2, Pow2(d));
  }

  /** An acknowledgement in a larger size that is not aligned is not ignored, as announced:
      the next slice is cut in the larger size, behind a gap. */
  lemma AckUnaligned(data: seq<Byte>, x: Xmit, ack: Ack)
    requires Inv(data, x) && ack.num == x.lastBlock + 1 && ack.szx != x.blkSize
    requires !Aligned(x.offset + Chunk(x.blkSize), ack.szx)
    ensures var (x', o) := Step(data, x, ack);
            Continues(data, x, x', o) <==> x.offset + Chunk(x.blkSize) >= |data|
  {
    ReductionAligned(x.lastBlock + 2, ack.szx, ack.szx);
  }

  /** Every acknowledgement that does not change the size, whatever its number and its size: it
      is ignored, ends the run, or sends what its number says in its own size; if the body has
      no byte there, although not all of it was sent, the run fails. */
  lemma UnresizedOutcome(data: seq<Byte>, x: Xmit, ack: Ack)
    requires ack.szx == x.blkSize || !Aligned(x.offset + Chunk(x.blkSize), ack.szx)
    ensures var (x', o) := Step(data, x, ack);
            var next, from := Offset(ack.num + 1, x.blkSize), Offset(ack.num + 1, ack.szx);
            && (o == Ignored <==> ack.num == x.lastBlock)
            && (o == Ignored ==> x' == x)
            && (o != Ignored ==> x' == Xmit(x.blkSize, next, ack.num))
            && (o == Finished <==> ack.num != x.lastBlock && |data| <= next)
            && (o == Failed <==> ack.num != x.lastBlock && next < |data| <= from)
            && (o.Sent? ==>
                 && o.num == ack.num + 1 && o.szx == ack.szx && from < |data|
                 && o.payload == data[from..Min(|data|, from + Chunk(ack.szx))]
                 && (o.m <==> next + Chunk(x.blkSize) < |data|))
  {
  }

  /** And every one that changes it, at a boundary of both sizes: it is the acknowledgement that
      ends at the same byte in the new size, whatever number it carries. */
  lemma ResizedOutcome(data: seq<Byte>, x: Xmit, ack: Ack, k: nat)
    requires ack.szx != x.blkSize && k > 0 && Offset(k, ack.szx) == x.offset + Chunk(x.blkSize)
    ensures Step(data, x, ack) ==
            Step(data, Xmit(ack.szx, Offset(k - 1, ack.szx), x.lastBlock), Ack(k - 1, ack.szx))
  {
    var end := x.offset + Chunk(x.blkSize);
    QuotUnique(end, Chunk(ack.szx), k);
    QuotPositive(end, ack.szx);
  }

  /** An aligned acknowledgement in a larger size is taken for a duplicate in one case. */
  lemma AckEnlarges(data: seq<Byte>, x: Xmit, ack: Ack)
    requires Inv(data, x) && ack.num == x.lastBlock + 1 && ack.szx > x.blkSize
    requires Aligned(x.offset + Chunk(x.blkSize), ack.szx)
    ensures var (x', o) := Step(data, x, ack);
            && (Continues(data, x, x', o) <==> !(x.lastBlock == 0 && ack.szx == x.blkSize + 1))
            && (o == Ignored <==> x.lastBlock == 0 && ack.szx == x.blkSize + 1)
            && x'.blkSize == ack.szx
  {
    var end := x.offset + Chunk(x.blkSize);
    var q, r := Quot(end, Chunk(ack.szx)), Pow2(ack.szx - x.blkSize);
    EnlargedCount(x.lastBlock + 2, x.blkSize, ack.szx);
    ResizedContinues(data, x, ack);
    // taken for a duplicate iff q - 1 == lastBlock
    RatioIsTwo(q, r, x.lastBlock + 2);
    if ack.szx > x.blkSize + 1 { Pow2Monotone(2, ack.szx - x.blkSize); }
    assert Pow2(1) == 2 && Pow2(2) == 4;
  }

  /** A boundary counted in the two sizes. */
  lemma EnlargedCount(n: nat, szx: nat, newSzx: nat)
    requires n > 0 && szx < newSzx && Aligned(Offset(n, szx), newSzx)
    ensures Quot(Offset(n, szx), Chunk(newSzx)) >= 1
    ensures Quot(Offset(n, szx), Chunk(newSzx)) * Pow2(newSzx - szx) == n
  {
    var q := Quot(Offset(n, szx), Chunk(newSzx));
    QuotPositive(Offset(n, szx), newSzx);
    Rescale(q, szx, newSzx);
    TimesInjective(q * Pow2(newSzx - szx), n, Chunk(szx));
  }

  lemma RatioIsTwo(q: nat, r: nat, n: nat)
    requires q >= 1 && r >= 1 && q * r == n
    ensures q == n - 1 <==> q == 1 && r == 2
    ensures n == 2 && r == 2 ==> q == 1
  {
    assert q * (r - 1) == n - q;
    if q == n - 1 {
      MulMonotone(1, q, r - 1, r - 1);
      assert r != 1;
      if q > 1 { MulMonotone(2, q, 1, r - 1); }
    }
  }

  /** The block sent last, acknowledged in size `szx`, can be continued from. */
  predicate GoodSize(data: seq<Byte>, x: Xmit, szx: nat) {
    var end := x.offset + Chunk(x.blkSize);
    || szx <= x.blkSize
    || (Aligned(end, szx) && !(x.lastBlock == 0 && szx == x.blkSize + 1))
    || (!Aligned(end, szx) && end >= |data|)
  }

  /** THE EXACT CONDITION for an acknowledgement of the block sent last, in any size, to make
      the transmission continue without gap or overlap: its size is not larger; or it is
      larger and aligned, except for twice the size on the second block; or it is larger and
      not aligned, but nothing is left to send. */
  lemma AckContinuesIff(data: seq<Byte>, x: Xmit, ack: Ack)
    requires Inv(data, x) && ack.num == x.lastBlock + 1
    ensures var (x', o) := Step(data, x, ack);
            Continues(data, x, x', o) <==> GoodSize(data, x, ack.szx)
  {
    if ack.szx == x.blkSize {
      AckSameSize(data, x, ack);
    } else if ack.szx < x.blkSize {
      AckReduces(data, x, ack);
    } else if Aligned(x.offset + Chunk(x.blkSize), ack.szx) {
      AckEnlarges(data, x, ack);
    } else {
      AckUnaligned(data, x, ack);
    }
  }

  /** When the size changes to an aligned one, the number in the acknowledgement is not read. */
  lemma AckNumberUnread(data: seq<Byte>, x: Xmit, a: Ack, b: Ack)
    requires a.szx == b.szx != x.blkSize && Aligned(x.offset + Chunk(x.blkSize), a.szx)
    ensures Step(data, x, a) == Step(data, x, b)
  {
  }

  /** The exact condition for an acknowledgement with any number. */
  lemma AnyAckContinuesIff(data: seq<Byte>, x: Xmit, ack: Ack)
    requires Inv(data, x)
    ensures var (x', o) := Step(data, x, ack); var end := x.offset + Chunk(x.blkSize);
            Continues(data, x, x', o) <==>
              if ack.szx != x.blkSize && Aligned(end, ack.szx) then GoodSize(data, x, ack.szx)
              else if end < |data| then ack.num == x.lastBlock + 1 && ack.szx == x.blkSize
              else ack.num != x.lastBlock && Offset(ack.num + 1, x.blkSize) >= |data|
  {
    if ack.szx != x.blkSize && Aligned(x.offset + Chunk(x.blkSize), ack.szx) {
      AckNumberUnread(data, x, ack, Ack(x.lastBlock + 1, ack.szx));
      AckContinuesIff(data, x, Ack(x.lastBlock + 1, ack.szx));
    } else {
      NotResized(data, x, ack.num, ack.szx);
      assert Step(data, x, ack) == After(data, x, ack.num, ack.szx);
    }
  }

  lemma NotResized(data: seq<Byte>, x: Xmit, num: nat, szx: nat)
    requires Inv(data, x)
    ensures var (x', o) := After(data, x, num, szx); var end := x.offset + Chunk(x.blkSize);
            Continues(data, x, x', o) <==>
              if end < |data| then num == x.lastBlock + 1 && szx == x.blkSize
              else num != x.lastBlock && Offset(num + 1, x.blkSize) >= |data|
  {
    var end := x.offset + Chunk(x.blkSize);
    if Offset(num + 1, x.blkSize) == end { TimesInjective(num + 1, x.lastBlock + 2, Chunk(x.blkSize)); }
  }

  /** A SECOND COPY of an acknowledgement that made the client send the next block is
      recognised if and only if the first copy left the block size unchanged.  The copy of one
      that reduced the size makes the client go back and send bytes again; the copy of one that
      enlarged it makes it skip bytes, or stop with bytes unsent. */
  lemma RepeatIgnoredIff(data: seq<Byte>, x: Xmit, ack: Ack)
    requires Inv(data, x) && ack.num == x.lastBlock + 1 && GoodSize(data, x, ack.szx)
    requires x.offset + Chunk(x.blkSize) < |data|
    ensures var (x', o') := Step(data, x, ack); var (x'', o) := Step(data, x', ack);
            && o'.Sent?
            && (o == Ignored <==> ack.szx == x.blkSize)
            && (o == Ignored ==> x'' == x')
            && (ack.szx < x.blkSize ==> x''.offset < x'.offset && o.Sent?)
            && (ack.szx > x.blkSize ==> x''.offset >= x'.offset + 2 * Chunk(ack.szx) && (o.Sent? || o == Finished))
  {
    AckContinuesIff(data, x, ack);
    if ack.szx < x.blkSize {
      RepeatReduced(data, x, ack);
    } else if ack.szx > x.blkSize {
      RepeatEnlarged(data, x, ack);
    }
  }

  lemma RepeatReduced(data: seq<Byte>, x: Xmit, ack: Ack)
    requires Inv(data, x) && ack.num == x.lastBlock + 1 && ack.szx < x.blkSize
    requires x.offset + Chunk(x.blkSize) < |data|
    ensures var x' := Step(data, x, ack).0; var (x'', o) := Step(data, x', ack);
            x''.offset < x'.offset && o.Sent?
  {
    AckReduces(data, x, ack);
    RatioGrows(ack.num + 1, x.blkSize - ack.szx);
    GoesBack(data, Step(data, x, ack).0, ack);
  }

  lemma RepeatEnlarged(data: seq<Byte>, x: Xmit, ack: Ack)
    requires Inv(data, x) && ack.num == x.lastBlock + 1 && ack.szx > x.blkSize && GoodSize(data, x, ack.szx)
    requires x.offset + Chunk(x.blkSize) < |data|
    ensures var x' := Step(data, x, ack).0; var (x'', o) := Step(data, x', ack);
            x''.offset >= x'.offset + 2 * Chunk(ack.szx) && (o.Sent? || o == Finished)
  {
    EnlargedState(data, x, ack);
    GoesAhead(data, Step(data, x, ack).0, ack);
  }

  lemma EnlargedState(data: seq<Byte>, x: Xmit, ack: Ack)
    requires Inv(data, x) && ack.num == x.lastBlock + 1 && ack.szx > x.blkSize && GoodSize(data, x, ack.szx)
    requires x.offset + Chunk(x.blkSize) < |data|
    ensures var x' := Step(data, x, ack).0;
            Inv(data, x') && x'.blkSize == ack.szx && ack.num > x'.lastBlock + 1
  {
    AckContinuesIff(data, x, ack);
    ResizedContinues(data, x, ack);
    CountedLess(data, x, ack);
  }

  lemma CountedLess(data: seq<Byte>, x: Xmit, ack: Ack)
    requires Inv(data, x) && ack.szx > x.blkSize && Aligned(x.offset + Chunk(x.blkSize), ack.szx)
    requires !(x.lastBlock == 0 && ack.szx == x.blkSize + 1)
    ensures x.lastBlock >= Quot(x.offset + Chunk(x.blkSize), Chunk(ack.szx))
  {
    var q := Quot(x.offset + Chunk(x.blkSize), Chunk(ack.szx));
    EnlargedCount(x.lastBlock + 2, x.blkSize, ack.szx);
    SkipsTwo(q, Pow2(ack.szx - x.blkSize), ack.szx - x.blkSize, x.lastBlock);
  }

  lemma SkipsTwo(q: nat, r: nat, d: nat, lastBlock: int)
    requires q >= 1 && d >= 1 && r == Pow2(d) && q * r == lastBlock + 2 && !(lastBlock == 0 && d == 1)
    ensures lastBlock + 2 >= q + 2
  {
    assert r == 2 * Pow2(d - 1);
    MulMonotone(q, q, 2, r);
    if q == 1 && d > 1 { assert r == 4 * Pow2(d - 2); }
  }

  /** An acknowledgement of a block not yet sent, in the current size. */
  lemma GoesAhead(data: seq<Byte>, x: Xmit, ack: Ack)
    requires Inv(data, x) && ack.szx == x.blkSize && ack.num > x.lastBlock + 1
    ensures var (x', o) := Step(data, x, ack);
            x'.offset >= x.offset + 2 * Chunk(x.blkSize) && (o.Sent? || o == Finished)
  {
    TimesMonotone(x.lastBlock + 1, x.lastBlock + 2, Chunk(x.blkSize));
    TimesMonotone(x.lastBlock + 2, ack.num + 1, Chunk(x.blkSize));
  }

  /** And after an unaligned acknowledgement, whose gap is already there: its copy is
      recognised unless the next boundary is aligned, where it is taken for the first block. */
  lemma RepeatUnalignedIff(data: seq<Byte>, x: Xmit, ack: Ack)
    requires Inv(data, x) && ack.num == x.lastBlock + 1 && ack.szx > x.blkSize
    requires !Aligned(x.offset + Chunk(x.blkSize), ack.szx) && Offset(ack.num + 1, ack.szx) < |data|
    ensures var (x', o') := Step(data, x, ack); var (x'', o) := Step(data, x', ack);
            && o'.Sent?
            && (o == Ignored <==>
                 !Aligned(x'.offset + Chunk(x.blkSize), ack.szx) || (ack.num == 0 && ack.szx == x.blkSize + 1))
  {
    UnalignedState(data, x, ack);
    SecondCopy(data, Step(data, x, ack).0, ack);
  }

  lemma SecondCopy(data: seq<Byte>, x: Xmit, ack: Ack)
    requires x.lastBlock == ack.num && x.offset == Offset(ack.num + 1, x.blkSize) && ack.szx > x.blkSize
    ensures Step(data, x, ack).1 == Ignored <==>
            !Aligned(x.offset + Chunk(x.blkSize), ack.szx) || (ack.num == 0 && ack.szx == x.blkSize + 1)
  {
    if Aligned(x.offset + Chunk(x.blkSize), ack.szx) {
      var end := Offset(ack.num + 2, x.blkSize);
      SecondBoundary(ack.num + 2, x.blkSize, ack.szx);
      QuotPositive(end, ack.szx);
      assert Step(data, x, ack) ==
             After(data, Xmit(ack.szx, end - Chunk(ack.szx), ack.num), Quot(end, Chunk(ack.szx)) - 1, ack.szx);
    }
  }

  lemma UnalignedState(data: seq<Byte>, x: Xmit, ack: Ack)
    requires Inv(data, x) && ack.num == x.lastBlock + 1 && ack.szx > x.blkSize
    requires !Aligned(x.offset + Chunk(x.blkSize), ack.szx) && Offset(ack.num + 1, ack.szx) < |data|
    ensures var (x', o) := Step(data, x, ack);
            o.Sent? && x' == Xmit(x.blkSize, Offset(ack.num + 1, x.blkSize), ack.num)
  {
    ChunkMonotone(x.blkSize, ack.szx);
    TimesRight(ack.num + 1, Chunk(x.blkSize), Chunk(ack.szx));
  }

  lemma SecondBoundary(n: nat, szx: nat, newSzx: nat)
    requires n >= 2 && szx < newSzx && Aligned(Offset(n, szx), newSzx)
    ensures Quot(Offset(n, szx), Chunk(newSzx)) == n - 1 <==> n == 2 && newSzx == szx + 1
  {
    var q, r := Quot(Offset(n, szx), Chunk(newSzx)), Pow2(newSzx - szx);
    EnlargedCount(n, szx, newSzx);
    RatioIsTwo(q, r, n);
    if newSzx > szx + 1 { Pow2Monotone(2, newSzx - szx); }
    assert Pow2(1) == 2 && Pow2(2) == 4;
  }

  lemma ChunkMonotone(szx: nat, newSzx: nat)
    requires szx <= newSzx
    ensures Chunk(szx) <= Chunk(newSzx)
  {
    Pow2Monotone(szx, newSzx);
  }

  lemma {:induction false} TimesRight(k: nat, c: nat, d: nat)
    requires c <= d
    ensures Times(k, c) <= Times(k, d)
  {
    if k > 0 { TimesRight(k - 1, c, d); }
  }

  /** An acknowledgement of an older block in the current size starts over behind it. */
  lemma GoesBack(data: seq<Byte>, x: Xmit, ack: Ack)
    requires Inv(data, x) && ack.szx == x.blkSize && ack.num < x.lastBlock
    ensures var (x', o) := Step(data, x, ack); x'.offset < x.offset && o.Sent?
  {
    TimesMonotone(ack.num + 1, x.lastBlock + 1, Chunk(x.blkSize));
  }

  /** 48 bytes, block 0 of 16 bytes acknowledged in 32-byte blocks: the client goes on with
      bytes 32 to 47, and bytes 16 to 31 are never sent. */
  lemma UnalignedLeavesGap(data: seq<Byte>)
    requires |data| == 48
    ensures Step(data, Xmit(0, 0, -1), Ack(0, 1)).1 == Sent(1, true, 1, data[32..48])
  {
    SmallOffsets();
    var x, ack := Xmit(0, 0, -1), Ack(0, 1);
    QuotUnique(16, 32, 0);
    assert !Aligned(16, 1);
    assert Step(data, x, ack) == After(data, x, 0, 1);
  }

  /** 96 bytes, block 0 of 32 bytes acknowledged twice in 16-byte blocks: first bytes 32 to 47
      are sent, then bytes 16 to 31 again. */
  lemma RepeatGoesBack(data: seq<Byte>)
    requires |data| == 96
    ensures var (x', o) := Step(data, Xmit(1, 0, -1), Ack(0, 0));
            && o == Sent(2, true, 0, data[32..48])
            && Step(data, x', Ack(0, 0)).1 == Sent(1, true, 0, data[16..32])
  {
    SmallOffsets();
    var x, ack := Xmit(1, 0, -1), Ack(0, 0);
    QuotUnique(32, 16, 2);
    assert Aligned(32, 0);
    assert Step(data, x, ack) == After(data, Xmit(0, 16, -1), 1, 0);
    assert Step(data, Xmit(0, 32, 1), ack) == After(data, Xmit(0, 32, 1), 0, 0);
  }

  /** 128 bytes, blocks 0 to 2 of 16 bytes acknowledged, then block 3 twice in 32-byte blocks:
      first bytes 64 to 95 are sent, then the transmission ends, and bytes 96 to 127 are never
      sent. */
  lemma RepeatSkips(data: seq<Byte>)
    requires |data| == 128
    ensures var x := Run(data, 0, [Ack(0, 0), Ack(1, 0), Ack(2, 0)]).x;
            var (x', o) := Step(data, x, Ack(3, 1));
            && x == Xmit(0, 48, 2)
            && o == Sent(2, true, 1, data[64..96])
            && Step(data, x', Ack(3, 1)).1 == Finished
  {
    SmallOffsets();
    ThreeAcks(data);
    QuotUnique(64, 32, 2);
    assert Aligned(64, 1);
    assert Step(data, Xmit(0, 48, 2), Ack(3, 1)) == After(data, Xmit(1, 32, 2), 1, 1);
    assert Step(data, Xmit(1, 64, 1), Ack(3, 1)) == After(data, Xmit(1, 64, 1), 3, 1);
  }

  lemma ThreeAcks(data: seq<Byte>)
    requires |data| == 128
    ensures Run(data, 0, [Ack(0, 0), Ack(1, 0), Ack(2, 0)]).x == Xmit(0, 48, 2)
  {
    SmallOffsets();
    var all := [Ack(0, 0), Ack(1, 0), Ack(2, 0)];
    assert all[..2] == [Ack(0, 0), Ack(1, 0)] && all[..2][..1] == [Ack(0, 0)] && all[..2][..1][..0] == [];
    var p1 := Advance(data, Start(data, 0), Ack(0, 0));
    assert p1.x == Xmit(0, 16, 0) && !p1.over;
    var p2 := Advance(data, p1, Ack(1, 0));
    assert p2.x == Xmit(0, 32, 1) && !p2.over;
    assert Run(data, 0, all[..2][..1]) == p1;
    assert Run(data, 0, all[..2]) == p2;
  }

  lemma SmallOffsets()
    ensures Chunk(0) == 16 && Chunk(1) == 32
    ensures Offset(0, 0) == 0 && Offset(1, 0) == 16 && Offset(2, 0) == 32 && Offset(3, 0) == 48
    ensures Offset(0, 1) == 0 && Offset(1, 1) == 32 && Offset(2, 1) == 64 && Offset(4, 1) == 128
  {
    assert Pow2(0) == 1 && Pow2(1) == 2;
    TimesIsProduct(1, 16);
    TimesIsProduct(2, 16);
    TimesIsProduct(3, 16);
    TimesIsProduct(1, 32);
    TimesIsProduct(2, 32);
    TimesIsProduct(4, 32);
  }

  // ---------------------------------------------------------------- whole runs

  /** The acknowledgement is for the block sent last, in any size that can be continued with,
      or it repeats the one before, which did not change the size. */
  predicate Expected(data: seq<Byte>, x: Xmit, ack: Ack) {
    || (ack.num == x.lastBlock + 1 && GoodSize(data, x, ack.szx))
    || (ack.num == x.lastBlock && ack.szx == x.blkSize)
  }

  /** All bytes sent so far, M of the block sent last, and whether the run is over. */
  datatype Progress = Progress(x: Xmit, sent: seq<Byte>, m: bool, over: bool)

  function Start(data: seq<Byte>, szx: nat): Progress {
    Progress(Xmit(szx, 0, -1), Slice(data, 0, szx), Chunk(szx) < |data|, false)
  }

  function Advance(data: seq<Byte>, p: Progress, ack: Ack): Progress {
    if p.over then p else
      var (x, o) := Step(data, p.x, ack);
      match o
      case Sent(_, m, _, payload) => Progress(x, p.sent + payload, m, false)
      case Ignored => p.(x := x)
      case Finished => Progress(x, p.sent, p.m, true)
      case Failed => Progress(x, p.sent, p.m, true)
  }

  function Run(data: seq<Byte>, szx: nat, acks: seq<Ack>): Progress {
    if acks == [] then Start(data, szx)
    else Advance(data, Run(data, szx, acks[..|acks| - 1]), acks[|acks| - 1])
  }

  ghost predicate AllExpected(data: seq<Byte>, szx: nat, acks: seq<Ack>) {
    forall i :: 0 <= i < |acks| ==> Expected(data, Run(data, szx, acks[..i]).x, acks[i])
  }

  /** What was sent is a prefix of the body without gap or overlap; M is clear exactly when
      it is all of it, and a finished run has sent it all. */
  ghost predicate Tiled(data: seq<Byte>, p: Progress) {
    if p.over then p.sent == data && !p.m
    else
      && Inv(data, p.x)
      && p.sent == data[..Min(|data|, p.x.offset + Chunk(p.x.blkSize))]
      && (p.m <==> p.sent != data)
  }

  lemma PrefixGrows(data: seq<Byte>, a: nat, b: nat)
    requires a <= b <= |data|
    ensures data[..a] + data[a..b] == data[..b]
    ensures data[..b] == data <==> b == |data|
  {
  }

  lemma AdvanceTiles(data: seq<Byte>, p: Progress, ack: Ack)
    requires Tiled(data, p) && !p.over && Expected(data, p.x, ack)
    ensures Tiled(data, Advance(data, p, ack))
    ensures ack.num == p.x.lastBlock + 1 ==>
              Advance(data, p, ack).over || |Advance(data, p, ack).sent| > |p.sent|
  {
    if ack.num == p.x.lastBlock + 1 {
      AckContinuesIff(data, p.x, ack);
      var (x', o) := Step(data, p.x, ack);
      ContinuesTiles(data, p, x', o);
    }
  }

  lemma ContinuesTiles(data: seq<Byte>, p: Progress, x': Xmit, o: Outcome)
    requires Tiled(data, p) && !p.over && Continues(data, p.x, x', o)
    ensures o == Finished ==> p.sent == data && !p.m
    ensures o != Finished ==>
              && o.Sent? && |p.sent + o.payload| > |p.sent|
              && Tiled(data, Progress(x', p.sent + o.payload, o.m, false))
  {
    var end := p.x.offset + Chunk(p.x.blkSize);
    if end < |data| {
      PrefixGrows(data, end, Min(|data|, end + Chunk(o.szx)));
    }
  }

  /** THE SENDING RUN, for every sequence of expected acknowledgements. */
  lemma {:induction false} RunTiles(data: seq<Byte>, szx: nat, acks: seq<Ack>)
    requires data != [] && AllExpected(data, szx, acks)
    ensures Tiled(data, Run(data, szx, acks))
  {
    if acks == [] {
      assert Tiled(data, Start(data, szx));
    } else {
      var front := acks[..|acks| - 1];
      assert AllExpected(data, szx, front) by {
        forall i | 0 <= i < |front| ensures Expected(data, Run(data, szx, front[..i]).x, front[i]) {
          assert front[..i] == acks[..i];
        }
      }
      RunTiles(data, szx, front);
      if !Run(data, szx, front).over {
        AdvanceTiles(data, Run(data, szx, front), acks[|acks| - 1]);
      }
    }
  }

  /** How many of the acknowledgements are for the block sent last. */
  function NewAcks(data: seq<Byte>, szx: nat, acks: seq<Ack>): nat {
    if acks == [] then 0
    else
      var front, ack := acks[..|acks| - 1], acks[|acks| - 1];
      NewAcks(data, szx, front) + if ack.num == Run(data, szx, front).x.lastBlock + 1 then 1 else 0
  }

  lemma {:induction false} EachNewAckSends(data: seq<Byte>, szx: nat, acks: seq<Ack>)
    requires data != [] && AllExpected(data, szx, acks)
    ensures Run(data, szx, acks).over || |Run(data, szx, acks).sent| > NewAcks(data, szx, acks)
  {
    if acks != [] {
      var front := acks[..|acks| - 1];
      assert AllExpected(data, szx, front) by {
        forall i | 0 <= i < |front| ensures Expected(data, Run(data, szx, front[..i]).x, front[i]) {
          assert front[..i] == acks[..i];
        }
      }
      EachNewAckSends(data, szx, front);
      RunTiles(data, szx, front);
      if !Run(data, szx, front).over {
        AdvanceTiles(data, Run(data, szx, front), acks[|acks| - 1]);
      }
    }
  }

  /** THE RUN ENDS, with all of the body sent, once as many new acknowledgements came in as
      the body has bytes, however many repeated ones are between them. */
  lemma {:induction false} RunEnds(data: seq<Byte>, szx: nat, acks: seq<Ack>)
    requires data != [] && AllExpected(data, szx, acks) && NewAcks(data, szx, acks) >= |data|
    ensures Run(data, szx, acks).over && Run(data, szx, acks).sent == data
  {
    EachNewAckSends(data, szx, acks);
    RunTiles(data, szx, acks);
  }
}
