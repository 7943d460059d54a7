/** Q-Block1 recovery (section 5 of RFC 9177): the server lists missing block numbers in a
    4.08 response as a CBOR sequence, the client reads the list back. */
module MissingBlocks {
  import VarUint
  import opened BlockCut
  import opened ReceivedBlocks
  import opened Words

  const NUM_LIMIT := 0x10_0000

  type BlockNum = b: nat | b < NUM_LIMIT

  // ---------------------------------------------------------------- what is missing

  /** The numbers in [lo, hi) that were not received, ascending. */
  function MissingIn(blocks: set<nat>, lo: nat, hi: nat): seq<nat>
    decreases hi
  {
    if hi <= lo then []
    else MissingIn(blocks, lo, hi - 1) + if hi - 1 in blocks then [] else [hi - 1]
  }

  /** The list is exact, ascending and without repeats. */
  lemma {:induction false} MissingInExact(blocks: set<nat>, lo: nat, hi: nat)
    ensures forall b :: b in MissingIn(blocks, lo, hi) <==> lo <= b < hi && b !in blocks
    ensures forall i, j :: 0 <= i < j < |MissingIn(blocks, lo, hi)| ==>
              MissingIn(blocks, lo, hi)[i] < MissingIn(blocks, lo, hi)[j]
  {
    if lo < hi {
      MissingInExact(blocks, lo, hi - 1);
      var front := MissingIn(blocks, lo, hi - 1);
      forall i | 0 <= i < |front| ensures front[i] < hi - 1 {
        assert front[i] in front;
      }
    }
  }

  lemma {:induction false} MissingInJoins(blocks: set<nat>, lo: nat, mid: nat, hi: nat)
    requires lo <= mid <= hi
    ensures MissingIn(blocks, lo, hi) == MissingIn(blocks, lo, mid) + MissingIn(blocks, mid, hi)
  {
    if mid < hi { MissingInJoins(blocks, lo, mid, hi - 1); }
  }

  lemma {:induction false} NoneMissing(blocks: set<nat>, lo: nat, hi: nat)
    requires forall b :: lo <= b < hi ==> b in blocks
    ensures MissingIn(blocks, lo, hi) == []
  {
    if lo < hi { NoneMissing(blocks, lo, hi - 1); }
  }

  lemma {:induction false} AllMissing(blocks: set<nat>, lo: nat, hi: nat)
    requires lo <= hi && forall b :: lo <= b < hi ==> b !in blocks
    ensures |MissingIn(blocks, lo, hi)| == hi - lo
  {
    if lo < hi { AllMissing(blocks, lo, hi - 1); }
  }

  // ---------------------------------------------------------------- one CBOR item

  /** add_408_block's encoding: head byte, then the number in as few bytes as needed. */
  function Item(b: BlockNum): (s: seq<Byte>)
    ensures s != [] && s[0] < 27
  {
    if b < 24 then [b]
    else if b < 0x100 then [24, b]
    else if b < 0x1_0000 then [25, b / 0x100, b % 0x100]
    else [26, b / 0x1_0000, b / 0x100 % 0x100, b % 0x100]
  }

  /** From 24 on that is the number without leading zeros, behind a head byte that counts its
      bytes: 24, 25 and 26 for one, two and three of them. */
  lemma ItemIsShortest(b: BlockNum)
    ensures Item(b) == if b < 24 then [b] else [23 + |VarUint.Shortest(b)|] + VarUint.Shortest(b)
  {
    if b >= 0x100 { assert b / 0x100 / 0x100 == b / 0x1_0000; }
    assert b >= 24 ==> VarUint.Shortest(b) == VarUint.Shortest(b / 0x100) + [b % 0x100];
    assert b >= 0x100 ==> VarUint.Shortest(b / 0x100) == VarUint.Shortest(b / 0x1_0000) + [b / 0x100 % 0x100];
    assert b >= 0x1_0000 ==> VarUint.Shortest(b / 0x1_0000) == VarUint.Shortest(0) + [b / 0x1_0000];
  }

  function Items(xs: seq<BlockNum>): seq<Byte> {
    if xs == [] then [] else Item(xs[0]) + Items(xs[1..])
  }

  ghost predicate ItemAt(data: seq<Byte>, pos: nat, b: BlockNum) {
    pos <= |data| && Item(b) <= data[pos..]
  }

  lemma ItemBytes(data: seq<Byte>, pos: nat, b: BlockNum)
    requires ItemAt(data, pos, b)
    ensures pos + |Item(b)| <= |data| && data[pos] == Item(b)[0]
    ensures |Item(b)| > 1 ==> data[pos + 1] == Item(b)[1]
    ensures |Item(b)| > 2 ==> data[pos + 2] == Item(b)[2]
  {
    var it, rest := Item(b), data[pos..];
    assert it[0] == rest[0] && (|it| > 1 ==> it[1] == rest[1]) && (|it| > 2 ==> it[2] == rest[2]);
  }

  /** What derive_cbor_value makes of the item at `pos`: the value, and where the next item
      starts.  `beyond` is the byte behind the payload, which the last item can make it read.
      Of the four bytes behind head byte 26 only the last two are kept. */
  function Derived(data: seq<Byte>, pos: nat, beyond: Byte): (r: (nat, nat))
    requires pos < |data|
    ensures pos < r.1
  {
    var head, rem := data[pos] % 0x20, |data| - pos;
    if head < 24 then (head, pos + 1)
    else if rem < (if head == 24 then 2 else if head == 25 then 3 else 4) then (U32 - 1, pos + 1)
    else if head == 24 then (data[pos + 1], pos + 2)
    else if head == 25 then (data[pos + 1] as nat * 0x100 + data[pos + 2] as nat, pos + 3)
    else (data[pos + 3] as nat * 0x100 + (if pos + 4 < |data| then data[pos + 4] else beyond), pos + 5)
  }

  /** Every item below 65536 is read back; from 65536 on the encoder writes three bytes and the
      decoder reads four: the value is always another one. */
  lemma DerivedIff(data: seq<Byte>, pos: nat, beyond: Byte, b: BlockNum)
    requires pos < |data| && ItemAt(data, pos, b)
    ensures var (value, next) := Derived(data, pos, beyond);
            && (b < 0x1_0000 ==> value == b && next == pos + |Item(b)|)
            && (b >= 0x1_0000 ==> value < 0x1_0000)
  {
    ItemBytes(data, pos, b);
  }

  /** An item of which bytes are missing at the end is read as no block number. */
  lemma CutItem(data: seq<Byte>, pos: nat, beyond: Byte, b: BlockNum)
    requires pos < |data| && data[pos..] < Item(b)
    ensures Derived(data, pos, beyond) == (U32 - 1, pos + 1)
  {
    assert data[pos..][0] == Item(b)[0];
  }

  /** Block 65536 in a report is read as the block whose number is the byte behind the report. */
  lemma LargeNumberIsMisread(beyond: Byte)
    ensures Items([65536]) == [26, 1, 0, 0] && Derived([26, 1, 0, 0], 0, beyond).0 == beyond
  {
    assert Items([65536]) == Item(65536) + Items([]);
  }

  /** derive_cbor_value */
  method DeriveCborValue(data: seq<Byte>, pos: nat, beyond: Byte) returns (value: nat, next: nat)
    requires pos < |data|
    ensures (value, next) == Derived(data, pos, beyond) && next > pos
  {
    var rem := |data| - pos;
    value, next := data[pos] % 0x20, pos + 1;
    if value < 24 {
      return;
    } else if value == 24 {
      if rem < 2 { return U32 - 1, next; }
      return data[next], next + 1;
    } else if value == 25 {
      if rem < 3 { return U32 - 1, next; }
      return data[next] as nat * 0x100 + data[next + 1] as nat, next + 2;
    }
    if rem < 4 { return U32 - 1, next; }
    value := (data[next] as nat * 0x100_0000) % U32;
    value := data[next + 1] as nat * 0x1_0000;
    value := data[next + 2] as nat * 0x100;
    value := value + if next + 3 < |data| then data[next + 3] else beyond;
    next := next + 4;
  }

  ghost predicate Small(xs: seq<nat>) {
    forall x :: x in xs ==> x < 0x1_0000
  }

  lemma {:induction false} ItemsAppend(xs: seq<BlockNum>, b: BlockNum)
    ensures Items(xs + [b]) == Items(xs) + Item(b)
  {
    if xs == [] {
      assert xs + [b] == [b];
    } else {
      ItemsAppend(xs[1..], b);
      assert (xs + [b])[1..] == xs[1..] + [b] && (xs + [b])[0] == xs[0];
    }
  }

  /** The blocks are blocks of a body of `length` bytes. */
  ghost predicate InBody(xs: seq<nat>, length: nat, szx: nat) {
    forall x :: x in xs ==> Offset(x, szx) < length
  }

  /** The client's loop over a 4.08 payload, at most MAX_PAYLOADS items; it gives up when a
      number is none or lies behind its body of `length` bytes.  The blocks it re-sends are the
      first MAX_PAYLOADS the server listed if and only if these are all below 65536 and in the
      body. */
  method ReadReport(data: seq<Byte>, maxPayloads: nat, beyond: Byte, length: nat, szx: nat, ghost xs: seq<BlockNum>)
    returns (ok: bool, nums: seq<BlockNum>)
    requires data == Items(xs)
    ensures var front := xs[..Min(|xs|, maxPayloads)];
            ok && nums == front <==> Small(front) && InBody(front, length, szx)
  {
    nums := [];
    var pos: nat := 0;
    ghost var left := xs;   // what is still to be read, as long as all went well
    ghost var wrong := false;
    ghost var front := xs[..Min(|xs|, maxPayloads)];
    while pos < |data| && |nums| < maxPayloads
      invariant |nums| <= maxPayloads
      invariant !wrong ==> OnTrack(data, pos, xs, nums, left, length, szx)
      invariant wrong ==> Differs(front, nums)
      decreases maxPayloads - |nums|
    {
      if wrong {
        DiffersMeans(front, nums);
      } else {
        ReadStep(data, pos, xs, maxPayloads, nums, left, beyond, length, szx);
      }
      if data[pos] / 0x40 != 0 {
        return false, nums;
      }
      var value;
      value, pos := DeriveCborValue(data, pos, beyond);
      if value >= NUM_LIMIT {
        return false, nums;
      }
      if length <= Offset(value, szx) {
        return false, nums;
      }
      if wrong {
        DiffersMore(front, nums, value);
      } else {
        wrong := left[0] >= 0x1_0000;
        left := left[1..];
      }
      nums := nums + [value];
    }
    if wrong { DiffersMeans(front, nums); } else { AllRead(xs, nums, left, maxPayloads, pos < |data|); }
    return true, nums;
  }

  /** All items before `pos` were read as they were written. */
  ghost predicate OnTrack(data: seq<Byte>, pos: nat, xs: seq<BlockNum>, nums: seq<BlockNum>, left: seq<BlockNum>,
                          length: nat, szx: nat)
  {
    && nums + left == xs && Small(nums) && InBody(nums, length, szx)
    && pos <= |data| && data[pos..] == Items(left)
  }

  /** The next item: it is read as it was written and re-sent, or it shows why the list read is
      not the one written. */
  lemma ReadStep(data: seq<Byte>, at: nat, xs: seq<BlockNum>, maxPayloads: nat, nums: seq<BlockNum>,
                 left: seq<BlockNum>, beyond: Byte, length: nat, szx: nat)
    requires OnTrack(data, at, xs, nums, left, length, szx) && at < |data| && |nums| < maxPayloads
    ensures var (value, next) := Derived(data, at, beyond); var front := xs[..Min(|xs|, maxPayloads)];
            && left != [] && data[at] / 0x40 == 0 && value < NUM_LIMIT
            && (left[0] >= 0x1_0000 ==> !Small(front) && Differs(front, nums + [value]))
            && (left[0] < 0x1_0000 && length <= Offset(value, szx) ==> !InBody(front, length, szx))
            && (left[0] < 0x1_0000 && Offset(value, szx) < length ==>
                 OnTrack(data, next, xs, nums + [value], left[1..], length, szx))
  {
    FirstItem(data, at, left);
    ItemBytes(data, at, left[0]);
    DerivedIff(data, at, beyond, left[0]);
    assert data[at..][|Item(left[0])|..] == data[at + |Item(left[0])|..];
    InFront(xs, maxPayloads, nums, left);
  }

  lemma InFront(xs: seq<BlockNum>, maxPayloads: nat, nums: seq<BlockNum>, left: seq<BlockNum>)
    requires nums + left == xs && left != [] && |nums| < maxPayloads
    ensures var front := xs[..Min(|xs|, maxPayloads)];
            |nums| < |front| && front[|nums|] == left[0] && left[0] in front
  {
  }

  lemma AllRead(xs: seq<BlockNum>, nums: seq<BlockNum>, left: seq<BlockNum>, maxPayloads: nat, more: bool)
    requires nums + left == xs && |nums| <= maxPayloads
    requires if more then |nums| == maxPayloads else Items(left) == []
    ensures nums == xs[..Min(|xs|, maxPayloads)]
  {
    assert !more ==> left == [];
  }

  /** Some number was read differently, because it needs more than two bytes. */
  ghost predicate Differs(xs: seq<BlockNum>, nums: seq<BlockNum>) {
    exists k :: 0 <= k < |xs| && k < |nums| && xs[k] != nums[k] && xs[k] >= 0x1_0000
  }

  lemma DiffersMeans(xs: seq<BlockNum>, nums: seq<BlockNum>)
    requires Differs(xs, nums)
    ensures nums != xs && !Small(xs)
  {
    var k :| 0 <= k < |xs| && k < |nums| && xs[k] != nums[k] && xs[k] >= 0x1_0000;
    assert xs[k] in xs;
  }

  lemma DiffersMore(xs: seq<BlockNum>, nums: seq<BlockNum>, v: BlockNum)
    requires Differs(xs, nums)
    ensures Differs(xs, nums + [v])
  {
    var k :| 0 <= k < |xs| && k < |nums| && xs[k] != nums[k] && xs[k] >= 0x1_0000;
    assert (nums + [v])[k] == nums[k];
  }

  lemma FirstItem(data: seq<Byte>, pos: nat, left: seq<BlockNum>)
    requires pos < |data| && data[pos..] == Items(left)
    ensures left != [] && ItemAt(data, pos, left[0]) && data[pos] < 27
    ensures data[pos..][|Item(left[0])|..] == Items(left[1..])
  {
    ItemBytes(data, pos, left[0]);
  }

  // ---------------------------------------------------------------- writing the report

  ghost predicate Fits(used: nat, room: nat, b: nat) {
    b < NUM_LIMIT && used + |Item(b)| <= room
  }

  /** The 4.08 response that is being built; `room` is its space for payload. */
  class Report {
    var payload: seq<Byte>
    const room: nat
    ghost var listed: seq<BlockNum>

    constructor (room: nat)
      ensures payload == [] && listed == [] && this.room == room
    {
      payload, listed, this.room := [], [], room;
    }

    /** add_408_block. */
    method Add408Block(block: nat) returns (ok: bool)
      requires payload == Items(listed)
      modifies this
      ensures ok <==> Fits(old(|payload|), room, block)
      ensures ok ==> listed == old(listed) + [block] && payload == Items(listed)
      ensures !ok ==> unchanged(this)
    {
      if block >= NUM_LIMIT {
        return false;
      }
      if |payload| + |Item(block)| > room {
        return false;
      }
      ItemsAppend(listed, block);
      payload, listed := payload + Item(block), listed + [block];
      return true;
    }

    /** The payload lists the missing numbers below `hi`, in order, as far as they fit. */
    ghost predicate Lists(blocks: set<nat>, hi: nat)
      reads this
    {
      var all := MissingIn(blocks, 0, hi);
      && payload == Items(listed)
      && |listed| <= |all| && listed == all[..|listed|]
      && (|listed| < |all| ==> !Fits(|payload|, room, all[|listed|]))
    }

    /** Nothing missing in between: the same list serves for a larger bound. */
    lemma ListsFurther(blocks: set<nat>, hi: nat, hi': nat)
      requires Lists(blocks, hi) && hi <= hi' && forall b :: hi <= b < hi' ==> b in blocks
      ensures Lists(blocks, hi')
    {
      MissingInJoins(blocks, 0, hi, hi');
      NoneMissing(blocks, hi, hi');
    }

    /** Once a number did not fit, no later one does. */
    lemma StuckFurther(blocks: set<nat>, hi: nat, hi': nat)
      requires Lists(blocks, hi) && hi <= hi'
      requires |listed| < |MissingIn(blocks, 0, hi)|
      ensures Lists(blocks, hi')
    {
      MissingInJoins(blocks, 0, hi, hi');
    }

    /** A missing number did not fit. */
    lemma Misses(blocks: set<nat>, block: nat)
      requires Lists(blocks, block) && block !in blocks && !Fits(|payload|, room, block)
      ensures Lists(blocks, block + 1) && |listed| < |MissingIn(blocks, 0, block + 1)|
    {
      var all := MissingIn(blocks, 0, block);
      assert MissingIn(blocks, 0, block + 1) == all + [block];
      assert (all + [block])[..|listed|] == all[..|listed|];
    }

    /** A missing number fits: then all before it did. */
    lemma FitsSoFar(blocks: set<nat>, block: nat)
      requires Lists(blocks, block) && Fits(|payload|, room, block)
      ensures listed == MissingIn(blocks, 0, block)
    {
      var all := MissingIn(blocks, 0, block);
      if |listed| < |all| {
        MissingInExact(blocks, 0, block);
        assert all[|listed|] in all;
        ItemGrows(all[|listed|], block);
      }
    }

    /** The inner loop: reports every number in [from, to), none of which was received,
        until one does not fit. */
    method AddRun(ghost blocks: set<nat>, from: nat, to: nat)
      requires Lists(blocks, from) && from <= to
      requires forall b :: from <= b < to ==> b !in blocks
      modifies this
      ensures Lists(blocks, to)
    {
      var block := from;
      while block < to
        invariant from <= block <= to && Lists(blocks, block)
      {
        if Fits(|payload|, room, block) { FitsSoFar(blocks, block); } else { Misses(blocks, block); }
        var ok := Add408Block(block);
        if !ok {
          StuckFurther(blocks, block + 1, to);
          return;
        }
        assert MissingIn(blocks, 0, block + 1) == MissingIn(blocks, 0, block) + [block];
        block := block + 1;
      }
    }
  }

  lemma ItemGrows(a: nat, b: nat)
    requires a <= b < NUM_LIMIT
    ensures |Item(a)| <= |Item(b)|
  {
  }

  /** Between two neighbouring ranges nothing was received. */
  lemma GapIsMissing(rs: seq<Range>, i: nat, from: nat, to: nat)
    requires WellFormed(rs) && i <= |rs|
    requires (i > 0 ==> rs[i - 1].end < from) && (i < |rs| ==> to <= rs[i].begin)
    ensures forall b :: from <= b < to ==> b !in BlockSet(rs)
  {
    forall b, k | from <= b < to && 0 <= k < |rs| ensures !rs[k].Has(b) {
      if k + 1 < i { assert rs[k].end < rs[i - 1].begin; }
      if i < k { assert rs[i].end < rs[k].begin; }
    }
  }

  lemma InRange(rs: seq<Range>, i: nat)
    requires WellFormed(rs) && i < |rs|
    ensures forall b :: rs[i].begin <= b < rs[i].end + 1 ==> b in BlockSet(rs)
  {
    forall b | rs[i].begin <= b < rs[i].end + 1 ensures Covers(rs, b) { assert rs[i].Has(b); }
  }

  /** The listing loop: walks the ranges once and reports the gaps between them, then what
      is missing behind the last one up to `finalBlock`. */
  method ReportMissing(rec: BlockList, finalBlock: nat, report: Report)
    requires rec.Valid() && rec.used > 0 && rec.range[rec.used - 1].end <= finalBlock
    requires report.payload == [] && report.listed == []
    modifies report
    ensures report.Lists(rec.Blocks(), finalBlock + 1)
  {
    ghost var rs, blocks := rec.range[..rec.used], rec.Blocks();
    var block: int := -1;
    for i := 0 to rec.used
      invariant block == if i == 0 then -1 else rs[i - 1].end
      invariant report.Lists(blocks, block + 1)
    {
      var range := rec.range[i];
      assert range == rs[i];
      if block < range.begin && range.begin != 0 {
        GapIsMissing(rs, i, block + 1, range.begin);
        report.AddRun(blocks, block + 1, range.begin);
      }
      InRange(rs, i);
      report.ListsFurther(blocks, range.begin, range.end + 1);
      block := range.end;
    }
    GapIsMissing(rs, rec.used, block + 1, finalBlock + 1);
    report.AddRun(blocks, block + 1, finalBlock + 1);
  }

  lemma {:induction false} PrefixFits(all: seq<BlockNum>, n: nat)
    requires n < |all|
    ensures |Items(all[..n])| + |Item(all[n])| <= |Items(all)|
  {
    if n > 0 {
      PrefixFits(all[1..], n - 1);
      assert all[..n][1..] == all[1..][..n - 1];
    }
  }

  /** All the numbers are block numbers, and the message has room for them. */
  ghost predicate RoomForAll(all: seq<nat>, room: nat) {
    (forall i :: 0 <= i < |all| ==> all[i] < NUM_LIMIT) && |Items(all)| <= room
  }

  /** With enough room nothing is left off the list. */
  lemma ListsAll(report: Report, blocks: set<nat>, hi: nat)
    requires report.Lists(blocks, hi) && RoomForAll(MissingIn(blocks, 0, hi), report.room)
    ensures report.listed == MissingIn(blocks, 0, hi)
  {
    var all, n := MissingIn(blocks, 0, hi), |report.listed|;
    if n < |all| { PrefixFits(all, n); }
    assert all[..|all|] == all;
  }

  /** Last block of the payload set that `block` belongs to. */
  function SetEnd(block: nat, maxPayloads: nat): (e: nat)
    requires maxPayloads > 0
    ensures block <= e < block + maxPayloads
    ensures EndsSet(e, maxPayloads)
  {
    var next := Quot(block, maxPayloads) + 1;
    assert Times(next, maxPayloads) - 1 + 1 == Times(next, maxPayloads);
    Times(next, maxPayloads) - 1
  }

  /** The payload sets are MAX_PAYLOADS blocks each, from block 0 on. */
  ghost predicate EndsSet(e: nat, maxPayloads: nat) {
    exists sets: nat :: e + 1 == Times(sets, maxPayloads)
  }

  /** Where the report has to stop: at the end of the body, or at the end of a payload set less
      than MAX_PAYLOADS blocks after the highest received one; one set later if nothing is
      missing up to there. */
  ghost predicate Reaches(finalBlock: nat, blocks: set<nat>, highest: nat, lastBlock: nat, maxPayloads: nat) {
    exists e: nat :: highest <= e < highest + maxPayloads && EndsSet(e, maxPayloads) &&
      finalBlock == Reach(e, blocks, lastBlock, maxPayloads)
  }

  ghost function Reach(e: nat, blocks: set<nat>, lastBlock: nat, maxPayloads: nat): nat {
    Min(lastBlock, if NothingMissing(blocks, Min(lastBlock, e)) then e + maxPayloads else e)
  }

  ghost predicate NothingMissing(blocks: set<nat>, upTo: nat) {
    forall b: nat :: b <= upTo ==> b in blocks
  }

  /** Only one block in reach ends a payload set. */
  lemma SetEndUnique(highest: nat, maxPayloads: nat, e: nat, e': nat)
    requires highest <= e < highest + maxPayloads && EndsSet(e, maxPayloads)
    requires highest <= e' < highest + maxPayloads && EndsSet(e', maxPayloads)
    ensures e == e'
  {
    var j: nat :| e + 1 == Times(j, maxPayloads);
    var k: nat :| e' + 1 == Times(k, maxPayloads);
    if j < k { TimesMonotone(j, k, maxPayloads); }
    if k < j { TimesMonotone(k, j, maxPayloads); }
  }

  /** So the reach is determined. */
  lemma ReachUnique(a: nat, b: nat, blocks: set<nat>, highest: nat, lastBlock: nat, maxPayloads: nat)
    requires Reaches(a, blocks, highest, lastBlock, maxPayloads) && Reaches(b, blocks, highest, lastBlock, maxPayloads)
    ensures a == b
  {
    var e: nat :| highest <= e < highest + maxPayloads && EndsSet(e, maxPayloads) &&
      a == Reach(e, blocks, lastBlock, maxPayloads);
    var e': nat :| highest <= e' < highest + maxPayloads && EndsSet(e', maxPayloads) &&
      b == Reach(e', blocks, lastBlock, maxPayloads);
    SetEndUnique(highest, maxPayloads, e, e');
  }

  lemma NothingMissingIs(blocks: set<nat>, upTo: nat)
    ensures NothingMissing(blocks, upTo) <==> MissingIn(blocks, 0, upTo + 1) == []
  {
    var all := MissingIn(blocks, 0, upTo + 1);
    MissingInExact(blocks, 0, upTo + 1);
    if all != [] { assert all[0] in all; }
  }

  /** The counting loop: highest received block, and how many below it are missing. */
  method CountMissing(rec: BlockList) returns (block: nat, noBlocks: nat)
    requires rec.Valid() && rec.used > 0
    ensures block == rec.range[rec.used - 1].end
    ensures noBlocks == |MissingIn(rec.Blocks(), 0, block + 1)|
    ensures forall b :: b in rec.Blocks() ==> b <= block
  {
    ghost var rs, blocks := rec.range[..rec.used], rec.Blocks();
    var last: int := -1;
    noBlocks := 0;
    for i := 0 to rec.used
      invariant last == if i == 0 then -1 else rs[i - 1].end
      invariant noBlocks == |MissingIn(blocks, 0, last + 1)|
    {
      var range := rec.range[i];
      assert range == rs[i];
      RangeCounts(rs, i, last + 1);
      if last < range.begin && range.begin != 0 {
        last := last + 1;
        noBlocks := noBlocks + (range.begin - last);
      }
      if last < range.end {
        last := range.end;
      }
    }
    block := last;
    forall b | b in blocks ensures b <= block {
      if b > block { GapIsMissing(rs, rec.used, block + 1, b + 1); }
    }
  }

  lemma RangeCounts(rs: seq<Range>, i: nat, from: nat)
    requires WellFormed(rs) && i < |rs| && from == if i == 0 then 0 else rs[i - 1].end + 1
    ensures |MissingIn(BlockSet(rs), 0, rs[i].end + 1)| ==
            |MissingIn(BlockSet(rs), 0, from)| + (rs[i].begin - from)
  {
    GapIsMissing(rs, i, from, rs[i].begin);
    InRange(rs, i);
    GapThenRange(BlockSet(rs), from, rs[i].begin, rs[i].end + 1);
  }

  lemma GapThenRange(blocks: set<nat>, from: nat, begin: nat, to: nat)
    requires from <= begin <= to
    requires forall b :: from <= b < begin ==> b !in blocks
    requires forall b :: begin <= b < to ==> b in blocks
    ensures |MissingIn(blocks, 0, to)| == |MissingIn(blocks, 0, from)| + (begin - from)
  {
    AllMissing(blocks, from, begin);
    NoneMissing(blocks, begin, to);
    MissingInJoins(blocks, 0, from, to);
    MissingInJoins(blocks, from, begin, to);
  }

  /** How far the report reaches: to the end of the payload set of the highest received
      block, or of the next set if nothing is missing so far; `expire` when all is in. */
  method PlanReport(rec: BlockList, lastBlock: nat, maxPayloads: nat) returns (expire: bool, finalBlock: nat)
    requires rec.Valid() && rec.used > 0 && maxPayloads > 0
    requires rec.range[rec.used - 1].end <= lastBlock
    ensures expire <==> MissingIn(rec.Blocks(), 0, lastBlock + 1) == []
    ensures !expire ==>
              Reaches(finalBlock, rec.Blocks(), rec.range[rec.used - 1].end, lastBlock, maxPayloads)
    ensures !expire ==> rec.range[rec.used - 1].end <= finalBlock <= lastBlock
    ensures !expire ==> MissingIn(rec.Blocks(), 0, finalBlock + 1) != []
  {
    var block, noBlocks := CountMissing(rec);
    finalBlock := lastBlock;
    MissingUpTo(rec.Blocks(), block, lastBlock);
    if noBlocks == 0 && block == finalBlock {
      return true, finalBlock;
    }
    var lastPayloadBlock := SetEnd(block, maxPayloads);
    if finalBlock > lastPayloadBlock {
      finalBlock := lastPayloadBlock;
    }
    MissingUpTo(rec.Blocks(), block, finalBlock);
    NothingMissingIs(rec.Blocks(), finalBlock);
    noBlocks := noBlocks + (finalBlock - block);
    if noBlocks == 0 {
      finalBlock := lastBlock;
      lastPayloadBlock := lastPayloadBlock + maxPayloads;
      if finalBlock > lastPayloadBlock {
        finalBlock := lastPayloadBlock;
      }
      MissingUpTo(rec.Blocks(), block, finalBlock);
    }
    assert finalBlock == Reach(SetEnd(block, maxPayloads), rec.Blocks(), lastBlock, maxPayloads);
    return false, finalBlock;
  }

  lemma MissingUpTo(blocks: set<nat>, block: nat, upTo: nat)
    requires block <= upTo && forall b :: b in blocks ==> b <= block
    ensures |MissingIn(blocks, 0, upTo + 1)| == |MissingIn(blocks, 0, block + 1)| + (upTo - block)
  {
    MissingInJoins(blocks, 0, block + 1, upTo + 1);
    AllMissing(blocks, block + 1, upTo + 1);
  }

  /** A transfer of `lastBlock + 1` blocks asks only for blocks of the body. */
  lemma {:induction false} MissingIsInBody(blocks: set<nat>, hi: nat, length: nat, szx: nat)
    requires hi <= NUM_LIMIT && hi <= BlockCount(length, szx)
    ensures forall b :: b in MissingIn(blocks, 0, hi) ==> b < NUM_LIMIT && Offset(b, szx) < length
  {
    MissingInExact(blocks, 0, hi);
    forall b | b in MissingIn(blocks, 0, hi) ensures b < NUM_LIMIT && Offset(b, szx) < length {
      BlockCountExact(length, szx, b);
    }
  }

  /** PLANNING, LISTING AND READING together: unless all is in, the server asks for a
      non-empty list; with room for it in the message, the client re-sends exactly the first
      MAX_PAYLOADS missing blocks if and only if they are below 65536 and in its body. */
  method Recover(rec: BlockList, lastBlock: nat, maxPayloads: nat, room: nat, beyond: Byte, length: nat, szx: nat)
    returns (expire: bool, finalBlock: nat, ok: bool, nums: seq<BlockNum>)
    requires rec.Valid() && rec.used > 0 && maxPayloads > 0
    requires rec.range[rec.used - 1].end <= lastBlock
    ensures expire <==> MissingIn(rec.Blocks(), 0, lastBlock + 1) == []
    ensures !expire ==> Reaches(finalBlock, rec.Blocks(), rec.range[rec.used - 1].end, lastBlock, maxPayloads)
    ensures var all := MissingIn(rec.Blocks(), 0, finalBlock + 1);
            !expire ==>
              && finalBlock <= lastBlock && all != []
              && (RoomForAll(all, room) ==>
                   var front := all[..Min(|all|, maxPayloads)];
                   ok && nums == front <==> Small(front) && InBody(front, length, szx))
    // the blocks of a transfer lie in the client's body
    ensures var all := MissingIn(rec.Blocks(), 0, finalBlock + 1);
            !expire && lastBlock < NUM_LIMIT && lastBlock < BlockCount(length, szx) && RoomForAll(all, room) ==>
              var front := all[..Min(|all|, maxPayloads)];
              ok && nums == front <==> Small(front)
  {
    expire, finalBlock := PlanReport(rec, lastBlock, maxPayloads);
    ok, nums := false, [];
    if !expire {
      ok, nums := ListAndRead(rec, finalBlock, maxPayloads, room, beyond, length, szx);
      if lastBlock < NUM_LIMIT && lastBlock < BlockCount(length, szx) {
        MissingIsInBody(rec.Blocks(), finalBlock + 1, length, szx);
      }
    }
  }

  method ListAndRead(rec: BlockList, finalBlock: nat, maxPayloads: nat, room: nat, beyond: Byte, length: nat, szx: nat)
    returns (ok: bool, nums: seq<BlockNum>)
    requires rec.Valid() && rec.used > 0 && rec.range[rec.used - 1].end <= finalBlock
    ensures var all := MissingIn(rec.Blocks(), 0, finalBlock + 1);
            RoomForAll(all, room) ==>
              var front := all[..Min(|all|, maxPayloads)];
              ok && nums == front <==> Small(front) && InBody(front, length, szx)
  {
    var report := new Report(room);
    ReportMissing(rec, finalBlock, report);
    if RoomForAll(MissingIn(rec.Blocks(), 0, finalBlock + 1), room) {
      ListsAll(report, rec.Blocks(), finalBlock + 1);
    }
    ok, nums := ReadReport(report.payload, maxPayloads, beyond, length, szx, report.listed);
  }
}
