/** The received-block list of a block-wise transfer: a small fixed array of block-number
    ranges that is edited in place.  Its meaning is a set of block numbers; every
    operation below is specified by that set alone. */
module ReceivedBlocks {

  import opened Words

  // COAP_RBLOCK_CNT
  const RBLOCK_CNT := 4

  datatype Range = Range(begin: nat, end: nat) {
    predicate Has(b: int) {
      begin <= b <= end
    }
  }

  /** Sorted, disjoint and non-adjacent. */
  ghost predicate WellFormed(rs: seq<Range>) {
    && (forall i :: 0 <= i < |rs| ==> rs[i].begin <= rs[i].end < U32)
    && (forall i, j :: 0 <= i < j < |rs| ==> rs[i].end + 1 < rs[j].begin)
  }

  ghost predicate Covers(rs: seq<Range>, b: int) {
    exists i :: 0 <= i < |rs| && rs[i].Has(b)
  }

  /** The set of block numbers a range list stands for. */
  ghost function BlockSet(rs: seq<Range>): set<nat> {
    set b: nat | b < U32 && Covers(rs, b)
  }

  /** The set is an initial segment that reaches up to `total`; the empty set passes for a
      single block. */
  ghost predicate AllIn(s: set<nat>, total: nat) {
    && (forall b, x: nat :: b in s && x < b ==> x in s)
    && (total <= 1 || total - 1 in s)
  }

  ghost predicate StartsRun(s: set<nat>, b: nat) {
    b in s && (b == 0 || b - 1 !in s)
  }

  /** The first elements of the maximal runs of consecutive numbers in `s`. */
  ghost function RunStarts(s: set<nat>): set<nat> {
    set b | b in s && StartsRun(s, b)
  }

  /** How many ranges a set needs. */
  ghost function RunCount(s: set<nat>): nat {
    |RunStarts(s)|
  }

  // ---------------------------------------------------------------- canonical form

  ghost function Front(rs: seq<Range>): seq<Range>
    requires rs != []
  {
    rs[..|rs| - 1]
  }

  ghost function Last(rs: seq<Range>): Range
    requires rs != []
  {
    rs[|rs| - 1]
  }

  lemma CoversConcat(a: seq<Range>, b: seq<Range>, x: int)
    ensures Covers(a + b, x) <==> Covers(a, x) || Covers(b, x)
  {
    if Covers(a, x) {
      var i :| 0 <= i < |a| && a[i].Has(x);
      assert (a + b)[i].Has(x);
    }
    if Covers(b, x) {
      var i :| 0 <= i < |b| && b[i].Has(x);
      assert (a + b)[|a| + i].Has(x);
    }
  }

  lemma CoversOne(r: Range, x: int)
    ensures Covers([r], x) <==> r.Has(x)
  {
    assert [r][0] == r;
  }

  /** What the last range contributes. */
  lemma DropLast(rs: seq<Range>)
    requires WellFormed(rs) && rs != []
    ensures WellFormed(Front(rs))
    ensures forall x: nat :: x in BlockSet(rs) <==> x in BlockSet(Front(rs)) || Last(rs).Has(x)
    ensures forall x :: x in BlockSet(Front(rs)) ==> x + 1 < Last(rs).begin
  {
    assert rs == Front(rs) + [Last(rs)];
    forall x: nat
      ensures Covers(rs, x) <==> Covers(Front(rs), x) || Last(rs).Has(x)
    {
      CoversConcat(Front(rs), [Last(rs)], x);
      CoversOne(Last(rs), x);
    }
  }

  /** A well-formed list has one range for each maximal run of its set. */
  lemma {:induction false} RangesAreRuns(rs: seq<Range>)
    requires WellFormed(rs)
    ensures RunCount(BlockSet(rs)) == |rs|
  {
    if rs == [] {
      assert RunStarts(BlockSet(rs)) == {};
    } else {
      DropLast(rs);
      RangesAreRuns(Front(rs));
      var s, t, b := BlockSet(rs), BlockSet(Front(rs)), Last(rs).begin;
      assert Last(rs).Has(b);
      forall x | x in s
        ensures StartsRun(s, x) <==> (x in t && StartsRun(t, x)) || x == b
      {
        if Last(rs).Has(x) && x != b { assert Last(rs).Has(x - 1); }
      }
      assert RunStarts(s) == RunStarts(t) + {b};
    }
  }

  /** Canonical form: the set determines the list. */
  lemma {:induction false} Canonical(a: seq<Range>, b: seq<Range>)
    requires WellFormed(a) && WellFormed(b)
    requires BlockSet(a) == BlockSet(b)
    ensures a == b
  {
    RangesAreRuns(a);
    RangesAreRuns(b);
    if a != [] {
      LastRangeBounded(a, b);
      LastRangeBounded(b, a);
      DropLast(a);
      DropLast(b);
      assert BlockSet(Front(a)) == BlockSet(Front(b)) by {
        forall x: nat ensures x in BlockSet(Front(a)) <==> x in BlockSet(Front(b)) {
          assert Last(a).Has(x) <==> Last(b).Has(x);
          assert x in BlockSet(a) <==> x in BlockSet(b);
        }
      }
      Canonical(Front(a), Front(b));
      assert a == Front(a) + [Last(a)] && b == Front(b) + [Last(b)];
    }
  }

  lemma LastRangeBounded(a: seq<Range>, b: seq<Range>)
    requires WellFormed(a) && WellFormed(b) && a != [] && b != []
    requires BlockSet(a) == BlockSet(b)
    ensures Last(a).end <= Last(b).end
    ensures Last(a).end == Last(b).end ==> Last(b).begin <= Last(a).begin
  {
    DropLast(a);
    DropLast(b);
    assert Last(a).Has(Last(a).end);
    assert Last(a).end in BlockSet(b);
    var x := Last(b).begin - 1;
    assert Last(a).Has(x) && x >= 0 ==> x in BlockSet(b);
  }

  // ---------------------------------------------------------------- editing

  /** `n` ranges from index `i` on replaced by the one range `mid`. */
  ghost function Spliced(rs: seq<Range>, i: nat, n: nat, mid: Range): seq<Range>
    requires i + n <= |rs|
  {
    rs[..i] + [mid] + rs[i + n..]
  }

  /** The array after a memmove of `count` entries. */
  ghost function Moved(all: seq<Range>, to: nat, from: nat, count: nat): (r: seq<Range>)
    requires to + count <= |all| && from + count <= |all|
    ensures |r| == |all|
  {
    all[..to] + all[from..from + count] + all[to + count..]
  }

  lemma MovedUp(all: seq<Range>, i: nat, used: nat, mid: Range)
    requires i <= used < |all|
    ensures Moved(all, i + 1, i, used - i)[i := mid][..used + 1] == Spliced(all[..used], i, 0, mid)
  {
    SplicedPointwise(all[..used], i, 0, mid, Moved(all, i + 1, i, used - i)[i := mid][..used + 1]);
  }

  lemma MovedDown(all: seq<Range>, i: nat, used: nat, mid: Range)
    requires i + 1 < used <= |all|
    ensures Moved(all[i := mid], i + 1, i + 2, used - (i + 2))[..used - 1] == Spliced(all[..used], i, 2, mid)
  {
    SplicedPointwise(all[..used], i, 2, mid,
                     Moved(all[i := mid], i + 1, i + 2, used - (i + 2))[..used - 1]);
  }

  lemma SplicedPointwise(rs: seq<Range>, i: nat, n: nat, mid: Range, r: seq<Range>)
    requires i + n <= |rs| && |r| == |rs| + 1 - n
    requires forall k :: 0 <= k < i ==> r[k] == rs[k]
    requires r[i] == mid
    requires forall k :: i < k < |r| ==> r[k] == rs[k - 1 + n]
    ensures r == Spliced(rs, i, n, mid)
  {
  }

  /** When such an edit adds exactly the number `b` and keeps the list well formed. */
  ghost predicate AddsBlock(rs: seq<Range>, i: nat, n: nat, mid: Range, b: nat) {
    && i + n <= |rs|
    && mid.Has(b) && mid.end < U32
    && (i > 0 ==> rs[i - 1].end + 1 < mid.begin)
    && (i + n < |rs| ==> mid.end + 1 < rs[i + n].begin)
    && forall x: nat :: mid.Has(x) <==> x == b || Covers(rs[i..i + n], x)
  }

  /** `r` is the well-formed list for the set of `rs` and `b` together. */
  ghost predicate Grows(rs: seq<Range>, r: seq<Range>, b: nat) {
    && WellFormed(r)
    && BlockSet(r) == BlockSet(rs) + {b}
    && RunCount(BlockSet(r)) == |r|
  }

  lemma SpliceCovers(rs: seq<Range>, i: nat, n: nat, mid: Range, b: nat, x: nat)
    requires AddsBlock(rs, i, n, mid, b)
    ensures Covers(Spliced(rs, i, n, mid), x) <==> Covers(rs, x) || x == b
  {
    var front, back := rs[..i], rs[i + n..];
    assert rs == front + rs[i..i + n] + back;
    CoversConcat(front + [mid], back, x);
    CoversConcat(front, [mid], x);
    CoversOne(mid, x);
    CoversConcat(front + rs[i..i + n], back, x);
    CoversConcat(front, rs[i..i + n], x);
  }

  /** Extending, merging and inserting are all the same edit. */
  lemma Splice(rs: seq<Range>, i: nat, n: nat, mid: Range, b: nat)
    requires WellFormed(rs) && AddsBlock(rs, i, n, mid, b)
    ensures Grows(rs, Spliced(rs, i, n, mid), b)
  {
    var r := Spliced(rs, i, n, mid);
    var front, back := rs[..i], rs[i + n..];
    forall x: nat
      ensures Covers(r, x) <==> Covers(rs, x) || x == b
    {
      SpliceCovers(rs, i, n, mid, b, x);
    }
    JoinedWellFormed(front, [mid]);
    JoinedWellFormed(front + [mid], back);
    RangesAreRuns(r);
  }

  lemma AlreadyIn(rs: seq<Range>, i: nat, b: nat)
    requires WellFormed(rs) && i < |rs| && rs[i].Has(b)
    ensures Grows(rs, rs, b)
  {
    assert Covers(rs, b);
    RangesAreRuns(rs);
  }

  lemma Replacing(rs: seq<Range>, i: nat, mid: Range, b: nat)
    requires WellFormed(rs) && i < |rs| && (i > 0 ==> rs[i - 1].end + 1 < mid.begin)
    requires i + 1 < |rs| ==> mid.end + 1 < rs[i + 1].begin
    requires mid.Has(b) && mid.end < U32
    requires (mid == Range(b, rs[i].end) && b + 1 == rs[i].begin) ||
             (mid == Range(rs[i].begin, b) && b == rs[i].end + 1)
    ensures Grows(rs, rs[i := mid], b)
  {
    var one := rs[i..i + 1];
    assert one == [rs[i]];
    forall x: nat ensures mid.Has(x) <==> x == b || Covers(one, x) {
      CoversOne(rs[i], x);
    }
    SplicedPointwise(rs, i, 1, mid, rs[i := mid]);
    Splice(rs, i, 1, mid, b);
  }

  lemma Inserting(rs: seq<Range>, i: nat, b: nat)
    requires WellFormed(rs) && i <= |rs| && (i > 0 ==> rs[i - 1].end + 1 < b)
    requires (i < |rs| ==> b + 1 < rs[i].begin) && b < U32
    ensures Grows(rs, Spliced(rs, i, 0, Range(b, b)), b)
  {
    Splice(rs, i, 0, Range(b, b), b);
  }

  lemma Merging(rs: seq<Range>, i: nat, b: nat)
    requires WellFormed(rs) && i + 1 < |rs| && rs[i].end + 1 == b && b + 1 == rs[i + 1].begin
    ensures Grows(rs, Spliced(rs, i, 2, Range(rs[i].begin, rs[i + 1].end)), b)
  {
    var mid := Range(rs[i].begin, rs[i + 1].end);
    assert rs[i..i + 2] == [rs[i]] + [rs[i + 1]];
    assert rs[i].begin <= rs[i].end && rs[i + 1].begin <= rs[i + 1].end;
    assert i > 0 ==> rs[i - 1].end + 1 < rs[i].begin;
    assert i + 2 < |rs| ==> rs[i + 1].end + 1 < rs[i + 2].begin;
    forall x: nat
      ensures mid.Has(x) <==> x == b || Covers(rs[i..i + 2], x)
    {
      CoversConcat([rs[i]], [rs[i + 1]], x);
      CoversOne(rs[i], x);
      CoversOne(rs[i + 1], x);
    }
    Splice(rs, i, 2, mid, b);
  }

  lemma JoinedWellFormed(a: seq<Range>, b: seq<Range>)
    requires WellFormed(a) && WellFormed(b)
    requires a != [] && b != [] ==> a[|a| - 1].end + 1 < b[0].begin
    ensures WellFormed(a + b)
  {
    forall i, j | 0 <= i < j < |a + b| ensures (a + b)[i].end + 1 < (a + b)[j].begin {
      if i < |a| <= j {
        assert a[i].end <= a[|a| - 1].end;
        assert b[0].begin <= b[j - |a|].begin;
      }
    }
  }

  // ---------------------------------------------------------------- the list itself

  class BlockList {
    var used: nat
    var retry: nat
    var lastSeen: nat
    const range: array<Range>

    ghost predicate Valid()
      reads this, range
    {
      used < range.Length && WellFormed(range[..used])
    }

    ghost function Blocks(): set<nat>
      reads this, range
      requires used <= range.Length
    {
      BlockSet(range[..used])
    }

    constructor (cnt: nat)
      requires 0 < cnt
      ensures Valid() && fresh(range) && range.Length == cnt
      ensures Blocks() == {} && retry == 0
    {
      range := new Range[cnt](_ => Range(0, 0));
      used, retry, lastSeen := 0, 0, 0;
    }

    /** The early exit on a sorted list decides membership. */
    method CheckIfReceived(blockNum: nat) returns (r: bool)
      requires Valid() && blockNum < U32
      ensures r <==> blockNum in Blocks()
    {
      ghost var rs := range[..used];
      for i := 0 to used
        invariant forall j :: 0 <= j < i ==> rs[j].end < blockNum
      {
        assert range[i] == rs[i];
        if blockNum < range[i].begin {
          return false;
        }
        if blockNum <= range[i].end {
          assert Covers(rs, blockNum);
          return true;
        }
      }
      return false;
    }

    /** Exact for a non-empty list within `total`; never over-optimistic for a non-empty
        list; an empty list passes for 0 and 1 blocks.  The exact condition for any list
        is AllIn, up to the wrap-around of the largest 32-bit number. */
    method CheckAllBlocksIn(total: nat) returns (r: bool)
      requires Valid() && total < U32
      ensures used > 0 && (forall b :: b in Blocks() ==> b < total) ==>
                (r <==> forall b: nat :: b < total ==> b in Blocks())
      ensures used > 0 && r ==> forall b: nat :: b < total ==> b in Blocks()
      ensures used == 0 ==> (r <==> total <= 1)
      ensures U32 - 1 !in Blocks() ==> (r <==> AllIn(Blocks(), total))
    {
      ghost var rs := range[..used];
      var block := 0;
      for i := 0 to used
        invariant i == 0 ==> block == 0
        invariant i > 0 ==> i == 1 && rs[0].begin == 0 && block == rs[0].end
      {
        assert range[i] == rs[i];
        if block < range[i].begin {
          // `block` lies in no range that starts at 0, or a gap follows it
          ghost var gap := if i == 0 then 0 else block + 1;
          assert !Covers(rs, gap);
          assert Covers(rs, rs[i].begin);
          assert rs[i].begin in Blocks() && gap !in Blocks() && gap <= rs[i].begin;
          return false;
        }
        if block < range[i].end {
          block := range[i].end;
        }
      }
      assert used > 0 ==> forall b: nat :: b <= block ==> Covers(rs, b);
      assert used > 0 ==> block in Blocks();
      // unsigned 32-bit increment
      if (block + 1) % U32 < total {
        assert used > 0 && block + 1 < U32 ==> block + 1 !in Blocks();
        return false;
      }
      return true;
    }

    /** Adds one block number.  Fails exactly when the enlarged set would need every
        slot of the array, and then changes nothing but the retry count. */
    method Update(blockNum: nat, now: nat) returns (ok: bool)
      requires Valid() && blockNum < U32
      modifies this, range
      ensures Valid() && retry == 0
      ensures ok <==> RunCount(old(Blocks()) + {blockNum}) < range.Length
      ensures ok ==> Blocks() == old(Blocks()) + {blockNum} && lastSeen == now
      ensures !ok ==> used == old(used) && range[..] == old(range[..]) && lastSeen == old(lastSeen)
    {
      ghost var rs := range[..used];
      retry := 0;
      var i := 0;
      while i < used
        invariant i <= used == |rs| && rs == range[..used] && unchanged(range)
        invariant used == old(used) && lastSeen == old(lastSeen) && retry == 0
        invariant i > 0 ==> rs[i - 1].end + 1 < blockNum
      {
        assert range[i] == rs[i];
        if range[i].Has(blockNum) {
          AlreadyIn(rs, i, blockNum);
          break;
        }
        if blockNum < range[i].begin {
          if (blockNum + 1) % U32 == range[i].begin {
            Replacing(rs, i, Range(blockNum, range[i].end), blockNum);
            range[i] := Range(blockNum, range[i].end);
            assert range[..used] == rs[i := Range(blockNum, rs[i].end)];
          } else {
            Inserting(rs, i, blockNum);
            if used == range.Length - 1 {
              return false;
            }
            InsertRange(i, blockNum);
          }
          break;
        }
        if blockNum == (range[i].end + 1) % U32 {
          if i + 1 < used && range[i + 1].begin == (blockNum + 1) % U32 {
            Merging(rs, i, blockNum);
            MergeWithNext(i);
          } else {
            Replacing(rs, i, Range(range[i].begin, blockNum), blockNum);
            range[i] := Range(range[i].begin, blockNum);
            assert range[..used] == rs[i := Range(rs[i].begin, blockNum)];
          }
          break;
        }
        i := i + 1;
      }
      if i == used {
        Inserting(rs, i, blockNum);
        if used == range.Length - 1 {
          return false;
        }
        InsertRange(i, blockNum);
      }
      assert Grows(rs, range[..used], blockNum);
      lastSeen := now;
      return true;
    }

    /** Opens a new one-number range in front of slot `i`. */
    method InsertRange(i: nat, b: nat)
      requires i <= used < range.Length - 1
      modifies this`used, range
      ensures used == old(used) + 1
      ensures range[..used] == Spliced(old(range[..used]), i, 0, Range(b, b))
    {
      ghost var all := range[..];
      MoveRanges(i + 1, i, used - i);
      range[i] := Range(b, b);
      used := used + 1;
      MovedUp(all, i, used - 1, Range(b, b));
      assert range[..] == Moved(all, i + 1, i, used - 1 - i)[i := Range(b, b)];
    }

    /** Closes the one-number gap after range `i`. */
    method MergeWithNext(i: nat)
      requires i + 1 < used <= range.Length
      modifies this`used, range
      ensures used == old(used) - 1
      ensures range[..used] ==
              Spliced(old(range[..used]), i, 2, Range(old(range[i].begin), old(range[i + 1].end)))
    {
      ghost var all, mid := range[..], Range(range[i].begin, range[i + 1].end);
      range[i] := Range(range[i].begin, range[i + 1].end);
      if i + 2 < used {
        MoveRanges(i + 1, i + 2, used - (i + 2));
      }
      used := used - 1;
      MovedDown(all, i, used + 1, mid);
      assert range[..] == Moved(all[i := mid], i + 1, i + 2, used + 1 - (i + 2));
    }

    /** memmove within the array: source and target may overlap. */
    method MoveRanges(to: nat, from: nat, count: nat)
      requires to + count <= range.Length && from + count <= range.Length
      modifies range
      ensures range[..] == Moved(old(range[..]), to, from, count)
    {
      forall k | 0 <= k < count {
        range[to + k] := range[from + k];
      }
    }
  }
}
