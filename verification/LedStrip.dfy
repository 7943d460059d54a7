/** The two LED strip drivers.  The RMT driver keeps one byte per colour; the SPI driver keeps
    the wave that encodes it, three bits for one.  The second refines the first. */
module LedStrip {
  import opened Words

  // ---------------------------------------------------------------- bits and waves

  /** Bit `k` of a byte, counted from the least significant one. */
  function Bit(b: bv8, k: nat): bool
    requires k < 8
  {
    (b >> k) & 1 == 1
  }

  /** A byte from its bits, most significant first. */
  function Pack(b7: bool, b6: bool, b5: bool, b4: bool, b3: bool, b2: bool, b1: bool, b0: bool): bv8 {
    (if b7 then 0x80 else 0) | (if b6 then 0x40 else 0) | (if b5 then 0x20 else 0) | (if b4 then 0x10 else 0) |
    (if b3 then 0x08 else 0) | (if b2 then 0x04 else 0) | (if b1 then 0x02 else 0) | (if b0 then 0x01 else 0)
  }

  /** The bits in the order in which they leave the wire. */
  function Bits(bytes: seq<bv8>): (r: seq<bool>)
    ensures |r| == 8 * |bytes|
  {
    seq(8 * |bytes|, i requires 0 <= i < 8 * |bytes| => Bit(bytes[i / 8], 7 - i % 8))
  }

  /** The three-for-one code: a 1 is sent as 110, a 0 as 100. */
  function Wave(bits: seq<bool>): (r: seq<bool>)
    ensures |r| == 3 * |bits|
  {
    seq(3 * |bits|, i requires 0 <= i < 3 * |bits| =>
          if i % 3 == 0 then true else if i % 3 == 1 then bits[i / 3] else false)
  }

  /** The three wave bytes for one colour byte. */
  function Code(d: bv8): (r: seq<bv8>)
    ensures |r| == 3
  {
    [Pack(true, Bit(d, 7), false, true, Bit(d, 6), false, true, Bit(d, 5)),
     Pack(false, true, Bit(d, 4), false, true, Bit(d, 3), false, true),
     Pack(Bit(d, 2), false, true, Bit(d, 1), false, true, Bit(d, 0), false)]
  }

  function Expand(s: seq<bv8>): (r: seq<bv8>)
    ensures |r| == 3 * |s|
  {
    seq(3 * |s|, i requires 0 <= i < 3 * |s| => Code(s[i / 3])[i % 3])
  }

  lemma PackedBits(b7: bool, b6: bool, b5: bool, b4: bool, b3: bool, b2: bool, b1: bool, b0: bool)
    ensures var p := Pack(b7, b6, b5, b4, b3, b2, b1, b0);
            && Bit(p, 7) == b7 && Bit(p, 6) == b6 && Bit(p, 5) == b5 && Bit(p, 4) == b4
            && Bit(p, 3) == b3 && Bit(p, 2) == b2 && Bit(p, 1) == b1 && Bit(p, 0) == b0
  {
  }

  lemma CodeBits(d: bv8, j: nat, k: nat)
    requires j < 3 && k < 8
    ensures Bit(Code(d)[j], 7 - k) ==
            if (8 * j + k) % 3 == 0 then true else if (8 * j + k) % 3 == 1 then Bit(d, 7 - (8 * j + k) / 3) else false
  {
    if j == 0 {
      PackedBits(true, Bit(d, 7), false, true, Bit(d, 6), false, true, Bit(d, 5));
    } else if j == 1 {
      PackedBits(false, true, Bit(d, 4), false, true, Bit(d, 3), false, true);
    } else {
      PackedBits(Bit(d, 2), false, true, Bit(d, 1), false, true, Bit(d, 0), false);
    }
  }

  /** Bit `k` of wave byte `j` of colour byte `m`. */
  lemma WaveIndex(i: nat)
    ensures var m, j, k := i / 24, i / 8 % 3, i % 8;
            && i == 24 * m + 8 * j + k && i / 8 / 3 == m && i / 3 / 8 == m
            && i % 3 == (8 * j + k) % 3 && i / 3 % 8 == (8 * j + k) / 3
  {
  }

  lemma ExpandedBit(s: seq<bv8>, i: nat)
    requires i < 24 * |s|
    ensures Bits(Expand(s))[i] == Bit(Code(s[i / 24])[i / 8 % 3], 7 - i % 8)
  {
    WaveIndex(i);
    assert Expand(s)[i / 8] == Code(s[i / 8 / 3])[i / 8 % 3];
  }

  lemma WaveBit(s: seq<bv8>, i: nat, j: nat, k: nat)
    requires i < 24 * |s| && j == i / 8 % 3 && k == i % 8
    ensures Wave(Bits(s))[i] ==
            if (8 * j + k) % 3 == 0 then true
            else if (8 * j + k) % 3 == 1 then Bit(s[i / 24], 7 - (8 * j + k) / 3) else false
  {
    WaveIndex(i);
  }

  lemma SameBit(s: seq<bv8>, i: nat)
    requires i < 24 * |s|
    ensures Bits(Expand(s))[i] == Wave(Bits(s))[i]
  {
    var d, j, k := s[i / 24], i / 8 % 3, i % 8;
    ExpandedBit(s, i);
    WaveBit(s, i, j, k);
    CodeBits(d, j, k);
  }

  /** The SPI buffer, bit by bit, is the wave of the colour bytes. */
  lemma ExpansionIsTheWave(s: seq<bv8>)
    ensures Bits(Expand(s)) == Wave(Bits(s))
  {
    forall i | 0 <= i < 24 * |s| ensures Bits(Expand(s))[i] == Wave(Bits(s))[i] { SameBit(s, i); }
  }

  /** What a receiver makes of one coded byte: the middle bit of each triple. */
  function ReadBack(c: seq<bv8>): bv8
    requires |c| == 3
  {
    Pack(Bit(c[0], 6), Bit(c[0], 3), Bit(c[0], 0), Bit(c[1], 5), Bit(c[1], 2), Bit(c[2], 7), Bit(c[2], 4), Bit(c[2], 1))
  }

  lemma CodeReadsBack(d: bv8)
    ensures ReadBack(Code(d)) == d
  {
    PackedBits(true, Bit(d, 7), false, true, Bit(d, 6), false, true, Bit(d, 5));
    PackedBits(false, true, Bit(d, 4), false, true, Bit(d, 3), false, true);
    PackedBits(Bit(d, 2), false, true, Bit(d, 1), false, true, Bit(d, 0), false);
  }

  /** Nothing is lost: different colour buffers have different waves. */
  lemma ExpandInjective(s: seq<bv8>, t: seq<bv8>)
    requires Expand(s) == Expand(t)
    ensures s == t
  {
    forall k | 0 <= k < |s| ensures s[k] == t[k] {
      assert Expand(s)[3 * k] == Expand(t)[3 * k] && Expand(s)[3 * k + 1] == Expand(t)[3 * k + 1];
      assert Expand(s)[3 * k + 2] == Expand(t)[3 * k + 2];
      assert Code(s[k]) == Code(t[k]);
      CodeReadsBack(s[k]);
      CodeReadsBack(t[k]);
    }
  }

  lemma CodeStartsHigh(d: bv8)
    ensures Code(d)[0] != 0
  {
    PackedBits(true, Bit(d, 7), false, true, Bit(d, 6), false, true, Bit(d, 5));
    assert !Bit(0, 7);
  }

  /** A zeroed buffer, as it is allocated, is not a wave: a strip must be cleared first. */
  lemma ZeroIsNoWave(s: seq<bv8>)
    ensures Expand(s) == Zeros(3 * |s|) <==> s == []
  {
    if s != [] {
      CodeStartsHigh(s[0]);
      assert Expand(s)[0] != Zeros(3 * |s|)[0];
    }
  }

  // ---------------------------------------------------------------- what the drivers promise

  type Colour = bv32

  datatype Status = Ok | InvalidArg

  /** The buffer operations of the strip interface. */
  datatype Op =
    | SetPixel(index: nat, red: Colour, green: Colour, blue: Colour)
    | SetPixelRgbw(index: nat, red: Colour, green: Colour, blue: Colour, white: Colour)
    | Clear

  /** Strip length and bytes per pixel: 3 for GRB, 4 for GRBW strips. */
  datatype Strip = Strip(len: nat, bpp: nat) {
    predicate Valid() {
      (bpp == 3 || bpp == 4) && 3 * Size() < U32
    }

    /** index * bytes_per_pixel */
    function Start(index: nat): (r: nat)
      ensures index < len ==> r + (if bpp == 4 then 4 else 3) <= Size()
    {
      if bpp == 4 then 4 * index else 3 * index
    }

    /** The start in 32-bit arithmetic: it does not wrap. */
    function Start32(index: nat): (r: nat)
      requires Valid() && index < len
      ensures r == Start(index)
    {
      Start(index) % U32
    }

    function Size(): nat {
      if bpp == 4 then 4 * len else 3 * len
    }
  }

  function Zeros(n: nat): (r: seq<bv8>)
    ensures |r| == n
  {
    seq(n, _ => 0)
  }

  function Low(c: Colour): bv8 {
    (c & 0xFF) as bv8
  }

  function Put<T>(buf: seq<T>, at: nat, bytes: seq<T>): (r: seq<T>)
    requires at + |bytes| <= |buf|
    ensures |r| == |buf|
  {
    buf[..at] + bytes + buf[at + |bytes|..]
  }

  /** Writing three or four neighbours one by one, in either direction. */
  lemma PutThree<T>(s: seq<T>, at: nat, a: T, b: T, c: T)
    requires at + 3 <= |s|
    ensures s[at := a][at + 1 := b][at + 2 := c] == Put(s, at, [a, b, c])
    ensures s[at + 2 := c][at + 1 := b][at := a] == Put(s, at, [a, b, c])
  {
  }

  lemma PutFour<T>(s: seq<T>, at: nat, a: T, b: T, c: T, d: T)
    requires at + 4 <= |s|
    ensures s[at := a][at + 1 := b][at + 2 := c][at + 3 := d] == Put(s, at, [a, b, c, d])
  {
  }

  /** The bytes of one pixel in the order of the wire, or a refused call. */
  datatype Pixel = Refused | At(index: nat, bytes: seq<bv8>)

  function Accepted(strip: Strip, op: Op): (p: Pixel)
    requires strip.Valid()
    ensures p.At? ==> p.index < strip.len && |p.bytes| == strip.bpp
  {
    match op
    case SetPixel(i, red, green, blue) =>
      if i >= strip.len then Refused
      else At(i, if strip.bpp > 3 then [Low(green), Low(red), Low(blue), 0] else [Low(green), Low(red), Low(blue)])
    case SetPixelRgbw(i, red, green, blue, white) =>
      if i >= strip.len || strip.bpp != 4 then Refused
      else At(i, [Low(green), Low(red), Low(blue), Low(white)])
    case Clear => Refused
  }

  function RmtStep(strip: Strip, buf: seq<bv8>, op: Op): (r: (Status, seq<bv8>))
    requires strip.Valid() && |buf| == strip.Size()
    ensures |r.1| == |buf|
  {
    if op.Clear? then (Ok, Zeros(|buf|))
    else match Accepted(strip, op)
         case Refused => (InvalidArg, buf)
         case At(i, bytes) => (Ok, Put(buf, strip.Start(i), bytes))
  }

  function SpiStep(strip: Strip, buf: seq<bv8>, op: Op): (r: (Status, seq<bv8>))
    requires strip.Valid() && |buf| == 3 * strip.Size()
    ensures |r.1| == |buf|
  {
    if op.Clear? then (Ok, Expand(Zeros(strip.Size())))
    else match Accepted(strip, op)
         case Refused => (InvalidArg, buf)
         case At(i, bytes) => (Ok, Put(buf, 3 * strip.Start(i), Expand(bytes)))
  }

  // ---------------------------------------------------------------- the RMT driver

  class RmtStrip {
    const strip: Strip
    const pixelBuf: array<bv8>

    ghost predicate Valid() {
      strip.Valid() && pixelBuf.Length == strip.Size()
    }

    constructor (strip: Strip)
      requires strip.Valid()
      ensures Valid() && this.strip == strip && fresh(pixelBuf) && pixelBuf[..] == Zeros(strip.Size())
    {
      this.strip := strip;
      pixelBuf := new bv8[strip.Size()](_ => 0);
    }

    method SetPixel(index: nat, red: Colour, green: Colour, blue: Colour) returns (status: Status)
      requires Valid()
      modifies pixelBuf
      ensures (status, pixelBuf[..]) == RmtStep(strip, old(pixelBuf[..]), Op.SetPixel(index, red, green, blue))
    {
      if !(index < strip.len) {
        return InvalidArg;
      }
      var start := strip.Start32(index);
      if strip.bpp > 3 {
        PutFour(pixelBuf[..], start, Low(green), Low(red), Low(blue), 0);
      } else {
        PutThree(pixelBuf[..], start, Low(green), Low(red), Low(blue));
      }
      pixelBuf[start + 0] := (green & 0xFF) as bv8;
      pixelBuf[start + 1] := (red & 0xFF) as bv8;
      pixelBuf[start + 2] := (blue & 0xFF) as bv8;
      if strip.bpp > 3 {
        pixelBuf[start + 3] := 0;
      }
      return Ok;
    }

    method SetPixelRgbw(index: nat, red: Colour, green: Colour, blue: Colour, white: Colour)
      returns (status: Status)
      requires Valid()
      modifies pixelBuf
      ensures (status, pixelBuf[..]) ==
              RmtStep(strip, old(pixelBuf[..]), Op.SetPixelRgbw(index, red, green, blue, white))
    {
      if !(index < strip.len) {
        return InvalidArg;
      }
      if strip.bpp != 4 {
        return InvalidArg;
      }
      var start := strip.Start32(index);
      PutFour(pixelBuf[..], start, Low(green), Low(red), Low(blue), Low(white));
      pixelBuf[start] := (green & 0xFF) as bv8;
      start := start + 1;
      pixelBuf[start] := (red & 0xFF) as bv8;
      start := start + 1;
      pixelBuf[start] := (blue & 0xFF) as bv8;
      start := start + 1;
      pixelBuf[start] := (white & 0xFF) as bv8;
      return Ok;
    }

    method Clear()
      requires Valid()
      modifies pixelBuf
      ensures pixelBuf[..] == RmtStep(strip, old(pixelBuf[..]), Op.Clear).1
    {
      Memset0(pixelBuf, 0, strip.Size());
    }
  }

  /** memset(buf + from, 0, n) */
  method Memset0(buf: array<bv8>, from: nat, n: nat)
    requires from + n <= buf.Length
    modifies buf
    ensures buf[..] == Put(old(buf[..]), from, Zeros(n))
  {
    for i := 0 to n
      invariant forall k :: from <= k < from + i ==> buf[k] == 0
      invariant forall k :: 0 <= k < from || from + i <= k < buf.Length ==> buf[k] == old(buf[k])
    {
      buf[from + i] := 0;
    }
  }

  // ---------------------------------------------------------------- the SPI driver

  method SpiByte2(data: bv8, buf: array<bv8>, i: nat)
    requires i < buf.Length
    modifies buf
    ensures buf[..] == old(buf[..])[i := old(buf[i]) | Code(data)[2]]
  {
    buf[i] := buf[i] | if data & 0x01 != 0 then 0x04 | 0x02 else 0x04;
    buf[i] := buf[i] | if data & 0x02 != 0 then 0x20 | 0x10 else 0x20;
    buf[i] := buf[i] | if data & 0x04 != 0 then 0x80 else 0x00;
  }

  method SpiByte1(data: bv8, buf: array<bv8>, i: nat)
    requires i < buf.Length
    modifies buf
    ensures buf[..] == old(buf[..])[i := old(buf[i]) | Code(data)[1]]
  {
    buf[i] := buf[i] | 0x01;
    buf[i] := buf[i] | if data & 0x08 != 0 then 0x08 | 0x04 else 0x08;
    buf[i] := buf[i] | if data & 0x10 != 0 then 0x40 | 0x20 else 0x40;
  }

  method SpiByte0(data: bv8, buf: array<bv8>, i: nat)
    requires i < buf.Length
    modifies buf
    ensures buf[..] == old(buf[..])[i := old(buf[i]) | Code(data)[0]]
  {
    buf[i] := buf[i] | if data & 0x20 != 0 then 0x02 | 0x01 else 0x02;
    buf[i] := buf[i] | if data & 0x40 != 0 then 0x10 | 0x08 else 0x10;
    buf[i] := buf[i] | if data & 0x80 != 0 then 0x80 | 0x40 else 0x80;
  }

  /** The three bytes from `at` on, each with a byte of `c` ORed in. */
  ghost function Ored(s: seq<bv8>, at: nat, c: seq<bv8>): seq<bv8>
    requires at + 3 <= |s| && |c| == 3
  {
    s[at + 2 := s[at + 2] | c[2]][at + 1 := s[at + 1] | c[1]][at := s[at] | c[0]]
  }

  /** On zero bytes ORing is writing. */
  lemma OredZeros(s: seq<bv8>, at: nat, c: seq<bv8>)
    requires at + 3 <= |s| && |c| == 3 && s[at] == s[at + 1] == s[at + 2] == 0
    ensures Ored(s, at, c) == Put(s, at, c)
  {
    assert s[at] | c[0] == c[0] && s[at + 1] | c[1] == c[1] && s[at + 2] | c[2] == c[2];
    PutThree(s, at, c[0], c[1], c[2]);
    assert [c[0], c[1], c[2]] == c;
  }

  /** __led_strip_spi_bit: ORs the wave of one colour byte into three bytes. */
  method SpiBit(data: bv8, buf: array<bv8>, at: nat)
    requires at + 3 <= buf.Length
    modifies buf
    ensures buf[..] == Ored(old(buf[..]), at, Code(data))
  {
    SpiByte2(data, buf, at + 2);
    SpiByte1(data, buf, at + 1);
    SpiByte0(data, buf, at + 0);
  }

  lemma PutAppend<T>(s: seq<T>, at: nat, x: seq<T>, c: seq<T>, y: seq<T>)
    requires at + |y| <= |s| && y == x + c
    ensures Put(Put(s, at, x), at + |x|, c) == Put(s, at, y)
  {
  }

  lemma ExpandStep(bytes: seq<bv8>, k: nat)
    requires k < |bytes|
    ensures Expand(bytes[..k + 1]) == Expand(bytes[..k]) + Code(bytes[k])
  {
  }

  /** The buffer after zeroing and coding the first `k` bytes. */
  ghost function Written(s: seq<bv8>, start: nat, bytes: seq<bv8>, k: nat): (r: seq<bv8>)
    requires start + 3 * |bytes| <= |s| && k <= |bytes|
    ensures |r| == |s| && forall j :: start + 3 * k <= j < start + 3 * |bytes| ==> r[j] == 0
  {
    if k == 0 then Put(s, start, Zeros(3 * |bytes|))
    else Put(Written(s, start, bytes, k - 1), start + 3 * (k - 1), Code(bytes[k - 1]))
  }

  lemma {:induction false} WrittenIs(s: seq<bv8>, start: nat, bytes: seq<bv8>, k: nat)
    requires start + 3 * |bytes| <= |s| && k <= |bytes|
    ensures Written(s, start, bytes, k) == Put(Put(s, start, Zeros(3 * |bytes|)), start, Expand(bytes[..k]))
  {
    if k > 0 {
      WrittenIs(s, start, bytes, k - 1);
      ExpandStep(bytes, k - 1);
      var zeroed := Put(s, start, Zeros(3 * |bytes|));
      PutAppend(zeroed, start, Expand(bytes[..k - 1]), Code(bytes[k - 1]), Expand(bytes[..k]));
    }
  }

  lemma AllWritten(s: seq<bv8>, start: nat, bytes: seq<bv8>)
    requires start + 3 * |bytes| <= |s|
    ensures Written(s, start, bytes, |bytes|) == Put(s, start, Expand(bytes))
  {
    WrittenIs(s, start, bytes, |bytes|);
    assert bytes[..|bytes|] == bytes;
  }

  lemma Truncation(c: Colour)
    ensures (c % 0x100) as bv8 == Low(c)
  {
  }

  class SpiStrip {
    const strip: Strip
    const pixelBuf: array<bv8>

    ghost predicate Valid() {
      strip.Valid() && pixelBuf.Length == 3 * strip.Size()
    }

    constructor (strip: Strip)
      requires strip.Valid()
      ensures Valid() && this.strip == strip && fresh(pixelBuf) && pixelBuf[..] == Zeros(3 * strip.Size())
    {
      this.strip := strip;
      pixelBuf := new bv8[3 * strip.Size()](_ => 0);
    }

    method SetPixel(index: nat, red: Colour, green: Colour, blue: Colour) returns (status: Status)
      requires Valid()
      modifies pixelBuf
      ensures (status, pixelBuf[..]) == SpiStep(strip, old(pixelBuf[..]), Op.SetPixel(index, red, green, blue))
    {
      if !(index < strip.len) {
        return InvalidArg;
      }
      var start := 3 * strip.Start32(index);
      ghost var bytes := Accepted(strip, Op.SetPixel(index, red, green, blue)).bytes;
      AllWritten(pixelBuf[..], start, bytes);
      Paint(start, green, red, blue, 0, bytes);
      return Ok;
    }

    method SetPixelRgbw(index: nat, red: Colour, green: Colour, blue: Colour, white: Colour)
      returns (status: Status)
      requires Valid()
      modifies pixelBuf
      ensures (status, pixelBuf[..]) ==
              SpiStep(strip, old(pixelBuf[..]), Op.SetPixelRgbw(index, red, green, blue, white))
    {
      if !(index < strip.len) {
        return InvalidArg;
      }
      if strip.bpp != 4 {
        return InvalidArg;
      }
      var start := 3 * strip.Start32(index);
      ghost var bytes := Accepted(strip, Op.SetPixelRgbw(index, red, green, blue, white)).bytes;
      AllWritten(pixelBuf[..], start, bytes);
      Paint(start, green, red, blue, white, bytes);
      return Ok;
    }

    /** The lines both operations share: zero the pixel, then code its bytes, the fourth one
        only on strips that have it. */
    method Paint(start: nat, first: Colour, second: Colour, third: Colour, fourth: Colour, ghost bytes: seq<bv8>)
      requires strip.Valid() && |bytes| == strip.bpp && start + 3 * strip.bpp <= pixelBuf.Length
      requires bytes[0] == Low(first) && bytes[1] == Low(second) && bytes[2] == Low(third)
      requires strip.bpp > 3 ==> bytes[3] == Low(fourth)
      modifies pixelBuf
      ensures pixelBuf[..] == Written(old(pixelBuf[..]), start, bytes, |bytes|)
    {
      ghost var s, k := pixelBuf[..], |bytes| - strip.bpp;
      Memset0(pixelBuf, start, 3 * strip.bpp);
      Add(first, start, s, start, bytes, k);
      Add(second, start + 3, s, start, bytes, k + 1);
      Add(third, start + 3 * 2, s, start, bytes, k + 2);
      if strip.bpp > 3 {
        Add(fourth, start + 3 * 3, s, start, bytes, k + 3);
      }
    }

    /** One colour: the argument is cut to a byte on the way into SpiBit. */
    method Add(colour: Colour, at: nat, ghost s: seq<bv8>, ghost start: nat, ghost bytes: seq<bv8>, ghost k: nat)
      requires k < |bytes| && start + 3 * |bytes| <= |s| && at == start + 3 * k && bytes[k] == Low(colour)
      requires pixelBuf[..] == Written(s, start, bytes, k)
      modifies pixelBuf
      ensures pixelBuf[..] == Written(s, start, bytes, k + 1)
    {
      Truncation(colour);
      OredZeros(pixelBuf[..], at, Code(bytes[k]));
      SpiBit((colour % 0x100) as bv8, pixelBuf, at);
    }

    method Clear()
      requires Valid()
      modifies pixelBuf
      ensures pixelBuf[..] == SpiStep(strip, old(pixelBuf[..]), Op.Clear).1
    {
      ghost var s, bytes := pixelBuf[..], Zeros(strip.Size());
      AllWritten(s, 0, bytes);
      Memset0(pixelBuf, 0, 3 * strip.Size());
      var buf := 0;
      for index := 0 to strip.Size()
        invariant buf == 3 * index && pixelBuf[..] == Written(s, 0, bytes, index)
      {
        Add(0, buf, s, 0, bytes, index);
        buf := buf + 3;
      }
    }
  }

  // ---------------------------------------------------------------- what a call does to the strip

  /** A call is accepted exactly for a pixel of the strip, and with a white part only if the
      strip has one; a refused call changes nothing. */
  lemma AcceptedIff(strip: Strip, rmt: seq<bv8>, spi: seq<bv8>, op: Op)
    requires strip.Valid() && |rmt| == strip.Size() && |spi| == 3 * strip.Size()
    ensures RmtStep(strip, rmt, op).0 == SpiStep(strip, spi, op).0
    ensures RmtStep(strip, rmt, op).0 == Ok <==>
            op.Clear? || (op.index < strip.len && (op.SetPixelRgbw? ==> strip.bpp == 4))
    ensures RmtStep(strip, rmt, op).0 == InvalidArg ==>
              RmtStep(strip, rmt, op).1 == rmt && SpiStep(strip, spi, op).1 == spi
  {
  }

  /** COLOUR ORDER, on the buffer itself: an accepted call leaves green, red, blue and white in
      the bytes of its pixel, in this order, and every other byte as it was. */
  lemma ColourOrder(strip: Strip, buf: seq<bv8>, op: Op)
    requires strip.Valid() && |buf| == strip.Size() && RmtStep(strip, buf, op).0 == Ok && !op.Clear?
    ensures var b, at := RmtStep(strip, buf, op).1, strip.bpp * op.index;
            && at + strip.bpp <= |b| == |buf|
            && b[at] == (op.green % 0x100) as bv8
            && b[at + 1] == (op.red % 0x100) as bv8
            && b[at + 2] == (op.blue % 0x100) as bv8
            && (strip.bpp == 4 ==> b[at + 3] == if op.SetPixelRgbw? then (op.white % 0x100) as bv8 else 0)
            && forall k :: 0 <= k < at || at + strip.bpp <= k < |b| ==> b[k] == buf[k]
  {
    ColoursOf(strip, op);
    assert strip.bpp * op.index == strip.Start(op.index);
  }

  lemma ColoursOf(strip: Strip, op: Op)
    requires strip.Valid() && Accepted(strip, op).At?
    ensures var s := Accepted(strip, op).bytes;
            && Accepted(strip, op).index == op.index
            && s[0] == (op.green % 0x100) as bv8 && s[1] == (op.red % 0x100) as bv8
            && s[2] == (op.blue % 0x100) as bv8
            && (strip.bpp == 4 ==> s[3] == if op.SetPixelRgbw? then (op.white % 0x100) as bv8 else 0)
  {
    Truncation(op.green);
    Truncation(op.red);
    Truncation(op.blue);
    if op.SetPixelRgbw? { Truncation(op.white); }
  }

  /** The byte that is read back from the wave at place `i` of a buffer. */
  function WireByte(buf: seq<bv8>, i: nat): bv8
    requires 3 * i + 3 <= |buf|
  {
    ReadBack(buf[3 * i..3 * i + 3])
  }

  /** The same for the bytes that are read back from the wave of the SPI driver. */
  lemma ColourOrderOnTheWire(strip: Strip, buf: seq<bv8>, op: Op)
    requires strip.Valid() && |buf| == 3 * strip.Size() && SpiStep(strip, buf, op).0 == Ok && !op.Clear?
    ensures var b, at := SpiStep(strip, buf, op).1, strip.bpp * op.index;
            && 3 * (at + strip.bpp) <= |b| == |buf|
            && WireByte(b, at) == (op.green % 0x100) as bv8
            && WireByte(b, at + 1) == (op.red % 0x100) as bv8
            && WireByte(b, at + 2) == (op.blue % 0x100) as bv8
            && (strip.bpp == 4 ==> WireByte(b, at + 3) == if op.SetPixelRgbw? then (op.white % 0x100) as bv8 else 0)
    ensures OnTheWire(SpiStep(strip, buf, op).1, buf, strip.bpp * op.index, Accepted(strip, op).bytes)
  {
    PixelOnTheWire(strip, buf, op);
    ColoursOf(strip, op);
  }

  /** From place `start` on the bytes are read back from the wave `b`, and the rest of it is as
      it was in `buf`. */
  ghost predicate OnTheWire(b: seq<bv8>, buf: seq<bv8>, start: nat, bytes: seq<bv8>) {
    && 3 * (start + |bytes|) <= |b| == |buf|
    && (forall c :: 0 <= c < |bytes| ==> WireByte(b, start + c) == bytes[c])
    && forall k :: 0 <= k < 3 * start || 3 * (start + |bytes|) <= k < |b| ==> b[k] == buf[k]
  }

  lemma PixelOnTheWire(strip: Strip, buf: seq<bv8>, op: Op)
    requires strip.Valid() && |buf| == 3 * strip.Size() && SpiStep(strip, buf, op).0 == Ok && !op.Clear?
    ensures OnTheWire(SpiStep(strip, buf, op).1, buf, strip.bpp * op.index, Accepted(strip, op).bytes)
  {
    var start := strip.Start(op.index);
    assert strip.bpp * op.index == start;
    WrittenReadsBack(buf, start, Accepted(strip, op).bytes);
  }

  lemma WrittenReadsBack(buf: seq<bv8>, start: nat, bytes: seq<bv8>)
    requires 3 * (start + |bytes|) <= |buf|
    ensures OnTheWire(Put(buf, 3 * start, Expand(bytes)), buf, start, bytes)
  {
    forall c | 0 <= c < |bytes| ensures WireByte(Put(buf, 3 * start, Expand(bytes)), start + c) == bytes[c] {
      WrittenByte(buf, start, bytes, c);
    }
  }

  lemma WrittenByte(buf: seq<bv8>, start: nat, bytes: seq<bv8>, c: nat)
    requires 3 * (start + |bytes|) <= |buf| && c < |bytes|
    ensures WireByte(Put(buf, 3 * start, Expand(bytes)), start + c) == bytes[c]
  {
    var i := 3 * (start + c);
    assert Put(buf, 3 * start, Expand(bytes))[i..i + 3] == Expand(bytes)[3 * c..3 * c + 3];
    ByteReadsBack(bytes, c);
  }

  // ---------------------------------------------------------------- refinement

  lemma PutExpands(s: seq<bv8>, at: nat, bytes: seq<bv8>)
    requires at + |bytes| <= |s|
    ensures Put(Expand(s), 3 * at, Expand(bytes)) == Expand(Put(s, at, bytes))
  {
  }

  /** ONE CALL: from an expanded buffer the SPI driver gives the same status and the
      expansion of what the RMT driver leaves. */
  lemma StepRefines(strip: Strip, buf: seq<bv8>, op: Op)
    requires strip.Valid() && |buf| == strip.Size()
    ensures SpiStep(strip, Expand(buf), op).0 == RmtStep(strip, buf, op).0
    ensures SpiStep(strip, Expand(buf), op).1 == Expand(RmtStep(strip, buf, op).1)
  {
    match Accepted(strip, op)
    case Refused =>
    case At(i, bytes) => PutExpands(buf, strip.Start(i), bytes);
  }

  function RunRmt(strip: Strip, buf: seq<bv8>, ops: seq<Op>): (r: (seq<Status>, seq<bv8>))
    requires strip.Valid() && |buf| == strip.Size()
    ensures |r.1| == |buf|
  {
    if ops == [] then ([], buf)
    else
      var (statuses, b) := RunRmt(strip, buf, ops[..|ops| - 1]);
      var (st, b') := RmtStep(strip, b, ops[|ops| - 1]);
      (statuses + [st], b')
  }

  function RunSpi(strip: Strip, buf: seq<bv8>, ops: seq<Op>): (r: (seq<Status>, seq<bv8>))
    requires strip.Valid() && |buf| == 3 * strip.Size()
    ensures |r.1| == |buf|
  {
    if ops == [] then ([], buf)
    else
      var (statuses, b) := RunSpi(strip, buf, ops[..|ops| - 1]);
      var (st, b') := SpiStep(strip, b, ops[|ops| - 1]);
      (statuses + [st], b')
  }

  /** EVERY RUN: after a clear on both strips, whatever was in the buffers before, every
      sequence of calls returns the same statuses, and the SPI buffer is bit for bit the wave
      of the RMT buffer. */
  lemma {:induction false} SpiRefinesRmt(strip: Strip, rmt0: seq<bv8>, spi0: seq<bv8>, ops: seq<Op>)
    requires strip.Valid() && |rmt0| == strip.Size() && |spi0| == 3 * strip.Size()
    ensures var (rs, rmt) := RunRmt(strip, rmt0, [Clear] + ops);
            var (ss, spi) := RunSpi(strip, spi0, [Clear] + ops);
            rs == ss && spi == Expand(rmt) && Bits(spi) == Wave(Bits(rmt))
  {
    var all := [Clear] + ops;
    if ops == [] {
      assert all[..|all| - 1] == [];
    } else {
      assert all[..|all| - 1] == [Clear] + ops[..|ops| - 1];
      SpiRefinesRmt(strip, rmt0, spi0, ops[..|ops| - 1]);
      StepRefines(strip, RunRmt(strip, rmt0, all[..|all| - 1]).1, ops[|ops| - 1]);
    }
    ExpansionIsTheWave(RunRmt(strip, rmt0, all).1);
  }

  /** The colour a pixel was last given: the last accepted call for it, or dark. */
  function Shown(strip: Strip, ops: seq<Op>, i: nat): (r: seq<bv8>)
    requires strip.Valid()
    ensures |r| == strip.bpp
  {
    if ops == [] || ops[|ops| - 1].Clear? then Zeros(strip.bpp)
    else match Accepted(strip, ops[|ops| - 1])
         case Refused => Shown(strip, ops[..|ops| - 1], i)
         case At(j, bytes) => if j == i then bytes else Shown(strip, ops[..|ops| - 1], i)
  }

  /** The bytes of pixel `i`. */
  function PixelAt(strip: Strip, buf: seq<bv8>, i: nat): seq<bv8>
    requires strip.Valid() && |buf| == strip.Size() && i < strip.len
  {
    buf[strip.Start(i)..strip.Start(i) + strip.bpp]
  }

  /** These are the bytes_per_pixel bytes from index * bytes_per_pixel on. */
  lemma PixelPlace(strip: Strip, buf: seq<bv8>, i: nat, c: nat)
    requires strip.Valid() && |buf| == strip.Size() && i < strip.len && c < strip.bpp
    ensures |PixelAt(strip, buf, i)| == strip.bpp
    ensures i * strip.bpp + c < |buf| == strip.len * strip.bpp && PixelAt(strip, buf, i)[c] == buf[i * strip.bpp + c]
  {
    assert i * strip.bpp == strip.Start(i) && strip.len * strip.bpp == strip.Size();
  }

  lemma PutPixel(strip: Strip, buf: seq<bv8>, i: nat, j: nat, bytes: seq<bv8>)
    requires strip.Valid() && |buf| == strip.Size() && i < strip.len && j < strip.len && |bytes| == strip.bpp
    ensures PixelAt(strip, Put(buf, strip.Start(j), bytes), i) == if i == j then bytes else PixelAt(strip, buf, i)
  {
    PutSlice(buf, strip.Start(j), bytes, strip.Start(i));
  }

  lemma PutSlice<T>(s: seq<T>, at: nat, x: seq<T>, from: nat)
    requires at + |x| <= |s| && from + |x| <= |s|
    ensures from == at ==> Put(s, at, x)[from..from + |x|] == x
    ensures from + |x| <= at || at + |x| <= from ==> Put(s, at, x)[from..from + |x|] == s[from..from + |x|]
  {
  }

  /** Each pixel shows the colour it was last given: no call disturbs another pixel. */
  lemma {:induction false} PixelShowsItsColour(strip: Strip, rmt0: seq<bv8>, ops: seq<Op>, i: nat)
    requires strip.Valid() && |rmt0| == strip.Size() && i < strip.len
    ensures PixelAt(strip, RunRmt(strip, rmt0, [Clear] + ops).1, i) == Shown(strip, ops, i)
  {
    var all := [Clear] + ops;
    var before := RunRmt(strip, rmt0, all[..|all| - 1]).1;
    ZerosSlice(strip.Size(), strip.Start(i), strip.bpp);
    if ops == [] {
      assert all[|all| - 1] == Clear;
    } else {
      var op := ops[|ops| - 1];
      assert all[|all| - 1] == op && all[..|all| - 1] == [Clear] + ops[..|ops| - 1];
      PixelShowsItsColour(strip, rmt0, ops[..|ops| - 1], i);
      StepShows(strip, before, op, i);
    }
  }

  /** What one call does to the colour of a pixel. */
  lemma StepShows(strip: Strip, buf: seq<bv8>, op: Op, i: nat)
    requires strip.Valid() && |buf| == strip.Size() && i < strip.len
    ensures PixelAt(strip, RmtStep(strip, buf, op).1, i) ==
            if op.Clear? then Zeros(strip.bpp)
            else match Accepted(strip, op)
                 case Refused => PixelAt(strip, buf, i)
                 case At(j, bytes) => if j == i then bytes else PixelAt(strip, buf, i)
  {
    ZerosSlice(strip.Size(), strip.Start(i), strip.bpp);
    match Accepted(strip, op)
    case Refused =>
    case At(j, bytes) => PutPixel(strip, buf, i, j, bytes);
  }

  lemma ZerosSlice(n: nat, from: nat, len: nat)
    requires from + len <= n
    ensures Zeros(n)[from..from + len] == Zeros(len)
  {
  }

  /** So the colour of every pixel can be read back from the SPI wave alone. */
  lemma ColourIsRecoverable(strip: Strip, spi0: seq<bv8>, ops: seq<Op>, i: nat, c: nat)
    requires strip.Valid() && |spi0| == 3 * strip.Size() && i < strip.len && c < strip.bpp
    ensures var at := 3 * (strip.Start(i) + c);
            ReadBack(RunSpi(strip, spi0, [Clear] + ops).1[at..at + 3]) == Shown(strip, ops, i)[c]
  {
    var rmt0 := Zeros(strip.Size());
    SpiRefinesRmt(strip, rmt0, spi0, ops);
    PixelShowsItsColour(strip, rmt0, ops, i);
    PixelReadsBack(strip, RunRmt(strip, rmt0, [Clear] + ops).1, i, c);
  }

  lemma PixelReadsBack(strip: Strip, rmt: seq<bv8>, i: nat, c: nat)
    requires strip.Valid() && |rmt| == strip.Size() && i < strip.len && c < strip.bpp
    ensures var at := 3 * (strip.Start(i) + c);
            at + 3 <= 3 * |rmt| && ReadBack(Expand(rmt)[at..at + 3]) == PixelAt(strip, rmt, i)[c]
  {
    var k := strip.Start(i) + c;
    assert PixelAt(strip, rmt, i)[c] == rmt[k];
    ByteReadsBack(rmt, k);
  }

  lemma ByteReadsBack(s: seq<bv8>, k: nat)
    requires k < |s|
    ensures ReadBack(Expand(s)[3 * k..3 * k + 3]) == s[k]
  {
    assert Expand(s)[3 * k..3 * k + 3] == Code(s[k]);
    CodeReadsBack(s[k]);
  }
}
