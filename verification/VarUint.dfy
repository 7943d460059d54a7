/** Variable-length unsigned integers (section 3.2 of RFC 7252), the Block option that is
    built from them, and the 48/16-bit state tokens of large transfers. */
module VarUint {

  import opened Words

  // ---------------------------------------------------------------- big-endian numbers

  /** What a byte string means. */
  function Value(s: seq<Byte>): nat {
    if s == [] then 0 else 256 * Value(s[..|s| - 1]) + s[|s| - 1]
  }

  /** The big-endian form without leading zeros. */
  function Shortest(v: nat): seq<Byte> {
    if v == 0 then [] else Shortest(v / 256) + [v % 256]
  }

  function Pow256(n: nat): (p: nat)
    ensures p >= 1
  {
    if n == 0 then 1 else 256 * Pow256(n - 1)
  }

  lemma {:induction false} ValueOfShortest(v: nat)
    ensures Value(Shortest(v)) == v
  {
    if v != 0 {
      ValueOfShortest(v / 256);
      assert (Shortest(v / 256) + [v % 256])[..|Shortest(v / 256)|] == Shortest(v / 256);
    }
  }

  lemma {:induction false} ValueBelow(s: seq<Byte>)
    ensures Value(s) < Pow256(|s|)
  {
    if s != [] { ValueBelow(s[..|s| - 1]); }
  }

  lemma {:induction false} Pow256Monotone(m: nat, n: nat)
    requires m <= n
    ensures Pow256(m) <= Pow256(n)
  {
    if m < n { Pow256Monotone(m, n - 1); }
  }

  /** The encoded length is exactly the number of base-256 digits. */
  lemma {:induction false} ShortestLength(v: nat, n: nat)
    ensures |Shortest(v)| <= n <==> v < Pow256(n)
  {
    if v != 0 && n != 0 { ShortestLength(v / 256, n - 1); }
  }

  /** No byte string for `v` is shorter than the encoding. */
  lemma EncodingIsMinimal(s: seq<Byte>)
    ensures |Shortest(Value(s))| <= |s|
  {
    ValueBelow(s);
    ShortestLength(Value(s), |s|);
  }

  /** Decoding inverts encoding on exactly the strings without a leading zero. */
  lemma {:induction false} ShortestOfValue(s: seq<Byte>)
    ensures Shortest(Value(s)) == s <==> (s == [] || s[0] != 0)
  {
    if s != [] {
      var front := s[..|s| - 1];
      ShortestOfValue(front);
      assert s == front + [s[|s| - 1]];
      assert Value(s) / 256 == Value(front) && Value(s) % 256 == s[|s| - 1];
      if Value(s) == 0 {
        if front != [] { assert front[0] == s[0]; }
      } else {
        assert Shortest(Value(s)) == Shortest(Value(front)) + [s[|s| - 1]];
        if front != [] {
          assert front[0] == s[0];
          assert Shortest(Value(front)) == front <==> Shortest(Value(s)) == s by {
            if Shortest(Value(s)) == s {
              assert Shortest(Value(front)) == s[..|s| - 1];
            }
          }
        }
      }
    }
  }

  // ---------------------------------------------------------------- the C routines

  lemma ModIs(x: nat, k: nat, r: nat)
    requires x == U32 * k + r && r < U32
    ensures x % U32 == r
  {
  }

  lemma WrapByte(v: nat, b: Byte)
    ensures ((v % U32) * 256 + b) % U32 == (v * 256 + b) % U32
  {
    var low := (v % U32) * 256 + b;
    ModIs(v * 256 + b, v / U32 * 256 + low / U32, low % U32);
  }

  lemma WrapNibble(v: nat, h: nat)
    requires h < 16
    ensures ((v % U32) * 16) % U32 + h == (v * 16 + h) % U32
  {
    var low := (v % U32) * 16;
    var k, r := low / U32, low % U32;
    assert r == 16 * (v % U32 - k * 0x1000_0000);
    ModIs(v * 16 + h, v / U32 * 16 + k, r + h);
  }

  /** coap_decode_var_bytes: 32-bit accumulator, so long inputs wrap. */
  method DecodeVarBytes(buf: seq<Byte>) returns (n: nat)
    ensures n == Value(buf) % U32
  {
    n := 0;
    for i := 0 to |buf|
      invariant n == Value(buf[..i]) % U32
    {
      WrapByte(Value(buf[..i]), buf[i]);
      n := (n * 256 + buf[i]) % U32;
      assert buf[..i + 1][..i] == buf[..i];
    }
    assert buf[..|buf|] == buf;
  }

  /** coap_decode_var_bytes8: stops after eight bytes. */
  method DecodeVarBytes8(buf: seq<Byte>) returns (n: nat)
    ensures n == Value(Leading8(buf))
  {
    n := 0;
    var i := 0;
    while i < |buf| && i < 8
      invariant 0 <= i <= |buf| && i <= 8
      invariant n == Value(buf[..i]) < Pow256(i)
    {
      ghost var next := buf[..i + 1];
      assert next[..i] == buf[..i];
      ValueBelow(next);
      Pow256Monotone(i + 1, 8);
      n := (n * 256 + buf[i]) % U64;
      i := i + 1;
    }
  }

  /** coap_encode_var_safe and coap_encode_var_safe8 for the word size `width`: writes the
      shortest form, or nothing when the buffer is too short. */
  method EncodeVarSafe(buf: array<Byte>, val: nat, width: nat) returns (n: nat)
    requires (width == 4 && val < U32) || (width == 8 && val < U64)
    modifies buf
    ensures |Shortest(val)| <= width
    ensures |Shortest(val)| <= buf.Length ==>
              n == |Shortest(val)| && buf[..] == Shortest(val) + old(buf[n..])
    ensures |Shortest(val)| > buf.Length ==> n == 0 && buf[..] == old(buf[..])
  {
    ShortestLength(val, width);
    var t := val;
    n := 0;
    while t != 0 && n < width
      invariant n <= width && n + |Shortest(t)| == |Shortest(val)|
      decreases t
    {
      t := t / 256;
      n := n + 1;
    }
    assert n == |Shortest(val)|;
    if n > buf.Length {
      return 0;
    }
    var i, v := n, val;
    while i > 0
      invariant i == |Shortest(v)| && i <= n
      invariant Shortest(v) + buf[i..n] == Shortest(val)
      invariant buf[n..] == old(buf[n..])
      decreases i
    {
      ghost var done := buf[i..n];
      assert Shortest(v) == Shortest(v / 256) + [v % 256];
      i := i - 1;
      buf[i] := v % 256;
      v := v / 256;
      assert buf[i..n] == [buf[i]] + done;
    }
    assert buf[..] == buf[0..n] + buf[n..];
  }

  function Leading8(s: seq<Byte>): seq<Byte> {
    s[..if |s| < 8 then |s| else 8]
  }

  /** Any 64-bit value survives encoding and decoding. */
  lemma WordRoundTrip(val: nat)
    requires val < U64
    ensures |Shortest(val)| <= 8
    ensures Value(Leading8(Shortest(val))) == val
  {
    assert Pow256(8) == U64 by {
      assert Pow256(2) == 0x1_0000 && Pow256(4) == U32 && Pow256(6) == U48;
    }
    ShortestLength(val, 8);
    ValueOfShortest(val);
    assert Leading8(Shortest(val)) == Shortest(val);
  }

  // ---------------------------------------------------------------- Block option

  function BlockValue(num: nat, m: bool, szx: nat): nat {
    num * 16 + (if m then 8 else 0) + szx
  }

  function EndByte(opt: seq<Byte>): Byte {
    if opt == [] then 0 else opt[|opt| - 1]
  }

  function OptMore(opt: seq<Byte>): bool {
    EndByte(opt) / 8 % 2 == 1
  }

  function OptSzx(opt: seq<Byte>): nat {
    EndByte(opt) % 8
  }

  /** coap_opt_block_num, for an option value of any length. */
  method OptBlockNum(opt: seq<Byte>) returns (num: nat)
    ensures num == (Value(opt) / 16) % U32
  {
    if |opt| == 0 {
      return 0;
    }
    num := 0;
    if |opt| > 1 {
      num := DecodeVarBytes(opt[..|opt| - 1]);
    }
    ghost var front := opt[..|opt| - 1];
    assert |opt| == 1 ==> Value(front) == 0;
    assert Value(opt) / 16 == Value(front) * 16 + EndByte(opt) / 16;
    WrapNibble(Value(front), EndByte(opt) / 16);
    // the upper nibble of the last byte is below the shifted number
    num := (num * 16) % U32 + EndByte(opt) / 16;
  }

  /** Every block option the library writes gives back its three fields, whatever the
      length of its encoding (0 to 3 bytes for a 20-bit number). */
  lemma BlockOptionRoundTrip(num: nat, m: bool, szx: nat)
    requires num <= 0xFFFFF && szx < 8
    ensures var opt := Shortest(BlockValue(num, m, szx));
            && |opt| <= 3
            && (Value(opt) / 16) % U32 == num
            && OptMore(opt) == m
            && OptSzx(opt) == szx
  {
    var v := BlockValue(num, m, szx);
    ValueOfShortest(v);
    ThreeBytes();
    ShortestLength(v, 3);
    LastByte(v);
    Fields(num, m, szx);
  }

  lemma ThreeBytes()
    ensures Pow256(3) == 0x100_0000
  {
    assert Pow256(1) == 256 && Pow256(2) == 0x1_0000;
  }

  lemma LastByte(v: nat)
    ensures EndByte(Shortest(v)) == v % 256
  {
  }

  lemma Fields(num: nat, m: bool, szx: nat)
    requires szx < 8
    ensures var v := BlockValue(num, m, szx);
            v / 16 == num && (v % 256 / 8 % 2 == 1 <==> m) && v % 256 % 8 == szx
  {
    var v, low := BlockValue(num, m, szx), num % 16;
    assert v == 256 * (num / 16) + (16 * low + (if m then 8 else 0) + szx);
    assert v % 256 == 16 * low + (if m then 8 else 0) + szx;
  }

  // ---------------------------------------------------------------- state tokens

  function Base(t: nat): nat {
    t % U48
  }

  /** STATE_TOKEN_FULL in 64-bit arithmetic: only 16 bits of the retry count survive. */
  function Full(t: nat, retry: nat): nat {
    (Base(t) + retry * U48) % U64
  }

  lemma FullIs(t: nat, retry: nat)
    ensures Full(t, retry) == Base(t) + retry % 0x1_0000 * U48
  {
    var hi, q := retry % 0x1_0000, retry / 0x1_0000;
    assert Base(t) + retry * U48 == (Base(t) + hi * U48) + q * U64;
  }

  /** What is read back from a token on the wire: the base of the transfer below 2^48, and the
      retry count above it. */
  lemma TokenParts(t: nat, retry: nat)
    ensures var token := Value(Leading8(Shortest(Full(t, retry))));
            token % U48 == t % U48 && token / U48 == retry % 0x1_0000
  {
    FullIs(t, retry);
    SplitWord(Base(t), retry % 0x1_0000);
    WordRoundTrip(Full(t, retry));
  }

  lemma SplitWord(base: nat, hi: nat)
    requires base < U48 && hi < 0x1_0000
    ensures (base + hi * U48) % U48 == base && (base + hi * U48) / U48 == hi && base + hi * U48 < U64
  {
  }

  /** Two attempts of one transfer have the same token exactly if they are a multiple of 65536
      retries apart. */
  lemma TokensRepeatIff(t: nat, retry: nat, retry': nat)
    ensures Shortest(Full(t, retry)) == Shortest(Full(t, retry')) <==> retry % 0x1_0000 == retry' % 0x1_0000
  {
    FullIs(t, retry);
    FullIs(t, retry');
    TokenParts(t, retry);
    TokenParts(t, retry');
  }

  /** A token on the wire leads back to the base of the transfer that sent it. */
  lemma TokenKeepsBase(t: nat, retry: nat)
    ensures Base(Value(Leading8(Shortest(Full(t, retry))))) == Base(t)
  {
    TokenParts(t, retry);
  }

  /** What a large transfer is found by: its state token and the application's token.  The
      list also holds responses in progress, which have neither. */
  datatype Transfer = Request(stateToken: nat, appToken: seq<Byte>) | Response
  {
    predicate Matches(token: seq<Byte>) {
      && Request?
      && (|| Base(Value(Leading8(token))) == Base(stateToken)
          || Base(Value(Leading8(token))) == Base(Value(Leading8(appToken))))
    }
  }

  /** The list walk of coap_handle_response_send_block: the first match wins. */
  method FindTransfer(transfers: seq<Transfer>, token: seq<Byte>) returns (r: nat)
    ensures r <= |transfers|
    ensures r < |transfers| ==> transfers[r].Matches(token)
    ensures forall i :: 0 <= i < r ==> !transfers[i].Matches(token)
  {
    var v := DecodeVarBytes8(token);
    r := 0;
    while r < |transfers|
      invariant r <= |transfers|
      invariant forall i :: 0 <= i < r ==> !transfers[i].Matches(token)
    {
      if transfers[r].Request? {
        var a := DecodeVarBytes8(transfers[r].appToken);
        if Base(v) == Base(transfers[r].stateToken) || Base(v) == Base(a) {
          return;
        }
      }
      r := r + 1;
    }
  }

  /** The first transfer in the list that a token matches. */
  ghost predicate IsFirstMatch(transfers: seq<Transfer>, token: seq<Byte>, r: nat) {
    && r < |transfers| && transfers[r].Matches(token)
    && forall i :: 0 <= i < r ==> !transfers[i].Matches(token)
  }

  /** A response is given to the transfer that sent the request exactly when no transfer
      earlier in the list has that base as its state token or as its application token. */
  lemma ResponseFindsItsTransfer(transfers: seq<Transfer>, k: nat, retry: nat)
    requires k < |transfers| && transfers[k].Request?
    ensures IsFirstMatch(transfers, Shortest(Full(transfers[k].stateToken, retry)), k) <==>
            forall i :: 0 <= i < k && transfers[i].Request? ==>
              && Base(transfers[i].stateToken) != Base(transfers[k].stateToken)
              && Base(Value(Leading8(transfers[i].appToken))) != Base(transfers[k].stateToken)
  {
    TokenKeepsBase(transfers[k].stateToken, retry);
  }

  /** Distinct bases alone are not enough: an application token may equal another base. */
  lemma AppTokenCanShadow()
    ensures var ts := [Request(1, [2]), Request(2, [3])];
            && Base(ts[0].stateToken) != Base(ts[1].stateToken)
            && IsFirstMatch(ts, Shortest(Full(2, 1)), 0)
  {
    var ts := [Request(1, [2]), Request(2, [3])];
    TokenKeepsBase(2, 1);
    assert Leading8([2]) == [2] && [2][..0] == [];
    assert Value([2]) == 2;
    assert ts[0].Matches(Shortest(Full(2, 1)));
  }
}
