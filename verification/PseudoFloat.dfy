/** The 8-bit pseudo-floating-point numbers of the tiny sender: values below 128 stand for
    themselves; above, the upper four bits are the mantissa, the lower four the exponent. */
module PseudoFloat {
  import opened Words
  import opened BlockCut

  const HIBIT := 128
  const MAX_VALUE := 0x78_0000    // 240 * 2^15
  const LIMIT := 0x80_0000        // 2^23

  /** The value of mantissa step 1 at exponent `e`: 1 << (e + 4). */
  function Unit(e: nat): nat {
    16 * Pow2(e)
  }

  /** COAP_PSEUDOFP_DECODE_8_4: (r & MMASK) << (r & EMASK), MMASK being 0xF0. */
  function Decode(r: nat): nat {
    if r < HIBIT then r else (r % 256 / 16) * Unit(r % 16)
  }

  /** The exponent both encoders compute for values from 128 on: coap_fls(v) - 8. */
  function Ls(v: nat): nat {
    if Fls(v) < 8 then 0 else Fls(v) - 8
  }

  /** COAP_PSEUDOFP_ENCODE_8_4_DOWN, with its result cut to 8 bits. */
  function Down(v: nat): nat {
    if v < HIBIT then v
    else (Quot(v, Pow2(Ls(v))) % 256 / 16 * 16 + Ls(v)) % 256
  }

  /** COAP_PSEUDOFP_ENCODE_8_4_UP, in 32-bit arithmetic. */
  function Up(v: nat): nat {
    if v < HIBIT then v
    else
      var s := Quot((v + Unit(Ls(v)) - 1) % U32, Pow2(Ls(v))) % 256 / 16 * 16;
      if s == 0 then HIBIT + Ls(v) + 1 else s + Ls(v)
  }

  /** No number that a code stands for lies between `x` and `v`, and x <= v. */
  ghost predicate IsFloor(x: nat, v: nat) {
    x <= v && forall r: nat :: r < 256 && Decode(r) <= v ==> Decode(r) <= x
  }

  /** The same from above. */
  ghost predicate IsCeiling(x: nat, v: nat) {
    v <= x && forall r: nat :: r < 256 && Decode(r) >= v ==> Decode(r) >= x
  }

  // ---------------------------------------------------------------- binades

  lemma BytePowers()
    ensures Pow2(7) == 128 && Pow2(8) == 256
  {
    assert Pow2(3) == 8 && Pow2(5) == 32;
  }

  /** v lies in [8 * unit, 16 * unit). */
  lemma Binade(v: nat)
    requires v >= HIBIT
    ensures 8 * Unit(Ls(v)) <= v < 16 * Unit(Ls(v))
  {
    FlsBounds(v);
    BytePowers();
    if Fls(v) < 8 { Pow2Monotone(Fls(v), 7); }
    Pow2Add(7, Ls(v));
    Pow2Add(8, Ls(v));
  }

  lemma SmallPowers()
    ensures Pow2(4) == 16 && Pow2(15) == 0x8000 && Pow2(16) == 0x1_0000 && Pow2(24) == 0x100_0000
  {
    assert Pow2(4) == 16 && Pow2(8) == 256 && Pow2(12) == 4096 && Pow2(15) == 0x8000;
    assert Pow2(16) == 0x1_0000 && Pow2(20) == 0x10_0000 && Pow2(24) == 0x100_0000;
  }

  lemma LsBound(v: nat)
    requires v >= HIBIT
    ensures v < LIMIT <==> Ls(v) < 16
    ensures v < U32 ==> Ls(v) <= 24
  {
    Binade(v);
    SmallPowers();
    if Ls(v) >= 16 { Pow2Monotone(16, Ls(v)); } else { Pow2Monotone(Ls(v), 15); }
    if Ls(v) > 24 { Pow2Monotone(25, Ls(v)); assert Pow2(25) == 2 * Pow2(24); }
  }

  lemma DecodeOf(g: nat, e: nat)
    requires 8 <= g < 16 && e < 16
    ensures Decode(16 * g + e) == g * Unit(e)
  {
    assert (16 * g + e) / 16 == g && (16 * g + e) % 16 == e;
  }

  /** Where a code lies relative to the binade of exponent `ls`. */
  lemma CodeRange(r: nat, ls: nat)
    requires HIBIT <= r < 256
    ensures Decode(r) == (r / 16) * Unit(r % 16) && 8 <= r / 16 < 16
    ensures r % 16 < ls ==> Decode(r) < 8 * Unit(ls)
    ensures r % 16 > ls ==> Decode(r) >= 16 * Unit(ls)
  {
    var g, e := r / 16, r % 16;
    DecodeOf(g, e);
    MulMonotone(g, 15, Unit(e), Unit(e));
    MulMonotone(8, g, Unit(e), Unit(e));
    if e < ls { Pow2Monotone(e + 1, ls); }
    if e > ls { Pow2Monotone(ls + 1, e); }
  }

  /** n / p with its lower four bits cleared, in units of 16 p. */
  lemma Sixteenth(n: nat, p: nat)
    requires p > 0
    ensures var g := Quot(n, p) / 16; g * (16 * p) <= n < g * (16 * p) + 16 * p
  {
    var q := Quot(n, p);
    var g := q / 16;
    TimesIsProduct(q, p);
    MulMonotone(16 * g, q, p, p);
    MulMonotone(q, 16 * g + 15, p, p);
    assert g * (16 * p) == (16 * g) * p;
    assert (16 * g + 15) * p == (16 * g) * p + 15 * p;
  }

  lemma QuotRange(n: nat, p: nat, lo: nat, hi: nat)
    requires p > 0 && lo * p <= n < hi * p
    ensures lo <= Quot(n, p) < hi
  {
    var q := Quot(n, p);
    TimesIsProduct(q, p);
    if q < lo { NextMultiple(q, lo, p); }
    if q >= hi { MulMonotone(hi, q, p, p); }
  }

  lemma NextMultiple(a: nat, b: nat, p: nat)
    requires a < b
    ensures a * p + p <= b * p
  {
    MulMonotone(a + 1, b, p, p);
  }

  /** How mantissa bits and exponent share the byte. */
  lemma Packing(q: nat, ls: nat)
    requires 128 <= q < 256 && ls < 16
    ensures (q % 256 / 16 * 16 + ls) % 256 == 16 * (q / 16) + ls
  {
  }

  /** An exponent of five bits spills into the mantissa. */
  lemma Spilling(q: nat, ls: nat)
    requires 128 <= q < 256 && 16 <= ls <= 24
    ensures (q % 256 / 16 * 16 + ls) % 256 == if q / 16 == 15 then ls - 16 else 16 * (q / 16 + 1) + (ls - 16)
  {
    var g := q / 16;
    assert q % 256 / 16 * 16 == 16 * g && 8 <= g < 16;
    assert 16 * g + ls == 16 * (g + 1) + (ls - 16);
  }

  /** The carry out of the mantissa shows as 0. */
  lemma Carry(q: nat)
    requires 128 <= q < 272
    ensures q % 256 / 16 * 16 == if q / 16 == 16 then 0 else 16 * (q / 16)
  {
  }

  // ---------------------------------------------------------------- rounding down

  /** DOWN keeps the upper four of the significant bits. */
  lemma DownValue(v: nat)
    requires HIBIT <= v < LIMIT
    ensures var u := Unit(Ls(v)); var g := Quot(v, Pow2(Ls(v))) / 16;
            && 8 <= g < 16 && Decode(Down(v)) == g * u && g * u <= v < g * u + u
  {
    Binade(v);
    LsBound(v);
    var p := Pow2(Ls(v));
    QuotRange(v, p, 128, 256);
    Sixteenth(v, p);
    DownIs(v, Quot(v, p), Ls(v));
    Packing(Quot(v, p), Ls(v));
    DecodeOf(Quot(v, p) / 16, Ls(v));
  }

  /** The largest representable value not above v. */
  lemma DownIsFloor(v: nat)
    requires v < LIMIT
    ensures IsFloor(Decode(Down(v)), v)
  {
    if v >= HIBIT {
      DownValue(v);
      Binade(v);
      var u, g := Unit(Ls(v)), Quot(v, Pow2(Ls(v))) / 16;
      MulMonotone(8, g, u, u);
      forall r: nat | r < 256 && Decode(r) <= v ensures Decode(r) <= g * u {
        if r >= HIBIT {
          CodeRange(r, Ls(v));
          if r % 16 == Ls(v) { BelowFloor(r / 16, g, u, v); }
        }
      }
    }
  }

  lemma BelowFloor(k: nat, g: nat, u: nat, v: nat)
    requires k * u <= v < g * u + u
    ensures k * u <= g * u
  {
    if k > g {
      MulMonotone(g + 1, k, u, u);
    } else {
      MulMonotone(k, g, u, u);
    }
  }

  /** From 2^23 on the exponent runs into the mantissa. */
  lemma DownOverflows(v: nat)
    requires LIMIT <= v < U32
    ensures Decode(Down(v)) < MAX_VALUE <= v
  {
    DownWrapped(v);
    WrappedIsSmall(Quot(v, Pow2(Ls(v))) / 16, Ls(v), Down(v));
  }

  lemma WrappedIsSmall(g: nat, ls: nat, code: nat)
    requires 16 <= ls <= 24 && 8 <= g < 16
    requires code == if g == 15 then ls - 16 else 16 * (g + 1) + (ls - 16)
    ensures Decode(code) < MAX_VALUE
  {
    if g < 15 { CodeIsSmall(g + 1, ls - 16); }
  }

  lemma TopCode()
    ensures Decode(255) == MAX_VALUE
  {
    SmallPowers();
    DecodeOf(15, 15);
  }

  lemma DownWrapped(v: nat)
    requires LIMIT <= v < U32
    ensures var ls := Ls(v); var g := Quot(v, Pow2(ls)) / 16;
            && 16 <= ls <= 24 && 8 <= g < 16
            && Down(v) == if g == 15 then ls - 16 else 16 * (g + 1) + (ls - 16)
  {
    Binade(v);
    LsBound(v);
    var q, ls := Quot(v, Pow2(Ls(v))), Ls(v);
    QuotRange(v, Pow2(ls), 128, 256);
    DownIs(v, q, ls);
    Spilling(q, ls);
  }

  lemma DownIs(v: nat, q: nat, ls: nat)
    requires v >= HIBIT && ls == Ls(v) && q == Quot(v, Pow2(ls))
    ensures Down(v) == (q % 256 / 16 * 16 + ls) % 256
  {
  }

  lemma CodeIsSmall(g: nat, e: nat)
    requires 8 <= g < 16 && e <= 8
    ensures Decode(16 * g + e) <= 15 * 4096
  {
    DecodeOf(g, e);
    Pow2Monotone(e, 8);
    assert Pow2(4) == 16 && Pow2(8) == 256;
    MulMonotone(g, 15, Unit(e), 16 * 256);
  }

  /** DOWN IS EXACT UP TO 2^23: it gives the largest representable value not above v if and
      only if v < 2^23. */
  lemma DownIsFloorIff(v: nat)
    requires v < U32
    ensures IsFloor(Decode(Down(v)), v) <==> v < LIMIT
  {
    if v < LIMIT {
      DownIsFloor(v);
    } else {
      DownOverflows(v);
      TopCode();
    }
  }

  // ---------------------------------------------------------------- rounding up

  /** The mantissa UP chooses, with 16 standing for the carry into the next exponent. */
  function UpMantissa(v: nat): nat {
    Quot(v + Unit(Ls(v)) - 1, Pow2(Ls(v))) / 16
  }

  lemma UpMantissaRange(v: nat)
    requires HIBIT <= v <= MAX_VALUE
    ensures var u := Unit(Ls(v)); var h := UpMantissa(v);
            8 <= h <= 16 && h * u - u < v <= h * u
  {
    Binade(v);
    UpQuotRange(v);
    Sixteenth(v + Unit(Ls(v)) - 1, Pow2(Ls(v)));
  }

  lemma UpQuotRange(v: nat)
    requires v >= HIBIT
    ensures 143 <= Quot(v + Unit(Ls(v)) - 1, Pow2(Ls(v))) < 272
  {
    Binade(v);
    QuotRange(v + Unit(Ls(v)) - 1, Pow2(Ls(v)), 143, 272);
  }

  /** UP rounds the mantissa up, into the next exponent if need be. */
  lemma UpValue(v: nat)
    requires HIBIT <= v <= MAX_VALUE
    ensures var u := Unit(Ls(v)); var h := UpMantissa(v);
            8 <= h <= 16 && Decode(Up(v)) == h * u && h * u - u < v <= h * u
  {
    UpMantissaRange(v);
    UpCode(v);
    var ls, h := Ls(v), UpMantissa(v);
    if h == 16 {
      CarryFits(v, ls);
      DecodeOf(8, ls + 1);
    } else {
      DecodeOf(h, ls);
    }
  }

  lemma UpCode(v: nat)
    requires HIBIT <= v <= MAX_VALUE
    ensures var h := UpMantissa(v);
            Ls(v) < 16 && Up(v) == if h == 16 then 16 * 8 + (Ls(v) + 1) else 16 * h + Ls(v)
  {
    UpQuotRange(v);
    LsBound(v);
    UpNoWrap(v);
    var q, ls := Quot(v + Unit(Ls(v)) - 1, Pow2(Ls(v))), Ls(v);
    Carry(q);
    UpIs(v, q, ls);
  }

  lemma UpIs(v: nat, q: nat, ls: nat)
    requires v >= HIBIT && ls == Ls(v)
    requires q == Quot((v + Unit(ls) - 1) % U32, Pow2(ls))
    ensures Up(v) == var s := q % 256 / 16 * 16; if s == 0 then HIBIT + ls + 1 else s + ls
  {
  }

  lemma UpNoWrap(v: nat)
    requires HIBIT <= v <= MAX_VALUE
    ensures (v + Unit(Ls(v)) - 1) % U32 == v + Unit(Ls(v)) - 1
  {
    LsBound(v);
    SmallPowers();
    Pow2Monotone(Ls(v), 15);
  }

  lemma CarryFits(v: nat, ls: nat)
    requires v <= MAX_VALUE && ls < 16 && 16 * Unit(ls) - Unit(ls) < v
    ensures ls + 1 < 16
  {
    SmallPowers();
  }

  /** The smallest representable value not below v. */
  lemma UpIsCeiling(v: nat)
    requires v <= MAX_VALUE
    ensures IsCeiling(Decode(Up(v)), v)
  {
    if v >= HIBIT {
      UpValue(v);
      Binade(v);
      var u := Unit(Ls(v));
      var h := UpMantissa(v);
      MulMonotone(h, 16, u, u);
      forall r: nat | r < 256 && Decode(r) >= v ensures Decode(r) >= h * u {
        if r >= HIBIT {
          CodeRange(r, Ls(v));
          if r % 16 == Ls(v) { AboveCeiling(r / 16, h, u, v); }
        }
      }
    }
  }

  lemma AboveCeiling(k: nat, h: nat, u: nat, v: nat)
    requires h > 0 && h * u - u < v <= k * u
    ensures h * u <= k * u
  {
    if k < h {
      MulMonotone(k, h - 1, u, u);
    } else {
      MulMonotone(h, k, u, u);
    }
  }

  lemma AllCodesBounded(r: nat)
    ensures Decode(r) <= MAX_VALUE
  {
    if r >= HIBIT {
      SmallPowers();
      Pow2Monotone(r % 16, 15);
      MulMonotone(r % 256 / 16, 15, Unit(r % 16), Unit(15));
    }
  }

  /** UP gives the smallest representable value not below v if and only if there is one. */
  lemma UpIsCeilingIff(v: nat)
    ensures IsCeiling(Decode(Up(v)), v) <==> v <= MAX_VALUE
  {
    if v <= MAX_VALUE { UpIsCeiling(v); } else { AllCodesBounded(Up(v)); }
  }

  // ---------------------------------------------------------------- consequences

  /** Both are monotone. */
  lemma RoundingIsMonotone(v: nat, w: nat)
    requires v <= w
    ensures w < LIMIT ==> Decode(Down(v)) <= Decode(Down(w))
    ensures w <= MAX_VALUE ==> Decode(Up(v)) <= Decode(Up(w))
  {
    if w < LIMIT {
      DownIsFloor(v);
      DownIsFloor(w);
      DownIsCode(v);
    }
    if w <= MAX_VALUE {
      UpIsCeiling(v);
      UpIsCeiling(w);
      UpIsCode(w);
    }
  }

  lemma DownIsCode(v: nat)
    ensures Down(v) < 256
  {
  }

  lemma UpIsCode(v: nat)
    requires v <= MAX_VALUE
    ensures Up(v) < 256
  {
    if v >= HIBIT {
      LsBound(v);
      Binade(v);
      var w := (v + Unit(Ls(v)) - 1) % U32;
      assert Quot(w, Pow2(Ls(v))) % 256 / 16 * 16 <= 240;
    }
  }

  /** The error is 0 below 128, and otherwise below one unit, which is at most v / 8. */
  lemma RoundingError(v: nat)
    requires v <= MAX_VALUE
    ensures v < HIBIT ==> Decode(Down(v)) == v == Decode(Up(v))
    ensures v >= HIBIT ==>
              && v - Decode(Down(v)) < Unit(Ls(v))
              && Decode(Up(v)) - v < Unit(Ls(v))
              && 8 * Unit(Ls(v)) <= v
  {
    if v >= HIBIT {
      DownValue(v);
      UpValue(v);
      Binade(v);
    }
  }
}
