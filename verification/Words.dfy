/** Machine words shared by the other modules. */
module Words {

  type Byte = b: int | 0 <= b < 256

  const U32 := 0x1_0000_0000
  const U48 := 0x1_0000_0000_0000
  const U64 := 0x1_0000_0000_0000_0000

  datatype Option<T> = None | Some(value: T)

  function Min(a: nat, b: nat): nat {
    if a < b then a else b
  }

  function Max(a: nat, b: nat): nat {
    if a < b then b else a
  }

  /** `k` times `c`, as repeated addition; see TimesIsProduct. */
  function Times(k: nat, c: nat): nat {
    if k == 0 then 0 else Times(k - 1, c) + c
  }

  lemma {:induction false} TimesIsProduct(k: nat, c: nat)
    ensures Times(k, c) == k * c
  {
    if k > 0 {
      TimesIsProduct(k - 1, c);
      assert k * c == (k - 1) * c + c;
    }
  }

  lemma {:induction false} TimesMonotone(j: nat, k: nat, c: nat)
    requires j <= k
    ensures Times(j, c) <= Times(k, c)
    ensures j < k ==> Times(j, c) + c <= Times(k, c)
  {
    if j < k { TimesMonotone(j, k - 1, c); }
  }

  /** Unsigned integer division. */
  function Quot(n: nat, c: nat): (q: nat)
    requires c > 0
    ensures Times(q, c) <= n < Times(q, c) + c
    ensures q <= n
  {
    if n < c then 0 else Quot(n - c, c) + 1
  }

  lemma {:induction false} QuotUnique(n: nat, c: nat, q: nat)
    requires c > 0 && Times(q, c) <= n < Times(q, c) + c
    ensures Quot(n, c) == q
  {
    var p := Quot(n, c);
    if p < q { TimesMonotone(p, q, c); }
    if q < p { TimesMonotone(q, p, c); }
  }
}
