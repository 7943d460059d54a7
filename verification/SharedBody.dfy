/** Reference-counted bodies of the example server: a body that a GET is still sending in
    blocks outlives the PUT that replaces it. */
module SharedBody {
  import opened BlockCut
  import opened Words

  /** transient_value_t with its binary.  `freed` records that both were deleted. */
  class Value {
    const bytes: seq<Byte>
    var refCnt: nat
    ghost var freed: bool

    constructor (bytes: seq<Byte>)
      ensures this.bytes == bytes && refCnt == 1 && !freed
    {
      this.bytes, refCnt, freed := bytes, 1, false;
    }
  }

  /** What coap_find_lg_xmit_response compares; an absent query counts as the empty one. */
  datatype Key = Key(session: nat, resource: nat, method_: nat, query: string, rtag: Option<seq<Byte>>)

  /** A block-wise response in progress; `body` is what its release function is called with. */
  datatype Transfer = Transfer(key: Key, body: Value?)

  /** The reference that a possibly null pointer stands for. */
  ghost function Ref(v: Value?): multiset<Value> {
    if v == null then multiset{} else multiset{v}
  }

  lemma OneMore(v: Value?, h: multiset<Value>)
    ensures h + Ref(v) == Ref(v) + h
  {
  }

  ghost function Bodies(xs: seq<Transfer>): multiset<Value> {
    if xs == [] then multiset{} else Ref(xs[0].body) + Bodies(xs[1..])
  }

  lemma {:induction false} BodiesWithout(xs: seq<Transfer>, i: nat)
    requires i < |xs|
    ensures Bodies(xs) == Bodies(xs[..i] + xs[i + 1..]) + Ref(xs[i].body)
  {
    var ys := xs[..i] + xs[i + 1..];
    if i == 0 {
      assert ys == xs[1..];
    } else {
      BodiesWithout(xs[1..], i - 1);
      assert ys[0] == xs[0] && ys[1..] == xs[1..][..i - 1] + xs[1..][i..];
    }
  }

  lemma BodiesWith(t: Transfer, xs: seq<Transfer>, h: multiset<Value>)
    ensures h + Bodies([t] + xs) == h + Bodies(xs) + Ref(t.body)
  {
    assert ([t] + xs)[1..] == xs;
  }

  lemma {:induction false} BodyIsHeld(xs: seq<Transfer>, v: Value)
    ensures v in Bodies(xs) <==> exists t :: t in xs && t.body == v
  {
    if xs != [] { BodyIsHeld(xs[1..], v); }
  }

  /** The list without its first entry for `key`. */
  function Without(xs: seq<Transfer>, key: Key): seq<Transfer> {
    if xs == [] then [] else if xs[0].key == key then xs[1..] else [xs[0]] + Without(xs[1..], key)
  }

  lemma {:induction false} WithoutFirst(xs: seq<Transfer>, key: Key, i: nat)
    requires i <= |xs| && forall j :: 0 <= j < i ==> xs[j].key != key
    requires i < |xs| ==> xs[i].key == key
    ensures Without(xs, key) == if i < |xs| then xs[..i] + xs[i + 1..] else xs
  {
    if xs != [] && i > 0 {
      WithoutFirst(xs[1..], key, i - 1);
      if i < |xs| { assert xs[..i] + xs[i + 1..] == [xs[0]] + (xs[1..][..i - 1] + xs[1..][i..]); }
    }
  }

  // ---------------------------------------------------------------- one response

  /** The Block2 or Q-Block2 option of a request. */
  datatype BlockOption = BlockOption(q: bool, num: nat, m: bool, szx: nat)

  datatype Request = Request(key: Key, block: Option<BlockOption>) {
    predicate Valid() {
      block.Some? ==> block.value.num <= MAX_NUM && block.value.szx <= 6
    }

    /** A Q-Block2 request for one block only. */
    predicate Single() {
      block.Some? && block.value.q && !block.value.m
    }
  }

  /** What one call finds outside this module: the state of the message, the outcome of
      coap_write_block_b_opt and of the allocations, and the space left. */
  datatype Env = Env(pduHasData: bool, useLibcoap: bool, write: WriteResult, avail: int,
                     xmitAlloc: bool, setupOk: bool, tokenAlloc: bool, availAfter: int, addDataOk: bool)

  const MAX_BLK_LEN := 0xF_FFFF * 1024

  /** The size exponent to use; below 16 bytes the 8-bit result wraps and is cut to 6. */
  function BlkSize(env: Env, block: bool): (s: nat)
    requires block ==> env.write.Written?
  {
    var most := if env.avail < 16 then 6 else Min(if Fls(env.avail) < 5 then 6 else Fls(env.avail) - 5, 6);
    if block && env.write.block.szx < most then env.write.block.szx else most
  }

  /** The request is legal, and the call gets as far as the list of transfers. */
  predicate Reaches(req: Request, length: nat, env: Env) {
    && (req.block.Some? ==>
          !(req.block.value.num != 0 && length <= Offset(req.block.value.num, req.block.value.szx))
          && env.write.Written?)
    && !env.pduHasData && env.useLibcoap
  }

  /** More than one block has to be sent, and nothing goes wrong on the way. */
  predicate Continues(req: Request, len: nat, env: Env)
    requires req.block.Some? ==> env.write.Written?
  {
    var block := req.block.Some?;
    && !(env.avail < 16 && (len > env.avail || block))
    && !(block && (env.write.block.num != 0 || req.Single()))
    && (len > env.avail || (block && len > Chunk(BlkSize(env, block))))
    && env.xmitAlloc && env.setupOk && env.tokenAlloc
    && (env.availAfter < Chunk(BlkSize(env, block)) ==> env.availAfter >= 16)
    && env.addDataOk
  }

  /** The body, or the block of it that is due, goes into the message.  Only a block behind the
      end of the body needs no data; it can become one when a smaller size is used. */
  predicate Succeeds(req: Request, len: nat, env: Env)
    requires req.block.Some? ==> env.write.Written?
  {
    var block := req.block.Some?;
    if env.avail < 16 && (len > env.avail || block) then false
    else if block && (env.write.block.num != 0 || req.Single()) then
      len < Offset(env.write.block.num, BlkSize(env, block)) || env.addDataOk
    else if len > env.avail || (block && len > Chunk(BlkSize(env, block))) then Continues(req, len, env)
    else env.addDataOk
  }

  /** The code of the response, unless it stays as it was. */
  function Error(req: Request, length: nat, env: Env): Option<Code> {
    if req.block.Some? && (env.write.Illegal? || (req.block.value.num != 0 &&
         length <= Offset(req.block.value.num, req.block.value.szx))) then Some(BadRequest)
    else if req.block.Some? && env.write.NoRoom? then Some(InternalError)
    else if env.pduHasData then Some(InternalError)
    else if (if env.useLibcoap then Succeeds(req, Min(length, MAX_BLK_LEN), env) else env.addDataOk) then None
    else Some(InternalError)
  }

  function Answer(error: Option<Code>, code: Code): Code {
    match error
    case Some(c) => c
    case None => code
  }

  /** The new transfer, if there is one, in front of the old ones. */
  ghost function Expected(req: Request, length: nat, env: Env, body: Value?, xs: seq<Transfer>): seq<Transfer> {
    if !Reaches(req, length, env) then xs
    else
      (if Continues(req, Min(length, MAX_BLK_LEN), env) then [Transfer(req.key, body)] else []) + Without(xs, req.key)
  }

  /** A block size that the request allows and the message has room for. */
  predicate Usable(req: Request, env: Env, szx: nat) {
    szx <= 6 && Chunk(szx) <= env.avail && (req.block.Some? ==> env.write.Written? && szx <= env.write.block.szx)
  }

  /** The size chosen is usable, and no larger one is. */
  lemma LargestUsable(req: Request, env: Env, szx: nat)
    requires env.avail >= 16 && (req.block.Some? ==> env.write.Written?)
    ensures var s := BlkSize(env, req.block.Some?);
            Usable(req, env, s) && (Usable(req, env, szx) ==> szx <= s && Chunk(szx) <= Chunk(s))
  {
    var most := FittingSize(env.avail, szx);
    var s := BlkSize(env, req.block.Some?);
    Pow2Monotone(s, most);
    if szx <= s { Pow2Monotone(szx, s); }
  }

  /** The largest size for `avail` bytes. */
  lemma FittingSize(avail: nat, szx: nat) returns (most: nat)
    requires avail >= 16
    ensures most == Min(if Fls(avail) < 5 then 6 else Fls(avail) - 5, 6)
    ensures Chunk(most) <= avail && (szx <= 6 && Chunk(szx) <= avail ==> szx <= most)
  {
    FlsBounds(avail);
    var fls := Fls(avail);
    assert Pow2(4) == 16;
    if fls < 5 { Pow2Monotone(fls, 4); }
    most := Min(fls - 5, 6);
    ChunkIsPow2(fls - 5);
    Pow2Monotone(most, fls - 5);
    if fls - 5 < szx {
      ChunkIsPow2(szx);
      Pow2Monotone(fls, 4 + szx);
    }
  }

  lemma ChunkIsPow2(szx: nat)
    ensures Chunk(szx) == Pow2(4 + szx)
  {
    assert Pow2(4) == 16;
    Pow2Add(4, szx);
  }

  /** WHEN A RESPONSE BEGINS A TRANSFER, in the inputs alone: the request is legal, and with a
      Block2 option it asks for block 0, not for one block only, and the body is too long for
      one block of any usable size; without one, the body is longer than the message has room
      for; and nothing fails.  An earlier transfer for the same key ends in any case. */
  lemma TransferBegunIff(req: Request, length: nat, env: Env, body: Value?, xs: seq<Transfer>)
    ensures var len := Min(length, MAX_BLK_LEN);
            var reached :=
              && !env.pduHasData && env.useLibcoap
              && (req.block.Some? ==>
                   && env.write.Written?
                   && (req.block.value.num == 0 || Offset(req.block.value.num, req.block.value.szx) < length));
            var begun :=
              && reached && env.avail >= 16
              && (if req.block.None? then len > env.avail
                  else && env.write.block.num == 0 && !(req.block.value.q && !req.block.value.m)
                       && forall szx: nat :: Usable(req, env, szx) ==> len > Chunk(szx))
              && env.xmitAlloc && env.setupOk && env.tokenAlloc && env.availAfter >= 16 && env.addDataOk;
            Expected(req, length, env, body, xs) ==
              if begun then [Transfer(req.key, body)] + Without(xs, req.key)
              else if reached then Without(xs, req.key) else xs
  {
    var len := Min(length, MAX_BLK_LEN);
    if Reaches(req, length, env) {
      if env.avail >= 16 {
        var s := BlkSize(env, req.block.Some?);
        LargestUsable(req, env, s);
        forall szx: nat | Usable(req, env, szx) ensures Chunk(szx) <= Chunk(s) { LargestUsable(req, env, szx); }
      }
      assert [] + Without(xs, req.key) == Without(xs, req.key);
    }
  }

  lemma OffsetGrows(num: nat, s: nat, t: nat)
    requires s <= t
    ensures Offset(num, s) <= Offset(num, t)
  {
    Pow2Monotone(s, t);
    TimesIsProduct(num, Chunk(s));
    TimesIsProduct(num, Chunk(t));
    MulMonotone(num, num, Chunk(s), Chunk(t));
  }

  /** WHAT THE RESPONSE SAYS, in the inputs alone: 4.00 for an illegal block or one behind the end
      of the body, and no error exactly if the data could be added, to an empty message with
      room, and the transfer, if one is due, set up.  One block for which the body is too short
      in some usable size may go out without data. */
  lemma ErrorIff(req: Request, length: nat, env: Env)
    ensures var b, e, len := req.block, Error(req, length, env), Min(length, MAX_BLK_LEN);
            && (e == Some(BadRequest) <==>
                 b.Some? && (env.write.Illegal? || (b.value.num != 0 && length <= Offset(b.value.num, b.value.szx))))
            && (e == None || e == Some(BadRequest) || e == Some(InternalError))
            && (e == None <==>
                 && e != Some(BadRequest) && (b.Some? ==> env.write.Written?) && !env.pduHasData
                 && if !env.useLibcoap || (b.None? && len <= env.avail) then env.addDataOk
                    else if env.avail < 16 then false
                    else if b.Some? && (env.write.block.num != 0 || (b.value.q && !b.value.m)) then
                      env.addDataOk ||
                      exists szx: nat :: Usable(req, env, szx) && len < Offset(env.write.block.num, szx)
                    else if forall szx: nat :: Usable(req, env, szx) && b.Some? ==> len > Chunk(szx) then
                      env.xmitAlloc && env.setupOk && env.tokenAlloc && env.availAfter >= 16 && env.addDataOk
                    else env.addDataOk)
  {
    if env.avail >= 16 && (req.block.Some? ==> env.write.Written?) {
      var s := BlkSize(env, req.block.Some?);
      LargestUsable(req, env, s);
      forall szx: nat | Usable(req, env, szx)
        ensures Chunk(szx) <= Chunk(s)
        ensures req.block.Some? ==> Offset(env.write.block.num, szx) <= Offset(env.write.block.num, s)
      {
        LargestUsable(req, env, szx);
        if req.block.Some? { OffsetGrows(env.write.block.num, szx, s); }
      }
    }
  }

  // ---------------------------------------------------------------- the server

  datatype Code = Content | Created | Changed | BadRequest | InternalError

  class Server {
    var current: Value?
    var xmits: seq<Transfer>
    ghost var objects: set<Value>

    /** Every count is the number of references in `h`, and what has none was freed. */
    ghost predicate Balanced(h: multiset<Value>)
      reads `objects, objects
    {
      && (forall v :: v in h ==> v in objects)
      && forall v :: v in objects ==> v.refCnt == h[v] && (v.freed <==> v.refCnt == 0)
    }

    ghost function Holders(): multiset<Value>
      reads `current, `xmits
    {
      Ref(current) + Bodies(xmits)
    }

    ghost predicate Inv()
      reads this, objects
    {
      Balanced(Holders())
    }

    constructor ()
      ensures Inv() && current == null && xmits == [] && objects == {}
    {
      current, xmits, objects := null, [], {};
    }

    /** alloc_resource_data, with the allocation of the binary before it. */
    method Alloc(bytes: seq<Byte>, binaryAlloc: bool, valueAlloc: bool, ghost h: multiset<Value>) returns (v: Value?)
      requires Balanced(h)
      modifies `objects
      ensures Balanced(h + Ref(v))
      ensures v != null <==> binaryAlloc && valueAlloc
      ensures v != null ==> fresh(v) && v.bytes == bytes
      ensures objects == old(objects) + if v == null then {} else {v}
    {
      if !binaryAlloc {
        return null;
      }
      if !valueAlloc {
        return null;
      }
      var w := new Value(bytes);
      objects := objects + {w};
      v := w;
    }

    /** reference_resource_data: one reference more. */
    method Reference(v: Value?, ghost h: multiset<Value>) returns (length: nat)
      requires Balanced(h) && (v != null ==> v in h)
      modifies objects
      ensures Balanced(h + Ref(v))
      ensures length == if v == null then 0 else |v.bytes|
    {
      if v != null {
        v.refCnt := v.refCnt + 1;
        length := |v.bytes|;
      } else {
        length := 0;
      }
    }

    /** release_resource_data: gives up one reference. */
    method Release(v: Value?, ghost h: multiset<Value>)
      requires Balanced(h + Ref(v))
      modifies objects
      ensures Balanced(h)
    {
      if v == null {
        return;
      }
      assert v in h + Ref(v);
      v.refCnt := v.refCnt - 1;
      if v.refCnt > 0 {
        return;
      }
      v.freed := true;
    }

    /** coap_block_delete_lg_xmit after taking the entry out of the list; `h` is what else
        is referenced at the moment. */
    method DeleteXmit(i: nat, ghost h: multiset<Value>)
      requires i < |xmits| && Balanced(Holders() + h)
      modifies `xmits, objects
      ensures xmits == old(xmits[..i] + xmits[i + 1..])
      ensures Balanced(Holders() + h)
    {
      var t := xmits[i];
      BodiesWithout(xmits, i);
      ghost var all := Holders() + h;
      xmits := xmits[..i] + xmits[i + 1..];
      assert all == Holders() + h + Ref(t.body);
      Release(t.body, Holders() + h);
    }

    /** coap_find_lg_xmit_response */
    method Find(key: Key) returns (i: nat)
      ensures i <= |xmits| && (i < |xmits| ==> xmits[i].key == key)
      ensures forall j :: 0 <= j < i ==> xmits[j].key != key
    {
      i := 0;
      while i < |xmits| && xmits[i].key != key
        invariant i <= |xmits| && forall j :: 0 <= j < i ==> xmits[j].key != key
      {
        i := i + 1;
      }
    }

    /** An earlier transfer for the same resource and query is given up. */
    method DropExisting(key: Key, ghost h: multiset<Value>)
      requires Balanced(Holders() + h)
      modifies `xmits, objects
      ensures Balanced(Holders() + h) && xmits == Without(old(xmits), key)
    {
      var i := Find(key);
      WithoutFirst(xmits, key, i);
      if i < |xmits| {
        DeleteXmit(i, h);
      }
    }

    /** coap_add_data_large_internal for a response.  The caller hands over one reference to
        `body`: it is released before the return, or the new transfer holds it. */
    method AddDataLarge(req: Request, body: Value?, length: nat, env: Env) returns (ok: bool)
      requires req.Valid() && Balanced(Holders() + Ref(body)) && (req.block.Some? ==> env.write.Written?)
      requires req.block.Some? && req.block.value.num != 0 ==>
                 length > Offset(req.block.value.num, req.block.value.szx)
      modifies `xmits, objects
      ensures Inv()
      ensures xmits == Expected(req, length, env, body, old(xmits))
      ensures (if ok then None else Some(InternalError)) == Error(req, length, env)
    {
      if env.pduHasData {
        Release(body, Holders());
        return false;
      }
      if !env.useLibcoap {
        Release(body, Holders());   // after coap_add_data, whether or not it succeeded
        return env.addDataOk;
      }
      var len := if length > MAX_BLK_LEN then MAX_BLK_LEN else length;
      assert len == Min(length, MAX_BLK_LEN) && Reaches(req, length, env);
      ok := AddTracked(req, body, len, env);
    }

    /** The part that looks at the transfers. */
    method AddTracked(req: Request, body: Value?, len: nat, env: Env) returns (ok: bool)
      requires req.Valid() && Balanced(Holders() + Ref(body)) && (req.block.Some? ==> env.write.Written?)
      modifies `xmits, objects
      ensures Inv()
      ensures xmits ==
              (if Continues(req, len, env) then [Transfer(req.key, body)] else []) + Without(old(xmits), req.key)
      ensures ok <==> Succeeds(req, len, env)
    {
      DropExisting(req.key, Ref(body));
      ok := AddBody(req, body, len, env);
    }

    /** Choosing between one block, a transfer and a plain message. */
    method AddBody(req: Request, body: Value?, len: nat, env: Env) returns (ok: bool)
      requires req.Valid() && Balanced(Holders() + Ref(body)) && (req.block.Some? ==> env.write.Written?)
      modifies `xmits, objects
      ensures Inv()
      ensures xmits == (if Continues(req, len, env) then [Transfer(req.key, body)] else []) + old(xmits)
      ensures ok <==> Succeeds(req, len, env)
    {
      var haveBlock := req.block.Some?;
      var blkSize := BlkSize(env, haveBlock);
      if env.avail < 16 && (len > env.avail || haveBlock) {
        Release(body, Holders());
        return false;
      }
      var chunk := Chunk(blkSize);
      if haveBlock && (env.write.block.num != 0 || req.Single()) {
        ok := len < Offset(env.write.block.num, blkSize) || env.addDataOk;
        Release(body, Holders());
      } else if (haveBlock && len > chunk) || len > env.avail {
        ok := StartTransfer(req.key, body, chunk, env);
      } else {
        ok := env.addDataOk;
        Release(body, Holders());
      }
    }

    /** The branch for more than one block.  From its allocation on the transfer holds the
        reference, so every later failure releases it by deleting the transfer. */
    method StartTransfer(key: Key, body: Value?, chunk: nat, env: Env) returns (ok: bool)
      requires Balanced(Holders() + Ref(body))
      modifies `xmits, objects
      ensures Inv()
      ensures ok <==> env.xmitAlloc && env.setupOk && env.tokenAlloc
                      && (env.availAfter < chunk ==> env.availAfter >= 16) && env.addDataOk
      ensures xmits == (if ok then [Transfer(key, body)] else []) + old(xmits)
    {
      if !env.xmitAlloc {
        Release(body, Holders());
        return false;
      }
      var xmit := Transfer(key, body);
      if !env.setupOk {
        Release(xmit.body, Holders());
        return false;
      }
      if !env.tokenAlloc {
        Release(xmit.body, Holders());
        return false;
      }
      if env.availAfter < chunk {
        if env.availAfter < 16 {
          Release(xmit.body, Holders());
          return false;
        }
      }
      if !env.addDataOk {
        Release(xmit.body, Holders());
        return false;
      }
      Link(xmit);
      return true;
    }

    /** LL_PREPEND: the list takes over the reference. */
    method Link(xmit: Transfer)
      requires Balanced(Holders() + Ref(xmit.body))
      modifies `xmits
      ensures Inv() && xmits == [xmit] + old(xmits)
    {
      BodiesWith(xmit, xmits, Ref(current));
      xmits := [xmit] + xmits;
    }

    /** coap_add_data_large_response.  With a request the reference handed over is used up
        exactly once, whatever happens; without one it is neither released nor kept. */
    method LargeResponse(request: Option<Request>, body: Value?, length: nat, env: Env) returns (code: Option<Code>)
      requires Balanced(Holders() + Ref(body)) && (request.Some? ==> request.value.Valid())
      modifies `xmits, objects
      ensures if request.Some? then Inv() else Balanced(Holders() + Ref(body))
      ensures xmits == if request.None? then old(xmits) else Expected(request.value, length, env, body, old(xmits))
      ensures code == if request.None? then None else Error(request.value, length, env)
    {
      if request.Some? && request.value.block.Some? {
        var block := request.value.block.value;
        if block.num != 0 && length <= Offset(block.num, block.szx) {
          Release(body, Holders());
          return Some(BadRequest);
        }
        match env.write {
          case Illegal =>
            Release(body, Holders());
            return Some(BadRequest);
          case NoRoom =>
            Release(body, Holders());
            return Some(InternalError);
          case Written(_, _) =>
        }
      }
      if request.Some? {
        var ok := AddDataLarge(request.value, body, length, env);
        if !ok {
          return Some(InternalError);
        }
      }
      return None;
    }

    /** The last lines of both handlers: takes a reference for the response and hands it over. */
    method Respond(req: Request, env: Env) returns (error: Option<Code>)
      requires Inv() && req.Valid()
      modifies `xmits, objects
      ensures Inv()
      ensures xmits == Expected(req, Length(), env, current, old(xmits))
      ensures error == Error(req, Length(), env)
    {
      CurrentIsKnown();
      ghost var all := Holders();
      assert current != null ==> current in all;
      var length := Reference(current, all);
      error := LargeResponse(Some(req), current, length, env);
    }

    /** Makes freshly allocated data the current value; nothing refers to the old one. */
    method Install(bytes: seq<Byte>, binaryAlloc: bool, valueAlloc: bool)
      requires Balanced(Bodies(xmits))
      modifies `current, `objects
      ensures Inv() && objects == old(objects) + if current == null then {} else {current}
      ensures current != null <==> binaryAlloc && valueAlloc
      ensures current != null ==> fresh(current) && current.bytes == bytes
    {
      ghost var h := Bodies(xmits);
      current := Alloc(bytes, binaryAlloc, valueAlloc, h);
      OneMore(current, h);
    }

    /** The length of the current value. */
    ghost function Length(): nat
      reads `current
    {
      if current == null then 0 else |current.bytes|
    }

    /** The first GET makes the initial body the current value. */
    method EnsureBody(binaryAlloc: bool, valueAlloc: bool)
      requires Inv()
      modifies `current, `objects
      ensures Inv() && fresh(objects - old(objects))
      ensures old(current) != null ==> current == old(current)
      ensures old(current) == null && current != null ==> fresh(current) && current.bytes == InitialBody()
      ensures current == null <==> old(current) == null && !(binaryAlloc && valueAlloc)
    {
      if current == null {
        CurrentIsKnown();
        Install(InitialBody(), binaryAlloc, valueAlloc);
      }
    }

    /** hnd_get_example_data */
    method HandleGet(req: Request, binaryAlloc: bool, valueAlloc: bool, env: Env) returns (code: Code)
      requires Inv() && req.Valid()
      modifies this, objects
      ensures Inv() && fresh(objects - old(objects))
      ensures old(current) != null ==> current == old(current)
      ensures old(current) == null && current != null ==> fresh(current) && current.bytes == InitialBody()
      ensures current == null <==> old(current) == null && !(binaryAlloc && valueAlloc)
      ensures xmits == Expected(req, Length(), env, current, old(xmits))
      ensures code == Answer(Error(req, Length(), env), Content)
    {
      EnsureBody(binaryAlloc, valueAlloc);
      var error := Respond(req, env);
      code := Answer(error, Content);
    }

    /** The old value is given up, as it may be in use elsewhere, and the new one installed. */
    method Replace(bytes: seq<Byte>, binaryAlloc: bool, valueAlloc: bool)
      requires Inv()
      modifies this, objects
      ensures Inv() && xmits == old(xmits)
      ensures objects == old(objects) + if current == null then {} else {current}
      ensures old(current) != null ==> old(current) in old(objects)
      ensures current != null <==> binaryAlloc && valueAlloc
      ensures current != null ==> fresh(current) && current.bytes == bytes
    {
      CurrentIsKnown();
      if current != null {
        Release(current, Bodies(xmits));
      }
      Install(bytes, binaryAlloc, valueAlloc);
    }

    lemma CurrentIsKnown()
      requires Inv()
      ensures Balanced(Bodies(xmits) + Ref(current)) && (current != null ==> current in objects)
    {
      OneMore(current, Bodies(xmits));
      if current != null { assert current in Holders(); }
    }

    /** hnd_put_example_data for a body that arrives in one piece; `echoBack` sends it back. */
    method HandlePut(req: Request, data: seq<Byte>, binaryAlloc: bool, valueAlloc: bool, echoBack: bool, env: Env)
      returns (code: Code)
      requires Inv() && req.Valid()
      modifies this, objects
      ensures Inv() && fresh(objects - old(objects))
      ensures current != null <==> binaryAlloc && valueAlloc
      ensures current != null ==> fresh(current) && current.bytes == data
      ensures current == null ==> code == InternalError
      ensures current != null ==>
                code == Answer(if echoBack then Error(req, |data|, env) else None,
                               if old(current) == null then Created else Changed)
      ensures xmits ==
              if echoBack && current != null then Expected(req, |data|, env, current, old(xmits)) else old(xmits)
      // a body that is still being sent is not freed, and one that is not being sent is
      ensures var was := old(current); was != null ==> (was.freed <==> forall t :: t in xmits ==> t.body != was)
    {
      code := if current != null then Changed else Created;
      ghost var was := current;
      Replace(data, binaryAlloc, valueAlloc);
      if current == null {
        code := InternalError;
      } else if echoBack {
        var error := Respond(req, env);
        code := Answer(error, code);
      }
      if was != null { FreedIffUnused(was); }
    }

    /** A transfer ends: all blocks sent, timed out, or its session closed. */
    method Finish(i: nat)
      requires Inv() && i < |xmits|
      modifies `xmits, objects
      ensures Inv() && xmits == old(xmits[..i] + xmits[i + 1..])
    {
      DeleteXmit(i, multiset{});
    }

    /** EVERY RUN of GETs, PUTs and ending transfers keeps the invariant. */
    method Serve(events: seq<Event>)
      requires Inv() && forall e :: e in events ==> e.Valid()
      modifies this, objects
      ensures Inv()
    {
      for k := 0 to |events|
        invariant Inv() && fresh(objects - old(objects))
      {
        assert events[k] in events;
        match events[k] {
          case Get(req, binaryAlloc, valueAlloc, env) =>
            var code := HandleGet(req, binaryAlloc, valueAlloc, env);
          case Put(req, data, binaryAlloc, valueAlloc, echoBack, env) =>
            var code := HandlePut(req, data, binaryAlloc, valueAlloc, echoBack, env);
          case End(i) =>
            if i < |xmits| { Finish(i); }
        }
      }
    }

    /** What the invariant says: a value is freed exactly when neither the server nor any
        transfer refers to it, so nothing is used after it was freed and nothing leaks. */
    lemma FreedIffUnused(v: Value)
      requires Inv() && v in objects
      ensures v.freed <==> v != current && forall t :: t in xmits ==> t.body != v
    {
      BodyIsHeld(xmits, v);
    }
  }

  datatype Event =
    | Get(req: Request, binaryAlloc: bool, valueAlloc: bool, env: Env)
    | Put(req: Request, data: seq<Byte>, binaryAlloc: bool, valueAlloc: bool, echoBack: bool, env: Env)
    | End(i: nat)
  {
    predicate Valid() {
      !End? ==> req.Valid()
    }
  }

  /** The 1500 bytes served before the first PUT. */
  function InitialBody(): seq<Byte> {
    seq(1500, i => if i % 10 == 0 then 97 + i / 10 % 26 else 48 + i % 10)
  }

  /** A letter and nine digits in each group of ten, the letters from a to z and again from a. */
  lemma InitialBodyReads(group: nat, place: nat)
    requires group < 150 && place < 10
    ensures |InitialBody()| == 1500
    ensures InitialBody()[10 * group + place] == if place == 0 then 'a' as int + group % 26 else '0' as int + place
  {
    assert (10 * group + place) % 10 == place && (10 * group + place) / 10 == group;
  }
}
