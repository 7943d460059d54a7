/** The option part of a message (section 3.1 of RFC 7252): every option begins with the
    difference of its number to the one before, so that an option put in between makes the
    header of the next one shorter.  The space a Block option takes follows from this. */
module OptionSpace {
  import opened BlockCut
  import opened Words

  datatype Opt = Opt(number: nat, length: nat)

  /** Extra header bytes for a number difference or a length. */
  function Extra(n: nat): nat {
    if n < 13 then 0 else if n < 269 then 1 else 2
  }

  /** coap_opt_encode_size */
  function EncodeSize(delta: nat, length: nat): nat {
    1 + Extra(delta) + Extra(length) + length
  }

  /** The options in the order of their numbers, all above `prev` except for repeats of it. */
  predicate Ordered(opts: seq<Opt>, prev: nat) {
    opts != [] ==> prev <= opts[0].number && Ordered(opts[1..], opts[0].number)
  }

  /** The bytes of the options that follow one with number `prev`. */
  function Size(opts: seq<Opt>, prev: nat): nat
    requires Ordered(opts, prev)
  {
    if opts == [] then 0
    else EncodeSize(opts[0].number - prev, opts[0].length) + Size(opts[1..], opts[0].number)
  }

  /** In front of the first option with a larger number. */
  function Insert(opts: seq<Opt>, o: Opt): seq<Opt> {
    if opts == [] || o.number < opts[0].number then [o] + opts else [opts[0]] + Insert(opts[1..], o)
  }

  /** The first option with this number gets another value. */
  function Replace(opts: seq<Opt>, o: Opt): seq<Opt> {
    if opts == [] then [] else if opts[0].number == o.number then [o] + opts[1..] else [opts[0]] + Replace(opts[1..], o)
  }

  function Find(opts: seq<Opt>, number: nat): Option<nat> {
    if opts == [] then None else if opts[0].number == number then Some(opts[0].length) else Find(opts[1..], number)
  }

  /** By how many bytes coap_insert_option shrinks the header of the next option, when its
      difference changes from `delta` to `delta'`. */
  function Shrink(delta: nat, delta': nat): nat {
    if delta < 13 then 0
    else if delta < 269 && delta' < 13 then 1
    else if delta < 269 && delta' < 269 then 0
    else if delta' < 13 then 2
    else if delta' < 269 then 1
    else 0
  }

  /** The slot of an option with this number behind one with number `prev`. */
  function SlotFor(opts: seq<Opt>, prev: nat, number: nat): Slot
    requires Ordered(opts, prev) && prev <= number
  {
    if opts == [] then Slot(None, 1 + Extra(number - prev), 0)
    else if number < opts[0].number then
      Slot(None, 1 + Extra(number - prev), Shrink(opts[0].number - prev, opts[0].number - number))
    else if number == opts[0].number then Slot(Some(opts[0].length), 1 + Extra(number - prev), 0)
    else SlotFor(opts[1..], opts[0].number, number)
  }

  lemma {:induction false} NoneBelow(opts: seq<Opt>, prev: nat, number: nat)
    requires Ordered(opts, prev) && number < prev
    ensures Find(opts, number) == None
  {
    if opts != [] { NoneBelow(opts[1..], opts[0].number, number); }
  }

  /** What the option takes, for all options there may be: a new one is put in order, the
      message grows by its bytes less the ones that the next header loses; a present one grows
      or shrinks by the difference of the lengths. */
  lemma {:induction false} GrowthIsTheBytes(opts: seq<Opt>, prev: nat, o: Opt)
    requires Ordered(opts, prev) && prev <= o.number && o.length < 13
    ensures var slot := SlotFor(opts, prev, o.number);
            && slot.prior == Find(opts, o.number) && 1 <= slot.header <= 3 && slot.saved <= 2
            && (slot.prior.None? ==>
                 && Ordered(Insert(opts, o), prev)
                 && Size(Insert(opts, o), prev) == Size(opts, prev) + slot.Growth(o.length))
            && (slot.prior.Some? && slot.prior.value < 13 ==>
                 && Ordered(Replace(opts, o), prev)
                 && Size(Replace(opts, o), prev) == Size(opts, prev) + slot.Growth(o.length))
  {
    if opts != [] && opts[0].number < o.number {
      GrowthIsTheBytes(opts[1..], opts[0].number, o);
    } else if opts != [] && o.number < opts[0].number {
      NoneBelow(opts[1..], opts[0].number, o.number);
    }
  }

  /** The space that is asked for first: all bytes of a new option, as if the next header kept
      its length; at most two more than are taken in the end. */
  lemma {:induction false} AskedIsEnough(opts: seq<Opt>, prev: nat, o: Opt)
    requires Ordered(opts, prev) && prev <= o.number && o.length < 13
    requires Find(opts, o.number).Some? ==> Find(opts, o.number).value < 13
    ensures var slot := SlotFor(opts, prev, o.number);
            && slot.Growth(o.length) <= slot.Asked(o.length)
            && (Find(opts, o.number).None? ==>
                 && slot.Asked(o.length) <= slot.Growth(o.length) + 2
                 && slot.Asked(o.length) == EncodeSize(o.number - Before(opts, prev, o.number), o.length))
            && (Find(opts, o.number).Some? ==>
                 slot.Asked(o.length) == Max(0, o.length - Min(o.length, Find(opts, o.number).value)))
  {
    if opts != [] && opts[0].number < o.number {
      AskedIsEnough(opts[1..], opts[0].number, o);
    } else if opts != [] && o.number < opts[0].number {
      NoneBelow(opts[1..], opts[0].number, o.number);
    }
  }

  /** The number of the option in front. */
  function Before(opts: seq<Opt>, prev: nat, number: nat): (r: nat)
    requires Ordered(opts, prev) && prev <= number
    ensures prev <= r <= number
  {
    if opts == [] || number <= opts[0].number then prev else Before(opts[1..], opts[0].number, number)
  }
}
