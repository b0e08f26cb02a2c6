/** libcoap's option filter, a bounded set in a few words, and the filtered option iterator. */
module OptionFilter {
  import opened Bytes
  import opened VarBytes
  import opened Powers

  const COAP_OPT_FILTER_LONG: nat := 2
  const COAP_OPT_FILTER_SHORT: nat := 6
  const LONG_MASK: nat := 0x03
  const SHORT_MASK: nat := 0xfc

  // ----- bit masks -----

  predicate BitAt(mask: nat, k: nat) {
    if k == 0 then mask % 2 == 1 else BitAt(mask / 2, k - 1)
  }

  /** `mask & (1 << k)` is not 0. */
  predicate Has(mask: nat, k: nat) {
    BitAt(mask, k)
  }

  /** `mask | 1 << k` */
  function SetBit(mask: nat, k: nat): nat {
    if k == 0 then mask / 2 * 2 + 1 else mask % 2 + 2 * SetBit(mask / 2, k - 1)
  }

  /** `mask & ~(1 << k)` */
  function ClearBit(mask: nat, k: nat): nat {
    if k == 0 then mask / 2 * 2 else mask % 2 + 2 * ClearBit(mask / 2, k - 1)
  }

  /** `~mask & m` */
  function AndNot(mask: nat, m: nat): nat {
    if m == 0 then 0 else (if m % 2 == 1 && mask % 2 == 0 then 1 else 0) + 2 * AndNot(mask / 2, m / 2)
  }

  lemma {:induction false} SetBitHas(mask: nat, k: nat, j: nat)
    ensures Has(SetBit(mask, k), j) <==> j == k || Has(mask, j)
    decreases k
  {
    if k > 0 && j > 0 {
      SetBitHas(mask / 2, k - 1, j - 1);
    }
  }

  lemma {:induction false} ClearBitHas(mask: nat, k: nat, j: nat)
    ensures Has(ClearBit(mask, k), j) <==> j != k && Has(mask, j)
    decreases k
  {
    if k > 0 && j > 0 {
      ClearBitHas(mask / 2, k - 1, j - 1);
    }
  }

  lemma {:induction false} AndNotHas(mask: nat, m: nat, k: nat)
    ensures Has(AndNot(mask, m), k) <==> Has(m, k) && !Has(mask, k)
    decreases k
  {
    if m == 0 {
      NoBits(k);
    } else if k > 0 {
      AndNotHas(mask / 2, m / 2, k - 1);
    }
  }

  lemma {:induction false} NoBits(k: nat)
    ensures !Has(0, k)
  {
    if k > 0 {
      NoBits(k - 1);
    }
  }

  /** The find-last-set result minus one is a bit of the number. */
  lemma {:induction false} LastBit(v: nat)
    requires v > 0
    ensures Bits(v) > 0 && Has(v, Bits(v) - 1)
  {
    if v > 1 {
      LastBit(v / 2);
    } else {
      assert Bits(1) == 1 + Bits(0);
    }
  }

  lemma {:induction false} LowOnes(n: nat, k: nat)
    ensures Has(Pow2(n) - 1, k) <==> k < n
    decreases n
  {
    if n == 0 {
      NoBits(k);
    } else if k > 0 {
      assert (Pow2(n) - 1) / 2 == Pow2(n - 1) - 1;
      LowOnes(n - 1, k - 1);
    }
  }

  lemma MaskBits(k: nat)
    ensures Has(LONG_MASK, k) <==> k < 2
    ensures Has(SHORT_MASK, k) <==> 2 <= k < 8
  {
    assert Pow2(2) == 4 && Pow2(6) == 64;
    LowOnes(2, k);
    if k >= 2 {
      LowOnes(6, k - 2);
      assert Has(252, k) == Has(126, k - 1) == Has(63, k - 2);
    } else {
      assert !Has(252, 0) && Has(252, 1) == Has(126, 0);
    }
  }

  // ----- the stored numbers -----

  /** Slot `i` of a part belongs to bit `base + i`. */
  predicate Used(mask: nat, base: nat, i: nat) {
    Has(mask, base + i)
  }

  /** The values of the first `n` slots that are used. */
  function Stored(mask: nat, base: nat, slots: seq<nat>, n: nat): set<nat>
    requires n <= |slots|
  {
    if n == 0 then {}
    else if Used(mask, base, n - 1) then Stored(mask, base, slots, n - 1) + {slots[n - 1]}
    else Stored(mask, base, slots, n - 1)
  }

  /** No two used slots hold the same value. */
  ghost predicate NoClash(mask: nat, base: nat, slots: seq<nat>) {
    forall i, j :: 0 <= i < j < |slots| && Used(mask, base, i) && Used(mask, base, j) ==> slots[i] != slots[j]
  }

  lemma {:induction false} StoredIs(mask: nat, base: nat, slots: seq<nat>, n: nat)
    requires n <= |slots|
    ensures forall x :: x in Stored(mask, base, slots, n) <==>
        exists i :: 0 <= i < n && Used(mask, base, i) && slots[i] == x
  {
    hide Used;
    if n > 0 {
      StoredIs(mask, base, slots, n - 1);
    }
  }

  /** A part holds as many numbers as it has slots just when every slot is used. */
  lemma {:induction false} FullPart(mask: nat, base: nat, slots: seq<nat>, n: nat)
    requires n <= |slots| && NoClash(mask, base, slots)
    ensures |Stored(mask, base, slots, n)| <= n
    ensures |Stored(mask, base, slots, n)| == n <==> forall i :: 0 <= i < n ==> Used(mask, base, i)
  {
    hide Used;
    if n > 0 {
      FullPart(mask, base, slots, n - 1);
      StoredIs(mask, base, slots, n - 1);
      if Used(mask, base, n - 1) {
        assert slots[n - 1] !in Stored(mask, base, slots, n - 1);
      }
    }
  }

  /** Filling a free slot adds its value to the part. */
  lemma FillSlot(mask: nat, base: nat, slots: seq<nat>, i: nat, v: nat)
    requires i < |slots| && !Used(mask, base, i) && NoClash(mask, base, slots)
    requires v !in Stored(mask, base, slots, |slots|)
    ensures var mask', slots' := SetBit(mask, base + i), slots[i := v];
      NoClash(mask', base, slots') && Stored(mask', base, slots', |slots|) == Stored(mask, base, slots, |slots|) + {v}
  {
    var mask', slots' := SetBit(mask, base + i), slots[i := v];
    forall j: nat ensures Used(mask', base, j) <==> j == i || Used(mask, base, j) {
      SetBitHas(mask, base + i, base + j);
    }
    hide Used, Stored;
    StoredIs(mask, base, slots, |slots|);
    StoredIs(mask', base, slots', |slots|);
    forall x: nat
      ensures x in Stored(mask', base, slots', |slots|) <==> x in Stored(mask, base, slots, |slots|) || x == v
    {
      if x == v {
        assert slots'[i] == v;
      }
      if x in Stored(mask, base, slots, |slots|) {
        var j :| 0 <= j < |slots| && Used(mask, base, j) && slots[j] == x;
        assert slots'[j] == x;
      }
    }
  }

  /** Freeing a slot takes its value out of the part. */
  lemma FreeSlot(mask: nat, base: nat, slots: seq<nat>, i: nat)
    requires i < |slots| && Used(mask, base, i) && NoClash(mask, base, slots)
    ensures var mask' := ClearBit(mask, base + i);
      NoClash(mask', base, slots)
          && Stored(mask', base, slots, |slots|) == Stored(mask, base, slots, |slots|) - {slots[i]}
  {
    var mask' := ClearBit(mask, base + i);
    forall j: nat ensures Used(mask', base, j) <==> j != i && Used(mask, base, j) {
      ClearBitHas(mask, base + i, base + j);
    }
    hide Used, Stored;
    StoredIs(mask, base, slots, |slots|);
    StoredIs(mask', base, slots, |slots|);
    forall x: nat
      ensures x in Stored(mask', base, slots, |slots|) <==> x in Stored(mask, base, slots, |slots|) && x != slots[i]
    {
    }
  }

  /** A bit of the other part does not matter. */
  lemma {:induction false} OtherPart(mask: nat, mask': nat, base: nat, slots: seq<nat>, n: nat)
    requires n <= |slots| && forall j :: 0 <= j < |slots| ==> Used(mask, base, j) == Used(mask', base, j)
    ensures Stored(mask', base, slots, n) == Stored(mask, base, slots, n)
    ensures NoClash(mask, base, slots) ==> NoClash(mask', base, slots)
  {
    hide Used;
    if n > 0 {
      OtherPart(mask, mask', base, slots, n - 1);
    }
  }

  /** The find-last-set search for a free slot among the bits of `m`. */
  lemma FreeIndex(mask: nat, m: nat)
    ensures var v := AndNot(mask, m);
      && (v == 0 <==> forall k: nat :: Has(m, k) ==> Has(mask, k))
      && (v > 0 ==> Bits(v) > 0 && Has(m, Bits(v) - 1) && !Has(mask, Bits(v) - 1))
  {
    var v := AndNot(mask, m);
    forall k: nat ensures Has(v, k) <==> Has(m, k) && !Has(mask, k) {
      AndNotHas(mask, m, k);
    }
    if v == 0 {
      forall k: nat ensures !Has(v, k) { NoBits(k); }
    } else {
      LastBit(v);
      var k: nat := Bits(v) - 1;
      assert Has(m, k) && !Has(mask, k);
    }
  }

  /** A mask and its two parts: long numbers in bits 0 and 1, short ones in bits 2 to 7. */
  ghost predicate Good(mask: nat, longs: seq<nat>, shorts: seq<nat>) {
    && |longs| == COAP_OPT_FILTER_LONG && |shorts| == COAP_OPT_FILTER_SHORT
    && NoClash(mask, 0, longs) && NoClash(mask, COAP_OPT_FILTER_LONG, shorts)
    && forall x :: x in Stored(mask, 0, longs, |longs|) ==> x > 255
  }

  lemma OtherBits(mask: nat, mask': nat, k: nat, base: nat, n: nat)
    requires mask' == SetBit(mask, k) || mask' == ClearBit(mask, k)
    requires k < base || base + n <= k
    ensures forall j :: 0 <= j < n ==> Used(mask, base, j) == Used(mask', base, j)
  {
    forall j | 0 <= j < n ensures Used(mask, base, j) == Used(mask', base, j) {
      SetBitHas(mask, k, base + j);
      ClearBitHas(mask, k, base + j);
    }
  }

  lemma ClearLong(mask: nat, longs: seq<nat>, shorts: seq<nat>, i: nat)
    requires Good(mask, longs, shorts) && i < COAP_OPT_FILTER_LONG && Has(mask, i)
    ensures var mask' := ClearBit(mask, i);
      && Good(mask', longs, shorts)
      && Stored(mask', 0, longs, |longs|) == Stored(mask, 0, longs, |longs|) - {longs[i]}
      && Stored(mask', COAP_OPT_FILTER_LONG, shorts, |shorts|) == Stored(mask, COAP_OPT_FILTER_LONG, shorts, |shorts|)
  {
    hide NoClash, Stored;
    FreeSlot(mask, 0, longs, i);
    OtherBits(mask, ClearBit(mask, i), i, COAP_OPT_FILTER_LONG, |shorts|);
    OtherPart(mask, ClearBit(mask, i), COAP_OPT_FILTER_LONG, shorts, |shorts|);
  }

  lemma ClearShort(mask: nat, longs: seq<nat>, shorts: seq<nat>, i: nat)
    requires Good(mask, longs, shorts) && i < COAP_OPT_FILTER_SHORT && Has(mask, COAP_OPT_FILTER_LONG + i)
    ensures var mask' := ClearBit(mask, COAP_OPT_FILTER_LONG + i);
      && Good(mask', longs, shorts)
      && Stored(mask', 0, longs, |longs|) == Stored(mask, 0, longs, |longs|)
      && Stored(mask', COAP_OPT_FILTER_LONG, shorts, |shorts|)
          == Stored(mask, COAP_OPT_FILTER_LONG, shorts, |shorts|) - {shorts[i]}
  {
    hide NoClash, Stored;
    var k := COAP_OPT_FILTER_LONG + i;
    FreeSlot(mask, COAP_OPT_FILTER_LONG, shorts, i);
    OtherBits(mask, ClearBit(mask, k), k, 0, |longs|);
    OtherPart(mask, ClearBit(mask, k), 0, longs, |longs|);
  }

  lemma SetLong(mask: nat, longs: seq<nat>, shorts: seq<nat>, i: nat, v: nat)
    requires Good(mask, longs, shorts) && i < COAP_OPT_FILTER_LONG && !Has(mask, i)
    requires v !in Stored(mask, 0, longs, |longs|) && v > 255
    ensures var mask', longs' := SetBit(mask, i), longs[i := v];
      && Good(mask', longs', shorts)
      && Stored(mask', 0, longs', |longs|) == Stored(mask, 0, longs, |longs|) + {v}
      && Stored(mask', COAP_OPT_FILTER_LONG, shorts, |shorts|) == Stored(mask, COAP_OPT_FILTER_LONG, shorts, |shorts|)
  {
    hide NoClash, Stored;
    FillSlot(mask, 0, longs, i, v);
    OtherBits(mask, SetBit(mask, i), i, COAP_OPT_FILTER_LONG, |shorts|);
    OtherPart(mask, SetBit(mask, i), COAP_OPT_FILTER_LONG, shorts, |shorts|);
  }

  lemma SetShort(mask: nat, longs: seq<nat>, shorts: seq<nat>, i: nat, v: nat)
    requires Good(mask, longs, shorts) && i < COAP_OPT_FILTER_SHORT && !Has(mask, COAP_OPT_FILTER_LONG + i)
    requires v !in Stored(mask, COAP_OPT_FILTER_LONG, shorts, |shorts|)
    ensures var mask', shorts' := SetBit(mask, COAP_OPT_FILTER_LONG + i), shorts[i := v];
      && Good(mask', longs, shorts')
      && Stored(mask', 0, longs, |longs|) == Stored(mask, 0, longs, |longs|)
      && Stored(mask', COAP_OPT_FILTER_LONG, shorts', |shorts|)
          == Stored(mask, COAP_OPT_FILTER_LONG, shorts, |shorts|) + {v}
  {
    hide NoClash, Stored;
    var k := COAP_OPT_FILTER_LONG + i;
    FillSlot(mask, COAP_OPT_FILTER_LONG, shorts, i, v);
    OtherBits(mask, SetBit(mask, k), k, 0, |longs|);
    OtherPart(mask, SetBit(mask, k), 0, longs, |longs|);
  }

  /** What the search for a free slot finds in each part. */
  lemma FreeLong(mask: nat, longs: seq<nat>, shorts: seq<nat>)
    requires Good(mask, longs, shorts)
    ensures var v := AndNot(mask, LONG_MASK);
      && (v == 0 <==> |Stored(mask, 0, longs, |longs|)| == COAP_OPT_FILTER_LONG)
      && (v > 0 ==> 1 <= Bits(v) <= COAP_OPT_FILTER_LONG && !Has(mask, Bits(v) - 1))
  {
    forall k: nat ensures Has(LONG_MASK, k) <==> k < 2 { MaskBits(k); }
    FreeIndex(mask, LONG_MASK);
    FullPart(mask, 0, longs, |longs|);
    hide Stored, NoClash, Has, AndNot;
    var v := AndNot(mask, LONG_MASK);
    if v == 0 {
      forall i | 0 <= i < |longs| ensures Used(mask, 0, i) { assert Has(LONG_MASK, i); }
    } else {
      assert !Used(mask, 0, Bits(v) - 1);
    }
  }

  lemma FreeShort(mask: nat, longs: seq<nat>, shorts: seq<nat>)
    requires Good(mask, longs, shorts)
    ensures var v := AndNot(mask, SHORT_MASK);
      && (v == 0 <==> |Stored(mask, COAP_OPT_FILTER_LONG, shorts, |shorts|)| == COAP_OPT_FILTER_SHORT)
      && (v > 0 ==>
            && COAP_OPT_FILTER_LONG < Bits(v) <= COAP_OPT_FILTER_LONG + COAP_OPT_FILTER_SHORT
            && !Has(mask, Bits(v) - 1))
  {
    forall k: nat ensures Has(SHORT_MASK, k) <==> 2 <= k < 8 { MaskBits(k); }
    FreeIndex(mask, SHORT_MASK);
    FullPart(mask, COAP_OPT_FILTER_LONG, shorts, |shorts|);
    hide Stored, NoClash, Has, AndNot;
    var v := AndNot(mask, SHORT_MASK);
    if v == 0 {
      forall i | 0 <= i < |shorts|
        ensures Used(mask, COAP_OPT_FILTER_LONG, i)
      {
        assert Has(SHORT_MASK, COAP_OPT_FILTER_LONG + i);
      }
    } else {
      assert !Used(mask, COAP_OPT_FILTER_LONG, Bits(v) - 1 - COAP_OPT_FILTER_LONG);
    }
  }

  datatype Op = Set | Clear | Get

  /** A set of numbers after an operation that returned `r`. */
  function After(s: set<nat>, number: nat, op: Op, r: bool): set<nat> {
    if op == Set && r then s + {number} else if op == Clear then s - {number} else s
  }

  lemma OneKind(s: set<nat>, other: set<nat>, number: nat, op: Op, r: bool)
    requires number !in other
    ensures After(s, number, op, r) + other == After(s + other, number, op, r)
    ensures other + After(s, number, op, r) == After(other + s, number, op, r)
  {
  }

  /** The numbers above 255, or the others. */
  function OfKind(s: set<nat>, long: bool): set<nat> {
    set n | n in s && (n > 255) == long
  }

  predicate IsLong(number: uint16) {
    number > 255
  }

  class Filter {
    var mask: nat
    const longOpts: array<uint16>
    const shortOpts: array<byte>

    /** `coap_option_filter_clear` */
    constructor ()
      ensures Valid() && LongPart() == {} && ShortPart() == {} && fresh(longOpts) && fresh(shortOpts)
    {
      mask := 0;
      longOpts := new uint16[COAP_OPT_FILTER_LONG](_ => 0);
      shortOpts := new byte[COAP_OPT_FILTER_SHORT](_ => 0);
      new;
      forall k: nat ensures !Has(0, k) { NoBits(k); }
      StoredIs(mask, 0, longOpts[..], COAP_OPT_FILTER_LONG);
      StoredIs(mask, COAP_OPT_FILTER_LONG, shortOpts[..], COAP_OPT_FILTER_SHORT);
    }

    ghost predicate Valid()
      reads this, longOpts, shortOpts
    {
      Good(mask, longOpts[..], shortOpts[..])
    }

    /** The numbers above 255 in the filter. */
    ghost function LongPart(): set<nat>
      reads this, longOpts
    {
      Stored(mask, 0, longOpts[..], longOpts.Length)
    }

    /** The other numbers in the filter. */
    ghost function ShortPart(): set<nat>
      reads this, shortOpts
    {
      Stored(mask, COAP_OPT_FILTER_LONG, shortOpts[..], shortOpts.Length)
    }

    method FindLong(number: uint16) returns (index: nat)
      requires Valid()
      ensures index <= COAP_OPT_FILTER_LONG && (index < COAP_OPT_FILTER_LONG <==> number in LongPart())
      ensures index < COAP_OPT_FILTER_LONG ==> Has(mask, index) && longOpts[index] == number
    {
      StoredIs(mask, 0, longOpts[..], longOpts.Length);
      hide Has, Stored, NoClash;
      index := 0;
      while index < COAP_OPT_FILTER_LONG
        invariant 0 <= index <= COAP_OPT_FILTER_LONG
        invariant forall i :: 0 <= i < index ==> !(Used(mask, 0, i) && longOpts[i] == number)
      {
        if Has(mask, index) && longOpts[index] == number {
          assert Used(mask, 0, index) && longOpts[..][index] == number;
          return index;
        }
        index := index + 1;
      }
    }

    method FindShort(number: uint16) returns (index: nat)
      requires Valid() && !IsLong(number)
      ensures index <= COAP_OPT_FILTER_SHORT && (index < COAP_OPT_FILTER_SHORT <==> number in ShortPart())
      ensures index < COAP_OPT_FILTER_SHORT ==> Has(mask, COAP_OPT_FILTER_LONG + index) && shortOpts[index] == number
    {
      StoredIs(mask, COAP_OPT_FILTER_LONG, shortOpts[..], shortOpts.Length);
      hide Has, Stored, NoClash;
      index := 0;
      while index < COAP_OPT_FILTER_SHORT
        invariant 0 <= index <= COAP_OPT_FILTER_SHORT
        invariant forall i :: 0 <= i < index ==> !(Used(mask, COAP_OPT_FILTER_LONG, i) && shortOpts[i] == number)
      {
        if Has(mask, COAP_OPT_FILTER_LONG + index) && shortOpts[index] == number % 256 {
          assert Used(mask, COAP_OPT_FILTER_LONG, index) && shortOpts[..][index] == number;
          return index;
        }
        index := index + 1;
      }
    }

    /** `coap_option_filter_op` on numbers above 255. */
    method LongOp(number: uint16, op: Op) returns (r: bool)
      requires Valid() && IsLong(number)
      modifies this, longOpts
      ensures Valid() && ShortPart() == old(ShortPart())
      ensures r == (number in old(LongPart()) || (op == Set && |old(LongPart())| < COAP_OPT_FILTER_LONG))
      ensures LongPart() == After(old(LongPart()), number, op, r)
    {
      hide Has, Stored, NoClash;
      var index := FindLong(number);
      if index < COAP_OPT_FILTER_LONG {
        if op == Clear {
          ClearLong(mask, longOpts[..], shortOpts[..], index);
          mask := ClearBit(mask, index);
        }
        return true;
      }
      if op == Clear || op == Get {
        return false;
      }
      FreeLong(mask, longOpts[..], shortOpts[..]);
      FullPart(mask, 0, longOpts[..], longOpts.Length);
      index := Fls(AndNot(mask, LONG_MASK));
      if index == 0 {
        return false;
      }
      SetLong(mask, longOpts[..], shortOpts[..], index - 1, number);
      ghost var longs: seq<nat> := longOpts[..];
      longOpts[index - 1] := number;
      assert longOpts[..] == longs[index - 1 := number];
      mask := SetBit(mask, index - 1);
      return true;
    }

    /** `coap_option_filter_op` on numbers up to 255. */
    method ShortOp(number: uint16, op: Op) returns (r: bool)
      requires Valid() && !IsLong(number)
      modifies this, shortOpts
      ensures Valid() && LongPart() == old(LongPart())
      ensures r == (number in old(ShortPart()) || (op == Set && |old(ShortPart())| < COAP_OPT_FILTER_SHORT))
      ensures ShortPart() == After(old(ShortPart()), number, op, r)
    {
      hide Has, Stored, NoClash;
      var index := FindShort(number);
      if index < COAP_OPT_FILTER_SHORT {
        if op == Clear {
          ClearShort(mask, longOpts[..], shortOpts[..], index);
          mask := ClearBit(mask, COAP_OPT_FILTER_LONG + index);
        }
        return true;
      }
      if op == Clear || op == Get {
        return false;
      }
      FreeShort(mask, longOpts[..], shortOpts[..]);
      FullPart(mask, COAP_OPT_FILTER_LONG, shortOpts[..], shortOpts.Length);
      index := Fls(AndNot(mask, SHORT_MASK));
      if index == 0 {
        return false;
      }
      SetShort(mask, longOpts[..], shortOpts[..], index - COAP_OPT_FILTER_LONG - 1, number);
      ghost var shorts: seq<nat> := shortOpts[..];
      shortOpts[index - COAP_OPT_FILTER_LONG - 1] := number;
      assert shortOpts[..] == shorts[index - COAP_OPT_FILTER_LONG - 1 := number];
      mask := SetBit(mask, index - 1);
      return true;
    }

    /** The option numbers in the filter. */
    ghost function Contents(): set<nat>
      reads this, longOpts, shortOpts
    {
      LongPart() + ShortPart()
    }

    /** All slots for this kind of number are used. */
    ghost predicate Full(long: bool)
      reads this, longOpts, shortOpts
    {
      if long then |LongPart()| == COAP_OPT_FILTER_LONG else |ShortPart()| == COAP_OPT_FILTER_SHORT
    }

    /** `coap_option_filter_op`: a set of up to 2 numbers above 255 and 6 others, which refuses a new number only when
        it holds that many of its kind. */
    method FilterOp(number: uint16, op: Op) returns (r: bool)
      requires Valid()
      modifies this, longOpts, shortOpts
      ensures Valid()
      ensures r == (number in old(Contents()) || (op == Set && !old(Full(IsLong(number)))))
      ensures r == (number in old(Contents())
                    || (op == Set && |OfKind(old(Contents()), number > 255)| < if number > 255 then 2 else 6))
      ensures Contents() == if op == Clear then old(Contents()) - {number}
                            else if op == Set && r then old(Contents()) + {number}
                            else old(Contents())
    {
      hide Stored, NoClash, Has, Good;
      Separate();
      assert OfKind(Contents(), true) == LongPart() && OfKind(Contents(), false) == ShortPart();
      ghost var longs, shorts := LongPart(), ShortPart();
      if IsLong(number) {
        r := LongOp(number, op);
        OneKind(longs, shorts, number, op, r);
      } else {
        r := ShortOp(number, op);
        OneKind(shorts, longs, number, op, r);
      }
    }

    /** `coap_option_filter_get` changes nothing. */
    method Contains(number: uint16) returns (r: bool)
      requires Valid()
      ensures r == (number in Contents())
    {
      hide Stored, NoClash, Has, Good;
      Separate();
      if IsLong(number) {
        var index := FindLong(number);
        return index < COAP_OPT_FILTER_LONG;
      } else {
        var index := FindShort(number);
        return index < COAP_OPT_FILTER_SHORT;
      }
    }

    /** The parts hold long and short numbers only. */
    lemma Separate()
      requires Valid()
      ensures forall x :: x in LongPart() ==> x > 255
      ensures forall x :: x in ShortPart() ==> x <= 255
      ensures |LongPart()| <= COAP_OPT_FILTER_LONG && |ShortPart()| <= COAP_OPT_FILTER_SHORT
    {
      StoredIs(mask, COAP_OPT_FILTER_LONG, shortOpts[..], shortOpts.Length);
      FullPart(mask, 0, longOpts[..], longOpts.Length);
      FullPart(mask, COAP_OPT_FILTER_LONG, shortOpts[..], shortOpts.Length);
    }
  }
}
