/** The option encoding of section 3.1 of RFC 7252, as cantcoap.cpp writes and reads it. */
module OptionWire {
  import opened Bytes

  datatype Opt = Opt(number: uint16, value: seq<byte>)

  // ----- writing -----

  /** `computeExtraBytes`. */
  function ExtraBytes(n: int): nat {
    if n < 13 then 0 else if n < 269 then 1 else 2
  }

  function Nibble(n: nat): (r: byte)
    ensures r < 15
  {
    if n < 13 then n else if n < 269 then 13 else 14
  }

  /** The extension bytes that follow the option header byte for a delta or length of `n`. */
  function Ext(n: uint16): (s: seq<byte>)
    ensures |s| == ExtraBytes(n)
  {
    if n < 13 then [] else if n < 269 then [n - 13] else Store16(n - 269)
  }

  /** An option without its delta: the length extension and the value. */
  function Body(value: seq<byte>): seq<byte>
    requires |value| < 0x1_0000
  {
    Ext(|value|) + value
  }

  function HeaderByte(delta: uint16, length: uint16): (b: byte)
    ensures b != 0xFF
  {
    Nibble(delta) * 16 + Nibble(length)
  }

  function EncodeOne(delta: uint16, value: seq<byte>): (s: seq<byte>)
    requires |value| < 0x1_0000
    ensures |s| == 1 + ExtraBytes(delta) + ExtraBytes(|value|) + |value|
  {
    [HeaderByte(delta, |value|)] + Ext(delta) + Body(value)
  }

  /** Numbers do not decrease, start at or above `prev`, and every value has a 16-bit length. */
  predicate Sorted(prev: uint16, opts: seq<Opt>)
    decreases |opts|
  {
    opts == [] || (prev <= opts[0].number && |opts[0].value| < 0x1_0000 && Sorted(opts[0].number, opts[1..]))
  }

  function Encode(prev: uint16, opts: seq<Opt>): seq<byte>
    requires Sorted(prev, opts)
    decreases |opts|
  {
    if opts == [] then [] else
    EncodeOne(opts[0].number - prev, opts[0].value) + Encode(opts[0].number, opts[1..])
  }

  /** The number of the last option, or `prev` when there is none. */
  function Last(prev: uint16, opts: seq<Opt>): uint16 {
    if opts == [] then prev else opts[|opts| - 1].number
  }

  // ----- reading -----

  /** A byte source whose first byte announces no more extension bytes than are there. */
  predicate Readable(b: seq<byte>) {
    |b| > 0 && |b| >= 1 + NibbleBytes(b[0] / 16) + NibbleBytes(b[0] % 16)
  }

  /** Extension bytes announced by a nibble. */
  function NibbleBytes(n: nat): nat {
    if n == 13 then 1 else if n == 14 then 2 else 0
  }

  /** `getOptionDelta`: the reserved nibble 15 is returned as it is; two-byte deltas wrap at 16 bits. */
  function DeltaOf(b: seq<byte>): uint16
    requires |b| > 0 && |b| >= 1 + NibbleBytes(b[0] / 16)
  {
    var delta := b[0] / 16;
    if delta == 13 then b[1] + 13
    else if delta == 14 then ToUint16(Load16(b[1], b[2]) + 269)
    else delta
  }

  /** `getOptionValueLength`, for a length nibble other than the reserved 15. */
  function LengthOf(b: seq<byte>): uint16
    requires Readable(b)
  {
    var offset := 1 + NibbleBytes(b[0] / 16);
    var length := b[0] % 16;
    if length < 13 || length == 15 then length
    else if length == 13 then b[offset] + 13
    else ToUint16(Load16(b[offset], b[offset + 1]) + 269)
  }

  // ----- lemmas -----

  /** The readers undo the writer, whatever follows the option. */
  lemma ReadBack(delta: uint16, value: seq<byte>, rest: seq<byte>)
    requires |value| < 0x1_0000
    ensures var b := EncodeOne(delta, value) + rest;
      && Readable(b) && b[0] / 16 < 15 && b[0] % 16 < 15
      && NibbleBytes(b[0] / 16) == ExtraBytes(delta) && NibbleBytes(b[0] % 16) == ExtraBytes(|value|)
      && DeltaOf(b) == delta && LengthOf(b) == |value|
  {
    var b := EncodeOne(delta, value) + rest;
    var h := HeaderByte(delta, |value|);
    NibbleOfHeader(delta, |value|);
    assert b == [h] + (Ext(delta) + (Ext(|value|) + (value + rest)));
    hide EncodeOne, HeaderByte, DeltaOf, LengthOf, Ext;
    ReadDelta(h, delta, Ext(|value|) + (value + rest));
    ReadLength(h, delta, |value|, value + rest);
  }

  lemma ReadDelta(h: byte, delta: uint16, rest: seq<byte>)
    requires h / 16 == Nibble(delta)
    ensures DeltaOf([h] + (Ext(delta) + rest)) == delta
  {
    ExtAt(Ext(delta), rest, ([h] + (Ext(delta) + rest))[1..]);
  }

  lemma ReadLength(h: byte, delta: uint16, length: uint16, rest: seq<byte>)
    requires h / 16 == Nibble(delta) && h % 16 == Nibble(length)
    ensures var b := [h] + (Ext(delta) + (Ext(length) + rest)); Readable(b) && LengthOf(b) == length
  {
    var e, l := Ext(delta), Ext(length);
    var b := [h] + (e + (l + rest));
    assert |l| == ExtraBytes(length) && |e| == ExtraBytes(delta) == NibbleBytes(h / 16);
    assert forall i :: 0 <= i < |l| ==> b[1 + |e| + i] == l[i];
    ExtValue(length);
  }

  /** What the extension bytes of a number say. */
  lemma ExtValue(n: uint16)
    ensures 13 <= n < 269 ==> Ext(n)[0] == n - 13
    ensures n >= 269 ==> ToUint16(Load16(Ext(n)[0], Ext(n)[1]) + 269) == n
  {}

  lemma NibbleOfHeader(delta: uint16, length: uint16)
    ensures HeaderByte(delta, length) / 16 == Nibble(delta) && HeaderByte(delta, length) % 16 == Nibble(length)
  {
    hide Nibble;
    TwoNibbles(Nibble(delta), Nibble(length));
  }

  lemma TwoNibbles(hi: nat, lo: nat)
    requires lo < 16
    ensures (hi * 16 + lo) / 16 == hi && (hi * 16 + lo) % 16 == lo
  {}

  lemma ExtAt(ext: seq<byte>, rest: seq<byte>, b: seq<byte>)
    requires b == ext + rest
    ensures forall i :: 0 <= i < |ext| ==> b[i] == ext[i]
    ensures forall i :: 0 <= i < |rest| ==> b[|ext| + i] == rest[i]
  {}

  /** Deltas of 11, 24 and 965: in the header byte, with one extension byte and with two, the high one first. */
  lemma WireExample()
    ensures var opts := [Opt(11, [0x61]), Opt(35, [0x62]), Opt(1000, [])];
      Sorted(0, opts) && Encode(0, opts) == [0xB1, 0x61, 0xD1, 11, 0x62, 0xE0, 0x02, 0xB8]
  {
    var opts := [Opt(11, [0x61]), Opt(35, [0x62]), Opt(1000, [])];
    var two, last := opts[1..], opts[2..];
    assert two == [opts[1]] + last && two[1..] == last && last[1..] == [];
    assert Encode(35, last) == [0xE0, 0x02, 0xB8];
    assert Encode(11, two) == [0xD1, 11, 0x62] + Encode(35, last);
  }

  lemma {:induction false} SortedAppend(prev: uint16, a: seq<Opt>, b: seq<Opt>)
    ensures Sorted(prev, a + b) <==> Sorted(prev, a) && Sorted(Last(prev, a), b)
    decreases |a|
  {
    if a == [] {
      assert a + b == b;
    } else {
      assert (a + b)[1..] == a[1..] + b;
      SortedAppend(a[0].number, a[1..], b);
    }
  }

  lemma {:induction false} EncodeAppend(prev: uint16, a: seq<Opt>, b: seq<Opt>)
    requires Sorted(prev, a + b)
    ensures Sorted(prev, a) && Sorted(Last(prev, a), b)
    ensures Encode(prev, a + b) == Encode(prev, a) + Encode(Last(prev, a), b)
    decreases |a|
  {
    hide EncodeOne, Encode, Last;
    SortedAppend(prev, a, b);
    LastOfNone(prev);
    if a == [] {
      assert a + b == b;
      EncodeNone(prev);
    } else {
      assert a + b == [a[0]] + (a[1..] + b) && (a + b)[1..] == a[1..] + b;
      EncodeAppend(a[0].number, a[1..], b);
      EncodeCons(prev, a);
      EncodeCons(prev, a + b);
      LastBehind(prev, a);
      Associates(EncodeOne(a[0].number - prev, a[0].value), Encode(a[0].number, a[1..]), Encode(Last(prev, a), b));
    }
  }

  lemma LastOfNone(prev: uint16)
    ensures Last(prev, []) == prev
  {}

  lemma LastBehind(prev: uint16, a: seq<Opt>)
    requires a != []
    ensures Last(prev, a) == Last(a[0].number, a[1..])
  {}

  lemma EncodeNone(prev: uint16)
    ensures Sorted(prev, []) && Encode(prev, []) == []
  {}

  lemma Associates(a: seq<byte>, b: seq<byte>, c: seq<byte>)
    ensures a + b + c == a + (b + c)
  {}

  lemma EncodeCons(prev: uint16, opts: seq<Opt>)
    requires Sorted(prev, opts) && opts != []
    ensures Encode(prev, opts)
         == EncodeOne(opts[0].number - prev, opts[0].value) + Encode(opts[0].number, opts[1..])
  {}

  lemma OneOption(prev: uint16, o: Opt)
    requires Sorted(prev, [o])
    ensures prev <= o.number && |o.value| < 0x1_0000
    ensures Encode(prev, [o]) == EncodeOne(o.number - prev, o.value)
  {
    assert Encode(o.number, []) == [];
  }

  lemma ConsSorted(prev: uint16, o: Opt, rest: seq<Opt>)
    requires prev <= o.number && |o.value| < 0x1_0000 && Sorted(o.number, rest)
    ensures Sorted(prev, [o] + rest)
    ensures Encode(prev, [o] + rest) == EncodeOne(o.number - prev, o.value) + Encode(o.number, rest)
  {
    assert ([o] + rest)[1..] == rest;
  }

  lemma SortedRestart(prev: uint16, start: uint16, opts: seq<Opt>)
    requires Sorted(prev, opts) && opts != [] && start <= opts[0].number
    ensures Sorted(start, opts) && |opts[0].value| < 0x1_0000 && Sorted(opts[0].number, opts[1..])
  {}
}
