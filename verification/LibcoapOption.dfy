/** libcoap's option codec: the encoder, the parser and the direct readers. */
module LibcoapOption {
  import opened Bytes

  const COAP_PAYLOAD_START: byte := 0xff

  // ----- encoding -----

  /** The header nibble of a delta or length; 269 still counts as one extension byte. */
  function Nibble(x: nat): nat {
    if x < 13 then x else if x < 270 then 13 else 14
  }

  /** The extension bytes; the low one is truncated to 8 bits. */
  function Ext(x: nat): seq<byte> {
    if x < 13 then []
    else if x < 270 then [(x - 13) % 256]
    else [(x - 269) / 256 % 256, (x - 269) % 256]
  }

  function Header(delta: uint16, length: nat): seq<byte> {
    [Nibble(delta) * 16 + Nibble(length)] + Ext(delta) + Ext(length)
  }

  function Encoded(delta: uint16, value: seq<byte>): (b: seq<byte>)
    ensures |b| > |value|
  {
    Header(delta, |value|) + value
  }

  /** The test before a length extension asks for one byte less than the header takes. When just the last byte of
      the room is missing, the header therefore ends one byte behind it. */
  predicate Overruns(delta: uint16, length: nat, maxlen: nat) {
    length >= 13 && maxlen == |Header(delta, length)| - 1
  }

  /** `coap_opt_setheader`. When it fails, only bytes inside the room may have changed. */
  method SetHeader(opt: array<byte>, at: nat, maxlen: nat, delta: uint16, length: nat) returns (size: nat)
    requires at + maxlen <= opt.Length && (Overruns(delta, length, maxlen) ==> at + maxlen < opt.Length)
    modifies opt
    ensures size > maxlen <==> Overruns(delta, length, maxlen)
    ensures size == if maxlen < |Header(delta, length)| && !Overruns(delta, length, maxlen) then 0
                    else |Header(delta, length)|
    ensures size > 0 ==> opt[at..at + size] == Header(delta, length)
    ensures forall i :: 0 <= i < opt.Length && !(at <= i < at + if size > 0 then size else maxlen) ==>
        opt[i] == old(opt[i])
  {
    NoExt(length);
    hide Ext, Nibble;
    if maxlen == 0 {
      return 0;
    }
    var skip := SetDelta(opt, at, maxlen, delta);
    if skip > maxlen {
      return 0;
    }
    assert opt[at + 1..at + 1 + skip] == Ext(delta);
    size := SetLength(opt, at, maxlen, skip, length);
    if size > 0 {
      assert opt[at + 1..at + 1 + skip] == Ext(delta);
      assert opt[at..at + size] == [opt[at]] + opt[at + 1..at + 1 + skip] + opt[at + 1 + skip..at + size];
    }
  }

  lemma NoExt(x: nat)
    ensures Ext(x) == [] <==> x < 13
  {
  }

  /** The second half: the length, behind `skip` extension bytes of the delta. */
  method SetLength(opt: array<byte>, at: nat, maxlen: nat, skip: nat, length: nat) returns (size: nat)
    requires at + maxlen <= opt.Length && skip < maxlen && opt[at] % 16 == 0
    requires length >= 13 && maxlen == skip + |Ext(length)| ==> at + maxlen < opt.Length
    modifies opt
    ensures size == if maxlen < skip + |Ext(length)| then 0 else 1 + skip + |Ext(length)|
    ensures size > 0 ==> opt[at] == old(opt[at]) + Nibble(length) && opt[at + 1 + skip..at + size] == Ext(length)
    ensures forall i :: 0 <= i < opt.Length && i != at && !(at + 1 + skip <= i < at + size) ==> opt[i] == old(opt[i])
  {
    var skip := skip;
    if length < 13 {
      opt[at] := opt[at] + length;
    } else if length < 270 {
      // the source tests here for one byte less than it writes, which the delta always leaves
      if maxlen < skip + 1 {
        assert false;
      }
      opt[at] := opt[at] + 0x0d;
      skip := skip + 1;
      opt[at + skip] := (length - 13) % 256;
    } else {
      if maxlen < skip + 2 {
        return 0;
      }
      opt[at] := opt[at] + 0x0e;
      skip := skip + 1;
      opt[at + skip] := (length - 269) / 256 % 256;
      skip := skip + 1;
      opt[at + skip] := (length - 269) % 256;
    }
    return skip + 1;
  }

  /** The first half: the delta; `skip > maxlen` says that it does not fit. */
  method SetDelta(opt: array<byte>, at: nat, maxlen: nat, delta: uint16) returns (skip: nat)
    requires at + maxlen <= opt.Length && maxlen > 0
    modifies opt
    ensures skip == if maxlen < 1 + |Ext(delta)| then maxlen + 1 else |Ext(delta)|
    ensures skip <= maxlen ==>
      opt[at] == Nibble(delta) * 16 && opt[at + 1..at + 1 + skip] == Ext(delta)
    ensures forall i :: 0 <= i < opt.Length && !(at <= i < at + if skip <= maxlen then 1 + skip else maxlen) ==>
        opt[i] == old(opt[i])
  {
    skip := 0;
    if delta < 13 {
      opt[at] := delta * 16;
    } else if delta < 270 {
      if maxlen < 2 {
        return maxlen + 1;
      }
      opt[at] := 0xd0;
      skip := skip + 1;
      opt[at + skip] := (delta - 13) % 256;
    } else {
      if maxlen < 3 {
        return maxlen + 1;
      }
      opt[at] := 0xe0;
      skip := skip + 1;
      opt[at + skip] := (delta - 269) / 256 % 256;
      skip := skip + 1;
      opt[at + skip] := (delta - 269) % 256;
    }
  }

  /** In a room of one byte the header of delta 1 and length 20 takes two. */
  method OverrunExample() returns (opt: array<byte>, size: nat)
    ensures opt.Length == 2 && size == 2 && opt[..] == [0x1d, 7]
  {
    opt := new byte[2];
    assert Header(1, 20) == [0x1d, 7];
    size := SetHeader(opt, 0, 1, 1, 20);
  }

  /** `coap_opt_encode`: writes header and value when both fit, else returns 0. Its assertion fails exactly when the
      header ends behind the room. */
  method Encode(opt: array<byte>, at: nat, maxlen: nat, delta: uint16, value: seq<byte>)
      returns (size: nat, aborted: bool)
    requires at + maxlen <= opt.Length && (Overruns(delta, |value|, maxlen) ==> at + maxlen < opt.Length)
    modifies opt
    ensures aborted <==> Overruns(delta, |value|, maxlen)
    ensures size == if maxlen < |Encoded(delta, value)| then 0 else |Encoded(delta, value)|
    ensures size > 0 ==> opt[at..at + size] == Encoded(delta, value)
    ensures var changed := if size > 0 then size else if aborted then maxlen + 1 else maxlen;
      forall i :: 0 <= i < opt.Length && !(at <= i < at + changed) ==> opt[i] == old(opt[i])
  {
    hide Header;
    var l := SetHeader(opt, at, maxlen, delta, |value|);
    if l > maxlen {
      return 0, true;
    }
    if l == 0 {
      return 0, false;
    }
    if maxlen - l < |value| {
      return 0, false;
    }
    CopyValue(opt, at + l, value);
    Joined(opt[..], at, at + l, at + l + |value|);
    assert opt[at..at + l] == Header(delta, |value|);
    return l + |value|, false;
  }

  method CopyValue(opt: array<byte>, from: nat, value: seq<byte>)
    requires from + |value| <= opt.Length
    modifies opt
    ensures opt[from..from + |value|] == value
    ensures forall i :: 0 <= i < opt.Length && !(from <= i < from + |value|) ==> opt[i] == old(opt[i])
  {
    var i := 0;
    while i < |value|
      invariant i <= |value|
      invariant forall j :: 0 <= j < i ==> opt[from + j] == value[j]
      invariant forall j :: 0 <= j < opt.Length && !(from <= j < from + i) ==> opt[j] == old(opt[j])
    {
      opt[from + i] := value[i];
      i := i + 1;
    }
  }

  lemma Joined(s: seq<byte>, from: nat, mid: nat, to: nat)
    requires from <= mid <= to <= |s|
    ensures s[from..to] == s[from..mid] + s[mid..to]
  {
  }

  // ----- parsing -----

  datatype Parsed = Bad | Opt(size: nat, delta: uint16, length: nat, value: nat)

  /** One extended field: what it means, and where the read position and the rest of the window are behind it. */
  datatype Field = Field(value: nat, pos: nat, left: nat) | Short

  function OneByte(lo: nat): nat {
    13 + lo
  }

  function TwoBytes(hi: nat, lo: nat): nat {
    hi * 256 + 269 + lo
  }

  /** The extension bytes are read before the last test for space, so the source is longer than the window. */
  function ReadField(b: seq<byte>, pos: nat, left: nat, nibble: nat): (f: Field)
    requires pos + left < |b| && nibble < 15
    ensures f.Field? ==> f.pos + f.left == pos + left
  {
    if nibble < 13 then Field(nibble, pos, left)
    else if left < nibble - 12 then Short
    else
      if nibble == 13 then Field(OneByte(b[pos + 1]), pos + 1, left - 1)
      else Field(TwoBytes(b[pos + 1], b[pos + 2]), pos + 2, left - 2)
  }

  /** `coap_opt_parse` at the start of `b` with a window of `length` bytes. */
  function Parse(b: seq<byte>, length: nat): (r: Parsed)
    requires length < |b|
    ensures r.Opt? ==> r.size <= length && r.size == r.value + r.length
  {
    if length < 1 || b[0] / 16 == 15 then Bad
    else
      var d := ReadField(b, 0, length, b[0] / 16);
      if d.Short? || (b[0] / 16 == 14 && ToUint16(TwoBytes(b[1], 0)) < 269) || b[0] % 16 == 15 then Bad
      else
        var l := ReadField(b, d.pos, d.left, b[0] % 16);
        if l.Short? || l.left < 1 || l.left - 1 < l.value then Bad
        else Opt(l.pos + 1 + l.value, ToUint16(d.value), l.value, l.pos + 1)
  }

  /** The number that a nibble and the bytes from `at` on stand for. */
  function Denoted(b: seq<byte>, nibble: nat, at: nat): nat
    requires at + Extra(nibble) <= |b|
  {
    if nibble == 13 then 13 + b[at] as int
    else if nibble == 14 then 269 + 256 * b[at] as int + b[at + 1]
    else nibble
  }

  /** When the parser accepts an option, and what it makes of it: neither nibble is 15, header and value are inside
      the window, and the first byte of a long delta is not 255; a delta above 65535 wraps all the same. */
  lemma ParseExactly(b: seq<byte>, length: nat)
    requires 1 <= length < |b|
    ensures var hi, lo: nat := b[0] / 16, b[0] % 16;
      var start := 1 + Extra(hi) + Extra(lo);
      Parse(b, length) ==
        if hi == 15 || lo == 15 || length < start || (hi == 14 && b[1] == 255)
           || length < start + Denoted(b, lo, 1 + Extra(hi))
        then Bad
        else Opt(start + Denoted(b, lo, 1 + Extra(hi)), Denoted(b, hi, 1) % 0x1_0000,
                 Denoted(b, lo, 1 + Extra(hi)), start)
  {
  }

  // ----- the direct readers -----

  /** The number of extension bytes a nibble announces. */
  function Extra(nibble: nat): nat {
    if nibble == 13 then 1 else if nibble == 14 then 2 else 0
  }

  /** `coap_opt_delta`, an unsigned 16-bit number; 0 stands for an error. */
  function OptDelta(b: seq<byte>): uint16
    requires |b| > 0 && |b| > Extra(b[0] / 16)
  {
    var n := b[0] / 16;
    if n == 15 then 0
    else if n == 14 then ToUint16(TwoBytes(b[1], b[2]))
    else if n == 13 then ToUint16(OneByte(b[1]))
    else n
  }

  /** `coap_opt_length`, an unsigned 16-bit number as well. */
  function OptLength(b: seq<byte>): uint16
    requires |b| > 0 && |b| > Extra(b[0] / 16) + Extra(b[0] % 16)
  {
    var n, ofs := b[0] % 16, 1 + Extra(b[0] / 16);
    if b[0] / 16 == 15 || n == 15 then 0
    else if n == 14 then ToUint16(TwoBytes(b[ofs], b[ofs + 1]))
    else if n == 13 then ToUint16(OneByte(b[ofs]))
    else n
  }

  /** `coap_opt_value` as an offset; 0 stands for the null pointer. */
  function OptValue(b: seq<byte>): nat
    requires |b| > 0
  {
    if b[0] / 16 == 15 || b[0] % 16 == 15 then 0 else 1 + Extra(b[0] / 16) + Extra(b[0] % 16)
  }

  /** On arbitrary bytes the readers give what the nibbles stand for, in 16 bits, and 0 for a nibble of 15. */
  lemma ReadersExactly(b: seq<byte>)
    requires |b| > 0 && |b| > Extra(b[0] / 16) + Extra(b[0] % 16)
    ensures var hi, lo: nat := b[0] / 16, b[0] % 16;
      && OptDelta(b) == (if hi == 15 then 0 else Denoted(b, hi, 1) % 0x1_0000)
      && OptLength(b) == (if hi == 15 || lo == 15 then 0 else Denoted(b, lo, 1 + Extra(hi)) % 0x1_0000)
  {
  }

  /** On every option the parser accepts, the readers give its delta and value, and its length unless that has
      more than 16 bits. */
  lemma ReadersAgree(b: seq<byte>, length: nat)
    requires length < |b| && Parse(b, length).Opt?
    ensures var p := Parse(b, length);
      && |b| > Extra(b[0] / 16) + Extra(b[0] % 16)
      && OptDelta(b) == p.delta && OptValue(b) == p.value
      && (OptLength(b) == p.length <==> p.length < 0x1_0000)
  {
    var n, k := b[0] / 16, b[0] % 16;
    var d := ReadField(b, 0, length, n);
    var l := ReadField(b, d.pos, d.left, k);
    assert d.pos == Extra(n) && l.pos == Extra(n) + Extra(k);
  }

  /** The parser undoes the encoder for every delta and length but 269 (and none longer than the format allows),
      consumes exactly what was written, and finds the value right behind the header. */
  lemma ParseEncoded(delta: uint16, value: seq<byte>, behind: seq<byte>, length: nat)
    requires |Encoded(delta, value)| <= length < |Encoded(delta, value) + behind|
    ensures Parse(Encoded(delta, value) + behind, length)
              == Opt(|Encoded(delta, value)|, delta, |value|, |Header(delta, |value|)|)
      <==> delta != 269 && |value| != 269 && |value| < 269 + 0x1_0000
  {
    hide Ext, ReadField, Encoded, Header;
    var b := Encoded(delta, value) + behind;
    HeaderBytes(delta, value, behind);
    FieldsOfEncoded(b, length, delta, value);
    HighByte(b, delta);
  }

  lemma FieldsOfEncoded(b: seq<byte>, length: nat, delta: uint16, value: seq<byte>)
    requires |Encoded(delta, value)| <= length < |b| && EncodedHeader(b, delta, |value|)
    ensures ReadField(b, 0, length, b[0] / 16) == Field(Seen(delta), |Ext(delta)|, length - |Ext(delta)|)
    ensures ReadField(b, |Ext(delta)|, length - |Ext(delta)|, b[0] % 16)
      == Field(Seen(|value|), |Header(delta, |value|)| - 1, length + 1 - |Header(delta, |value|)|)
  {
    hide Ext, ReadField;
    ReadExt(b, 0, length, delta);
    ReadExt(b, |Ext(delta)|, length - |Ext(delta)|, |value|);
  }

  /** What the parser makes of an extended number. */
  function Seen(x: nat): nat {
    if x < 269 then x else if x == 269 then 13 else 269 + (x - 269) % 0x1_0000
  }

  lemma ReadExt(b: seq<byte>, pos: nat, left: nat, x: nat)
    requires pos + left < |b| && |Ext(x)| <= left
    requires forall i :: 0 <= i < |Ext(x)| ==> b[1 + pos + i] == Ext(x)[i]
    ensures ReadField(b, pos, left, Nibble(x)) == Field(Seen(x), pos + |Ext(x)|, left - |Ext(x)|)
  {
    assert |Ext(x)| > 0 ==> b[1 + pos + 0] == Ext(x)[0];
    assert |Ext(x)| > 1 ==> b[1 + pos + 1] == Ext(x)[1];
    if x >= 270 {
      TwoByteValue(x - 269);
    }
  }

  lemma TwoByteValue(y: nat)
    ensures y / 256 % 256 * 256 + y % 256 == y % 0x1_0000
  {
  }

  lemma HighByte(b: seq<byte>, delta: uint16)
    requires exists l: nat :: EncodedHeader(b, delta, l)
    ensures |b| > 0 && (b[0] / 16 == 14 ==> |b| > 1 && ToUint16(TwoBytes(b[1], 0)) >= 269)
  {
    if delta >= 270 {
      assert b[1 + 0] == Ext(delta)[0];
    }
  }

  /** `b` begins with the header of this delta and length. */
  predicate EncodedHeader(b: seq<byte>, delta: uint16, length: nat) {
    var e := |Ext(delta)|;
    && |b| > e + |Ext(length)|
    && b[0] / 16 == Nibble(delta) && b[0] % 16 == Nibble(length)
    && (forall i :: 0 <= i < e ==> b[1 + i] == Ext(delta)[i])
    && (forall i :: 0 <= i < |Ext(length)| ==> b[1 + e + i] == Ext(length)[i])
  }

  lemma HeaderBytes(delta: uint16, value: seq<byte>, behind: seq<byte>)
    ensures EncodedHeader(Encoded(delta, value) + behind, delta, |value|)
    ensures |Encoded(delta, value)| == |Header(delta, |value|)| + |value|
  {
    hide Ext;
    var h, e, x := Header(delta, |value|), Ext(delta), Ext(|value|);
    assert h[1..] == e + x;
  }

  /** What the excluded delta turns into. */
  lemma Delta269ReadsAs13()
    ensures Parse(Encoded(269, []) + [0], 2) == Opt(2, 13, 0, 2)
  {
    assert Encoded(269, []) + [0] == [0xd0, 0, 0];
  }
}
