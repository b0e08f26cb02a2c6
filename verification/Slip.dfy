/** The SLIP protocol of the devices library: byte stuffing, a checksum at the end, and a decoder that works
    on any pieces of the stream. */
module Slip {
  import opened Crc16

  const SLIP_END: bv8 := 0xC0
  const SLIP_ESC: bv8 := 0xDB
  const SLIP_ESC_END: bv8 := 0xDC
  const SLIP_ESC_ESC: bv8 := 0xDD
  const SLIP_ESC_XON: bv8 := 0xDE
  const SLIP_ESC_XOFF: bv8 := 0xDF
  const XON: bv8 := 0x11
  const XOFF: bv8 := 0x13

  // ----- encoding -----

  function Escape(b: bv8): seq<bv8> {
    if b == SLIP_END then [SLIP_ESC, SLIP_ESC_END]
    else if b == SLIP_ESC then [SLIP_ESC, SLIP_ESC_ESC]
    else if b == XON then [SLIP_ESC, SLIP_ESC_XON]
    else if b == XOFF then [SLIP_ESC, SLIP_ESC_XOFF]
    else [b]
  }

  function Body(data: seq<bv8>): seq<bv8> {
    if data == [] then [] else Body(data[..|data| - 1]) + Escape(data[|data| - 1])
  }

  function Low(crc: bv16): bv8 {
    (crc & 0x00ff) as bv8
  }

  function High(crc: bv16): bv8 {
    (crc >> 8) as bv8
  }

  /** The checksum's bytes as they lie in the memory of the host. */
  function CrcBytes(crc: bv16, littleEndian: bool): (s: seq<bv8>)
    ensures |s| == 2
  {
    if littleEndian then [Low(crc), High(crc)] else [High(crc), Low(crc)]
  }

  function Int8(b: bv8): nat {
    b as int
  }

  function Int16(x: bv16): nat {
    x as int
  }

  /** The number that two bytes hold. */
  function Number(lo: bv8, hi: bv8): nat {
    Int8(lo) + 256 * Int8(hi)
  }

  /** A little-endian host has the low byte of the checksum first, a big-endian one the high byte. */
  lemma CrcBytesValue(crc: bv16)
    ensures Number(CrcBytes(crc, true)[0], CrcBytes(crc, true)[1]) == Int16(crc)
    ensures Number(CrcBytes(crc, false)[1], CrcBytes(crc, false)[0]) == Int16(crc)
  {
    hide Number, Int16, Low, High;
    LowAndHigh(crc);
  }

  lemma LowAndHigh(crc: bv16)
    ensures Number(Low(crc), High(crc)) == Int16(crc)
  {
    hide *;
    SplitInTwo(crc);
    var lo, hi := crc & 0x00ff, crc >> 8;
    LowIs(crc, lo);
    HighIs(crc, hi);
    NumberOf(crc, lo, hi);
  }

  lemma LowIs(crc: bv16, lo: bv16)
    requires lo < 256 && lo == crc & 0x00ff
    ensures Low(crc) == lo as bv8
  {
  }

  lemma HighIs(crc: bv16, hi: bv16)
    requires hi < 256 && hi == crc >> 8
    ensures High(crc) == hi as bv8
  {
  }

  lemma SplitInTwo(crc: bv16)
    ensures crc & 0x00ff < 256 && crc >> 8 < 256 && (crc >> 8) * 256 + (crc & 0x00ff) == crc
  {
  }

  lemma NumberOf(crc: bv16, lo: bv16, hi: bv16)
    requires lo < 256 && hi < 256 && hi * 256 + lo == crc
    requires Low(crc) == lo as bv8 && High(crc) == hi as bv8
    ensures Number(Low(crc), High(crc)) == Int16(crc)
  {
    hide Low, High;
    HalvesAsInt(lo, hi);
    ByteAsInt(lo);
    ByteAsInt(hi);
  }

  lemma HalvesAsInt(lo: bv16, hi: bv16)
    requires lo < 256 && hi < 256
    ensures (hi * 256 + lo) as int == hi as int * 256 + lo as int
  {
  }

  lemma ByteAsInt(x: bv16)
    requires x < 256
    ensures (x as bv8) as int == x as int
  {
  }

  function Frame(packet: seq<bv8>, littleEndian: bool): seq<bv8> {
    Body(packet + CrcBytes(Crc(packet), littleEndian)) + [SLIP_END]
  }

  /** `encodedSize` */
  method EncodedSize(payload: seq<bv8>) returns (position: nat)
    ensures position == |Body(payload)|
  {
    position := 0;
    var index := 0;
    while index < |payload|
      invariant 0 <= index <= |payload| && position == |Body(payload[..index])|
    {
      var value := payload[index];
      BodyMore(payload, index);
      if value == SLIP_END {
        position := position + 2;
      } else if value == SLIP_ESC {
        position := position + 2;
      } else if value == XON {
        position := position + 2;
      } else if value == XOFF {
        position := position + 2;
      } else {
        position := position + 1;
      }
      index := index + 1;
    }
    assert payload[..index] == payload;
  }

  lemma BodySnoc(data: seq<bv8>, b: bv8)
    ensures Body(data + [b]) == Body(data) + Escape(b)
  {
    assert (data + [b])[..|data|] == data;
  }

  lemma BodyMore(data: seq<bv8>, n: nat)
    requires n < |data|
    ensures Body(data[..n + 1]) == Body(data[..n]) + Escape(data[n])
  {
    assert data[..n + 1][..n] == data[..n];
  }

  /** The stuffing loop: writes the stuffed packet from `from` on. */
  method EncodeInto(packet: seq<bv8>, encoded: array<bv8>, from: nat) returns (encodedSize: nat)
    requires from + |Body(packet)| <= encoded.Length
    modifies encoded
    ensures encodedSize == |Body(packet)|
    ensures encoded[from..from + encodedSize] == Body(packet)
    ensures encoded[..from] == old(encoded[..from])
  {
    hide Escape, Body;
    encodedSize := 0;
    var index := 0;
    NoBody();
    assert packet[..0] == [];
    while index < |packet|
      invariant 0 <= index <= |packet| && encodedSize == |Body(packet[..index])| <= |Body(packet)|
      invariant encoded[from..from + encodedSize] == Body(packet[..index])
      invariant encoded[..from] == old(encoded[..from])
    {
      BodyMore(packet, index);
      BodyGrows(packet, index + 1);
      ghost var before := encoded[..from + encodedSize];
      var n := EncodeByte(packet[index], encoded, from + encodedSize);
      Extends(encoded[..], before, from, encodedSize, n);
      encodedSize := encodedSize + n;
      index := index + 1;
    }
    assert packet[..index] == packet;
  }

  lemma NoBody()
    ensures Body([]) == []
  {
  }

  lemma Extends(s: seq<bv8>, before: seq<bv8>, from: nat, size: nat, n: nat)
    requires from + size + n <= |s| && s[..from + size] == before
    ensures s[from..from + size + n] == before[from..] + s[from + size..from + size + n]
    ensures s[..from] == before[..from]
  {
  }

  /** One byte of the stuffing loop. */
  method EncodeByte(value: bv8, encoded: array<bv8>, at: nat) returns (n: nat)
    requires at + |Escape(value)| <= encoded.Length
    modifies encoded
    ensures n == |Escape(value)| && encoded[at..at + n] == Escape(value) && encoded[..at] == old(encoded[..at])
  {
    n := 2;
    if value == SLIP_END {
      encoded[at] := SLIP_ESC;
      encoded[at + 1] := SLIP_ESC_END;
    } else if value == SLIP_ESC {
      encoded[at] := SLIP_ESC;
      encoded[at + 1] := SLIP_ESC_ESC;
    } else if value == XON {
      encoded[at] := SLIP_ESC;
      encoded[at + 1] := SLIP_ESC_XON;
    } else if value == XOFF {
      encoded[at] := SLIP_ESC;
      encoded[at + 1] := SLIP_ESC_XOFF;
    } else {
      encoded[at] := value;
      n := 1;
    }
  }

  lemma {:induction false} BodyGrows(data: seq<bv8>, n: nat)
    requires n <= |data|
    ensures |Body(data[..n])| <= |Body(data)|
    decreases |data| - n
  {
    if n == |data| {
      assert data[..n] == data;
    } else {
      BodyMore(data, n);
      BodyGrows(data, n + 1);
    }
  }

  lemma {:induction false} BodyAppend(a: seq<bv8>, b: seq<bv8>)
    ensures Body(a + b) == Body(a) + Body(b)
    decreases |b|
  {
    hide Body, Escape;
    if b == [] {
      NoBody();
      assert a + b == a;
    } else {
      var front, last := b[..|b| - 1], b[|b| - 1];
      BodyAppend(a, front);
      BodySnoc(a + front, last);
      BodySnoc(front, last);
      SplitLast(a, b);
    }
  }

  lemma SplitLast(a: seq<bv8>, b: seq<bv8>)
    requires b != []
    ensures var front, last := b[..|b| - 1], b[|b| - 1];
      b == front + [last] && a + b == a + front + [last]
  {
  }

  /** `Protocol::Private::encode`: the stuffed packet, the stuffed checksum and the end mark. */
  method Encode(packet: seq<bv8>, littleEndian: bool) returns (encoded: array<bv8>)
    ensures fresh(encoded) && encoded[..] == Frame(packet, littleEndian)
  {
    hide Body, CrcBytes, Crc;
    var crc := Calculate(packet, |packet|);
    assert packet[..|packet|] == packet;
    var crcs := CrcBytes(crc, littleEndian);
    var mainSize := EncodedSize(packet);
    var crcSize := EncodedSize(crcs);
    encoded := new bv8[mainSize + crcSize + 1];
    BodyAppend(packet, crcs);
    mainSize := EncodeInto(packet, encoded, 0);
    ghost var main := encoded[..mainSize];
    crcSize := EncodeInto(crcs, encoded, mainSize);
    encoded[mainSize + crcSize] := SLIP_END;
    ThreeParts(encoded[..], mainSize, mainSize + crcSize);
    assert encoded[..mainSize] == main;
  }

  lemma ThreeParts(s: seq<bv8>, i: nat, j: nat)
    requires i <= j && |s| == j + 1
    ensures s == s[..i] + s[i..j] + [s[j]]
  {
  }

  /** What is stuffed into a frame: the packet, and the remainder of its bits followed by sixteen zeros, as the host
      stores a number of two bytes. */
  lemma FrameHolds(packet: seq<bv8>, littleEndian: bool) returns (lo: bv8, hi: bv8)
    ensures Frame(packet, littleEndian) == Body(packet + if littleEndian then [lo, hi] else [hi, lo]) + [SLIP_END]
    ensures Number(lo, hi) == Int16(Divide(0, MessageBits(packet) + EIGHT_ZEROS + EIGHT_ZEROS))
  {
    var crc := Crc(packet);
    CrcIsRemainder(packet);
    CrcBytesValue(crc);
    hide CrcBytes, Crc, Divide, Body, Number, Int16;
    var s := CrcBytes(crc, littleEndian);
    lo, hi := if littleEndian then s[0] else s[1], if littleEndian then s[1] else s[0];
    assert s == if littleEndian then [lo, hi] else [hi, lo];
  }

  /** The bytes that mean something to the receiver or to flow control are sent as two; behind the escape byte the
      decoder takes any byte without such a meaning as it is. */
  lemma EscapeForm(b: bv8)
    ensures Escape(0xC0) == [0xDB, 0xDC] && Escape(0xDB) == [0xDB, 0xDD]
    ensures Escape(0x11) == [0xDB, 0xDE] && Escape(0x13) == [0xDB, 0xDF]
    ensures b !in {0xC0, 0xDB, 0x11, 0x13} ==> Escape(b) == [b]
    ensures b !in {0xDC, 0xDD, 0xDE, 0xDF} ==> Unescape(b) == b
  {}

  /** The frame of the packet 01, whose checksum is 8005, on both kinds of host. */
  lemma FrameExample()
    ensures Crc([0x01]) == 0x8005
    ensures Frame([0x01], true) == [0x01, 0x05, 0x80, 0xC0] && Frame([0x01], false) == [0x01, 0x80, 0x05, 0xC0]
  {
    CrcOfOneMore([], 0x01);
    assert [] + [0x01] == [0x01 as bv8];
    assert ByteStep(0, 0x01) == 0x8005;
    hide Crc, ByteStep;
    ThreePlain(0x01, 0x05, 0x80);
    ThreePlain(0x01, 0x80, 0x05);
    assert CrcBytes(0x8005, true) == [0x05, 0x80] && CrcBytes(0x8005, false) == [0x80, 0x05];
  }

  lemma ThreePlain(a: bv8, b: bv8, c: bv8)
    requires Escape(a) == [a] && Escape(b) == [b] && Escape(c) == [c]
    ensures Body([a] + [b, c]) == [a, b, c]
  {
    hide Escape, Body;
    NoBody();
    BodySnoc([], a);
    BodySnoc([a], b);
    BodySnoc([a, b], c);
    assert [] + [a] == [a] && [a] + [b] == [a, b] && [a, b] + [c] == [a, b, c] && [a] + [b, c] == [a, b, c];
  }

  // ----- the form of a frame -----

  predicate Clean(s: seq<bv8>) {
    forall i :: 0 <= i < |s| ==> s[i] != XON && s[i] != XOFF && s[i] != SLIP_END
  }

  lemma EscapeClean(b: bv8)
    ensures Clean(Escape(b)) && |Escape(b)| > 0
  {
  }

  lemma {:induction false} BodyClean(data: seq<bv8>)
    ensures Clean(Body(data)) && |Body(data)| >= |data|
  {
    if data != [] {
      BodyClean(data[..|data| - 1]);
      EscapeClean(data[|data| - 1]);
      hide Escape;
    }
  }

  /** A frame holds no flow-control byte, and one end mark, which is its last byte. */
  lemma FrameForm(packet: seq<bv8>, littleEndian: bool)
    ensures var f := Frame(packet, littleEndian);
      && (forall i :: 0 <= i < |f| ==> f[i] != XON && f[i] != XOFF)
      && (forall i :: 0 <= i < |f| ==> (f[i] == SLIP_END <==> i == |f| - 1))
  {
    BodyClean(packet + CrcBytes(Crc(packet), littleEndian));
  }

  // ----- decoding -----

  /** The decoder with the packets it has delivered. */
  datatype Decoder = Decoder(escaping: bool, decoded: seq<bv8>, delivered: seq<seq<bv8>>)

  function Initial(delivered: seq<seq<bv8>>): Decoder {
    Decoder(false, [], delivered)
  }

  function Unescape(b: bv8): bv8 {
    if b == SLIP_ESC_END then SLIP_END
    else if b == SLIP_ESC_ESC then SLIP_ESC
    else if b == SLIP_ESC_XON then XON
    else if b == SLIP_ESC_XOFF then XOFF
    else b
  }

  /** `finish`: fewer than two bytes are left where they are. */
  function Finish(d: Decoder, littleEndian: bool): Decoder {
    var size := |d.decoded|;
    if size < 2 then d
    else
      var packet := d.decoded[..size - 2];
      if d.decoded[size - 2..] == CrcBytes(Crc(packet), littleEndian) then Initial(d.delivered + [packet])
      else Initial(d.delivered)
  }

  function Take(d: Decoder, b: bv8, littleEndian: bool): Decoder {
    if d.escaping then d.(escaping := false, decoded := d.decoded + [Unescape(b)])
    else if b == SLIP_END then Finish(d, littleEndian)
    else if b == SLIP_ESC then d.(escaping := true)
    else d.(decoded := d.decoded + [b])
  }

  /** Any bytes, one after the other. */
  function TakeAll(d: Decoder, bytes: seq<bv8>, littleEndian: bool): Decoder {
    if bytes == [] then d
    else Take(TakeAll(d, bytes[..|bytes| - 1], littleEndian), bytes[|bytes| - 1], littleEndian)
  }

  lemma TakeMore(d: Decoder, bytes: seq<bv8>, n: nat, littleEndian: bool)
    requires n < |bytes|
    ensures TakeAll(d, bytes[..n + 1], littleEndian)
        == Take(TakeAll(d, bytes[..n], littleEndian), bytes[n], littleEndian)
  {
    assert bytes[..n + 1][..n] == bytes[..n];
  }

  lemma TakeSnoc(d: Decoder, bytes: seq<bv8>, b: bv8, littleEndian: bool)
    ensures TakeAll(d, bytes + [b], littleEndian) == Take(TakeAll(d, bytes, littleEndian), b, littleEndian)
  {
    assert (bytes + [b])[..|bytes|] == bytes;
  }

  /** How the stream is cut into pieces makes no difference. */
  lemma {:induction false} TakeAppend(d: Decoder, a: seq<bv8>, b: seq<bv8>, littleEndian: bool)
    ensures TakeAll(d, a + b, littleEndian) == TakeAll(TakeAll(d, a, littleEndian), b, littleEndian)
    decreases |b|
  {
    if b == [] {
      assert a + b == a;
    } else {
      hide Take;
      var front, last := b[..|b| - 1], b[|b| - 1];
      TakeAppend(d, a, front, littleEndian);
      SplitLast(a, b);
      TakeSnoc(d, a + front, last, littleEndian);
    }
  }

  class Protocol {
    var escaping: bool
    var decoded: seq<bv8>
    var delivered: seq<seq<bv8>>
    const littleEndian: bool

    constructor (littleEndian: bool)
      ensures State() == Initial([]) && this.littleEndian == littleEndian
    {
      this.littleEndian := littleEndian;
      escaping, decoded, delivered := false, [], [];
    }

    function State(): Decoder
      reads this
    {
      Decoder(escaping, decoded, delivered)
    }

    /** `decode` of one piece of the stream. */
    method Decode(packet: seq<bv8>)
      modifies this
      ensures State() == TakeAll(old(State()), packet, littleEndian)
    {
      hide Finish;
      var index := 0;
      while index < |packet|
        invariant 0 <= index <= |packet|
        invariant State() == TakeAll(old(State()), packet[..index], littleEndian)
      {
        var value := packet[index];
        TakeMore(old(State()), packet, index, littleEndian);
        index := index + 1;
        if escaping {
          if value == SLIP_ESC_END {
            decoded := decoded + [SLIP_END];
          } else if value == SLIP_ESC_ESC {
            decoded := decoded + [SLIP_ESC];
          } else if value == SLIP_ESC_XON {
            decoded := decoded + [XON];
          } else if value == SLIP_ESC_XOFF {
            decoded := decoded + [XOFF];
          } else {
            decoded := decoded + [value];
          }
          escaping := false;
          continue;
        }
        if value == SLIP_END {
          FinishPacket();
        } else if value == SLIP_ESC {
          escaping := true;
        } else {
          decoded := decoded + [value];
        }
      }
      assert packet[..index] == packet;
    }

    /** `finish` */
    method FinishPacket()
      requires !escaping
      modifies this
      ensures State() == Finish(old(State()), littleEndian)
    {
      var size := |decoded|;
      if size < 2 {
        return;
      }
      var mainSize := size - 2;
      var calculatedCrc := Calculate(decoded, mainSize);
      if decoded[mainSize..] == CrcBytes(calculatedCrc, littleEndian) {
        delivered := delivered + [decoded[..mainSize]];
      }
      decoded := [];
    }

    /** `reset` */
    method Reset()
      modifies this
      ensures State() == Initial(old(delivered))
    {
      escaping := false;
      decoded := [];
    }
  }

  // ----- the stream code is exact and synchronises itself -----

  /** A stuffed byte is read back as itself. */
  lemma TakeEscaped(d: Decoder, b: bv8, littleEndian: bool)
    requires !d.escaping
    ensures TakeAll(d, Escape(b), littleEndian) == d.(decoded := d.decoded + [b])
  {
    TakeFew(d, Escape(b), littleEndian);
    hide TakeAll;
  }

  lemma TakeFew(d: Decoder, e: seq<bv8>, littleEndian: bool)
    requires 1 <= |e| <= 2
    ensures TakeAll(d, e, littleEndian)
      == if |e| == 1 then Take(d, e[0], littleEndian) else Take(Take(d, e[0], littleEndian), e[1], littleEndian)
  {
    hide Take;
    if |e| == 2 {
      assert e == [e[0]] + [e[1]];
      TakeSnoc(d, [e[0]], e[1], littleEndian);
    } else {
      assert e == [e[0]];
    }
    assert [] + [e[0]] == [e[0]];
    TakeSnoc(d, [], e[0], littleEndian);
  }

  lemma {:induction false} TakeBody(d: Decoder, data: seq<bv8>, littleEndian: bool)
    requires !d.escaping
    ensures TakeAll(d, Body(data), littleEndian) == d.(decoded := d.decoded + data)
    decreases |data|
  {
    if data == [] {
    } else {
      var front, b := data[..|data| - 1], data[|data| - 1];
      TakeBody(d, front, littleEndian);
      hide Escape, TakeAll;
      TakeAppend(d, Body(front), Escape(b), littleEndian);
      TakeEscaped(d.(decoded := d.decoded + front), b, littleEndian);
      assert data == front + [b] && d.decoded + (front + [b]) == d.decoded + front + [b];
    }
  }

  /** What a decoder makes of stuffed data and an end mark: it delivers the packet just when the checksum agrees. */
  lemma TakeData(delivered: seq<seq<bv8>>, data: seq<bv8>, littleEndian: bool)
    requires |data| >= 2
    ensures var packet := data[..|data| - 2];
      TakeAll(Initial(delivered), Body(data) + [SLIP_END], littleEndian)
        == if data[|data| - 2..] == CrcBytes(Crc(packet), littleEndian) then Initial(delivered + [packet])
         else Initial(delivered)
  {
    hide TakeAll, Body, Crc, CrcBytes;
    TakeSnoc(Initial(delivered), Body(data), SLIP_END, littleEndian);
    TakeBody(Initial(delivered), data, littleEndian);
    assert [] + data == data;
  }

  /** One byte delivers nothing unless it is an end mark behind at least two bytes, which are a packet and its
      checksum; such an end mark clears the buffer, and an end mark behind fewer bytes does nothing. */
  lemma TakeDelivers(d: Decoder, b: bv8, littleEndian: bool)
    ensures var r, size := Take(d, b, littleEndian), |d.decoded|;
      if d.escaping || b != SLIP_END || size < 2
      then r.delivered == d.delivered && (!d.escaping && b == SLIP_END ==> r == d)
      else
        var packet, x, y := d.decoded[..size - 2], d.decoded[size - 2], d.decoded[size - 1];
        var sent := if littleEndian then Number(x, y) else Number(y, x);
        && r.decoded == [] && !r.escaping
        && r.delivered == if sent == Int16(Crc(packet)) then d.delivered + [packet] else d.delivered
  {
    hide Crc, CrcBytes, Number, Int16;
    var n := |d.decoded| - 2;
    if !d.escaping && b == SLIP_END && n >= 0 {
      SameCrcBytes(d.decoded[n], d.decoded[n + 1], Crc(d.decoded[..n]), littleEndian);
      assert d.decoded[n..] == [d.decoded[n], d.decoded[n + 1]];
    }
  }

  lemma SameCrcBytes(x: bv8, y: bv8, crc: bv16, littleEndian: bool)
    ensures [x, y] == CrcBytes(crc, littleEndian) <==>
      (if littleEndian then Number(x, y) else Number(y, x)) == Int16(crc)
  {
    CrcBytesValue(crc);
    hide CrcBytes, Number, Int16;
    var s := CrcBytes(crc, littleEndian);
    assert s == [s[0], s[1]];
    if littleEndian {
      SameNumber(x, y, s[0], s[1]);
    } else {
      SameNumber(y, x, s[1], s[0]);
    }
  }

  lemma SameNumber(lo: bv8, hi: bv8, lo': bv8, hi': bv8)
    ensures Number(lo, hi) == Number(lo', hi') <==> lo == lo' && hi == hi'
  {
    hide Int8;
    SameByte8(lo, lo');
    SameByte8(lo', lo);
    SameByte8(hi, hi');
    SameDigits(Int8(lo), Int8(hi), Int8(lo'), Int8(hi'));
  }

  lemma SameDigits(lo: nat, hi: nat, lo': nat, hi': nat)
    requires lo < 256 && lo' < 256
    ensures lo + 256 * hi == lo' + 256 * hi' <==> lo == lo' && hi == hi'
  {
  }

  lemma SameByte8(x: bv8, y: bv8)
    ensures Int8(x) < 256 && (Int8(x) == Int8(y) <==> x == y)
  {
    if Int8(x) == Int8(y) {
      assert (x as int) as bv8 == x && (y as int) as bv8 == y;
    }
  }

  function Stream(packets: seq<seq<bv8>>, littleEndian: bool): seq<bv8> {
    if packets == [] then []
    else Stream(packets[..|packets| - 1], littleEndian) + Frame(packets[|packets| - 1], littleEndian)
  }

  function Flatten(pieces: seq<seq<bv8>>): seq<bv8> {
    if pieces == [] then [] else Flatten(pieces[..|pieces| - 1]) + pieces[|pieces| - 1]
  }

  /** Repeated calls of `decode`. */
  function TakePieces(d: Decoder, pieces: seq<seq<bv8>>, littleEndian: bool): Decoder {
    if pieces == [] then d
    else TakeAll(TakePieces(d, pieces[..|pieces| - 1], littleEndian), pieces[|pieces| - 1], littleEndian)
  }

  lemma {:induction false} PiecesDoNotMatter(d: Decoder, pieces: seq<seq<bv8>>, littleEndian: bool)
    ensures TakePieces(d, pieces, littleEndian) == TakeAll(d, Flatten(pieces), littleEndian)
  {
    if pieces != [] {
      hide Take;
      PiecesDoNotMatter(d, pieces[..|pieces| - 1], littleEndian);
      TakeAppend(d, Flatten(pieces[..|pieces| - 1]), pieces[|pieces| - 1], littleEndian);
    }
  }

  lemma FrameDelivers(delivered: seq<seq<bv8>>, packet: seq<bv8>, littleEndian: bool)
    ensures TakeAll(Initial(delivered), Frame(packet, littleEndian), littleEndian) == Initial(delivered + [packet])
  {
    hide TakeAll, Crc, Body;
    var data := packet + CrcBytes(Crc(packet), littleEndian);
    assert data[..|data| - 2] == packet && data[|data| - 2..] == CrcBytes(Crc(packet), littleEndian);
    hide CrcBytes;
    TakeData(delivered, data, littleEndian);
  }

  lemma {:induction false} StreamDelivers(delivered: seq<seq<bv8>>, packets: seq<seq<bv8>>, littleEndian: bool)
    ensures TakeAll(Initial(delivered), Stream(packets, littleEndian), littleEndian) == Initial(delivered + packets)
  {
    hide TakeAll, Frame;
    if packets == [] {
      TakeNothing(Initial(delivered), littleEndian);
      assert delivered + packets == delivered;
    } else {
      var front, p := packets[..|packets| - 1], packets[|packets| - 1];
      StreamDelivers(delivered, front, littleEndian);
      TakeAppend(Initial(delivered), Stream(front, littleEndian), Frame(p, littleEndian), littleEndian);
      FrameDelivers(delivered + front, p, littleEndian);
      assert delivered + front + [p] == delivered + packets;
    }
  }

  lemma TakeNothing(d: Decoder, littleEndian: bool)
    ensures TakeAll(d, [], littleEndian) == d
  {
  }

  /** From the initial state, any cutting of a stream of frames into pieces delivers exactly its packets. */
  lemma StreamExact(packets: seq<seq<bv8>>, pieces: seq<seq<bv8>>, littleEndian: bool)
    requires Flatten(pieces) == Stream(packets, littleEndian)
    ensures TakePieces(Initial([]), pieces, littleEndian) == Initial(packets)
  {
    hide TakeAll, TakePieces, Flatten, Stream;
    PiecesDoNotMatter(Initial([]), pieces, littleEndian);
    StreamDelivers([], packets, littleEndian);
    assert [] + packets == packets;
  }

  /** Inside a frame the decoder, in step or not, is never left escaping by a whole stuffed byte, and collects
      at least one byte for it. */
  lemma TakeEscapedAnyhow(d: Decoder, b: bv8, littleEndian: bool)
    ensures var r := TakeAll(d, Escape(b), littleEndian);
      !r.escaping && |r.decoded| > |d.decoded| && r.delivered == d.delivered
  {
    if d.escaping {
      TakeFew(d, Escape(b), littleEndian);
      hide TakeAll;
    } else {
      hide TakeAll, Escape, Take;
      TakeEscaped(d, b, littleEndian);
    }
  }

  lemma {:induction false} TakeBodyAnyhow(d: Decoder, data: seq<bv8>, littleEndian: bool)
    ensures var r := TakeAll(d, Body(data), littleEndian);
      && (data != [] ==> !r.escaping) && |r.decoded| >= |d.decoded| + |data| && r.delivered == d.delivered
    decreases |data|
  {
    if data != [] {
      var front, b := data[..|data| - 1], data[|data| - 1];
      TakeBodyAnyhow(d, front, littleEndian);
      hide Escape, TakeAll;
      TakeAppend(d, Body(front), Escape(b), littleEndian);
      TakeEscapedAnyhow(TakeAll(d, Body(front), littleEndian), b, littleEndian);
    }
  }

  /** From any state whatever, one whole frame brings the decoder back to the initial state. */
  lemma FrameSynchronises(d: Decoder, packet: seq<bv8>, littleEndian: bool)
    ensures var r := TakeAll(d, Frame(packet, littleEndian), littleEndian);
      r == Initial(r.delivered) && d.delivered <= r.delivered
  {
    hide TakeAll, Crc, Body;
    var data := packet + CrcBytes(Crc(packet), littleEndian);
    hide CrcBytes;
    TakeSnoc(d, Body(data), SLIP_END, littleEndian);
    TakeBodyAnyhow(d, data, littleEndian);
  }

  /** Whatever came before, the packets after the first whole frame all arrive. */
  lemma ArrivesAfterOneFrame(d: Decoder, first: seq<bv8>, packets: seq<seq<bv8>>, littleEndian: bool)
    ensures exists delivered ::
      TakeAll(d, Frame(first, littleEndian) + Stream(packets, littleEndian), littleEndian)
          == Initial(delivered + packets)
  {
    hide TakeAll, Frame, Stream;
    TakeAppend(d, Frame(first, littleEndian), Stream(packets, littleEndian), littleEndian);
    FrameSynchronises(d, first, littleEndian);
    var r := TakeAll(d, Frame(first, littleEndian), littleEndian);
    StreamDelivers(r.delivered, packets, littleEndian);
    assert TakeAll(d, Frame(first, littleEndian) + Stream(packets, littleEndian), littleEndian)
        == Initial(r.delivered + packets);
  }

  // ----- damage -----

  lemma CrcBytesInjective(a: bv16, b: bv16, littleEndian: bool)
    ensures CrcBytes(a, littleEndian) == CrcBytes(b, littleEndian) ==> a == b
  {
    var x, y := CrcBytes(a, littleEndian), CrcBytes(b, littleEndian);
    if x == y {
      assert x[0] == y[0] && x[1] == y[1];
    }
  }

  /** A packet in which one byte, or two neighbouring ones, changed after the checksum was made is never delivered. */
  lemma DamageIsDropped(delivered: seq<seq<bv8>>, p: seq<bv8>, sent: seq<bv8>, got: seq<bv8>, s: seq<bv8>,
                        littleEndian: bool)
    requires 1 <= |sent| == |got| <= 2 && sent != got
    ensures var bytes := Body(p + got + s + CrcBytes(Crc(p + sent + s), littleEndian)) + [SLIP_END];
      TakeAll(Initial(delivered), bytes, littleEndian) == Initial(delivered)
  {
    hide TakeAll, Crc, Body;
    var packet, crcs := p + got + s, CrcBytes(Crc(p + sent + s), littleEndian);
    var data := packet + crcs;
    assert data[..|data| - 2] == packet && data[|data| - 2..] == crcs;
    if |sent| == 1 {
      assert sent == [sent[0]] && got == [got[0]];
      OneByteChanged(p, sent[0], got[0], s);
    } else {
      assert sent == [sent[0], sent[1]] && got == [got[0], got[1]];
      AdjacentBytesChanged(p, sent[0], sent[1], got[0], got[1], s);
    }
    hide CrcBytes;
    CrcBytesInjective(Crc(packet), Crc(p + sent + s), littleEndian);
    TakeData(delivered, data, littleEndian);
  }
}
