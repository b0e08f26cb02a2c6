/** Runs of the message builder in which it does not do what it is for. */
module CoapExamples {
  import opened Bytes
  import opened OptionWire
  import opened OptionList
  import opened CoapScan
  import opened CoapPdu
  import opened CoapRoundTrip

  /** The header of a new message. */
  const NEW: seq<byte> := [0x40, 0, 0, 0]

  /** A message without token in a buffer of the caller. */
  ghost predicate Plain(p: CoapPDU)
    reads p, p.pdu
  {
    p.Valid() && p.PayloadTracked() && p.constructedFromBuffer && p.tail == [] && Head(p.Message()) == NEW
  }

  lemma OneLength(o: Opt)
    requires |o.value| < 0x1_0000
    ensures Insert([], o) == [o] && EncodedLength([o]) == OptionLength(o.number, |o.value|)
  {
    assert Sorted(0, [o]);
    OneOption(0, o);
  }

  lemma TwoLength(o: Opt, o': Opt)
    requires |o.value| < 0x1_0000 && |o'.value| < 0x1_0000 && o.number <= o'.number
    ensures Insert([o], o') == [o, o']
    ensures EncodedLength([o, o']) == OptionLength(o.number, |o.value|) + OptionLength(o'.number - o.number, |o'.value|)
  {
    assert [o, o'] == [o] + [o'];
    assert Sorted(0, [o, o']);
    EncodeAppend(0, [o], [o']);
    OneOption(0, o);
    OneOption(o.number, o');
  }

  lemma NewHead(b: seq<byte>)
    requires b == NEW
    ensures HeadLength(b) == 4 && Head(b) == b
  {}

  lemma HeadOfNew(b: seq<byte>, opts: seq<Opt>, tail: seq<byte>)
    requires Means(b, opts, tail) && Head(b) == NEW
    ensures HeadLength(b) == 4 && b == NEW + (Encode(0, opts) + tail)
  {
    MessageParts(b, NEW, opts, tail);
    assert |Head(b)| == HeadLength(b);
  }

  /** `addOption` for a short value. */
  method TryAdd(p: CoapPDU, o: Opt) returns (r: int)
    requires Plain(p) && |o.value| < 269 && (p.opts != [] || p.maxAddedOptionNumber == 0)
    modifies p, p.pdu
    ensures Plain(p) && p.pdu == old(p.pdu)
    ensures
      var was, max := old(p.opts), old(p.maxAddedOptionNumber);
      var number := EffectiveNumber(was, [], max, o.number);
      var fits := 4 + EncodedLength(Insert(was, Opt(number, o.value))) <= p.pdu.Length;
      && r == (if fits then 0 else 1) && p.opts == (if fits then Insert(was, Opt(number, o.value)) else was)
      && p.maxAddedOptionNumber == if o.number >= Last(0, was) then o.number else max
  {
    hide Insert, EncodedLength, InHole, Encode, Sorted, EffectiveNumber, Means, Head, HeadLength, StoredAs,
         Overwritten, Meaningless;
    HeadOfNew(p.Message(), p.opts, []);
    ghost var stored, at, end;
    r, stored, at, end := p.AddOption(o.number, o.value);
    if r == 0 {
      ShortStored(stored, o.value);
    }
  }

  // ----- a refused option and a long value -----

  /** A refused option changes the number of a later one: in a buffer of 8 bytes the calls for options 11, 60 and
      61 return 0, 1 and 0, and the message holds options 11 and 12. */
  method RefusedAppendExample(x: byte, y: byte) returns (p: CoapPDU, r11: int, r60: int, r61: int)
    ensures r11 == 0 && r60 == 1 && r61 == 0
    ensures p.WellFormed() && p.opts == [Opt(11, [x]), Opt(12, [y])]
  {
    hide Means, Insert, EncodedLength, Head, EffectiveNumber;
    var buffer := new byte[8](_ => 0);
    p := new CoapPDU.InBuffer(buffer);
    NewHead(p.Message());
    var long := seq(10, _ => 0);
    RefusedAppendSizes(x, y, long);
    r11 := TryAdd(p, Opt(11, [x]));
    r60 := TryAdd(p, Opt(60, long));
    r61 := TryAdd(p, Opt(61, [y]));
  }

  lemma RefusedAppendSizes(x: byte, y: byte, long: seq<byte>)
    requires |long| == 10
    ensures EffectiveNumber([], [], 0, 11) == 11
    ensures Insert([], Opt(11, [x])) == [Opt(11, [x])] && EncodedLength([Opt(11, [x])]) == 2
    ensures EffectiveNumber([Opt(11, [x])], [], 11, 60) == 60
    ensures EncodedLength(Insert([Opt(11, [x])], Opt(60, long))) == 14
    ensures EffectiveNumber([Opt(11, [x])], [], 60, 61) == 12
    ensures Insert([Opt(11, [x])], Opt(12, [y])) == [Opt(11, [x]), Opt(12, [y])]
    ensures EncodedLength([Opt(11, [x]), Opt(12, [y])]) == 4
  {
    hide Insert, EncodedLength;
    OneLength(Opt(11, [x]));
    TwoLength(Opt(11, [x]), Opt(60, long));
    TwoLength(Opt(11, [x]), Opt(12, [y]));
  }

  /** A value of 300 bytes, all 1, goes into a zeroed buffer: only the first 31 of them arrive. */
  method LongValueExample() returns (p: CoapPDU, r: int)
    ensures r == 0 && p.WellFormed()
    ensures p.opts == [Opt(11, seq(300, i => if i < 31 then 1 else 0))]
  {
    hide Means, Insert, EncodedLength, Head, Encode, EncodeOne, Sorted, Overwritten, Meaningless, MovedUp, Stored;
    var buffer := new byte[400](_ => 0);
    p := new CoapPDU.InBuffer(buffer);
    ghost var was := p.pdu[..];
    assert forall i :: 4 <= i < 400 ==> was[i] == buffer[4..][i - 4];
    var value: seq<byte> := seq(300, _ => 1);
    OneLength(Opt(11, value));
    ghost var stored, at, end;
    r, stored, at, end := p.AddOption(11, value);
    OneLength(Opt(11, stored));
    assert stored == seq(300, i => if i < 31 then 1 else 0) by { ZeroHole(stored, value, was, p.pduLength, at, end); }
  }

  lemma ZeroHole(stored: seq<byte>, value: seq<byte>, was: seq<byte>, m: nat, at: nat, end: nat)
    requires value == seq(300, _ => 1) && InHole(stored, value, was, 4, m, 4, end) && end == m
    requires forall i :: 4 <= i < |was| ==> was[i] == 0
    ensures stored == seq(300, i => if i < 31 then 1 else 0)
  {
    assert MovedUp(was, m, m - 4, 0) == was;
  }

  // ----- options behind a payload -----

  /** A message in a buffer of 10 bytes with option 11 and a payload of one byte; `refused` says that option 60 was
      tried in between. */
  method WithPayload(x: byte, z: byte, refused: bool) returns (p: CoapPDU)
    ensures fresh(p) && fresh(p.pdu) && p.Valid() && p.constructedFromBuffer && p.pdu.Length == 10
    ensures p.opts == [Opt(11, [x])] && p.tail == [PAYLOAD_MARKER, z] && Head(p.Message()) == NEW
    ensures p.PayloadTracked() && p.maxAddedOptionNumber == if refused then 60 else 11
  {
    hide Means, Insert, EncodedLength, Head, EffectiveNumber, Encode, Sorted;
    var buffer := new byte[10](_ => 0);
    p := new CoapPDU.InBuffer(buffer);
    NewHead(p.Message());
    var long := seq(10, _ => 0);
    RefusedAppendSizes(x, x, long);
    var r := TryAdd(p, Opt(11, [x]));
    if refused {
      r := TryAdd(p, Opt(60, long));
    }
    WithPayloadBytes(p.Message(), x, []);
    r := p.SetPayload([z]);
  }

  lemma WithPayloadBytes(b: seq<byte>, x: byte, tail: seq<byte>)
    requires Means(b, [Opt(11, [x])], tail) && Head(b) == NEW
    ensures b == NEW + [0xB1, x] + tail && b[0] / 64 == 1 && ValidCode(b[1])
  {
    HeadOfNew(b, [Opt(11, [x])], tail);
    OneOption(0, Opt(11, [x]));
  }

  /** An option that should go last becomes payload: option 20 behind the payload byte `z` succeeds, and the message,
      still valid, has option 11 only and a payload of three bytes. */
  method BecomesPayloadExample(x: byte, y: byte, z: byte, behind: seq<byte>) returns (p: CoapPDU, r: int, valid: int)
    requires |behind| >= 2
    ensures r == 0 && valid == 1 && p.WellFormed()
    ensures p.opts == [Opt(11, [x])] && p.tail == [PAYLOAD_MARKER, z, 0x91, y]
  {
    hide Means, Insert, Head, StoredAs, Overwritten, Meaningless, InHole, Accepts, ScanMessage, AllIn, OptionsIn;
    p := WithPayload(x, z, false);
    WithPayloadBytes(p.Message(), x, p.tail);
    ghost var stored, at, end;
    r, stored, at, end := p.AddOption(20, [y]);
    ShortStored(stored, [y]);
    assert EncodeOne(9, [y]) == [0x91, y];
    WithPayloadBytes(p.Message(), x, p.tail);
    ghost var beyond := p.pdu[p.pduLength..] + behind;
    assert p.Message() + beyond == p.pdu[..] + behind;
    MeansParses(p.Message(), p.opts, p.tail, beyond);
    AcceptsIs(p.Message() + beyond, p.pduLength);
    valid := p.Validate(behind);
  }

  /** Between the last option and a refused one, the payload marker is overwritten: option 20 succeeds, but the message
      has lost its payload, ends in a reserved header byte and is refused by `validate`. */
  method OverwrittenMarkerExample(x: byte, y: byte, z: byte, behind: seq<byte>) returns (p: CoapPDU, r: int, valid: int)
    requires |behind| >= 2
    ensures p.Buffered() && r == 0 && valid == 0
    ensures p.Message() == NEW + [0xB1, x, 0x91, y, 0x6F] && Meaningless(p.Message())
  {
    hide Means, Insert, Head, StoredAs, Meaningless, InHole, Accepts;
    p := WithPayload(x, z, true);
    WithPayloadBytes(p.Message(), x, p.tail);
    ghost var stored, at, end;
    r, stored, at, end := p.AddOption(20, [y]);
    ShortStored(stored, [y]);
    assert EncodeOne(9, [y]) == [0x91, y];
    assert Overwritten(6, [PAYLOAD_MARKER, z]) == [0x6F];
    RefusedBehind(p, behind);
    valid := p.Validate(behind);
  }

  lemma RefusedBehind(p: CoapPDU, behind: seq<byte>)
    requires p.Buffered() && Meaningless(p.Message()) && |behind| >= 2
    ensures !Accepts(p.pdu[..] + behind, p.pduLength)
  {
    hide Accepts, Means;
    var beyond := p.pdu[p.pduLength..] + behind;
    assert p.Message() + beyond == p.pdu[..] + behind;
  }

  /** An option in front of a payload moves it: the payload byte goes from position 7 to 9, the recorded position
      does not. */
  method StalePositionExample(x: byte, y: byte, z: byte) returns (p: CoapPDU, r: int)
    ensures r == 0 && p.Valid() && p.opts == [Opt(5, [y]), Opt(11, [x])] && p.tail == [PAYLOAD_MARKER, z]
    ensures p.pduLength == 10 && p.pdu[9] == z && p.payloadPointer == 7
  {
    hide Means, Insert, Head, StoredAs, Overwritten, Meaningless, InHole, Encode, EncodedLength, Sorted;
    p := WithPayload(x, z, false);
    WithPayloadBytes(p.Message(), x, p.tail);
    StaleSizes(x, y);
    HeadOfNew(p.Message(), p.opts, p.tail);
    ghost var stored, at, end;
    r, stored, at, end := p.AddOption(5, [y]);
    ShortStored(stored, [y]);
    HeadOfNew(p.Message(), p.opts, p.tail);
    EncodingLength(p.Message(), p.opts, p.tail);
    TailIsLast(p.Message(), p.opts, p.tail);
    assert p.Message()[8..][1] == z;
  }

  lemma StaleSizes(x: byte, y: byte)
    ensures Insert([Opt(11, [x])], Opt(5, [y])) == [Opt(5, [y]), Opt(11, [x])]
    ensures EncodedLength([Opt(5, [y]), Opt(11, [x])]) == 4
  {
    hide EncodedLength;
    TwoLength(Opt(5, [y]), Opt(11, [x]));
  }

  lemma EncodingLength(b: seq<byte>, opts: seq<Opt>, tail: seq<byte>)
    requires Means(b, opts, tail)
    ensures |b| == HeadLength(b) + EncodedLength(opts) + |tail|
  {
    assert |b| == HeadLength(b) + |b[HeadLength(b)..]|;
  }

  // ----- a long token -----

  /** A token of 9 bytes is accepted, and leaves the length of the old one in the header: the message no longer
      means what it did. */
  method LongTokenExample(token: seq<byte>) returns (p: CoapPDU, r: int)
    requires |token| == 9
    ensures r == 0 && p.Buffered() && p.Message() == NEW + token
    ensures !Means(p.Message(), p.opts, p.tail) && p.opts == [] && p.tail == []
  {
    p := new CoapPDU.Dynamic();
    NewHead(p.Message());
    RetokenedMeaning(p.Message(), p.opts, p.tail, token);
    ghost var b := p.Message();
    assert Retokened(b, token) == NEW + token;
    hide Means, Retokened;
    r := p.SetToken(token);
  }
}
