/** Building a message and parsing it again. */
module CoapRoundTrip {
  import opened Bytes
  import opened OptionWire
  import opened OptionList
  import opened CoapScan
  import opened CoapPdu
  import opened CoapRuns

  /** Every message with version 1 and a valid code parses, and gives back its options and its payload. */
  lemma MeansParses(b: seq<byte>, opts: seq<Opt>, tail: seq<byte>, behind: seq<byte>)
    requires Means(b, opts, tail) && b[0] / 64 == 1 && ValidCode(b[1]) && |behind| >= 2
    ensures Accepts(b + behind, |b|)
    ensures var s := ScanMessage(b + behind, |b|);
      && AllIn(s.recs, |b + behind|) && OptionsIn(b + behind, s.recs) == opts && |s.recs| == |opts|
      && s.end == |b| - |tail| && (b + behind)[s.end..|b|] == tail
  {
    hide Encode, ScanFrom, OptionsIn, AllIn, Head;
    MeansScans(b, opts, tail, behind);
    Slices(b, behind, |b|);
  }

  lemma AcceptsIs(b: seq<byte>, n: nat)
    requires n + 2 <= |b| && Accepts(b, n)
    ensures n >= 4 && HeadLength(b) <= n && ScanMessage(b, n).Complete?
  {}

  /** The header that the setters build. */
  function HeaderOf(kind: byte, code: byte, messageID: uint16, tokenLength: nat): seq<byte>
    requires kind in {0x00, 0x10, 0x20, 0x30} && tokenLength <= 8
  {
    [0x40 + kind + tokenLength, code, messageID / 0x100, messageID % 0x100]
  }

  /** `addOption` on a message without payload: stored in its place, or refused. */
  method AddNext(p: CoapPDU, o: Opt) returns (ok: bool, ghost stored: seq<byte>)
    requires p.Valid() && p.tail == [] && p.maxAddedOptionNumber == Last(0, p.opts)
    requires |o.value| <= 65530
    modifies p, p.pdu
    ensures p.pdu == old(p.pdu) || fresh(p.pdu)
    ensures p.payloadPointer == old(p.payloadPointer) && p.payloadLength == old(p.payloadLength)
    ensures !p.constructedFromBuffer ==> ok
    ensures p.Valid() && p.tail == [] && Head(p.Message()) == Head(old(p.Message()))
    ensures ok ==>
      && p.maxAddedOptionNumber == Last(0, p.opts)
      && StoredAs(stored, o.value) && p.opts == Insert(old(p.opts), Opt(o.number, stored))
    ensures !ok ==> p.Message() == old(p.Message()) && p.opts == old(p.opts)
  {
    hide Means, Insert, Head, Needed, InHole, StoredAs, Overwritten, Meaningless;
    var r;
    ghost var at, end;
    r, stored, at, end := p.AddOption(o.number, o.value);
    ok := r == 0;
  }

  /** A message as both constructors leave it. */
  ghost predicate Blank(p: CoapPDU)
    reads p, p.pdu
  {
    && p.Valid() && p.PayloadTracked() && p.opts == [] && p.tail == [] && p.maxAddedOptionNumber == 0
    && p.Message() == [0x40, 0, 0, 0]
  }

  /** Header and token of a new message; a caller's buffer may be too small for the token. */
  method StartMessage(p: CoapPDU, kind: byte, code: byte, messageID: uint16, token: seq<byte>) returns (given: bool)
    requires Blank(p) && kind in {0x00, 0x10, 0x20, 0x30} && 1 <= |token| <= 8
    modifies p, p.pdu
    ensures p.pdu == old(p.pdu) || fresh(p.pdu)
    ensures p.Valid() && p.PayloadTracked() && p.opts == [] && p.tail == [] && p.maxAddedOptionNumber == 0
    ensures p.constructedFromBuffer || given
    ensures p.Message() == HeaderOf(kind, code, messageID, if given then |token| else 0) + (if given then token else [])
    ensures Head(p.Message()) == p.Message()
  {
    FreshRetokened(p.Message(), token);
    RetokenedMeaning(p.Message(), p.opts, p.tail, token);
    hide Means, Retokened, Head, HeadLength;
    var r := p.SetToken(token);
    given := r == 0;
    ghost var t: seq<byte> := if given then token else [];
    assert p.Message() == [0x40 + |t|, 0, 0, 0] + t;
    FillHeader(p, kind, code, messageID, t);
    HeadIsAll(p.Message(), kind, code, messageID, t);
  }

  /** A message built from parts. In a caller's buffer the token, some options and the payload may be refused. */
  method Build(p: CoapPDU, kind: byte, code: byte, messageID: uint16, token: seq<byte>, adds: seq<Opt>,
               payload: seq<byte>)
      returns (tokenSet: bool, results: seq<int>, ghost calls: seq<Call>, payloadSet: bool)
    requires Blank(p) && kind in {0x00, 0x10, 0x20, 0x30} && 1 <= |token| <= 8
    requires forall o :: o in adds ==> |o.value| <= 65530
    modifies p, p.pdu
    ensures !p.constructedFromBuffer ==> tokenSet && payloadSet == (payload != [])
    ensures Asked(calls, adds, results) && Outcome(calls, adds, !p.constructedFromBuffer)
    ensures p.opts == InsertAll(Added(calls)) && StableSortOf(p.opts, Added(calls))
    ensures p.WellFormed() && p.tail == if payloadSet then [PAYLOAD_MARKER] + payload else []
    ensures var t := if tokenSet then token else [];
      Head(p.Message()) == HeaderOf(kind, code, messageID, |t|) + t
  {
    hide InsertAll, HeaderOf, Head, StableSortOf, Added, Outcome, Answers, Encode, Sorted;
    tokenSet := StartMessage(p, kind, code, messageID, token);
    results, calls := AddAll(p, adds);
    payloadSet := false;
    if payload != [] {
      var r := p.SetPayload(payload);
      payloadSet := r == 0;
    }
  }

  /** What `validate`, `getOptions` and the getters say about a message built from parts: what was accepted is
      read back. */
  method BuildThenParse(p: CoapPDU, kind: byte, code: byte, messageID: uint16, token: seq<byte>, adds: seq<Opt>,
                        payload: seq<byte>, behind: seq<byte>)
      returns (tokenSet: bool, results: seq<int>, ghost calls: seq<Call>, payloadSet: bool,
               valid: int, options: seq<Rec>)
    requires Blank(p)
    requires kind in {0x00, 0x10, 0x20, 0x30} && ValidCode(code) && 1 <= |token| <= 8 && |behind| >= 2
    requires forall o :: o in adds ==> |o.value| <= 65530
    modifies p, p.pdu
    ensures !p.constructedFromBuffer ==> tokenSet && payloadSet == (payload != [])
    ensures Asked(calls, adds, results) && Outcome(calls, adds, !p.constructedFromBuffer)
    ensures p.opts == InsertAll(Added(calls)) && StableSortOf(p.opts, Added(calls))
    ensures p.WellFormed() && valid == 1 && p.numOptions == |p.opts|
    ensures AllIn(options, |p.pdu[..] + behind|) && OptionsIn(p.pdu[..] + behind, options) == p.opts
    ensures p.payloadLength == if payloadSet then |payload| else 0
    ensures payloadSet ==> 0 <= p.payloadPointer <= p.pduLength && p.pdu[p.payloadPointer..p.pduLength] == payload
    ensures p.GetVersion() == 1 && p.GetType() == kind && p.GetCode() == code && p.GetMessageID() == messageID
    ensures p.GetToken() == if tokenSet then token else []
  {
    hide Means, InsertAll, HeaderOf, Head, StableSortOf, Added, Outcome, Answers, AllIn, OptionsIn;
    tokenSet, results, calls, payloadSet := Build(p, kind, code, messageID, token, adds, payload);
    valid, options := ReadAll(p, kind, code, messageID, if tokenSet then token else [], behind);
  }

  /** `validate`, `getOptions` and the getters on a message with a header as the setters build it. */
  method ReadAll(p: CoapPDU, ghost kind: byte, ghost code: byte, ghost messageID: uint16, ghost t: seq<byte>,
                 behind: seq<byte>)
      returns (valid: int, options: seq<Rec>)
    requires p.WellFormed() && |behind| >= 2 && kind in {0x00, 0x10, 0x20, 0x30} && ValidCode(code) && |t| <= 8
    requires Head(p.Message()) == HeaderOf(kind, code, messageID, |t|) + t
    modifies p`numOptions, p`payloadPointer, p`payloadLength
    ensures valid == 1 && p.WellFormed()
    ensures p.payloadLength == (if p.tail == [] then 0 else |p.tail| - 1)
    ensures p.tail != [] ==> 0 <= p.payloadPointer <= p.pduLength && p.pdu[p.payloadPointer..p.pduLength] == p.tail[1..]
    ensures AllIn(options, |p.pdu[..] + behind|) && OptionsIn(p.pdu[..] + behind, options) == p.opts
    ensures p.GetVersion() == 1 && p.GetType() == kind && p.GetCode() == code && p.GetMessageID() == messageID
    ensures p.GetToken() == t
  {
    hide Means, HeaderOf, Head, AllIn, OptionsIn;
    HeaderRead(p, p.opts, p.tail, kind, code, messageID, t);
    valid, options := ParseBack(p, behind);
    HeaderRead(p, p.opts, p.tail, kind, code, messageID, t);
  }

  /** The getters read the header that was written. */
  lemma HeaderRead(p: CoapPDU, opts: seq<Opt>, tail: seq<byte>, kind: byte, code: byte, messageID: uint16, t: seq<byte>)
    requires p.Buffered() && Means(p.Message(), opts, tail)
    requires kind in {0x00, 0x10, 0x20, 0x30} && |t| <= 8
    requires Head(p.Message()) == HeaderOf(kind, code, messageID, |t|) + t
    ensures p.GetVersion() == 1 && p.GetType() == kind && p.GetCode() == code && p.GetMessageID() == messageID
    ensures HeadLength(p.Message()) <= p.pduLength && p.GetToken() == t
  {
    var b, head := p.Message(), Head(p.Message());
    assert forall i :: 0 <= i < |head| ==> b[i] == head[i] == p.pdu[i];
    assert HeaderOf(kind, code, messageID, |t|)[0] == head[0];
    assert p.pdu[4..4 + |t|] == head[4..] == t;
  }

  /** `validate` and `getOptions` on a message that was built here. */
  method ParseBack(p: CoapPDU, behind: seq<byte>) returns (valid: int, options: seq<Rec>)
    requires p.WellFormed() && |behind| >= 2
    requires p.pdu[0] / 64 == 1 && ValidCode(p.pdu[1])
    modifies p`numOptions, p`payloadPointer, p`payloadLength
    ensures valid == 1 && p.WellFormed()
    ensures p.payloadLength == (if p.tail == [] then 0 else |p.tail| - 1)
    ensures p.tail != [] ==> 0 <= p.payloadPointer <= p.pduLength && p.pdu[p.payloadPointer..p.pduLength] == p.tail[1..]
    ensures AllIn(options, |p.pdu[..] + behind|) && OptionsIn(p.pdu[..] + behind, options) == p.opts
  {
    hide Means, ScanMessage, Accepts;
    ghost var b := p.Message();
    ghost var beyond := p.pdu[p.pduLength..] + behind;
    assert b + beyond == p.pdu[..] + behind;
    MeansParses(b, p.opts, p.tail, beyond);
    AcceptsIs(b + beyond, |b|);
    valid := p.Validate(behind);
    options := p.GetOptions(behind);
  }

  method FillHeader(p: CoapPDU, kind: byte, code: byte, messageID: uint16, ghost token: seq<byte>)
    requires p.WellFormed() && kind in {0x00, 0x10, 0x20, 0x30} && |token| <= 8
    requires p.Message() == [0x40 + |token|, 0, 0, 0] + token
    modifies p.pdu
    ensures p.WellFormed() && p.Message() == HeaderOf(kind, code, messageID, |token|) + token
  {
    hide Means;
    var hi, lo := messageID / 0x100, messageID % 0x100;
    p.SetType(kind);
    assert p.Message() == [0x40 + kind + |token|, 0, 0, 0] + token;
    p.SetCode(code);
    assert p.Message() == [0x40 + kind + |token|, code, 0, 0] + token;
    p.SetMessageID(messageID);
    assert p.Message() == [0x40 + kind + |token|, code, hi, lo] + token;
  }

  lemma FreshRetokened(b: seq<byte>, token: seq<byte>)
    requires b == [0x40, 0, 0, 0] && 1 <= |token| <= 8
    ensures HeadLength(b) == 4 && Retokened(b, token) == [0x40 + |token|, 0, 0, 0] + token
  {}

  lemma HeadIsAll(b: seq<byte>, kind: byte, code: byte, messageID: uint16, token: seq<byte>)
    requires kind in {0x00, 0x10, 0x20, 0x30} && |token| <= 8
    requires b == HeaderOf(kind, code, messageID, |token|) + token
    ensures HeadLength(b) == |b| && Head(b) == b
  {}
}
