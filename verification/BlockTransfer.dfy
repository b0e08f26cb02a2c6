/** Blockwise transfer of a resource (Block2): libcoap's server half and the client that collects the blocks. */
module BlockTransfer {
  import opened Bytes
  import opened VarBytes
  import opened LibcoapOption
  import opened Powers

  const COAP_OPTION_BLOCK2: uint16 := 23

  /** The range of `size_t`. */
  const SIZE_RANGE: nat := 0x1_0000_0000_0000_0000

  /** The most a Block option can number: 3 bytes of option value with 4 bits for M and SZX. */
  const MAX_NUM: nat := 0x10_0000
  const MAX_RESOURCE: nat := 0x100_0000

  // ----- the value of a Block option -----

  datatype BlockInfo = BlockInfo(num: nat, m: bool, szx: nat)

  function Value(b: BlockInfo): nat {
    b.num * 16 + (if b.m then 8 else 0) + b.szx
  }

  /** What `coap_get_block` reads: `coap_opt_block_num` and the last byte's M and SZX fields. */
  function GetBlock(option: seq<byte>): BlockInfo {
    if option == [] then BlockInfo(0, false, 0)
    else
      var last := option[|option| - 1];
      BlockInfo((Decode(option[..|option| - 1]) * 16 + last / 16) % WORD, last / 8 % 2 == 1, last % 8)
  }

  /** Encoding and reading a Block option gives back its three fields. */
  lemma BlockRoundTrip(b: BlockInfo)
    requires b.szx < 8 && b.num < WORD / 16
    ensures GetBlock(VarBytes.VarBytes(Value(b))) == b
  {
    var v := Value(b);
    if v > 0 {
      var option := VarBytes.VarBytes(v);
      assert option[..|option| - 1] == VarBytes.VarBytes(v / 256) && option[|option| - 1] == v % 256;
      DecodeEncoded(v / 256);
      Fields(b);
    }
  }

  /** Where the fields lie in the number that the option value is: four bits for M and SZX, the rest for NUM. */
  lemma BlockFields(option: seq<byte>)
    requires |option| <= 3
    ensures var v := Decode(option);
      GetBlock(option) == BlockInfo(v / 16, v / 8 % 2 == 1, v % 8)
  {
    if option != [] {
      var hi, last: nat := Decode(option[..|option| - 1]), option[|option| - 1];
      DecodeBound(option[..|option| - 1]);
      assert Decode(option) == hi * 256 + last;
      SplitByte(hi, last);
    }
  }

  lemma {:induction false} DecodeBound(b: seq<byte>)
    requires |b| <= 2
    ensures Decode(b) < 0x1_0000 && (|b| <= 1 ==> Decode(b) < 0x100) && (b == [] ==> Decode(b) == 0)
  {
    if b != [] {
      DecodeBound(b[..|b| - 1]);
    }
  }

  lemma SplitByte(hi: nat, last: nat)
    requires last < 256 && hi < 0x1_0000
    ensures var v := hi * 256 + last;
      && (hi * 16 + last / 16) % WORD == v / 16 && last / 8 % 2 == v / 8 % 2 && last % 8 == v % 8
  {
    var mid, low := last / 16, last % 16;
    assert hi * 256 + last == (hi * 16 + mid) * 16 + low;
    SplitLow(hi * 16 + mid, low);
    SplitLow(mid, low);
  }

  lemma Fields(b: BlockInfo)
    requires b.szx < 8
    ensures var v := Value(b);
      v / 256 * 16 + v % 256 / 16 == b.num && (v % 256 / 8 % 2 == 1 <==> b.m) && v % 256 % 8 == b.szx
  {
    var low := (if b.m then 8 else 0) + b.szx;
    var hi, mid := b.num / 16, b.num % 16;
    assert b.num == hi * 16 + mid && Value(b) == hi * 256 + (mid * 16 + low);
    Split256(hi, mid * 16 + low);
    SplitLow(mid, low);
  }

  lemma SplitLow(mid: nat, low: nat)
    requires low < 16
    ensures (mid * 16 + low) / 16 == mid && (mid * 16 + low) / 8 % 2 == low / 8 && (mid * 16 + low) % 8 == low % 8
  {
    var bit, rest := low / 8, low % 8;
    assert low == bit * 8 + rest && mid * 16 + low == (mid * 2 + bit) * 8 + rest;
    Split8(mid * 2 + bit, rest);
  }

  lemma Split8(hi: nat, lo: nat)
    requires lo < 8
    ensures (hi * 8 + lo) / 8 == hi && (hi * 8 + lo) % 8 == lo
  {
  }

  lemma Split256(hi: nat, lo: nat)
    requires lo < 256
    ensures (hi * 256 + lo) / 256 == hi && (hi * 256 + lo) % 256 == lo
  {
  }

  // ----- choosing the block -----

  function Start(num: nat, szx: nat): nat {
    num * Pow2(szx + 4) % WORD
  }

  datatype Choice = Illegal | NoSpace | Send(block: BlockInfo)

  /** The decision in `coap_write_block_opt` for a resource of `len` bytes. */
  function Choose(num: nat, szx: nat, avail: nat, len: nat): Choice {
    var start, want := Start(num, szx), Pow2(szx + 4);
    if len <= start then Illegal
    else if want <= avail then Send(BlockInfo(num, want < len - start, szx))
    else if len - start <= avail then Send(BlockInfo(num, false, szx))
    else if avail < 16 then NoSpace
    else
      BitsRange(avail, szx + 4);
      var szx' := Bits(avail) - 5;
      Send(BlockInfo(num * Pow2(szx - szx') % WORD, true, szx'))
  }

  lemma {:induction false} BitsRange(avail: nat, n: nat)
    requires 16 <= avail < Pow2(n)
    ensures 5 <= Bits(avail) <= n && Pow2(Bits(avail) - 1) <= avail
  {
    BitsBracket(avail);
    if Bits(avail) > n { Pow2Grows(n, Bits(avail) - 1); }
    assert Pow2(4) == 16;
    if Bits(avail) < 5 { Pow2Grows(Bits(avail), 4); }
  }

  /** The number of bytes sent from `start` on. */
  function Count(start: nat, szx: nat, len: nat): nat
    requires start <= len
  {
    if len - start < Pow2(szx + 4) then len - start else Pow2(szx + 4)
  }

  /** The size `s` is `szx` if and only if that block, or all that remains, fits; else blocks of twice the size do
      not fit. */
  predicate LargestThatFits(s: nat, szx: nat, start: nat, avail: nat, len: nat) {
    && (s == szx <==> Pow2(szx + 4) <= avail || len - start <= avail)
    && (s < szx ==> Pow2(s + 4) <= avail < 2 * Pow2(s + 4))
  }

  /** A block that was chosen begins at the byte asked for, also when its size was lowered. It says that more
      follow just when bytes remain behind it, it is a full block then, and it fits in the space considered. Its size
      is the one asked for just when that block fits, or all that remains does; else it is the largest that fits. */
  lemma ChosenBlock(num: nat, szx: nat, avail: nat, len: nat)
    requires num < MAX_NUM && szx < 8 && avail >= 16 && len <= MAX_RESOURCE
    ensures Start(num, szx) == num * Pow2(szx + 4)
    ensures Choose(num, szx, avail, len) == Illegal <==> len <= Start(num, szx)
    ensures Choose(num, szx, avail, len) != NoSpace
    ensures Start(num, szx) < len ==>
      var b, start := Choose(num, szx, avail, len).block, Start(num, szx);
      && b.num < MAX_NUM && b.szx <= szx && b.num * Pow2(b.szx + 4) == start == Start(b.num, b.szx)
      && Count(start, b.szx, len) <= avail
      && (b.m <==> start + Count(start, b.szx, len) < len)
      && (b.m ==> Count(start, b.szx, len) == Pow2(b.szx + 4))
      && LargestThatFits(b.szx, szx, start, avail, len)
  {
    hide Pow2, Start, Bits;
    Offset(num, szx);
    var start := Start(num, szx);
    if start < len && avail < Pow2(szx + 4) && avail < len - start {
      BitsRange(avail, szx + 4);
      BitsBracket(avail);
      Pow2Next(Bits(avail) - 1);
      Lowered(num, szx, Bits(avail) - 5, len);
    }
  }

  /** With fewer than 16 bytes of space only what remains is sent, as it is asked for, and only if it fits. */
  lemma ChosenInLittleSpace(num: nat, szx: nat, avail: nat, len: nat)
    requires num < MAX_NUM && szx < 8 && avail < 16 && len <= MAX_RESOURCE
    ensures Choose(num, szx, avail, len) ==
      if len <= num * Pow2(szx + 4) then Illegal
      else if len - num * Pow2(szx + 4) <= avail then Send(BlockInfo(num, false, szx))
      else NoSpace
  {
    hide Pow2;
    Offset(num, szx);
    SixteenAtLeast(szx);
  }

  /** Of a resource of 5000 bytes, asked for in blocks of 1024 with space for 600, a block of 512 is sent. */
  lemma ChoiceExample()
    ensures Choose(0, 6, 600, 5000) == Send(BlockInfo(0, true, 5))
  {
    hide Choose;
    Pow2Of11();
    assert Pow2(9) == 512 && Pow2(10) == 1024;
    ChosenBlock(0, 6, 600, 5000);
    var b := Choose(0, 6, 600, 5000).block;
    if b.szx < 5 {
      Pow2Grows(b.szx + 5, 9);
      Pow2Next(b.szx + 4);
    }
    assert b.num * 512 == 0;
  }

  lemma Offset(num: nat, szx: nat)
    requires num < MAX_NUM && szx < 8
    ensures Start(num, szx) == num * Pow2(szx + 4)
  {
    hide Pow2;
    Pow2Grows(szx + 4, 11);
    Pow2Of11();
    NoWrap(num, Pow2(szx + 4));
  }

  lemma Pow2Of11()
    ensures Pow2(11) == 2048
  {
    assert Pow2(11) == 2 * Pow2(10) && Pow2(10) == 1024;
  }

  lemma NoWrap(num: nat, p: nat)
    requires num < MAX_NUM && p <= 2048
    ensures num * p % WORD == num * p
  {
    TimesGrows(num, p, 2048);
  }

  /** Lowering the block size renumbers the block without moving it. */
  lemma Lowered(num: nat, szx: nat, szx': nat, len: nat)
    requires num < MAX_NUM && szx' <= szx < 8 && Start(num, szx) < len <= MAX_RESOURCE
    ensures var num' := num * Pow2(szx - szx') % WORD;
      num' < MAX_NUM && num' * Pow2(szx' + 4) == Start(num, szx) == Start(num', szx')
  {
    hide Pow2;
    var p, p' := Pow2(szx - szx'), Pow2(szx' + 4);
    Offset(num, szx);
    Pow2Sum(szx - szx', szx' + 4);
    Regroup(num, p, p');
    SixteenAtLeast(szx');
    FewBlocks(num * p, p');
    Offset(num * p, szx');
  }

  lemma Regroup(num: nat, p: nat, p': nat)
    ensures num * p * p' == num * (p * p')
  {
  }

  lemma SixteenAtLeast(szx: nat)
    ensures Pow2(szx + 4) >= 16
  {
    Pow2Grows(4, szx + 4);
    assert Pow2(4) == 16;
  }

  lemma FewBlocks(n: nat, p: nat)
    requires p >= 16 && n * p < MAX_RESOURCE
    ensures n < MAX_NUM
  {
    TimesGrows(n, 16, p);
  }

  // ----- one response -----

  /** The response under construction when the Block option is to be added. */
  datatype Room = Room(maxSize: nat, length: nat, maxDelta: uint16)

  /** Options may still be added, and 16 bytes are left besides the 4 that the code sets aside. */
  predicate Spacious(room: Room) {
    room.maxDelta <= COAP_OPTION_BLOCK2 && room.length + 4 + 16 <= room.maxSize < SIZE_RANGE
  }

  function Avail(room: Room): nat {
    (room.maxSize - room.length - 4) % SIZE_RANGE
  }

  function OptionSize(room: Room, value: seq<byte>): nat
    requires room.maxDelta <= COAP_OPTION_BLOCK2
  {
    |Encoded(COAP_OPTION_BLOCK2 - room.maxDelta, value)|
  }

  /** The test of `coap_add_data` behind an option with this value: room for `count` bytes and the marker. */
  predicate Fits(room: Room, value: seq<byte>, count: nat)
    requires room.maxDelta <= COAP_OPTION_BLOCK2
  {
    room.length + OptionSize(room, value) + count + 1 <= room.maxSize
  }

  datatype Reply = Reply(option: seq<byte>, payload: seq<byte>)

  /** A block of the resource. */
  function Slice(resource: seq<byte>, b: BlockInfo): seq<byte>
    requires Start(b.num, b.szx) <= |resource|
  {
    var start := Start(b.num, b.szx);
    resource[start..start + Count(start, b.szx, |resource|)]
  }

  /** The request for a block: the numbers fit the wire format and the block exists. */
  predicate Askable(resource: seq<byte>, num: nat, szx: nat) {
    |resource| <= MAX_RESOURCE && num < MAX_NUM && szx < 8 && Start(num, szx) < |resource|
  }

  /** The block a spacious response is for. */
  function Chosen(resource: seq<byte>, num: nat, szx: nat, room: Room): (b: BlockInfo)
    requires Askable(resource, num, szx) && Spacious(room)
    ensures b.num < MAX_NUM && b.szx <= szx && Start(b.num, b.szx) == Start(num, szx)
  {
    ChosenBlock(num, szx, Avail(room), |resource|);
    Choose(num, szx, Avail(room), |resource|).block
  }

  /** The payload does not get lost. */
  predicate Delivered(resource: seq<byte>, num: nat, szx: nat, room: Room)
    requires Askable(resource, num, szx) && Spacious(room)
  {
    var b := Chosen(resource, num, szx, room);
    Fits(room, VarBytes.VarBytes(Value(b)), |Slice(resource, b)|)
  }

  /** What a spacious response carries: the Block option always, the payload when it fits behind it. */
  function Answer(resource: seq<byte>, num: nat, szx: nat, room: Room): (r: Reply)
    requires Askable(resource, num, szx) && Spacious(room)
  {
    var b := Chosen(resource, num, szx, room);
    Reply(VarBytes.VarBytes(Value(b)), if Delivered(resource, num, szx, room) then Slice(resource, b) else [])
  }

  /** The Block option of the client's next request: the block behind, of the size it was sent. */
  function AskNext(option: seq<byte>): seq<byte> {
    var b := GetBlock(option);
    VarBytes.VarBytes(Value(BlockInfo(b.num + 1, false, b.szx)))
  }

  /** What a response means to the client: the payload starts at the byte asked for, and either all of the
      resource is covered or the next request asks for the byte behind it. */
  lemma AnswerIs(resource: seq<byte>, num: nat, szx: nat, room: Room)
    requires Askable(resource, num, szx) && Spacious(room)
    ensures var r, b := Answer(resource, num, szx, room), GetBlock(Answer(resource, num, szx, room).option);
      var start, count := Start(num, szx), Count(Start(num, szx), b.szx, |resource|);
      && count > 0 && b.num < MAX_NUM && LargestThatFits(b.szx, szx, start, Avail(room), |resource|)
      && r.payload == (if Delivered(resource, num, szx, room) then resource[start..start + count] else [])
      && (b.m ==> var next := GetBlock(AskNext(r.option));
                  Askable(resource, next.num, next.szx) && Start(next.num, next.szx) == start + count)
      && (!b.m ==> start + count == |resource|)
  {
    hide Choose, Start, Pow2, Value, GetBlock, Delivered, Avail, VarBytes.VarBytes;
    var b := ChosenIs(resource, num, szx, room);
    BlockRoundTrip(b);
    BlockRoundTrip(BlockInfo(b.num + 1, false, b.szx));
    if b.m {
      NextBlock(b, |resource|);
    }
  }

  /** `ChosenBlock` for a spacious response. */
  lemma ChosenIs(resource: seq<byte>, num: nat, szx: nat, room: Room) returns (b: BlockInfo)
    requires Askable(resource, num, szx) && Spacious(room)
    ensures b == Chosen(resource, num, szx, room)
    ensures var start, count := Start(num, szx), Count(Start(num, szx), b.szx, |resource|);
      && b.num < MAX_NUM && b.szx < 8 && b.num * Pow2(b.szx + 4) == start == Start(b.num, b.szx)
      && 0 < count <= Avail(room)
      && (b.m <==> start + count < |resource|) && (b.m ==> count == Pow2(b.szx + 4))
      && LargestThatFits(b.szx, szx, start, Avail(room), |resource|)
  {
    hide Choose, Start, Pow2;
    b := Chosen(resource, num, szx, room);
    ChosenBlock(num, szx, Avail(room), |resource|);
    SixteenAtLeast(b.szx);
  }

  lemma NextBlock(b: BlockInfo, len: nat)
    requires b.num < MAX_NUM && b.szx < 8 && b.num * Pow2(b.szx + 4) + Pow2(b.szx + 4) < len <= MAX_RESOURCE
    ensures b.num + 1 < MAX_NUM && Start(b.num + 1, b.szx) == b.num * Pow2(b.szx + 4) + Pow2(b.szx + 4)
  {
    hide Pow2;
    var p := Pow2(b.szx + 4);
    SixteenAtLeast(b.szx);
    assert (b.num + 1) * p == b.num * p + p;
    FewBlocks(b.num + 1, p);
    Offset(b.num + 1, b.szx);
  }

  // ----- a whole transfer -----

  /** All responses of a transfer from this request on: the `i`-th one has the space `rooms(i)`, and the client
      asks for the next block of the size it got until M is 0. It ends because each block moves on. */
  function Replies(resource: seq<byte>, num: nat, szx: nat, rooms: nat -> Room, i: nat): seq<Reply>
    requires Askable(resource, num, szx) && forall k :: Spacious(rooms(k))
    decreases |resource| - Start(num, szx)
  {
    AnswerIs(resource, num, szx, rooms(i));
    var r := Answer(resource, num, szx, rooms(i));
    var next := GetBlock(AskNext(r.option));
    [r] + if GetBlock(r.option).m then Replies(resource, next.num, next.szx, rooms, i + 1) else []
  }

  /** What the client writes to its output. */
  function Output(replies: seq<Reply>): seq<byte> {
    if replies == [] then [] else replies[0].payload + Output(replies[1..])
  }

  /** No response of the transfer loses its payload. */
  predicate Lossless(resource: seq<byte>, num: nat, szx: nat, rooms: nat -> Room, i: nat)
    requires Askable(resource, num, szx) && forall k :: Spacious(rooms(k))
    decreases |resource| - Start(num, szx)
  {
    AnswerIs(resource, num, szx, rooms(i));
    var option := Answer(resource, num, szx, rooms(i)).option;
    var next := GetBlock(AskNext(option));
    Delivered(resource, num, szx, rooms(i))
        && (GetBlock(option).m ==> Lossless(resource, next.num, next.szx, rooms, i + 1))
  }

  /** One response of a transfer: `more` tells whether the client asks for `next`. */
  lemma OneReply(resource: seq<byte>, num: nat, szx: nat, rooms: nat -> Room, i: nat)
      returns (part: seq<byte>, end: nat, more: bool, next: BlockInfo)
    requires Askable(resource, num, szx) && forall k :: Spacious(rooms(k))
    ensures var r := Answer(resource, num, szx, rooms(i));
      && GetBlock(r.option).num < MAX_NUM && more == GetBlock(r.option).m && next == GetBlock(AskNext(r.option))
      && r.payload == if Delivered(resource, num, szx, rooms(i)) then part else []
    ensures Start(num, szx) < end <= |resource| && part == resource[Start(num, szx)..end]
    ensures more ==> Askable(resource, next.num, next.szx) && Start(next.num, next.szx) == end
    ensures !more ==> end == |resource|
    ensures Output(Replies(resource, num, szx, rooms, i)) ==
      (if Delivered(resource, num, szx, rooms(i)) then part else [])
      + (if more then Output(Replies(resource, next.num, next.szx, rooms, i + 1)) else [])
  {
    hide Answer, Delivered, GetBlock, AskNext, Start, Askable, Output, Spacious;
    AnswerIs(resource, num, szx, rooms(i));
    var r := Answer(resource, num, szx, rooms(i));
    var b, start := GetBlock(r.option), Start(num, szx);
    more, next, end := b.m, GetBlock(AskNext(r.option)), start + Count(start, b.szx, |resource|);
    part := resource[start..end];
    NoOutput();
    OutputCons(r, if more then Replies(resource, next.num, next.szx, rooms, i + 1) else []);
  }

  /** The output of a transfer is the rest of the resource just when no payload is lost; else it is shorter. */
  lemma {:induction false} TransferFrom(resource: seq<byte>, num: nat, szx: nat, rooms: nat -> Room, i: nat)
    requires Askable(resource, num, szx) && forall k :: Spacious(rooms(k))
    ensures var out := Output(Replies(resource, num, szx, rooms, i));
      if Lossless(resource, num, szx, rooms, i) then out == resource[Start(num, szx)..]
      else |out| < |resource| - Start(num, szx)
    decreases |resource| - Start(num, szx)
  {
    hide Answer, Delivered, GetBlock, AskNext, Start, Askable, Output, Spacious, Replies;
    var part, end, more, next := OneReply(resource, num, szx, rooms, i);
    if more {
      TransferFrom(resource, next.num, next.szx, rooms, i + 1);
      assert resource[Start(num, szx)..] == part + resource[end..];
    } else {
      assert part + [] == resource[Start(num, szx)..];
    }
  }

  lemma NoOutput()
    ensures Output([]) == []
  {
  }

  lemma OutputCons(r: Reply, rest: seq<Reply>)
    ensures Output([r] + rest) == r.payload + Output(rest)
  {
    assert ([r] + rest)[1..] == rest;
  }

  lemma {:induction false} OutputAppend(a: seq<Reply>, b: seq<Reply>)
    ensures Output(a + b) == Output(a) + Output(b)
    decreases |a|
  {
    if a == [] {
      assert a + b == b;
    } else {
      OutputAppend(a[1..], b);
      assert (a + b)[1..] == a[1..] + b;
    }
  }

  /** A transfer from the start, with any block size asked for and any space in each response, delivers exactly
      the resource if and only if no payload is lost; the output is then a prefix of it all the way. */
  lemma TransferExact(resource: seq<byte>, szx: nat, rooms: nat -> Room)
    requires 0 < |resource| <= MAX_RESOURCE && szx < 8 && forall k :: Spacious(rooms(k))
    ensures Askable(resource, 0, szx)
    ensures var replies := Replies(resource, 0, szx, rooms, 0);
      && (Output(replies) == resource <==> Lossless(resource, 0, szx, rooms, 0))
      && (Lossless(resource, 0, szx, rooms, 0) ==> forall k :: 0 <= k <= |replies| ==> Output(replies[..k]) <= resource)
  {
    hide Replies, Lossless, Output, Spacious;
    TransferFrom(resource, 0, szx, rooms, 0);
    var replies := Replies(resource, 0, szx, rooms, 0);
    assert resource[0..] == resource;
    OutputPrefixes(replies);
  }

  lemma OutputPrefixes(replies: seq<Reply>)
    ensures forall k :: 0 <= k <= |replies| ==> Output(replies[..k]) <= Output(replies)
  {
    hide Output;
    forall k | 0 <= k <= |replies| ensures Output(replies[..k]) <= Output(replies) {
      OutputAppend(replies[..k], replies[k..]);
      assert replies == replies[..k] + replies[k..];
    }
  }

  // ----- what a lossy transfer leaves -----

  /** No response from this one on delivers its payload. */
  predicate NoneDelivered(resource: seq<byte>, num: nat, szx: nat, rooms: nat -> Room, i: nat)
    requires Askable(resource, num, szx) && forall k :: Spacious(rooms(k))
    decreases |resource| - Start(num, szx)
  {
    AnswerIs(resource, num, szx, rooms(i));
    var option := Answer(resource, num, szx, rooms(i)).option;
    var next := GetBlock(AskNext(option));
    !Delivered(resource, num, szx, rooms(i))
        && (GetBlock(option).m ==> NoneDelivered(resource, next.num, next.szx, rooms, i + 1))
  }

  /** No payload is delivered behind a lost one. */
  predicate LossLast(resource: seq<byte>, num: nat, szx: nat, rooms: nat -> Room, i: nat)
    requires Askable(resource, num, szx) && forall k :: Spacious(rooms(k))
    decreases |resource| - Start(num, szx)
  {
    AnswerIs(resource, num, szx, rooms(i));
    var option := Answer(resource, num, szx, rooms(i)).option;
    var next := GetBlock(AskNext(option));
    if Delivered(resource, num, szx, rooms(i))
    then GetBlock(option).m ==> LossLast(resource, next.num, next.szx, rooms, i + 1)
    else GetBlock(option).m ==> NoneDelivered(resource, next.num, next.szx, rooms, i + 1)
  }

  /** Blocks, losses and requests depend on the length of the resource alone. */
  lemma SameLength(a: seq<byte>, b: seq<byte>, num: nat, szx: nat, room: Room)
    requires |a| == |b| && Askable(a, num, szx) && Spacious(room)
    ensures Askable(b, num, szx) && Answer(a, num, szx, room).option == Answer(b, num, szx, room).option
    ensures Delivered(a, num, szx, room) == Delivered(b, num, szx, room)
  {
    hide Start, Choose, Value, Pow2, Avail;
  }

  lemma {:induction false} NothingFrom(resource: seq<byte>, num: nat, szx: nat, rooms: nat -> Room, i: nat)
    requires Askable(resource, num, szx) && forall k :: Spacious(rooms(k))
    requires NoneDelivered(resource, num, szx, rooms, i)
    ensures Output(Replies(resource, num, szx, rooms, i)) == []
    decreases |resource| - Start(num, szx)
  {
    hide Answer, Delivered, GetBlock, AskNext, Start, Askable, Output, Spacious, Replies;
    var part, end, more, next := OneReply(resource, num, szx, rooms, i);
    if more {
      NothingFrom(resource, next.num, next.szx, rooms, i + 1);
    }
  }

  lemma {:induction false} PrefixFrom(resource: seq<byte>, num: nat, szx: nat, rooms: nat -> Room, i: nat)
    requires Askable(resource, num, szx) && forall k :: Spacious(rooms(k))
    requires LossLast(resource, num, szx, rooms, i)
    ensures Output(Replies(resource, num, szx, rooms, i)) <= resource[Start(num, szx)..]
    decreases |resource| - Start(num, szx)
  {
    hide Answer, Delivered, GetBlock, AskNext, Start, Askable, Output, Spacious, Replies, NoneDelivered;
    var part, end, more, next := OneReply(resource, num, szx, rooms, i);
    assert resource[Start(num, szx)..] == part + resource[end..];
    if more {
      if Delivered(resource, num, szx, rooms(i)) {
        PrefixFrom(resource, next.num, next.szx, rooms, i + 1);
      } else {
        NothingFrom(resource, next.num, next.szx, rooms, i + 1);
      }
    }
  }

  /** Where the first payload delivered from here on begins. */
  lemma {:induction false} FirstDelivered(resource: seq<byte>, num: nat, szx: nat, rooms: nat -> Room, i: nat)
      returns (at: nat)
    requires Askable(resource, num, szx) && forall k :: Spacious(rooms(k))
    requires !NoneDelivered(resource, num, szx, rooms, i)
    ensures Start(num, szx) <= at < |resource|
    ensures forall w: seq<byte> :: |w| == |resource| ==>
      Askable(w, num, szx) && Output(Replies(w, num, szx, rooms, i)) != []
          && Output(Replies(w, num, szx, rooms, i))[0] == w[at]
    decreases |resource| - Start(num, szx)
  {
    hide Answer, Delivered, GetBlock, AskNext, Start, Askable, Output, Spacious, Replies;
    var part, end, more, next := OneReply(resource, num, szx, rooms, i);
    if Delivered(resource, num, szx, rooms(i)) {
      at := Start(num, szx);
    } else {
      at := FirstDelivered(resource, next.num, next.szx, rooms, i + 1);
    }
    forall w: seq<byte> | |w| == |resource|
      ensures Askable(w, num, szx) && Output(Replies(w, num, szx, rooms, i)) != []
           && Output(Replies(w, num, szx, rooms, i))[0] == w[at]
    {
      SameLength(resource, w, num, szx, rooms(i));
      var part', end', more', next' := OneReply(w, num, szx, rooms, i);
    }
  }

  /** A resource that shows it: all zeros but for the first byte delivered behind the first loss. */
  lemma {:induction false} NoPrefixFrom(resource: seq<byte>, num: nat, szx: nat, rooms: nat -> Room, i: nat)
      returns (w: seq<byte>)
    requires Askable(resource, num, szx) && forall k :: Spacious(rooms(k))
    requires !LossLast(resource, num, szx, rooms, i)
    ensures |w| == |resource| && Askable(w, num, szx)
    ensures !(Output(Replies(w, num, szx, rooms, i)) <= w[Start(num, szx)..])
    decreases |resource| - Start(num, szx)
  {
    hide Answer, Delivered, GetBlock, AskNext, Start, Askable, Output, Spacious, Replies, NoneDelivered;
    var part, end, more, next := OneReply(resource, num, szx, rooms, i);
    if Delivered(resource, num, szx, rooms(i)) {
      w := NoPrefixFrom(resource, next.num, next.szx, rooms, i + 1);
      SameLength(resource, w, num, szx, rooms(i));
      var part', end', more', next' := OneReply(w, num, szx, rooms, i);
      PrefixBehind(part', w[end'..], w[Start(num, szx)..], Output(Replies(w, next.num, next.szx, rooms, i + 1)));
    } else {
      var at := FirstDelivered(resource, next.num, next.szx, rooms, i + 1);
      w := seq(|resource|, k => if k == at then 1 else 0);
      SameLength(resource, w, num, szx, rooms(i));
      var part', end', more', next' := OneReply(w, num, szx, rooms, i);
      assert w[Start(num, szx)..][0] == 0;
    }
  }

  lemma PrefixBehind(part: seq<byte>, rest: seq<byte>, whole: seq<byte>, out: seq<byte>)
    requires whole == part + rest
    ensures part + out <= whole <==> out <= rest
  {
    if part + out <= whole {
      assert (part + out)[|part|..] == out && whole[|part|..] == rest;
    }
  }

  /** For the resources of one length, the output of a transfer is always a prefix if and only if no payload is
      delivered behind a lost one. */
  lemma PrefixExactly(resource: seq<byte>, szx: nat, rooms: nat -> Room)
    requires 0 < |resource| <= MAX_RESOURCE && szx < 8 && forall k :: Spacious(rooms(k))
    ensures forall w: seq<byte> :: |w| == |resource| ==> Askable(w, 0, szx)
    ensures (forall w: seq<byte> :: |w| == |resource| ==> Output(Replies(w, 0, szx, rooms, 0)) <= w)
       <==> LossLast(resource, 0, szx, rooms, 0)
  {
    hide Replies, LossLast, Output, Spacious;
    if LossLast(resource, 0, szx, rooms, 0) {
      forall w: seq<byte> | |w| == |resource| ensures Output(Replies(w, 0, szx, rooms, 0)) <= w {
        LossSameLength(resource, w, 0, szx, rooms, 0);
        PrefixFrom(w, 0, szx, rooms, 0);
        assert w[0..] == w;
      }
    } else {
      var w := NoPrefixFrom(resource, 0, szx, rooms, 0);
      assert w[0..] == w;
    }
  }

  lemma {:induction false} NoneSameLength(a: seq<byte>, b: seq<byte>, num: nat, szx: nat, rooms: nat -> Room, i: nat)
    requires |a| == |b| && Askable(a, num, szx) && forall k :: Spacious(rooms(k))
    ensures Askable(b, num, szx) && NoneDelivered(a, num, szx, rooms, i) == NoneDelivered(b, num, szx, rooms, i)
    decreases |a| - Start(num, szx)
  {
    hide Answer, Delivered, GetBlock, AskNext, Start, Askable, Output, Spacious, Replies;
    SameLength(a, b, num, szx, rooms(i));
    var part, end, more, next := OneReply(a, num, szx, rooms, i);
    if more {
      NoneSameLength(a, b, next.num, next.szx, rooms, i + 1);
    }
  }

  lemma {:induction false} LossSameLength(a: seq<byte>, b: seq<byte>, num: nat, szx: nat, rooms: nat -> Room, i: nat)
    requires |a| == |b| && Askable(a, num, szx) && forall k :: Spacious(rooms(k))
    ensures Askable(b, num, szx) && LossLast(a, num, szx, rooms, i) == LossLast(b, num, szx, rooms, i)
    decreases |a| - Start(num, szx)
  {
    hide Answer, Delivered, GetBlock, AskNext, Start, Askable, Output, Spacious, Replies, NoneDelivered;
    SameLength(a, b, num, szx, rooms(i));
    var part, end, more, next := OneReply(a, num, szx, rooms, i);
    if more {
      LossSameLength(a, b, next.num, next.szx, rooms, i + 1);
      NoneSameLength(a, b, next.num, next.szx, rooms, i + 1);
    }
  }

  /** A payload is lost just when the Block option takes more than 3 bytes and the block needs those it takes. */
  lemma LostWhen(resource: seq<byte>, num: nat, szx: nat, room: Room)
    requires Askable(resource, num, szx) && Spacious(room)
    ensures var b := Chosen(resource, num, szx, room);
      var needed := OptionSize(room, VarBytes.VarBytes(Value(b))) + Count(Start(num, szx), b.szx, |resource|);
      Delivered(resource, num, szx, room) <==> needed <= Avail(room) + 3
  {
    hide Choose, Start, Pow2, Value, VarBytes.VarBytes, Encoded;
    var b := ChosenIs(resource, num, szx, room);
  }

  /** Resources up to 64 KiB never lose a payload behind an option numbered 11 or more. */
  lemma {:induction false} SmallResourceLossless(resource: seq<byte>, num: nat, szx: nat, rooms: nat -> Room, i: nat)
    requires Askable(resource, num, szx) && |resource| <= 0x1_0000
    requires forall k :: Spacious(rooms(k)) && rooms(k).maxDelta >= 11
    ensures Lossless(resource, num, szx, rooms, i)
    decreases |resource| - Start(num, szx)
  {
    hide Choose, Start, Pow2, GetBlock, AskNext, Delivered, Answer, Avail;
    AnswerIs(resource, num, szx, rooms(i));
    AlwaysDelivered(resource, num, szx, rooms(i));
    var option := Answer(resource, num, szx, rooms(i)).option;
    if GetBlock(option).m {
      var next := GetBlock(AskNext(option));
      SmallResourceLossless(resource, next.num, next.szx, rooms, i + 1);
    }
  }

  lemma AlwaysDelivered(resource: seq<byte>, num: nat, szx: nat, room: Room)
    requires Askable(resource, num, szx) && |resource| <= 0x1_0000
    requires Spacious(room) && room.maxDelta >= 11
    ensures Delivered(resource, num, szx, room)
  {
    hide Choose, Start, Pow2, Value, VarBytes.VarBytes, Delivered, Avail;
    var b := ChosenIs(resource, num, szx, room);
    ShortOption(b, |resource|);
    LostWhen(resource, num, szx, room);
    assert |Header(COAP_OPTION_BLOCK2 - room.maxDelta, |VarBytes.VarBytes(Value(b))|)| == 1;
  }

  lemma ShortOption(b: BlockInfo, len: nat)
    requires b.num * Pow2(b.szx + 4) < len <= 0x1_0000 && b.szx < 8
    ensures |VarBytes.VarBytes(Value(b))| <= 2
  {
    hide Pow2;
    SixteenAtLeast(b.szx);
    assert b.num * 16 <= b.num * Pow2(b.szx + 4);
    SizeOf(Value(b));
  }

  /** A transfer that loses a block: 20 bytes left, no option yet, blocks of 16 bytes; block 16 needs 21. */
  lemma LossyExample(resource: seq<byte>)
    requires |resource| == 300
    ensures Askable(resource, 16, 0) && Spacious(Room(24, 4, 0)) && !Delivered(resource, 16, 0, Room(24, 4, 0))
  {
    assert Pow2(4) == 16;
    assert Value(BlockInfo(16, true, 0)) == 264;
    assert VarBytes.VarBytes(264) == VarBytes.VarBytes(1) + [8] && VarBytes.VarBytes(1) == [1];
  }

  /** The tight room for the 17th response, and enough for all others. */
  function OneTight(k: nat): (r: Room)
    ensures Spacious(r)
  {
    if k == 16 then Room(24, 4, 0) else Room(64, 4, 0)
  }

  /** One response of that transfer: block `i` of 16 bytes, lost only when `i` is 16. */
  lemma TightReply(resource: seq<byte>, i: nat)
    requires |resource| == 300 && i <= 18
    ensures Askable(resource, i, 0) && Start(i, 0) == 16 * i
    ensures var option := Answer(resource, i, 0, OneTight(i)).option;
      GetBlock(option).m == (i < 18) && GetBlock(AskNext(option)) == BlockInfo(i + 1, false, 0)
    ensures Delivered(resource, i, 0, OneTight(i)) <==> i != 16
  {
    hide Choose, Start, Pow2, Value, VarBytes.VarBytes, GetBlock, Encoded, Delivered, Slice, OptionSize;
    TightStart(i);
    var b := ChosenIs(resource, i, 0, OneTight(i));
    assert b.num == i && b.szx == 0 && (b.m <==> i < 18);
    BlockRoundTrip(b);
    BlockRoundTrip(BlockInfo(i + 1, false, 0));
    LostWhen(resource, i, 0, OneTight(i));
    TightSizes(b, OneTight(i));
  }

  lemma TightStart(i: nat)
    requires i <= 18
    ensures Pow2(0 + 4) == 16 && Start(i, 0) == 16 * i
  {
    assert Pow2(4) == 16;
  }

  lemma TightSizes(b: BlockInfo, room: Room)
    requires b.num <= 18 && b.szx == 0 && room.maxDelta == 0
    ensures OptionSize(room, VarBytes.VarBytes(Value(b))) <= 4
    ensures b.num == 16 ==> OptionSize(room, VarBytes.VarBytes(Value(b))) == 4
  {
    SizeOf(Value(b));
    assert |Header(COAP_OPTION_BLOCK2, |VarBytes.VarBytes(Value(b))|)| == 2;
  }

  lemma {:induction false} LossyFrom(resource: seq<byte>, i: nat)
    requires |resource| == 300 && i <= 18
    ensures Askable(resource, i, 0)
    ensures Output(Replies(resource, i, 0, OneTight, i))
         == if i <= 16 then resource[16 * i..256] + resource[272..] else resource[16 * i..]
    decreases 18 - i
  {
    hide Answer, Delivered, GetBlock, AskNext, Start, Askable, Output, Spacious, Replies;
    TightReply(resource, i);
    var part, end, more, next := OneReply(resource, i, 0, OneTight, i);
    if more {
      TightReply(resource, i + 1);
      LossyFrom(resource, i + 1);
      assert i < 16 ==> part + resource[16 * i + 16..256] == resource[16 * i..256];
      assert part + resource[16 * i + 16..] == resource[16 * i..];
      assert resource[256..256] == [];
    }
  }

  /** A whole transfer of 300 bytes that ends without the 16 bytes from 256 on. */
  lemma LossyTransfer(resource: seq<byte>)
    requires |resource| == 300
    ensures Askable(resource, 0, 0)
    ensures Output(Replies(resource, 0, 0, OneTight, 0)) == resource[..256] + resource[272..]
  {
    LossyFrom(resource, 0);
    assert resource[0..256] == resource[..256];
  }

  // ----- the code that builds responses and reads them -----

  class Block {
    var num: nat
    var m: bool
    var szx: nat

    constructor (info: BlockInfo)
      ensures Info() == info
    {
      num, m, szx := info.num, info.m, info.szx;
    }

    function Info(): BlockInfo
      reads this
    {
      BlockInfo(num, m, szx)
    }
  }

  /** A response under construction: its size, and what was added to it. */
  class Pdu {
    const maxSize: nat
    var length: nat
    var maxDelta: uint16
    var options: seq<(uint16, seq<byte>)>
    var data: seq<byte>

    constructor (room: Room)
      ensures Space() == room && options == [] && data == []
    {
      maxSize, length, maxDelta := room.maxSize, room.length, room.maxDelta;
      options, data := [], [];
    }

    function Space(): Room
      reads this
    {
      Room(maxSize, length, maxDelta)
    }

    /** `coap_add_option`, unless the assertion of the encoder fails. */
    method AddOption(number: uint16, value: seq<byte>) returns (size: nat)
      requires length <= maxSize
      requires number >= maxDelta ==> !Overruns(number - maxDelta, |value|, maxSize - length)
      modifies this
      ensures data == [] && length <= maxSize
      ensures size ==
        if number < old(maxDelta) || maxSize - old(length) < |Encoded(number - old(maxDelta), value)| then 0
        else |Encoded(number - old(maxDelta), value)|
      ensures length == old(length) + size
      ensures size == 0 ==> options == old(options) && maxDelta == old(maxDelta)
      ensures size > 0 ==> options == old(options) + [(number, value)] && maxDelta == number
    {
      data := [];
      if number < maxDelta {
        return 0;
      }
      size := |Encoded(number - maxDelta, value)|;
      if maxSize - length < size {
        return 0;
      }
      options := options + [(number, value)];
      maxDelta := number;
      length := length + size;
    }

    /** `coap_add_data` */
    method AddData(payload: seq<byte>) returns (ok: bool)
      requires length <= maxSize && data == []
      modifies this
      ensures Space() == old(Space()).(length := length) && options == old(options)
      ensures ok == (payload == [] || old(length) + |payload| + 1 <= maxSize)
      ensures length == old(length) + if payload != [] && ok then |payload| + 1 else 0
      ensures data == if ok then payload else []
    {
      if |payload| == 0 {
        return true;
      }
      if length + |payload| + 1 > maxSize {
        return false;
      }
      data := payload;
      length := length + |payload| + 1;
      return true;
    }
  }

  /** The first half of `coap_write_block_opt`: settles the block for a resource of `len` bytes. */
  method ChooseBlock(block: Block, avail: nat, len: nat) returns (r: int)
    requires block.num < MAX_NUM && block.szx < 8 && len <= MAX_RESOURCE
    modifies block
    ensures match old(Choose(block.num, block.szx, avail, len))
            case Illegal => r == -2 && unchanged(block)
            case NoSpace => r == -3 && unchanged(block)
            case Send(b) => r == 1 && block.Info() == b && Value(b) < MAX_RESOURCE
  {
    hide Pow2, Bits;
    Offset(block.num, block.szx);
    var start := block.num * Pow2(block.szx + 4) % WORD;
    if len <= start {
      return -2;
    }
    var want := Pow2(block.szx + 4);
    if want <= avail {
      block.m := want < len - start;
    } else if len - start <= avail {
      block.m := false;
    } else {
      if avail < 16 {
        return -3;
      }
      BitsRange(avail, block.szx + 4);
      Lowered(block.num, block.szx, Bits(avail) - 5, len);
      var szx := block.szx;
      var fls := Fls(avail);
      block.szx := fls - 5;
      block.m := true;
      block.num := block.num * Pow2(szx - block.szx) % WORD;
    }
    return 1;
  }

  /** `coap_write_block_opt`: nothing changes when it fails, else the option is added if it fits. */
  method WriteBlockOpt(block: Block, number: uint16, pdu: Pdu, len: nat) returns (r: int)
    requires block.num < MAX_NUM && block.szx < 8 && len <= MAX_RESOURCE && pdu.length <= pdu.maxSize
    modifies block, pdu
    ensures match old(Choose(block.num, block.szx, Avail(pdu.Space()), len))
            case Illegal => r == -2 && unchanged(block) && unchanged(pdu)
            case NoSpace => r == -3 && unchanged(block) && unchanged(pdu)
            case Send(b) =>
              && r == 1 && block.Info() == b && pdu.data == [] && pdu.length <= pdu.maxSize
              && Added(old(pdu.Space()), old(pdu.options), number, VarBytes.VarBytes(Value(b)),
                       pdu.Space(), pdu.options)
  {
    hide Choose, Value, Encoded, VarBytes.VarBytes;
    var avail := (pdu.maxSize - pdu.length - 4) % SIZE_RANGE;
    r := ChooseBlock(block, avail, len);
    if r < 0 {
      return;
    }
    var buf := new byte[3];
    SizeOf(Value(block.Info()));
    var n := EncodeVarBytes(buf, Value(block.Info()));
    var _ := pdu.AddOption(number, buf[..n]);
  }

  /** The option was added when it comes last and fits; else nothing was. */
  predicate Added(room: Room, options: seq<(uint16, seq<byte>)>, number: uint16, value: seq<byte>,
                  room': Room, options': seq<(uint16, seq<byte>)>)
  {
    if room.maxDelta <= number && room.length + |Encoded(number - room.maxDelta, value)| <= room.maxSize
    then room' == Room(room.maxSize, room.length + |Encoded(number - room.maxDelta, value)|, number)
         && options' == options + [(number, value)]
    else room' == room && options' == options
  }

  /** `coap_add_block` */
  method AddBlock(pdu: Pdu, resource: seq<byte>, num: nat, szx: nat) returns (ok: bool)
    requires pdu.length <= pdu.maxSize && pdu.data == []
    modifies pdu
    ensures pdu.options == old(pdu.options)
    ensures |resource| <= Start(num, szx) ==> !ok && unchanged(pdu)
    ensures |resource| > Start(num, szx) ==>
      var data := Slice(resource, BlockInfo(num, false, szx));
      && ok == (old(pdu.length) + |data| + 1 <= pdu.maxSize)
      && pdu.data == if ok then data else []
  {
    var start := num * Pow2(szx + 4) % WORD;
    if |resource| <= start {
      return false;
    }
    var count := if |resource| - start < Pow2(szx + 4) then |resource| - start else Pow2(szx + 4);
    ok := pdu.AddData(resource[start..start + count]);
  }

  /** The Block option can be added. */
  predicate HasRoom(room: Room, value: seq<byte>) {
    && room.maxDelta <= COAP_OPTION_BLOCK2
    && room.length + |Encoded(COAP_OPTION_BLOCK2 - room.maxDelta, value)| <= room.maxSize
  }

  /** Where the payload goes, with or without the option in front of it. */
  function Behind(room: Room, value: seq<byte>): nat {
    room.length + if HasRoom(room, value) then |Encoded(COAP_OPTION_BLOCK2 - room.maxDelta, value)| else 0
  }

  lemma ChosenExists(num: nat, szx: nat, avail: nat, len: nat)
    requires num < MAX_NUM && szx < 8 && len <= MAX_RESOURCE && Choose(num, szx, avail, len).Send?
    ensures var b := Choose(num, szx, avail, len).block; Start(b.num, b.szx) < len
  {
    hide Pow2, Start;
    if avail >= 16 {
      ChosenBlock(num, szx, avail, len);
    } else {
      hide Choose;
      ChosenInLittleSpace(num, szx, avail, len);
      Offset(num, szx);
    }
  }

  /** How a server uses the two: it answers the request for a block with exactly what `Answer` says, or with an
      error code when the block does not exist or not even the smallest one fits. (The reason phrase that goes into
      an error response is left out.) */
  method Serve(resource: seq<byte>, request: seq<byte>, pdu: Pdu) returns (code: int)
    requires pdu.length <= pdu.maxSize && pdu.data == []
    requires |resource| <= MAX_RESOURCE && GetBlock(request).num < MAX_NUM
    modifies pdu
    ensures match Choose(GetBlock(request).num, GetBlock(request).szx, Avail(old(pdu.Space())), |resource|)
            case Illegal => code == 400 && unchanged(pdu)
            case NoSpace => code == 500 && unchanged(pdu)
            case Send(b) =>
              && code == 205 && Start(b.num, b.szx) < |resource|
              && var room, value := old(pdu.Space()), VarBytes.VarBytes(Value(b));
                 && pdu.options
                      == old(pdu.options) + (if HasRoom(room, value) then [(23, value)] else [])
                 && pdu.data
                      == if Behind(room, value) + |Slice(resource, b)| + 1 <= room.maxSize then Slice(resource, b)
                         else []
    ensures Spacious(old(pdu.Space())) && Askable(resource, GetBlock(request).num, GetBlock(request).szx) ==>
      var a := Answer(resource, GetBlock(request).num, GetBlock(request).szx, old(pdu.Space()));
      && code == 205
      && LargestThatFits(GetBlock(a.option).szx, GetBlock(request).szx,
                         Start(GetBlock(request).num, GetBlock(request).szx), Avail(old(pdu.Space())), |resource|)
      && pdu.options == old(pdu.options) + [(COAP_OPTION_BLOCK2, a.option)] && pdu.data == a.payload
  {
    hide Pow2, Start, GetBlock, Value, Choose, Encoded, VarBytes.VarBytes, LargestThatFits, AskNext, Decode, Count;
    var info := GetBlock(request);
    SmallSize(request);
    ghost var room := pdu.Space();
    if Spacious(room) && Askable(resource, info.num, info.szx) {
      ghost var b := ChosenIs(resource, info.num, info.szx, room);
      OptionFits(b, room);
      ChosenBlock(info.num, info.szx, Avail(room), |resource|);
      AnswerIs(resource, info.num, info.szx, room);
    }
    var block := new Block(info);
    var r := WriteBlockOpt(block, COAP_OPTION_BLOCK2, pdu, |resource|);
    if r > 0 {
      ChosenExists(info.num, info.szx, Avail(room), |resource|);
    }
    if r == -2 {
      return 400;
    } else if r == -3 {
      return 500;
    }
    var _ := AddBlock(pdu, resource, block.num, block.szx);
    return 205;
  }

  lemma SmallSize(option: seq<byte>)
    ensures GetBlock(option).szx < 8
  {
  }

  /** A spacious response always holds the Block option. */
  lemma OptionFits(b: BlockInfo, room: Room)
    requires b.num < MAX_NUM && b.szx < 8 && Spacious(room)
    ensures |VarBytes.VarBytes(Value(b))| <= 3
    ensures room.length + OptionSize(room, VarBytes.VarBytes(Value(b))) <= room.maxSize
  {
    hide VarBytes.VarBytes;
    SizeOf(Value(b));
  }

  datatype Request = Done | Ask(option: seq<byte>)

  /** The client: what it has written, as `append_to_output` does. */
  class Client {
    var output: seq<byte>

    constructor ()
      ensures output == []
    {
      output := [];
    }

    /** The Block2 branch of `message_handler`: writes the payload, if any, and while M is set asks for the block
        behind, of the size it was sent. */
    method Handle(reply: Reply) returns (next: Request)
      requires GetBlock(reply.option).num < MAX_NUM
      modifies this
      ensures output == old(output) + reply.payload
      ensures next == if GetBlock(reply.option).m then Ask(AskNext(reply.option)) else Done
    {
      output := output + reply.payload;
      var b := GetBlock(reply.option);
      if b.m {
        var buf := new byte[4];
        var value := Value(BlockInfo(b.num + 1, false, b.szx));
        SizeOf(value);
        var n := EncodeVarBytes(buf, value);
        return Ask(buf[..n]);
      }
      return Done;
    }
  }

  /** Server and client in turn, from the first request on. The `i`-th response has the space `rooms(i)`; its Block
      option is the only one the client looks at. */
  method Transfer(resource: seq<byte>, request: seq<byte>, rooms: nat -> Room) returns (client: Client)
    requires Askable(resource, GetBlock(request).num, GetBlock(request).szx) && forall k :: Spacious(rooms(k))
    ensures client.output == Output(Replies(resource, GetBlock(request).num, GetBlock(request).szx, rooms, 0))
  {
    hide GetBlock, AskNext, Askable, Answer, Replies, Output, Start, Choose, Spacious, Delivered, Pow2, Value;
    ghost var first := GetBlock(request);
    ghost var whole := Output(Replies(resource, first.num, first.szx, rooms, 0));
    client := new Client();
    var next := Ask(request);
    var i := 0;
    while next.Ask?
      invariant next.Done? ==> client.output == whole
      invariant next.Ask? ==>
        var b := GetBlock(next.option);
        && Askable(resource, b.num, b.szx)
        && client.output + Output(Replies(resource, b.num, b.szx, rooms, i)) == whole
      decreases if next.Ask? then 1 + |resource| - Start(GetBlock(next.option).num, GetBlock(next.option).szx) else 0
    {
      ghost var b := GetBlock(next.option);
      ghost var part, end, more, asked := OneReply(resource, b.num, b.szx, rooms, i);
      var reply := Exchange(resource, next.option, rooms(i));
      ghost var rest := if more then Output(Replies(resource, asked.num, asked.szx, rooms, i + 1)) else [];
      assert client.output + (reply.payload + rest) == (client.output + reply.payload) + rest;
      next := client.Handle(reply);
      i := i + 1;
    }
  }

  /** One request and the response to it. */
  method Exchange(resource: seq<byte>, request: seq<byte>, room: Room) returns (reply: Reply)
    requires Askable(resource, GetBlock(request).num, GetBlock(request).szx) && Spacious(room)
    ensures reply == Answer(resource, GetBlock(request).num, GetBlock(request).szx, room)
  {
    hide Choose, Start, GetBlock, Answer;
    var pdu := new Pdu(room);
    var code := Serve(resource, request, pdu);
    reply := Reply(pdu.options[0].1, pdu.data);
  }
}
