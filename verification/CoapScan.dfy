/** The walk over a received message's options that `validate` and `getOptions` share.

    The byte source `b` is at least two bytes longer than the PDU of `n` bytes: the space check in front of
    the extension bytes asks for one byte per extension, while a nibble of 14 makes the readers look at two. */
module CoapScan {
  import opened Bytes
  import opened OptionWire

  /** One `CoapOption` record; positions are offsets into the PDU. */
  datatype Rec = Rec(number: uint16, delta: uint16, length: uint16, start: nat, total: nat) {
    function End(): nat { start + total }
    function ValueStart(): int { start + total - length }
    /** The value lies inside the first `n` bytes. */
    predicate In(n: nat) { 0 <= ValueStart() <= End() <= n }
  }

  /** The options found and where they end, or where the walk gave up. */
  datatype Scan = Malformed(at: nat) | Complete(recs: seq<Rec>, end: nat)

  /** The space check: `computeExtraBytes` applied to the two nibbles of the header byte. */
  predicate HeaderFits(header: byte, room: int) {
    1 + ExtraBytes(header / 16) + ExtraBytes(header % 16) <= room
  }

  lemma FitsMeansReadable(b: seq<byte>, n: nat, pos: nat)
    requires n + 2 <= |b| && pos < n && HeaderFits(b[pos], n - pos)
    ensures Readable(b[pos..])
  {}

  /** What both loops compute for the option at `pos`, given the running option number. */
  function RecAt(b: seq<byte>, pos: nat, number: uint16): (r: Rec)
    requires pos < |b| && Readable(b[pos..])
    ensures r.total >= 1 + r.length && r.start == pos
  {
    var delta, length := DeltaOf(b[pos..]), LengthOf(b[pos..]);
    Rec(ToUint16(number + delta), delta, length, pos,
        1 + ExtraBytes(delta) + ExtraBytes(length) + length)
  }

  /** The option walk of `validate` from `pos`: the records found and where the options end. */
  function ScanFrom(b: seq<byte>, n: nat, pos: nat, number: uint16): Scan
    requires pos <= n && n + 2 <= |b|
    decreases n - pos
  {
    if pos == n then Complete([], pos)
    else if b[pos] == 0xFF then (if pos + 1 < n then Complete([], pos) else Malformed(pos))
    else if b[pos] / 16 == 15 || b[pos] % 16 == 15 || !HeaderFits(b[pos], n - pos) then Malformed(pos)
    else
      FitsMeansReadable(b, n, pos);
      var r := RecAt(b, pos, number);
      if r.End() > n then Malformed(pos)
      else Prepend(r, ScanFrom(b, n, r.End(), r.number))
  }

  function Prepend(r: Rec, s: Scan): Scan {
    if s.Malformed? then s else Complete([r] + s.recs, s.end)
  }

  predicate AllIn(recs: seq<Rec>, n: nat) {
    forall i :: 0 <= i < |recs| ==> recs[i].In(n)
  }

  /** The (number, value) pairs that records denote in `b`. */
  function OptionsIn(b: seq<byte>, recs: seq<Rec>): (opts: seq<Opt>)
    requires AllIn(recs, |b|)
    ensures |opts| == |recs|
    ensures forall i :: 0 <= i < |recs| ==> opts[i].number == recs[i].number
    ensures forall i :: 0 <= i < |recs| ==> opts[i].value == b[recs[i].ValueStart()..recs[i].End()]
  {
    if recs == [] then [] else
    [Opt(recs[0].number, b[recs[0].ValueStart()..recs[0].End()])] + OptionsIn(b, recs[1..])
  }

  /** The records tile the bytes from `pos` to `end` without gap or overlap. */
  predicate Tiles(recs: seq<Rec>, pos: nat, end: nat)
    decreases |recs|
  {
    if recs == [] then pos == end
    else recs[0].start == pos && recs[0].total >= 1 + recs[0].length && Tiles(recs[1..], recs[0].End(), end)
  }

  /** The codes that `validate` lets pass. */
  predicate ValidCode(code: byte) {
    !(0x1F < code < 0x41) && !(0x45 < code < 0x80) && !(0x86 < code < 0x8C) && code != 0x8E
    && !(0x8F < code < 0xA0) && code <= 0xA5
  }

  /** The walk over all options of the message in the first `n` bytes of `b`. */
  function ScanMessage(b: seq<byte>, n: nat): Scan
    requires n + 2 <= |b| && n >= 4 && 4 + b[0] % 16 <= n
  {
    ScanFrom(b, n, 4 + b[0] % 16, 0)
  }

  /** Exactly the messages for which `validate` returns 1. */
  predicate Accepts(b: seq<byte>, n: nat)
    requires n + 2 <= |b|
  {
    HeaderValid(b, n) && ScanMessage(b, n).Complete?
  }

  /** Version 1, a token of at most 8 bytes that is there, and one of the codes above. */
  predicate HeaderValid(b: seq<byte>, n: nat)
    requires n + 2 <= |b|
  {
    n >= 4 && b[0] / 64 == 1 && b[0] % 16 <= 8 && 4 + b[0] % 16 <= n && ValidCode(b[1])
  }

  /** By class and detail, as section 3 of RFC 7252 splits the code byte. */
  lemma ValidCodeExactly(code: byte)
    ensures var group, detail := code / 32, code % 32;
      ValidCode(code) <==>
        || group == 0
        || (group == 2 && 1 <= detail <= 5)
        || (group == 4 && (detail <= 6 || detail in {12, 13, 15}))
        || (group == 5 && detail <= 5)
  {
    assert code == code / 32 * 32 + code % 32;
  }

  // ----- the grammar of a message -----

  /** The value that a nibble and the extension bytes from `at` on stand for, in 16 bits. */
  ghost predicate Denotes(b: seq<byte>, nibble: nat, at: nat, x: int) {
    || (nibble < 13 && x == nibble)
    || (nibble == 13 && at < |b| && x - 13 == b[at])
    || (nibble == 14 && at + 1 < |b| && var hi: int, lo: int := b[at], b[at + 1]; x == (269 + 256 * hi + lo) % 0x1_0000)
  }

  /** How many extension bytes a nibble announces. */
  function Width(nibble: nat): nat {
    if nibble == 13 then 1 else if nibble == 14 then 2 else 0
  }

  /** How many extension bytes a number takes. */
  function Size(x: nat): nat {
    if x < 13 then 0 else if x < 269 then 1 else 2
  }

  /** The record describes the option at its start in a message of `n` bytes, behind an option with number `prev`.
      One byte of room is asked for each extended field, and the length counts the shortest extension. */
  ghost predicate OptionAt(b: seq<byte>, n: nat, r: Rec, prev: nat) {
    && r.start < n <= |b| && r.End() <= n
    && var (hi, lo) := (b[r.start] / 16, b[r.start] % 16);
       && r.start + 1 + (if hi >= 13 then 1 else 0) + (if lo >= 13 then 1 else 0) <= n
       && Denotes(b, hi, r.start + 1, r.delta) && Denotes(b, lo, r.start + 1 + Width(hi), r.length)
       && r.number == (prev + r.delta) % 0x1_0000
       && r.total == 1 + Size(r.delta) + Size(r.length) + r.length
  }

  /** From `pos` to `end` there are exactly these options, and behind them nothing or a payload. */
  ghost predicate OptionsAt(b: seq<byte>, n: nat, recs: seq<Rec>, pos: nat, end: nat, number: nat)
    decreases |recs|
  {
    if recs == [] then end == pos <= n <= |b| && (pos < n ==> b[pos] == 0xFF && pos + 1 < n)
    else
      && OptionAt(b, n, recs[0], number) && recs[0].start == pos
      && OptionsAt(b, n, recs[1..], recs[0].End(), end, recs[0].number)
  }

  lemma DeltaDenoted(b: seq<byte>, pos: nat, x: nat)
    requires pos < |b| && b[pos] / 16 < 15 && Readable(b[pos..])
    ensures Denotes(b, b[pos] / 16, pos + 1, x) <==> x == DeltaOf(b[pos..])
  {
    var s := b[pos..];
    assert forall i :: 0 <= i < |s| ==> s[i] == b[pos + i];
  }

  lemma LengthDenoted(b: seq<byte>, pos: nat, x: nat)
    requires pos < |b| && b[pos] % 16 < 15 && Readable(b[pos..])
    ensures Denotes(b, b[pos] % 16, pos + 1 + Width(b[pos] / 16), x) <==> x == LengthOf(b[pos..])
  {
    var s := b[pos..];
    assert forall i :: 0 <= i < |s| ==> s[i] == b[pos + i];
  }

  /** The record that the loops compute is the only one that describes the option. */
  lemma RecAtExactly(b: seq<byte>, n: nat, pos: nat, number: uint16, r: Rec)
    requires n + 2 <= |b| && pos < n && b[pos] / 16 < 15 && b[pos] % 16 < 15 && HeaderFits(b[pos], n - pos)
    ensures Readable(b[pos..])
    ensures OptionAt(b, n, r, number) && r.start == pos <==> r == RecAt(b, pos, number) && r.End() <= n
  {
    hide Denotes, DeltaOf, LengthOf, Readable, Width;
    FitsMeansReadable(b, n, pos);
    DeltaDenoted(b, pos, r.delta);
    LengthDenoted(b, pos, r.length);
  }

  lemma NoOptionAt(b: seq<byte>, n: nat, pos: nat, number: uint16, r: Rec)
    requires n + 2 <= |b| && pos <= n
    requires pos < n ==> b[pos] / 16 == 15 || b[pos] % 16 == 15 || !HeaderFits(b[pos], n - pos)
    ensures !(OptionAt(b, n, r, number) && r.start == pos)
  {}

  /** The walk completes with these records and this end if and only if the grammar says so. */
  lemma {:induction false} ScanExactly(b: seq<byte>, n: nat, pos: nat, number: uint16, recs: seq<Rec>, end: nat)
    requires pos <= n && n + 2 <= |b|
    ensures ScanFrom(b, n, pos, number) == Complete(recs, end) <==> OptionsAt(b, n, recs, pos, end, number)
    decreases |recs|
  {
    hide OptionAt, RecAt, Readable;
    if recs != [] {
      var r, rest := recs[0], recs[1..];
      assert recs == [r] + rest;
      if pos < n && b[pos] / 16 < 15 && b[pos] % 16 < 15 && HeaderFits(b[pos], n - pos) {
        RecAtExactly(b, n, pos, number, r);
        if r == RecAt(b, pos, number) && r.End() <= n {
          ScanExactly(b, n, r.End(), r.number, rest, end);
          PrependIs(r, ScanFrom(b, n, r.End(), r.number), rest, end);
        }
      } else {
        NoOptionAt(b, n, pos, number, r);
      }
    }
  }

  lemma PrependIs(r: Rec, s: Scan, rest: seq<Rec>, end: nat)
    ensures Prepend(r, s) == Complete([r] + rest, end) <==> s == Complete(rest, end)
  {
    if Prepend(r, s) == Complete([r] + rest, end) {
      assert ([r] + s.recs)[1..] == ([r] + rest)[1..];
    }
  }

  /** From `pos` to `end` there are these options. */
  ghost predicate OptionsTo(b: seq<byte>, n: nat, recs: seq<Rec>, pos: nat, end: nat, number: nat)
    decreases |recs|
  {
    if recs == [] then end == pos <= n <= |b|
    else
      && OptionAt(b, n, recs[0], number) && recs[0].start == pos
      && OptionsTo(b, n, recs[1..], recs[0].End(), end, recs[0].number)
  }

  /** The options end at a payload marker with nothing behind it. */
  ghost predicate EndsInMarker(b: seq<byte>, n: nat, pos: nat) {
    0 < n <= |b| && b[n - 1] == 0xFF && exists recs, end :: OptionsTo(b, n, recs, pos, end, 0) && end == n - 1
  }

  lemma {:induction false} StopsAtMarker(b: seq<byte>, n: nat, pos: nat, number: uint16, recs: seq<Rec>)
    requires pos <= n && n + 2 <= |b| && n > 0 && b[n - 1] == 0xFF && OptionsTo(b, n, recs, pos, n - 1, number)
    ensures ScanFrom(b, n, pos, number) == Malformed(n - 1)
    decreases |recs|
  {
    hide OptionAt, RecAt, Readable;
    if recs != [] {
      var r := recs[0];
      if pos < n && b[pos] / 16 < 15 && b[pos] % 16 < 15 && HeaderFits(b[pos], n - pos) {
        RecAtExactly(b, n, pos, number, r);
        StopsAtMarker(b, n, r.End(), r.number, recs[1..]);
      } else {
        NoOptionAt(b, n, pos, number, r);
      }
    }
  }

  lemma {:induction false} StopsBehindOptions(b: seq<byte>, n: nat, pos: nat, number: uint16) returns (recs: seq<Rec>)
    requires pos <= n && n + 2 <= |b| && ScanFrom(b, n, pos, number).Malformed?
    ensures var at := ScanFrom(b, n, pos, number).at; at < n && OptionsTo(b, n, recs, pos, at, number)
    decreases n - pos
  {
    hide OptionAt, RecAt, Readable;
    if ScanFrom(b, n, pos, number) == Malformed(pos) {
      recs := [];
    } else {
      FitsMeansReadable(b, n, pos);
      var r := RecAt(b, pos, number);
      RecAtExactly(b, n, pos, number, r);
      var rest := StopsBehindOptions(b, n, r.End(), r.number);
      recs := [r] + rest;
    }
  }

  /** The walk gives up at a marker if and only if the message ends in one. */
  lemma GivesUpAtMarker(b: seq<byte>, n: nat, pos: nat)
    requires pos <= n && n + 2 <= |b|
    ensures EndsInMarker(b, n, pos) <==>
      var s := ScanFrom(b, n, pos, 0); s.Malformed? && s.at + 1 == n && b[s.at] == 0xFF
  {
    hide ScanFrom, OptionsTo;
    if EndsInMarker(b, n, pos) {
      var recs, end :| OptionsTo(b, n, recs, pos, end, 0) && end == n - 1;
      StopsAtMarker(b, n, pos, 0, recs);
    }
    if ScanFrom(b, n, pos, 0).Malformed? {
      var recs := StopsBehindOptions(b, n, pos, 0);
    }
  }

  /** From `pos` on there are options, and behind them nothing or a payload. */
  ghost predicate HasOptions(b: seq<byte>, n: nat, pos: nat) {
    exists recs, end :: OptionsAt(b, n, recs, pos, end, 0)
  }

  /** `validate` accepts exactly the messages of this form: version 1, a token of at most 8 bytes, one of the codes
      above, options, and nothing or a payload behind them. */
  lemma AcceptsExactly(b: seq<byte>, n: nat)
    requires n + 2 <= |b|
    ensures Accepts(b, n) <==>
      && 4 <= n && b[0] / 64 == 1 && b[0] % 16 <= 8 && 4 + b[0] % 16 <= n && ValidCode(b[1])
      && HasOptions(b, n, 4 + b[0] % 16)
  {
    hide ScanFrom, OptionsAt, ValidCode;
    if n >= 4 && 4 + b[0] % 16 <= n {
      var start, s := 4 + b[0] % 16, ScanMessage(b, n);
      if s.Complete? {
        ScanExactly(b, n, start, 0, s.recs, s.end);
      }
      forall recs, end: nat | OptionsAt(b, n, recs, start, end, 0) ensures s.Complete? {
        ScanExactly(b, n, start, 0, recs, end);
      }
    }
  }

  /** An acknowledgement with 2.05 Content and nothing else. */
  lemma ContentAccepted()
    ensures Accepts([0x60, 0x45, 0, 1, 0, 0], 4)
  {
    assert ScanFrom([0x60, 0x45, 0, 1, 0, 0], 4, 4, 0) == Complete([], 4);
  }

  // ----- arbitrary bytes -----

  /** For arbitrary bytes: a completed walk tiles the option section, stays inside the PDU, and stops at
      the end of the PDU or at a payload marker that is followed by a payload. */
  lemma {:induction false} ScanTiles(b: seq<byte>, n: nat, pos: nat, number: uint16)
    requires pos <= n && n + 2 <= |b|
    ensures var s := ScanFrom(b, n, pos, number);
      s.Complete? ==>
        && pos <= s.end <= n && Tiles(s.recs, pos, s.end)
        && (s.end == n || (b[s.end] == 0xFF && s.end + 1 < n))
        && AllIn(s.recs, s.end)
    decreases n - pos
  {
    var s := ScanFrom(b, n, pos, number);
    if s.Complete? && s.recs != [] {
      FitsMeansReadable(b, n, pos);
      var r := RecAt(b, pos, number);
      ScanTiles(b, n, r.End(), r.number);
      assert s.recs[1..] == ScanFrom(b, n, r.End(), r.number).recs;
    }
  }

  /** The header byte and all extension bytes it announces lie in the first `n` bytes. */
  predicate HeaderIn(b: seq<byte>, r: Rec, n: nat) {
    r.start < |b| && r.start + 1 + NibbleBytes(b[r.start] / 16) + NibbleBytes(b[r.start] % 16) <= n
  }

  predicate HeadersIn(b: seq<byte>, recs: seq<Rec>, n: nat) {
    forall i :: 0 <= i < |recs| ==> HeaderIn(b, recs[i], n)
  }

  /** The same `n` bytes, with anything behind them. */
  predicate SameMessage(b: seq<byte>, c: seq<byte>, n: nat) {
    n + 2 <= |b| && n + 2 <= |c| && b[..n] == c[..n]
  }

  /** A completed walk depends on the message alone if and only if the headers of all options it found lie inside
      the message. */
  lemma ScanIgnoresBehind(b: seq<byte>, n: nat, pos: nat, number: uint16)
    requires pos <= n && n + 2 <= |b| && ScanFrom(b, n, pos, number).Complete?
    ensures (forall c | SameMessage(b, c, n) :: ScanFrom(c, n, pos, number) == ScanFrom(b, n, pos, number))
       <==> HeadersIn(b, ScanFrom(b, n, pos, number).recs, n)
  {
    if HeadersIn(b, ScanFrom(b, n, pos, number).recs, n) {
      forall c | SameMessage(b, c, n) ensures ScanFrom(c, n, pos, number) == ScanFrom(b, n, pos, number) {
        ScanSame(b, c, n, pos, number);
      }
    } else {
      var c := b[n := if b[n] == 0 then 1 else 0];
      assert SameMessage(b, c, n);
      ScanDiffers(b, c, n, pos, number);
    }
  }

  lemma {:induction false} ScanSame(b: seq<byte>, c: seq<byte>, n: nat, pos: nat, number: uint16)
    requires pos <= n && SameMessage(b, c, n)
    requires var s := ScanFrom(b, n, pos, number); s.Complete? && HeadersIn(b, s.recs, n)
    ensures ScanFrom(c, n, pos, number) == ScanFrom(b, n, pos, number)
    decreases n - pos
  {
    hide DeltaOf, LengthOf, Readable, ToUint16;
    var s := ScanFrom(b, n, pos, number);
    assert pos < n ==> b[pos] == b[..n][pos] == c[..n][pos] == c[pos];
    if s.recs != [] {
      FitsMeansReadable(b, n, pos);
      FitsMeansReadable(c, n, pos);
      var r := RecAt(b, pos, number);
      var rest := ScanFrom(b, n, r.End(), r.number);
      assert s.recs[0] == r && rest.recs == s.recs[1..];
      SameHeader(b, c, n, pos, 1 + NibbleBytes(b[pos] / 16) + NibbleBytes(b[pos] % 16));
      ScanSame(b, c, n, r.End(), r.number);
    }
  }

  /** Another byte right behind the message makes a header that reaches there read otherwise. */
  lemma {:induction false} ScanDiffers(b: seq<byte>, c: seq<byte>, n: nat, pos: nat, number: uint16)
    requires pos <= n && SameMessage(b, c, n) && c == b[n := c[n]] && c[n] != b[n]
    requires var s := ScanFrom(b, n, pos, number); s.Complete? && !HeadersIn(b, s.recs, n)
    ensures ScanFrom(c, n, pos, number) != ScanFrom(b, n, pos, number)
    decreases n - pos
  {
    hide DeltaOf, LengthOf, Readable, ToUint16;
    var s := ScanFrom(b, n, pos, number);
    assert s.recs != [] && c[pos] == b[pos];
    FitsMeansReadable(b, n, pos);
    FitsMeansReadable(c, n, pos);
    var r := RecAt(b, pos, number);
    var rest := ScanFrom(b, n, r.End(), r.number);
    assert s.recs[0] == r && rest.recs == s.recs[1..];
    var width := 1 + NibbleBytes(b[pos] / 16) + NibbleBytes(b[pos] % 16);
    if pos + width <= n {
      SameHeader(b, c, n, pos, width);
      ScanDiffers(b, c, n, r.End(), r.number);
    } else {
      OtherHeader(b, c, n, pos);
    }
  }

  lemma OtherHeader(b: seq<byte>, c: seq<byte>, n: nat, pos: nat)
    requires pos < n && n + 2 <= |b| == |c| && c == b[n := c[n]] && c[n] != b[n]
    requires b[pos] / 16 < 15 && b[pos] % 16 < 15 && HeaderFits(b[pos], n - pos)
    requires pos + 1 + NibbleBytes(b[pos] / 16) + NibbleBytes(b[pos] % 16) > n
    ensures Readable(b[pos..]) && Readable(c[pos..])
    ensures DeltaOf(b[pos..]) != DeltaOf(c[pos..]) || LengthOf(b[pos..]) != LengthOf(c[pos..])
  {
    hide Load16, ToUint16;
    var s, t, k := b[pos..], c[pos..], n - pos;
    assert t[k] == c[n] && s[k] == b[n] && forall i :: 0 <= i < |s| && i != k ==> t[i] == s[i];
    var off := 1 + NibbleBytes(s[0] / 16);
    if k < off {
      assert s[0] / 16 == 14;
      LoadDiffers(s[1], s[2], t[1], t[2]);
    } else if s[0] % 16 == 14 {
      LoadDiffers(s[off], s[off + 1], t[off], t[off + 1]);
    }
  }

  lemma LoadDiffers(hi: byte, lo: byte, hi': byte, lo': byte)
    requires hi != hi' || lo != lo'
    ensures ToUint16(Load16(hi, lo) + 269) != ToUint16(Load16(hi', lo') + 269)
  {
    var v: nat, v': nat := Load16(hi, lo), Load16(hi', lo');
    assert v != v';
    Wraps(v + 269);
    Wraps(v' + 269);
  }

  lemma Wraps(n: nat)
    requires n < 0x2_0000
    ensures ToUint16(n) == if n < 0x1_0000 then n else n - 0x1_0000
  {}

  lemma SameHeader(b: seq<byte>, c: seq<byte>, n: nat, pos: nat, width: nat)
    requires n <= |b| && n <= |c| && b[..n] == c[..n] && pos + width <= n && pos < n
    requires width == 1 + NibbleBytes(b[pos] / 16) + NibbleBytes(b[pos] % 16)
    ensures Readable(b[pos..]) && Readable(c[pos..])
    ensures DeltaOf(b[pos..]) == DeltaOf(c[pos..]) && LengthOf(b[pos..]) == LengthOf(c[pos..])
  {
    assert forall i :: pos <= i < n ==> b[i] == b[..n][i] && c[i] == c[..n][i];
  }

  /** The walk may depend on a byte behind the PDU: this six-byte message is accepted,
      and its option number is 13 plus the byte that follows it. */
  lemma ScanSeesBehind(x: byte)
    ensures var b := [0x40, 0x01, 0, 0, 0xE0, 0xFF, x, 0];
      && Accepts(b, 6)
      && ScanMessage(b, 6) == Complete([Rec(13 + x, 13 + x, 0, 4, 2)], 6)
      && !HeadersIn(b, ScanMessage(b, 6).recs, 6)
  {
    var b: seq<byte> := [0x40, 0x01, 0, 0, 0xE0, 0xFF, x, 0];
    assert b[4..] == [0xE0, 0xFF, x, 0];
    assert DeltaOf(b[4..]) == 13 + x;
    assert RecAt(b, 4, 0) == Rec(13 + x, 13 + x, 0, 4, 2);
    assert ScanFrom(b, 6, 6, 13 + x) == Complete([], 6);
    assert !HeaderIn(b, ScanMessage(b, 6).recs[0], 6);
  }

  // ----- encoded options -----

  /** Decoding undoes encoding: the walk over encoded options, followed by nothing or by a marker and a
      non-empty payload, finds exactly those options and stops right behind them, whatever lies behind the PDU. */
  lemma {:induction false} ScanEncoded(head: seq<byte>, prev: uint16, opts: seq<Opt>, tail: seq<byte>,
                                       behind: seq<byte>, b: seq<byte>, n: nat)
    requires Sorted(prev, opts) && b == head + (Encode(prev, opts) + (tail + behind))
    requires |b| == n + |behind| && |behind| >= 2 && |head| <= n
    requires tail == [] || (tail[0] == 0xFF && |tail| > 1)
    ensures var s := ScanFrom(b, n, |head|, prev);
      && s.Complete? && s.end == n - |tail|
      && AllIn(s.recs, |b|) && OptionsIn(b, s.recs) == opts && HeadersIn(b, s.recs, n)
    decreases |opts|
  {
    hide ScanFrom, EncodeOne, Encode, OptionsIn, AllIn, HeadersIn;
    if opts == [] {
      ScanNothing(head, prev, tail, behind, b, n);
    } else {
      var o := opts[0];
      var one, enc := EncodeOne(o.number - prev, o.value), Encode(o.number, opts[1..]);
      EncodeCons(prev, opts);
      Regroup(head, one, enc, tail + behind);
      var r, rest := ScanOneEncoded(head, o.number - prev, o.value, enc + (tail + behind), prev, b, n);
      ScanEncoded(head + one, o.number, opts[1..], tail, behind, b, n);
      OptionsInCons(b, r, rest.recs, n);
      assert opts == [o] + opts[1..];
    }
  }

  /** The walk fails at a header byte with the reserved length 15 that stands behind encoded options. */
  lemma {:induction false} ScanReserved(head: seq<byte>, prev: uint16, opts: seq<Opt>, rest: seq<byte>, b: seq<byte>,
                                        n: nat)
    requires Sorted(prev, opts) && b == head + (Encode(prev, opts) + rest)
    requires rest != [] && rest[0] % 16 == 15 && rest[0] != 0xFF
    requires n + 2 <= |b| && |head| + |Encode(prev, opts)| < n
    ensures ScanFrom(b, n, |head|, prev).Malformed?
    decreases |opts|
  {
    hide EncodeOne, Encode;
    if opts == [] {
      EncodeNone(prev);
      assert b[|head|] == rest[0];
    } else {
      hide ScanFrom;
      var o := opts[0];
      var one, enc := EncodeOne(o.number - prev, o.value), Encode(o.number, opts[1..]);
      EncodeCons(prev, opts);
      Regroup(head, one, enc, rest);
      var r, s := ScanOneEncoded(head, o.number - prev, o.value, enc + rest, prev, b, n);
      ScanReserved(head + one, o.number, opts[1..], rest, b, n);
    }
  }

  lemma ScanNothing(head: seq<byte>, prev: uint16, tail: seq<byte>, behind: seq<byte>, b: seq<byte>, n: nat)
    requires b == head + (Encode(prev, []) + (tail + behind))
    requires |b| == n + |behind| && |behind| >= 2 && |head| <= n
    requires tail == [] || (tail[0] == 0xFF && |tail| > 1)
    ensures var s := ScanFrom(b, n, |head|, prev);
      && s.Complete? && s.end == n - |tail|
      && AllIn(s.recs, |b|) && OptionsIn(b, s.recs) == [] && HeadersIn(b, s.recs, n)
  {
    assert b == head + (tail + behind);
    assert tail != [] ==> b[|head|] == tail[0];
  }

  /** The walk over one encoded option: its record, and the rest of the walk behind it. */
  lemma ScanOneEncoded(head: seq<byte>, delta: uint16, value: seq<byte>, rest: seq<byte>, number: uint16,
                       b: seq<byte>, n: nat)
      returns (r: Rec, s: Scan)
    requires |value| < 0x1_0000 && number + delta < 0x1_0000
    requires b == head + (EncodeOne(delta, value) + rest)
    requires n + 2 <= |b| && |head + EncodeOne(delta, value)| <= n
    ensures s == ScanFrom(b, n, |head + EncodeOne(delta, value)|, number + delta)
    ensures ScanFrom(b, n, |head|, number) == Prepend(r, s)
    ensures r.In(|b|) && r.number == number + delta && b[r.ValueStart()..r.End()] == value
    ensures HeaderIn(b, r, n)
  {
    RecOfEncoded(head, delta, value, rest, number);
    r := RecAt(b, |head|, number);
    s := ScanFrom(b, n, r.End(), r.number);
  }

  lemma Regroup(head: seq<byte>, one: seq<byte>, enc: seq<byte>, tail: seq<byte>)
    ensures head + ((one + enc) + tail) == head + (one + (enc + tail)) == (head + one) + (enc + tail)
  {}

  lemma OptionsInCons(b: seq<byte>, r: Rec, recs: seq<Rec>, n: nat)
    requires r.In(|b|) && AllIn(recs, |b|)
    ensures AllIn([r] + recs, |b|)
    ensures HeaderIn(b, r, n) && HeadersIn(b, recs, n) ==> HeadersIn(b, [r] + recs, n)
    ensures OptionsIn(b, [r] + recs) == [Opt(r.number, b[r.ValueStart()..r.End()])] + OptionsIn(b, recs)
  {
    assert ([r] + recs)[1..] == recs;
  }

  lemma RecOfEncoded(head: seq<byte>, delta: uint16, value: seq<byte>, rest: seq<byte>, number: uint16)
    requires |value| < 0x1_0000 && number + delta < 0x1_0000
    ensures var b := head + (EncodeOne(delta, value) + rest); var pos := |head|;
      && b[pos] != 0xFF && b[pos] / 16 < 15 && b[pos] % 16 < 15 && Readable(b[pos..])
      && NibbleBytes(b[pos] / 16) == ExtraBytes(delta) && NibbleBytes(b[pos] % 16) == ExtraBytes(|value|)
      && var r := RecAt(b, pos, number);
         && r.number == number + delta && r.End() == pos + |EncodeOne(delta, value)|
         && r.delta == delta && r.length == |value|
         && r.In(|b|) && b[r.ValueStart()..r.End()] == value
  {
    hide EncodeOne, Readable, DeltaOf, LengthOf, ExtraBytes;
    var one := EncodeOne(delta, value);
    ReadBack(delta, value, rest);
    ValueLast(delta, value);
    SliceBack(head, one, rest, |value|);
  }

  lemma ValueLast(delta: uint16, value: seq<byte>)
    requires |value| < 0x1_0000
    ensures |EncodeOne(delta, value)| > |value|
    ensures EncodeOne(delta, value)[|EncodeOne(delta, value)| - |value|..] == value
  {}

  lemma SliceBack(head: seq<byte>, one: seq<byte>, rest: seq<byte>, n: nat)
    requires n < |one|
    ensures var b := head + (one + rest);
      && b[|head|..] == one + rest && b[|head|] == (one + rest)[0]
      && b[|head| + |one| - n..|head| + |one|] == one[|one| - n..]
  {}
}
