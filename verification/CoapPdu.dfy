/** The message object of cantcoap.cpp: one flat buffer that is edited in place. */
module CoapPdu {
  import opened Bytes
  import opened OptionWire
  import opened OptionList
  import opened CoapScan

  const COAP_HDR_SIZE: nat := 4
  const PAYLOAD_MARKER: byte := 0xFF

  /** `s` with the bytes from `p` on overwritten by `x`. */
  ghost function Splice(s: seq<byte>, p: nat, x: seq<byte>): (r: seq<byte>)
    requires p + |x| <= |s|
    ensures |r| == |s|
  {
    s[..p] + x + s[p + |x|..]
  }

  lemma SpliceAt(r: seq<byte>, s: seq<byte>, p: nat, x: seq<byte>)
    requires p + |x| <= |s| == |r|
    requires forall i :: 0 <= i < p || p + |x| <= i < |s| ==> r[i] == s[i]
    requires forall i :: 0 <= i < |x| ==> r[p + i] == x[i]
    ensures r == Splice(s, p, x)
  {}

  /** `s` with the `amount` bytes that end at `n - offset` copied so that they end at `n`. */
  ghost function MovedUp(s: seq<byte>, n: nat, offset: nat, amount: nat): (r: seq<byte>)
    requires offset + amount <= n <= |s|
    ensures |r| == |s|
  {
    Splice(s, n - amount, s[n - offset - amount..n - offset])
  }

  lemma MovedUpAt(r: seq<byte>, s: seq<byte>, n: nat, offset: nat, amount: nat)
    requires offset + amount <= n <= |s| == |r|
    requires forall i :: 0 <= i < n - amount || n <= i < |s| ==> r[i] == s[i]
    requires forall i :: n - amount <= i < n ==> r[i] == s[i - offset]
    ensures r == MovedUp(s, n, offset, amount)
  {}

  /** Two adjacent splices are one. */
  lemma SpliceTwice(s: seq<byte>, p: nat, x: seq<byte>, y: seq<byte>)
    requires p + |x| + |y| <= |s|
    ensures Splice(Splice(s, p, x), p + |x|, y) == Splice(s, p, x + y)
  {}

  lemma HeaderCombined(s: seq<byte>, h: nat, hi: byte, ext: seq<byte>, lo: byte)
    requires h + 1 + |ext| <= |s| && hi + lo < 0x100
    ensures var t := Splice(s[h := 0], h, [hi + 0] + ext);
            t[h] == hi && t[h := t[h] + lo] == Splice(s, h, [hi + lo] + ext)
  {}

  /** How many bytes of an option value `insertOption` copies: a length of 269 or more has already been
      reduced by 269 when `memcpy` uses it. */
  function CopyLength(length: uint16): (n: uint16)
    ensures n <= length
  {
    if length < 269 then length else length - 269
  }

  /** A value in a message has the length of the value given, and agrees with it as far as that was copied. */
  predicate StoredAs(stored: seq<byte>, value: seq<byte>) {
    |stored| == |value| < 0x1_0000 && stored[..CopyLength(|value|)] == value[..CopyLength(|value|)]
  }

  lemma ShortStored(stored: seq<byte>, value: seq<byte>)
    requires StoredAs(stored, value) && |value| < 269
    ensures stored == value
  {
    assert stored == stored[..|stored|] && value == value[..|value|];
  }

  /** The option header, its extension bytes and the copied part of the value. */
  function Written(delta: uint16, value: seq<byte>): (s: seq<byte>)
    requires |value| < 0x1_0000
    ensures |s| == 1 + ExtraBytes(delta) + ExtraBytes(|value|) + CopyLength(|value|)
  {
    [HeaderByte(delta, |value|)] + Ext(delta) + Ext(|value|) + value[..CopyLength(|value|)]
  }

  /** `addOption` appends when the number is at least the largest added so far, or the message has no options. */
  predicate Appends(opts: seq<Opt>, tail: seq<byte>, max: uint16, number: uint16) {
    number >= max || (opts == [] && tail == [])
  }

  /** The number under which an added option will be decoded. Deltas of appended options are taken
      against the largest number ever tried, not against the last option that is really there. */
  function EffectiveNumber(opts: seq<Opt>, tail: seq<byte>, max: uint16, number: uint16): uint16
    requires Last(0, opts) <= max
  {
    if Appends(opts, tail, max, number) then Last(0, opts) + ToUint16(number - max) else number
  }

  /** A delta against a larger number wraps. */
  lemma DeltaWraps(number: uint16, prev: uint16)
    ensures ToUint16(number - prev) == if number >= prev then number - prev else number - prev + 0x1_0000
  {}

  /** The full length of an option as `addOption` computes it. */
  function OptionLength(delta: uint16, length: uint16): nat {
    1 + ExtraBytes(delta) + ExtraBytes(length) + length
  }

  /** Growth of the PDU when an option goes in front of one whose delta shrinks from `delta` to `newDelta`. */
  function Growth(optionDelta: uint16, length: uint16, delta: uint16, newDelta: uint16): int {
    OptionLength(optionDelta, length) + ExtraBytes(newDelta) - ExtraBytes(delta)
  }

  /** The in-place growth is never negative, and the next option's header never grows. */
  lemma GrowthNotNegative(optionDelta: uint16, length: uint16, delta: uint16, newDelta: uint16)
    requires optionDelta + newDelta == delta
    ensures 0 <= Growth(optionDelta, length, delta, newDelta) <= OptionLength(optionDelta, length)
  {}

  /** A message does not grow by an option exactly when its value is empty and splitting the delta saves as many
      bytes as the option takes: 13 into 1 and 12, say, or 269 into 257 and 12. */
  lemma GrowthZero(optionDelta: uint16, length: uint16, delta: uint16, newDelta: uint16)
    requires optionDelta + newDelta == delta
    ensures Growth(optionDelta, length, delta, newDelta) == 0 <==>
      length == 0 && ExtraBytes(delta) == 1 + ExtraBytes(optionDelta) + ExtraBytes(newDelta)
  {}

  /** The numbers of the options around the place of `number`: in front of it, counting from `prev`, and behind. */
  function Around(prev: uint16, opts: seq<Opt>, number: uint16): (uint16, uint16)
    decreases |opts|
  {
    if opts == [] then (prev, number)
    else if number < opts[0].number then (prev, opts[0].number)
    else Around(opts[0].number, opts[1..], number)
  }

  lemma {:induction false} InsertedLength(prev: uint16, opts: seq<Opt>, o: Opt)
    requires Sorted(prev, opts) && prev <= o.number < Last(prev, opts) && |o.value| < 0x1_0000
    ensures Sorted(prev, Insert(opts, o))
    ensures var (p, next) := Around(prev, opts, o.number);
      && prev <= p <= o.number < next
      && |Encode(prev, Insert(opts, o))|
         == |Encode(prev, opts)| + Growth(o.number - p, |o.value|, next - p, next - o.number)
    decreases |opts|
  {
    hide EncodeOne, ExtraBytes, Sorted, Encode, Growth, Insert;
    LastOfNone(prev);
    var first, rest := opts[0], opts[1..];
    SortedTail(prev, opts);
    if o.number < first.number {
      InsertFront(opts, o);
      assert opts[..0] + [o] + opts[0..] == [o] + opts;
      LengthInFront(prev, opts, o);
    } else {
      LastBehind(prev, opts);
      InsertBehind(opts, o);
      InsertedLength(first.number, rest, o);
      LengthBehind(prev, opts, Insert(rest, o));
    }
  }

  lemma LengthInFront(prev: uint16, opts: seq<Opt>, o: Opt)
    requires Sorted(prev, opts) && opts != [] && prev <= o.number < opts[0].number && |o.value| < 0x1_0000
    ensures Sorted(prev, [o] + opts)
    ensures |Encode(prev, [o] + opts)| == |Encode(prev, opts)|
         + Growth(o.number - prev, |o.value|, opts[0].number - prev, opts[0].number - o.number)
  {
    hide EncodeOne, ExtraBytes, Sorted, Encode, Growth;
    var first := opts[0];
    EncodeCons(prev, opts);
    SortedRestart(prev, o.number, opts);
    EncodeCons(o.number, opts);
    ConsSorted(prev, o, opts);
    LengthsAdd(EncodeOne(o.number - prev, o.value), EncodeOne(first.number - o.number, first.value),
               EncodeOne(first.number - prev, first.value), o.number, prev, o.value, first);
  }

  /** Two lists with the same first option. */
  lemma LengthBehind(prev: uint16, opts: seq<Opt>, rest: seq<Opt>)
    requires Sorted(prev, opts) && opts != [] && Sorted(opts[0].number, rest)
    ensures Sorted(opts[0].number, opts[1..]) && Sorted(prev, [opts[0]] + rest)
    ensures |Encode(prev, [opts[0]] + rest)| - |Encode(prev, opts)|
         == |Encode(opts[0].number, rest)| - |Encode(opts[0].number, opts[1..])|
  {
    hide EncodeOne, Encode;
    EncodeCons(prev, opts);
    ConsSorted(prev, opts[0], rest);
  }

  /** Exactly when an option added behind a payload leaves the recorded payload position current. */
  lemma LengthKeptExactly(opts: seq<Opt>, o: Opt)
    requires Sorted(0, opts) && o.number < Last(0, opts) && |o.value| < 0x1_0000
    ensures var (prev, next) := Around(0, opts, o.number);
      && prev <= o.number < next
      && (EncodedLength(Insert(opts, o)) == EncodedLength(opts) <==>
            o.value == [] && ExtraBytes(next - prev) == 1 + ExtraBytes(o.number - prev) + ExtraBytes(next - o.number))
  {
    hide Insert, Encode, Sorted;
    InsertedLength(0, opts, o);
    var (prev, next) := Around(0, opts, o.number);
    GrowthZero(o.number - prev, |o.value|, next - prev, next - o.number);
  }

  lemma ShiftedUp(s0: seq<byte>, pos: nat, n: nat, m: nat, s1: seq<byte>)
    requires pos <= n && n + m <= |s0| && s1 == MovedUp(s0, n + m, m, n - pos)
    ensures s1[..pos] == s0[..pos] && s1[pos + m..n + m] == s0[pos..n]
  {}

  /** Re-encoding the delta of the option at `from` as the smaller `e`: the header byte is first copied to
      `to`, so that the shorter option ends where the longer one ended. */
  lemma DeltaRewritten(s1: seq<byte>, from: nat, to: nat, end: nat, d: uint16, e: uint16, next: seq<byte>,
                       rest: seq<byte>, s2: seq<byte>, s3: seq<byte>)
    requires |next| < 0x1_0000 && from <= end <= |s1| && e <= d && to == from + ExtraBytes(d) - ExtraBytes(e)
    requires s1[from..end] == EncodeOne(d, next) + rest
    requires to < |s1| && s2 == s1[to := s1[from]]
    requires to + 1 + ExtraBytes(e) <= |s2|
    requires s3 == Splice(s2, to, [Nibble(e) * 16 + s2[to] % 16] + Ext(e))
    ensures from <= to && s3[..to] == s1[..to] && s3[to..end] == EncodeOne(e, next) + rest
  {
    hide EncodeOne, Splice, HeaderByte, Ext, ExtraBytes, Nibble;
    var x, after := [HeaderByte(e, |next|)] + Ext(e), from + 1 + ExtraBytes(d);
    OptionParts(s1, from, end, d, next, rest);
    HeaderNibbles(d, |next|);
    HeaderNibbles(e, |next|);
    ExtraGrows(e, d);
    Copied(s1, to, s1[from]);
    SpliceSlice(s2, to, x, end);
    Grouped(x, Body(next), rest);
    HeaderFirst(e, next);
  }

  /** What becomes of a payload marker and payload that are taken for an option and get the delta `e`: the marker
      turns into an option header with the reserved length 15, and the first payload byte is lost. */
  function Overwritten(e: uint16, tail: seq<byte>): seq<byte>
    requires |tail| > 1
  {
    [Nibble(e) * 16 + 15] + Ext(e) + tail[2..]
  }

  lemma MarkerMoved(s0: seq<byte>, position: nat, n: nat, m: nat, length: nat, e: uint16, tail: seq<byte>,
                    s2: seq<byte>, s3: seq<byte>)
    requires position <= n <= m <= |s0| == |s2| && m + 1 == n + length + ExtraBytes(e)
    requires s0[position..n] == tail && |tail| > 1 && tail[0] == PAYLOAD_MARKER
    requires var s1 := MovedUp(s0, m, m - n, n - position); s2 == s1[position + length := s1[position + m - n]]
    requires s3 == Splice(s2, position + length, [Nibble(e) * 16 + s2[position + length] % 16] + Ext(e))
    ensures s3[..position + length] == MovedUp(s0, m, m - n, n - position)[..position + length]
    ensures s3[..position] == s0[..position] && s3[position + length..m] == Overwritten(e, tail)
  {
    hide MovedUp, Splice, Nibble, Ext, ExtraBytes;
    var s1, x, h := MovedUp(s0, m, m - n, n - position), [Nibble(e) * 16 + 15] + Ext(e), position + length;
    ShiftedUp(s0, position, n, m - n, s1);
    assert s1[position + m - n] == s1[position + m - n..m][0];
    SpliceSlice(s2, h, x, m);
    assert s2[h + |x|..m] == s1[h + |x|..m] == s1[position + m - n..m][2..];
    assert s2[..h] == s1[..h];
    assert s3[..position] == s3[..h][..position] && s1[..position] == s1[..h][..position];
  }

  lemma ExtraGrows(e: uint16, d: uint16)
    ensures e <= d ==> ExtraBytes(e) <= ExtraBytes(d)
  {}

  lemma HeaderNibbles(d: uint16, length: uint16)
    ensures HeaderByte(d, length) == Nibble(d) * 16 + Nibble(length) && HeaderByte(d, length) % 16 == Nibble(length)
  {
    hide Nibble;
    NibbleOfHeader(d, length);
  }

  /** The parts of an encoded option at `from`. */
  lemma OptionParts(s: seq<byte>, from: nat, end: nat, d: uint16, next: seq<byte>, rest: seq<byte>)
    requires |next| < 0x1_0000 && from <= end <= |s| && s[from..end] == EncodeOne(d, next) + rest
    ensures from + 1 + ExtraBytes(d) <= end && s[from] == HeaderByte(d, |next|)
    ensures s[from + 1 + ExtraBytes(d)..end] == Body(next) + rest
  {
    HeaderFirst(d, next);
    hide EncodeOne, Body, Ext;
    var h := [HeaderByte(d, |next|)] + Ext(d);
    Grouped(h, Body(next), rest);
    assert s[from] == s[from..end][0];
    assert s[from + |h|..end] == s[from..end][|h|..];
  }

  lemma HeaderFirst(d: uint16, next: seq<byte>)
    requires |next| < 0x1_0000
    ensures EncodeOne(d, next) == [HeaderByte(d, |next|)] + Ext(d) + Body(next)
    ensures |Ext(d)| == ExtraBytes(d)
  {}

  lemma Grouped(a: seq<byte>, b: seq<byte>, c: seq<byte>)
    ensures a + b + c == a + (b + c)
  {}

  lemma Copied(s: seq<byte>, to: nat, x: byte)
    requires to < |s|
    ensures s[to := x][..to] == s[..to]
    ensures forall e :: to < e <= |s| ==> s[to := x][e..] == s[e..]
  {}

  /** The bytes behind an insertion point in a buffer that grew to `m` bytes, after the three steps that open a
      hole of `length` bytes there: shift up, copy the next header byte, rewrite its delta. */
  lemma NextMoved(s0: seq<byte>, position: nat, n: nat, m: nat, length: nat, d: uint16, e: uint16, next: seq<byte>,
                  rest: seq<byte>, s2: seq<byte>, s3: seq<byte>)
    requires |next| < 0x1_0000 && e <= d && position <= n <= m <= |s0| == |s2|
    requires m == n + length + ExtraBytes(e) - ExtraBytes(d) && s0[position..n] == EncodeOne(d, next) + rest
    requires position + length + 1 + ExtraBytes(e) <= m && position + m - n < m
    requires var s1 := MovedUp(s0, m, m - n, n - position); s2 == s1[position + length := s1[position + m - n]]
    requires s3 == Splice(s2, position + length, [Nibble(e) * 16 + s2[position + length] % 16] + Ext(e))
    ensures s3[..position + length] == MovedUp(s0, m, m - n, n - position)[..position + length]
    ensures s3[..position] == s0[..position] && s3[position + length..m] == EncodeOne(e, next) + rest
  {
    hide EncodeOne, MovedUp, Splice, HeaderByte, Nibble, Ext;
    var s1 := MovedUp(s0, m, m - n, n - position);
    ShiftedUp(s0, position, n, m - n, s1);
    DeltaRewritten(s1, position + m - n, position + length, m, d, e, next, rest, s2, s3);
    assert s3[..position] == s3[..position + length][..position];
    assert s1[..position] == s1[..position + length][..position];
  }

  lemma EncodeOneOfWritten(delta: uint16, value: seq<byte>, stored: seq<byte>, rest: seq<byte>)
    requires |value| < 0x1_0000 && stored == value[..CopyLength(|value|)] + rest && |stored| == |value|
    ensures EncodeOne(delta, stored) == Written(delta, value) + rest
  {}

  /** How many bytes at the end of a value `insertOption` does not copy. */
  function Uncopied(length: uint16): nat {
    length - CopyLength(length)
  }

  /** What the message holds of `value` when the hole for it ends at `end` in `s`: the copied bytes, and what
      the hole held behind them. */
  ghost function Stored(s: seq<byte>, end: nat, value: seq<byte>): (r: seq<byte>)
    requires |value| < 0x1_0000 && Uncopied(|value|) <= end <= |s|
    ensures |r| == |value|
  {
    value[..CopyLength(|value|)] + s[end - Uncopied(|value|)..end]
  }

  /** `stored` is what the hole `at..end` of a message that grew from `n` to `m` bytes in the buffer `was` holds:
      the bytes from `at` on were moved up first. */
  ghost predicate InHole(stored: seq<byte>, value: seq<byte>, was: seq<byte>, n: nat, m: nat, at: nat, end: nat) {
    && at <= n <= m <= |was| && at + |value| <= end <= |was| && |value| < 0x1_0000
    && stored == Stored(MovedUp(was, m, m - n, n - at), end, value)
  }

  lemma SameHole(wide: seq<byte>, value: seq<byte>, was: seq<byte>, n: nat, m: nat, at: nat, end: nat)
    requires |value| < 0x1_0000 && at <= n <= m <= |was| == |wide| && at + |value| <= end <= |was|
    requires wide[..end] == MovedUp(was, m, m - n, n - at)[..end]
    ensures Uncopied(|value|) <= end && InHole(Stored(wide, end, value), value, was, n, m, at, end)
  {
    hide MovedUp;
    var moved, from := MovedUp(was, m, m - n, n - at), end - Uncopied(|value|);
    assert wide[from..end] == wide[..end][from..] && moved[from..end] == moved[..end][from..];
  }

  /** Nothing is moved for an option at the end. */
  lemma EndHole(value: seq<byte>, was: seq<byte>, n: nat, m: nat)
    requires |value| < 0x1_0000 && n + |value| <= m <= |was|
    ensures Uncopied(|value|) <= m && InHole(Stored(was, m, value), value, was, n, m, n, m)
  {
    assert MovedUp(was, m, m - n, 0) == was;
  }

  /** What the hole leaves alone. */
  lemma StoredFront(s: seq<byte>, end: nat, value: seq<byte>)
    requires |value| < 0x1_0000 && Uncopied(|value|) <= end <= |s|
    ensures StoredAs(Stored(s, end, value), value)
  {}

  lemma LongerThanValue(delta: uint16, length: uint16)
    ensures Uncopied(length) <= length < OptionLength(delta, length)
  {}

  /** A value is stored whole in every hole if and only if it is shorter than 269 bytes; in a given hole it is
      also stored whole when the hole happens to hold its last 269 bytes. */
  lemma StoredWhole(value: seq<byte>)
    requires |value| < 0x1_0000
    ensures (forall s, end | Uncopied(|value|) <= end <= |s| :: Stored(s, end, value) == value) <==> |value| < 269
    ensures forall s, end | Uncopied(|value|) <= end <= |s| ::
      Stored(s, end, value) == value <==> s[end - Uncopied(|value|)..end] == value[CopyLength(|value|)..]
  {
    var c := CopyLength(|value|);
    forall s: seq<byte>, end: nat | Uncopied(|value|) <= end <= |s|
      ensures Stored(s, end, value) == value <==> s[end - Uncopied(|value|)..end] == value[c..]
    {
      assert value == value[..c] + value[c..];
    }
    if |value| >= 269 {
      var other := seq(269, i requires 0 <= i < 269 => 255 - value[c + i]);
      assert other[..269][0] != value[c..][0];
      assert Stored(other, 269, value) != value;
    } else {
      assert value[c..] == [];
    }
  }

  /** The option in the hole: header and copied bytes as written, the rest of a long value as it was. */
  lemma HoleFilled(s3: seq<byte>, pos: nat, delta: uint16, value: seq<byte>, end: nat, s4: seq<byte>)
      returns (stored: seq<byte>)
    requires |value| < 0x1_0000 && pos + OptionLength(delta, |value|) <= end <= |s3|
    requires s4 == Splice(s3, pos, Written(delta, value))
    ensures stored == Stored(s3, pos + OptionLength(delta, |value|), value)
    ensures s4[..pos] == s3[..pos]
    ensures s4[pos..end] == EncodeOne(delta, stored) + s3[pos + OptionLength(delta, |value|)..end]
  {
    hide EncodeOne, Written, ExtraBytes, Splice, CopyLength;
    var w, len := Written(delta, value), OptionLength(delta, |value|);
    var left, right := s3[pos + |w|..pos + len], s3[pos + len..end];
    stored := value[..CopyLength(|value|)] + left;
    EncodeOneOfWritten(delta, value, stored, left);
    SpliceSlice(s3, pos, w, end);
    SplitAt(s3, pos + |w|, pos + len, end);
    Grouped(w, left, right);
  }

  lemma SplitAt(s: seq<byte>, from: nat, mid: nat, to: nat)
    requires from <= mid <= to <= |s|
    ensures s[from..to] == s[from..mid] + s[mid..to]
  {}

  lemma SpliceSlice(s: seq<byte>, p: nat, x: seq<byte>, end: nat)
    requires p + |x| <= end <= |s|
    ensures Splice(s, p, x)[..p] == s[..p]
    ensures Splice(s, p, x)[p..end] == x + s[p + |x|..end]
  {}

  /** Header and token length of a message. */
  function HeadLength(b: seq<byte>): nat
    requires |b| > 0
  {
    COAP_HDR_SIZE + b[0] % 16
  }

  /** Header and token of a message. */
  function Head(b: seq<byte>): seq<byte>
    requires 0 < |b| && HeadLength(b) <= |b|
  {
    b[..HeadLength(b)]
  }

  /** The message `b` is a header, a token of at most 8 bytes, the encoding of `opts`, and `tail`, which is
      empty or a payload marker with a payload. */
  ghost predicate Means(b: seq<byte>, opts: seq<Opt>, tail: seq<byte>) {
    && COAP_HDR_SIZE <= |b| && HeadLength(b) <= |b| && b[0] % 16 <= 8
    && (tail == [] || (tail[0] == PAYLOAD_MARKER && |tail| > 1))
    && Sorted(0, opts) && b[HeadLength(b)..] == Encode(0, opts) + tail
  }

  lemma NewMeaning(b: seq<byte>)
    requires b == [0x40, 0, 0, 0]
    ensures Means(b, [], [])
  {
    assert HeadLength(b) == 4 && b[4..] == [];
  }

  /** An added option is decoded under its own number exactly when the maximum is that of the last option,
      or the option does not go last. The maximum is off only after a refused append. */
  lemma EffectiveExactly(opts: seq<Opt>, tail: seq<byte>, max: uint16, number: uint16)
    requires Last(0, opts) <= max
    ensures EffectiveNumber(opts, tail, max, number) == number
       <==> max == Last(0, opts) || !Appends(opts, tail, max, number)
  {}

  /** The length of a message after `addOption`. */
  ghost function Needed(b: seq<byte>, opts: seq<Opt>, tail: seq<byte>, max: uint16, number: uint16,
                        value: seq<byte>): int
    requires |b| > 0 && Last(0, opts) <= max && |value| < 0x1_0000
  {
    var last := Last(0, opts);
    if tail == [] || number < last then
      HeadLength(b) + EncodedLength(Insert(opts, Opt(EffectiveNumber(opts, tail, max, number), value))) + |tail|
    else if number >= max then |b| + OptionLength(number - max, |value|)
    else |b| + OptionLength(number - last, |value|) + ExtraBytes(ToUint16(last + 15 - number)) - 1
  }

  class CoapPDU {
    var pdu: array<byte>
    var pduLength: nat
    var bufferLength: nat
    const constructedFromBuffer: bool
    var numOptions: nat
    var maxAddedOptionNumber: uint16
    var payloadPointer: int // an offset into the PDU; -1 stands for NULL
    var payloadLength: nat

    /** The options the bytes encode, and the payload marker with its payload, if any. */
    ghost var opts: seq<Opt>
    ghost var tail: seq<byte>

    ghost predicate Buffered()
      reads this, pdu
    {
      && COAP_HDR_SIZE <= pduLength <= bufferLength == pdu.Length
      && (!constructedFromBuffer ==> bufferLength == pduLength)
    }

    /** The bytes mean the options `opts` followed by `tail`. */
    ghost predicate WellFormed()
      reads this, pdu
    {
      Buffered() && Means(Message(), opts, tail) && numOptions == |opts|
    }

    ghost predicate Valid()
      reads this, pdu
    {
      WellFormed() && Last(0, opts) <= maxAddedOptionNumber
    }

    /** `getTokenLength`. */
    function TokenLength(): nat
      requires pdu.Length > 0
      reads this, pdu
    {
      pdu[0] % 16
    }

    /** The message as it would be sent. */
    ghost function Message(): seq<byte>
      requires Buffered()
      reads this, pdu
    {
      pdu[..pduLength]
    }

    // ----- construction -----

    /** `CoapPDU()`: a message whose buffer grows on demand. */
    constructor Dynamic()
      ensures Valid() && fresh(pdu) && !constructedFromBuffer
      ensures opts == [] && tail == [] && maxAddedOptionNumber == 0
      ensures Message() == [0x40, 0, 0, 0]
      ensures payloadPointer == -1 && payloadLength == 0
    {
      hide Means;
      NewMeaning([0x40, 0, 0, 0]);
      constructedFromBuffer := false;
      pdu := new byte[4](i => 0);
      pduLength, bufferLength := 4, 4;
      numOptions, maxAddedOptionNumber := 0, 0;
      payloadPointer, payloadLength := -1, 0;
      opts, tail := [], [];
      new;
      pdu[0] := pdu[0] % 64 + 1 * 64;
      assert pdu[..4] == [0x40, 0, 0, 0];
    }

    /** `CoapPDU(buffer, bufferLength, 0)`: a fresh message in a caller's buffer. */
    constructor InBuffer(buffer: array<byte>)
      requires buffer.Length >= COAP_HDR_SIZE
      modifies buffer
      ensures Valid() && pdu == buffer && constructedFromBuffer
      ensures opts == [] && tail == [] && maxAddedOptionNumber == 0
      ensures Message() == [0x40, 0, 0, 0] && buffer[4..] == old(buffer[4..])
      ensures payloadPointer == -1 && payloadLength == 0
    {
      hide Means;
      NewMeaning([0x40, 0, 0, 0]);
      constructedFromBuffer := true;
      pdu := buffer;
      pduLength, bufferLength := 4, buffer.Length;
      numOptions, maxAddedOptionNumber := 0, 0;
      payloadPointer, payloadLength := -1, 0;
      opts, tail := [], [];
      new;
      pdu[0], pdu[1], pdu[2], pdu[3] := 0, 0, 0, 0;
      pdu[0] := pdu[0] % 64 + 1 * 64;
      assert pdu[..4] == [0x40, 0, 0, 0];
    }

    /** `CoapPDU(buffer, bufferLength, pduLength)`: a message that was received, to be validated. */
    constructor Received(buffer: array<byte>, pduLength: nat)
      requires 0 < pduLength <= buffer.Length
      ensures pdu == buffer && this.pduLength == pduLength && bufferLength == buffer.Length && constructedFromBuffer
      ensures Buffered() <==> pduLength >= COAP_HDR_SIZE
      ensures numOptions == 0 && maxAddedOptionNumber == 0 && payloadPointer == -1 && payloadLength == 0
    {
      constructedFromBuffer := true;
      pdu := buffer;
      this.pduLength, bufferLength := pduLength, buffer.Length;
      numOptions, maxAddedOptionNumber := 0, 0;
      payloadPointer, payloadLength := -1, 0;
      opts, tail := [], [];
    }

    // ----- moving bytes -----

    /** The `realloc` of a growing message, or the space check on a caller's buffer. On success the PDU
        has the new length and its old bytes; what lies behind them is arbitrary. */
    method Reserve(newLength: nat) returns (ok: bool)
      requires Buffered() && COAP_HDR_SIZE <= newLength
      modifies this`pdu, this`pduLength, this`bufferLength
      ensures ok <==> !constructedFromBuffer || newLength <= old(bufferLength)
      ensures ok ==> Buffered() && pduLength == newLength && (pdu == old(pdu) || fresh(pdu))
      ensures ok && constructedFromBuffer ==> pdu == old(pdu) && bufferLength == old(bufferLength)
      ensures ok ==> forall i :: 0 <= i < newLength && i < old(pduLength) ==> pdu[i] == old(pdu[i])
      ensures !ok ==> pdu == old(pdu) && pduLength == old(pduLength) && bufferLength == old(bufferLength)
    {
      if !constructedFromBuffer {
        var newMemory := new byte[newLength];
        forall i | 0 <= i < newLength && i < bufferLength {
          newMemory[i] := pdu[i];
        }
        pdu, pduLength, bufferLength := newMemory, newLength, newLength;
      } else if newLength > bufferLength {
        return false;
      } else {
        pduLength := newLength;
      }
      return true;
    }

    /** `shiftPDUUp`: moves `shiftAmount` bytes up by `shiftOffset` so that they end where the PDU ends. */
    method ShiftPDUUp(shiftOffset: nat, shiftAmount: nat)
      requires shiftOffset + shiftAmount <= pduLength <= pdu.Length
      modifies pdu
      ensures pdu[..] == MovedUp(old(pdu[..]), pduLength, shiftOffset, shiftAmount)
    {
      ghost var was, n := pdu[..], pduLength;
      var destPointer := pduLength - 1;
      var srcPointer := destPointer - shiftOffset;
      var left := shiftAmount;
      while left > 0
        invariant 0 <= left <= shiftAmount
        invariant destPointer == n - 1 - (shiftAmount - left) && srcPointer == destPointer - shiftOffset
        invariant forall i :: 0 <= i <= destPointer ==> pdu[i] == was[i]
        invariant forall i :: destPointer < i < n ==> pdu[i] == was[i - shiftOffset]
        invariant forall i :: n <= i < pdu.Length ==> pdu[i] == was[i]
      {
        pdu[destPointer] := pdu[srcPointer];
        destPointer := destPointer - 1;
        srcPointer := srcPointer - 1;
        left := left - 1;
      }
      MovedUpAt(pdu[..], was, n, shiftOffset, shiftAmount);
    }

    /** `shiftPDUDown`. */
    method ShiftPDUDown(startLocation: nat, shiftOffset: nat, shiftAmount: nat)
      requires startLocation + shiftOffset + shiftAmount <= pdu.Length
      modifies pdu
      ensures pdu[..] == Splice(old(pdu[..]), startLocation,
                                old(pdu[..])[startLocation + shiftOffset..startLocation + shiftOffset + shiftAmount])
    {
      hide Splice;
      ghost var was := pdu[..];
      var dest, srcPointer := startLocation, startLocation + shiftOffset;
      var left := shiftAmount;
      while left > 0
        invariant 0 <= left <= shiftAmount
        invariant dest == startLocation + (shiftAmount - left) && srcPointer == dest + shiftOffset
        invariant forall i :: 0 <= i < startLocation ==> pdu[i] == was[i]
        invariant forall i :: startLocation <= i < dest ==> pdu[i] == was[i + shiftOffset]
        invariant forall i :: dest <= i < pdu.Length ==> pdu[i] == was[i]
      {
        pdu[dest] := pdu[srcPointer];
        dest := dest + 1;
        srcPointer := srcPointer + 1;
        left := left - 1;
      }
      SpliceAt(pdu[..], was, startLocation,
          was[startLocation + shiftOffset..startLocation + shiftOffset + shiftAmount]);
    }

    /** `setOptionDelta`: a new delta nibble and its extension bytes; the length nibble stays. */
    method SetOptionDelta(optionPosition: nat, optionDelta: uint16)
      requires optionPosition + 1 + ExtraBytes(optionDelta) <= pdu.Length
      modifies pdu
      ensures pdu[..] == Splice(old(pdu[..]), optionPosition,
                                [Nibble(optionDelta) * 16 + old(pdu[optionPosition]) % 16] + Ext(optionDelta))
    {
      pdu[optionPosition] := pdu[optionPosition] % 16;
      if optionDelta < 13 {
        pdu[optionPosition] := pdu[optionPosition] + optionDelta * 16;
      } else if optionDelta < 269 {
        pdu[optionPosition] := pdu[optionPosition] + 0xD0;
        pdu[optionPosition + 1] := optionDelta - 13;
      } else {
        pdu[optionPosition] := pdu[optionPosition] + 0xE0;
        var bytes := Store16(optionDelta - 269);
        pdu[optionPosition + 1], pdu[optionPosition + 2] := bytes[0], bytes[1];
      }
    }

    /** The length half of `insertOption`: completes the header byte and writes the extension at `position`. */
    method SetOptionLength(headerStart: nat, position: nat, length: uint16)
      requires headerStart < position && position + ExtraBytes(length) <= pdu.Length
      requires pdu[headerStart] % 16 == 0
      modifies pdu
      ensures pdu[..] == Splice(old(pdu[..])[headerStart := old(pdu[headerStart]) + Nibble(length)],
                                position, Ext(length))
    {
      if length < 13 {
        pdu[headerStart] := pdu[headerStart] + length;
      } else if length < 269 {
        pdu[headerStart] := pdu[headerStart] + 0x0D;
        pdu[position] := length - 13;
      } else {
        pdu[headerStart] := pdu[headerStart] + 0x0E;
        var bytes := Store16(length - 269);
        pdu[position], pdu[position + 1] := bytes[0], bytes[1];
      }
    }

    /** `insertOption`: writes an option over the bytes at `insertionPosition`. */
    method InsertOption(insertionPosition: nat, optionDelta: uint16, optionValue: seq<byte>)
      requires |optionValue| < 0x1_0000
      requires insertionPosition + |Written(optionDelta, optionValue)| <= pdu.Length
      modifies pdu
      ensures pdu[..] == Splice(old(pdu[..]), insertionPosition, Written(optionDelta, optionValue))
    {
      hide Splice, HeaderByte, Ext, ExtraBytes;
      ghost var was := pdu[..];
      var length: uint16 := |optionValue|;
      InsertHeader(insertionPosition, optionDelta, length);
      var position := insertionPosition + 1 + ExtraBytes(optionDelta) + ExtraBytes(length);
      if length >= 269 {
        length := length - 269;
      }
      CopyValue(position, length, optionValue);
      SpliceTwice(was, insertionPosition,
          [HeaderByte(optionDelta, |optionValue|)] + Ext(optionDelta) + Ext(|optionValue|),
                  optionValue[..length]);
    }

    /** The header byte of an option and the extension bytes of its delta and length. */
    method InsertHeader(headerStart: nat, optionDelta: uint16, length: uint16)
      requires headerStart + 1 + ExtraBytes(optionDelta) + ExtraBytes(length) <= pdu.Length
      modifies pdu
      ensures pdu[..] == Splice(old(pdu[..]), headerStart,
                                [HeaderByte(optionDelta, length)] + Ext(optionDelta) + Ext(length))
    {
      hide Splice, Ext, ExtraBytes, Nibble;
      ghost var was := pdu[..];
      pdu[headerStart] := 0;
      SetOptionDelta(headerStart, optionDelta);
      HeaderCombined(was, headerStart, Nibble(optionDelta) * 16, Ext(optionDelta), Nibble(length));
      var position := headerStart + 1 + ExtraBytes(optionDelta);
      SetOptionLength(headerStart, position, length);
      ghost var header := [HeaderByte(optionDelta, length)] + Ext(optionDelta);
      SpliceTwice(was, headerStart, header, Ext(length));
    }

    /** `memcpy` of the first `length` bytes of a value. */
    method CopyValue(position: nat, length: nat, value: seq<byte>)
      requires length <= |value| && position + length <= pdu.Length
      modifies pdu
      ensures pdu[..] == Splice(old(pdu[..]), position, value[..length])
    {
      forall i | 0 <= i < length {
        pdu[position + i] := value[i];
      }
      SpliceAt(pdu[..], old(pdu[..]), position, value[..length]);
    }

    // ----- adding options -----

    /** `findInsertionPosition`. A walk stops in front of the first option whose number is greater, at
        index `k`; the option before it has number `prev`. */
    method FindInsertionPosition(optionNumber: uint16)
        returns (position: nat, prev: uint16, ghost k: nat)
      requires Valid()
      ensures Appends(opts, tail, maxAddedOptionNumber, optionNumber) ==>
                position == pduLength && prev == maxAddedOptionNumber
      ensures !Appends(opts, tail, maxAddedOptionNumber, optionNumber) ==>
        && k <= |opts| && At(Message(), opts, tail, HeadLength(Message()), position, k, prev) && prev <= optionNumber
        && (k < |opts| ==> optionNumber < opts[k].number)
    {
      k := 0;
      if optionNumber >= maxAddedOptionNumber || pduLength == COAP_HDR_SIZE + TokenLength() {
        assert pduLength == HeadLength(Message()) ==> Encode(0, opts) + tail == [];
        assert opts != [] ==> |Encode(0, opts)| > 0;
        return pduLength, maxAddedOptionNumber, 0;
      }
      position, prev, k := WalkTo(pdu[..], pduLength, COAP_HDR_SIZE + TokenLength(), optionNumber, opts, tail);
    }

    /** `insertOption` into a hole of the option's full length. */
    method FillHole(position: nat, optionDelta: uint16, optionValue: seq<byte>) returns (ghost stored: seq<byte>)
      requires Buffered() && |optionValue| < 0x1_0000
      requires position + OptionLength(optionDelta, |optionValue|) <= pduLength
      modifies pdu
      ensures stored == Stored(old(pdu[..]), position + OptionLength(optionDelta, |optionValue|), optionValue)
      ensures pdu[..][..position] == old(pdu[..])[..position]
      ensures pdu[..][position..pduLength] == EncodeOne(optionDelta, stored)
              + old(pdu[..])[position + OptionLength(optionDelta, |optionValue|)..pduLength]
    {
      hide EncodeOne, Splice, Stored;
      ghost var was := pdu[..];
      InsertOption(position, optionDelta, optionValue);
      stored := HoleFilled(was, position, optionDelta, optionValue, pduLength, pdu[..]);
    }

    /** The branch of `addOption` that appends behind the last byte. */
    method AppendOption(optionDelta: uint16, optionValue: seq<byte>) returns (ok: bool, ghost stored: seq<byte>)
      requires Buffered() && |optionValue| < 0x1_0000
      modifies this, pdu
      ensures unchanged(`maxAddedOptionNumber, `payloadPointer, `payloadLength, `opts, `tail)
      ensures ok <==> !constructedFromBuffer
                      || old(pduLength) + OptionLength(optionDelta, |optionValue|) <= old(bufferLength)
      ensures pdu == old(pdu) || fresh(pdu)
      ensures Buffered() && (constructedFromBuffer ==> pdu == old(pdu))
      ensures numOptions == old(numOptions) + (if ok then 1 else 0)
      ensures !ok ==> Message() == old(Message())
      ensures ok ==>
        && StoredAs(stored, optionValue) && pduLength == old(pduLength) + OptionLength(optionDelta, |optionValue|)
        && Message() == old(Message()) + EncodeOne(optionDelta, stored)
      ensures ok && constructedFromBuffer ==>
        InHole(stored, optionValue, old(pdu[..]), old(pduLength), pduLength, old(pduLength), pduLength)
    {
      hide EncodeOne, ExtraBytes, CopyLength, DeltaOf, OptionLength, Stored, InHole, Uncopied;
      LongerThanValue(optionDelta, |optionValue|);
      ghost var was := Message();
      var position := pduLength;
      ok := Reserve(pduLength + OptionLength(optionDelta, |optionValue|));
      if !ok {
        stored := [];
        assert Message() == was;
        return;
      }
      assert pdu[..][..position] == was;
      EndHole(optionValue, pdu[..], position, pduLength);
      StoredFront(pdu[..], pduLength, optionValue);
      stored := FillHole(position, optionDelta, optionValue);
      assert Message() == pdu[..][..position] + pdu[..][position..pduLength];
      numOptions := numOptions + 1;
    }

    /** The branch of `addOption` that opens a hole in front of an option with delta `next.number - prev`. */
    method InsertBefore(position: nat, prev: uint16, number: uint16, optionValue: seq<byte>, ghost next: Opt,
                        ghost rest: seq<byte>)
        returns (ok: bool, ghost stored: seq<byte>)
      requires Buffered() && |optionValue| < 0x1_0000 && |next.value| < 0x1_0000
      requires prev <= number < next.number && COAP_HDR_SIZE <= position <= pduLength
      requires pdu[position..pduLength] == EncodeOne(next.number - prev, next.value) + rest
      modifies this, pdu
      ensures unchanged(`maxAddedOptionNumber, `payloadPointer, `payloadLength, `opts, `tail)
      ensures ok <==> !constructedFromBuffer
                      || old(pduLength) + Growth(number - prev, |optionValue|, next.number - prev, next.number - number)
                         <= old(bufferLength)
      ensures pdu == old(pdu) || fresh(pdu)
      ensures Buffered() && (constructedFromBuffer ==> pdu == old(pdu))
      ensures numOptions == old(numOptions) + (if ok then 1 else 0)
      ensures !ok ==> Message() == old(Message())
      ensures ok ==>
        && StoredAs(stored, optionValue)
        && pduLength == old(pduLength)
           + Growth(number - prev, |optionValue|, next.number - prev, next.number - number)
        && Message() == old(Message())[..position]
           + (EncodeOne(number - prev, stored) + (EncodeOne(next.number - number, next.value) + rest))
      ensures ok && constructedFromBuffer ==>
        InHole(stored, optionValue, old(pdu[..]), old(pduLength), pduLength, position,
               position + OptionLength(number - prev, |optionValue|))
    {
      hide EncodeOne, ExtraBytes, CopyLength, InHole;
      ghost var was := Message();
      var oldPDULength := pduLength;
      var optionDelta := number - prev;
      var nextOptionDelta := NextDelta(position, next.number - prev, next.value, rest);
      var newNextOptionDelta := prev + nextOptionDelta - number;
      GrowthNotNegative(optionDelta, |optionValue|, nextOptionDelta, newNextOptionDelta);
      var mallocLength := OptionLength(optionDelta, |optionValue|)
        + (ExtraBytes(newNextOptionDelta) - ExtraBytes(nextOptionDelta));
      ok := Reserve(pduLength + mallocLength);
      if !ok {
        stored := [];
        assert Message() == was;
        return;
      }
      assert pdu[..][..|was|] == was;
      stored := OpenAndFill(position, oldPDULength, optionDelta, optionValue, nextOptionDelta, newNextOptionDelta,
                            next.value, rest);
      numOptions := numOptions + 1;
    }

    method NextDelta(position: nat, ghost delta: uint16, ghost value: seq<byte>, ghost rest: seq<byte>)
        returns (d: uint16)
      requires Buffered() && |value| < 0x1_0000 && position <= pduLength
      requires pdu[position..pduLength] == EncodeOne(delta, value) + rest
      ensures d == delta
    {
      hide EncodeOne;
      DeltaInBuffer(pdu[..], pduLength, position, delta, value, rest);
      d := DeltaOf(pdu[position..]);
    }

    /** The PDU has just grown from `n` bytes: opens the hole, re-encodes the next delta, writes the option. */
    method OpenAndFill(position: nat, n: nat, delta: uint16, optionValue: seq<byte>, d: uint16, e: uint16,
                       ghost next: seq<byte>, ghost rest: seq<byte>) returns (ghost stored: seq<byte>)
      requires Buffered() && e <= d && |next| < 0x1_0000 && COAP_HDR_SIZE <= position <= n <= pduLength
      requires |optionValue| < 0x1_0000
      requires 0 <= Growth(delta, |optionValue|, d, e) && pduLength == n + Growth(delta, |optionValue|, d, e)
      requires pdu[..][..n][position..] == EncodeOne(d, next) + rest
      modifies pdu
      ensures StoredAs(stored, optionValue)
      ensures InHole(stored, optionValue, old(pdu[..]), n, pduLength, position,
          position + OptionLength(delta, |optionValue|))
      ensures Message() == old(pdu[..])[..n][..position] + (EncodeOne(delta, stored) + (EncodeOne(e, next) + rest))
    {
      hide EncodeOne, ExtraBytes, CopyLength, MovedUp, Stored, InHole, Uncopied;
      ghost var was := pdu[..];
      StillThere(was, was[..n], position);
      var length := OptionLength(delta, |optionValue|);
      MoveNextUp(position, n, length, d, e, next, rest);
      LongerThanValue(delta, |optionValue|);
      SameHole(pdu[..], optionValue, was, n, pduLength, position, position + length);
      StoredFront(pdu[..], position + length, optionValue);
      stored := FillHole(position, delta, optionValue);
      Assembled(pdu[..], pduLength, position, was[..n][..position],
                EncodeOne(delta, stored) + (EncodeOne(e, next) + rest));
    }

    /** Opens a hole of `length` bytes at `position` in a PDU that has just grown from `n` bytes, and
        re-encodes the delta `d` of the option behind it as `e`. */
    method MoveNextUp(position: nat, n: nat, length: nat, d: uint16, e: uint16, ghost next: seq<byte>,
                      ghost rest: seq<byte>)
      requires Buffered() && e <= d && |next| < 0x1_0000 && COAP_HDR_SIZE <= position <= n <= pduLength
      requires ExtraBytes(d) <= length + ExtraBytes(e) && pduLength == n + length + ExtraBytes(e) - ExtraBytes(d)
      requires pdu[..][position..n] == EncodeOne(d, next) + rest
      modifies pdu
      ensures pdu[..][..position] == old(pdu[..])[..position]
      ensures position + length <= pduLength
      ensures pdu[..][..position + length]
           == MovedUp(old(pdu[..]), pduLength, pduLength - n, n - position)[..position + length]
      ensures pdu[..][position + length..pduLength] == EncodeOne(e, next) + rest
    {
      hide EncodeOne, MovedUp, Splice, HeaderByte, Ext, Nibble;
      var mallocLength := length + ExtraBytes(e) - ExtraBytes(d);
      ghost var s0 := pdu[..];
      OptionParts(s0, position, n, d, next, rest);
      ShiftPDUUp(mallocLength, n - position);
      var optionDeltaAdjustment := ExtraBytes(e) - ExtraBytes(d);
      var nextHeaderPos := position + mallocLength;
      pdu[nextHeaderPos - optionDeltaAdjustment] := pdu[nextHeaderPos];
      nextHeaderPos := nextHeaderPos - optionDeltaAdjustment;
      ghost var s2 := pdu[..];
      SetOptionDelta(nextHeaderPos, e);
      NextMoved(s0, position, n, pduLength, length, d, e, next, rest, s2, pdu[..]);
    }

    /** `addOption` at the end of the PDU: the option list grows, or the payload does. */
    method AddAtEnd(number: uint16, prev: uint16, optionValue: seq<byte>) returns (r: int, ghost stored: seq<byte>)
      requires WellFormed() && |optionValue| <= 65530
      requires Last(0, opts) + ToUint16(number - prev) < 0x1_0000
      modifies this, pdu
      ensures pdu == old(pdu) || (fresh(pdu) && !constructedFromBuffer)
      ensures unchanged(`payloadPointer, `payloadLength) && maxAddedOptionNumber == number
      ensures (r == 0 || r == 1) && numOptions == old(numOptions) + 1 - r
      ensures r == 0 ==>
        && StoredAs(stored, optionValue)
        && Buffered() && Message() == old(Message()) + EncodeOne(ToUint16(number - prev), stored)
      ensures r == 0 && constructedFromBuffer ==>
        InHole(stored, optionValue, old(pdu[..]), old(pduLength), pduLength, old(pduLength), pduLength)
      ensures r == 0 && old(tail) != [] ==>
        && tail == old(tail) + EncodeOne(ToUint16(number - prev), stored) && opts == old(opts)
        && Means(Message(), opts, tail) && Head(Message()) == Head(old(Message()))
        && forall x :: !Means(Message(), x, old(tail))
      ensures r == 0 && old(tail) == [] ==>
        && WellFormed() && tail == [] && Head(Message()) == Head(old(Message()))
        && var eff := Last(0, old(opts)) + ToUint16(number - prev);
           opts == Insert(old(opts), Opt(eff, stored)) && Last(0, opts) == eff
      ensures r == 1 ==> WellFormed() && Message() == old(Message()) && opts == old(opts) && tail == old(tail)
      ensures old(tail) == [] ==>
        var o := Opt(Last(0, old(opts)) + ToUint16(number - prev), optionValue);
        var needed := HeadLength(old(Message())) + EncodedLength(Insert(old(opts), o));
        && (r == 1 <==> constructedFromBuffer && needed > old(bufferLength))
        && (r == 0 ==> pduLength == needed)
      ensures old(tail) != [] ==>
        var needed := old(pduLength) + OptionLength(ToUint16(number - prev), |optionValue|);
        && (r == 1 <==> constructedFromBuffer && needed > old(bufferLength))
        && (r == 0 ==> pduLength == needed)
    {
      hide Means, Insert, EncodeOne, ExtraBytes, InHole, Head, OptionLength;
      ghost var was := Message();
      var optionDelta := ToUint16(number - prev);
      maxAddedOptionNumber := number;
      var ok;
      ok, stored := AppendOption(optionDelta, optionValue);
      if tail == [] {
        AppendedMeaning(was, opts, optionDelta, optionValue);
        if ok {
          AppendedMeaning(was, opts, optionDelta, stored);
          opts := Insert(opts, Opt(Last(0, opts) + optionDelta, stored));
        }
      } else if ok {
        ghost var more := EncodeOne(optionDelta, stored);
        TailGrown(was, opts, tail, more);
        OtherTail(was + more, opts, tail, more);
        tail := tail + more;
      }
      r := if ok then 0 else 1;
    }

    /** `addOption` in front of the option of index `k`. */
    method AddInside(number: uint16, position: nat, prev: uint16, ghost k: nat, optionValue: seq<byte>)
        returns (r: int, ghost stored: seq<byte>)
      requires WellFormed() && |optionValue| <= 65530
      requires k < |opts| && At(Message(), opts, tail, HeadLength(Message()), position, k, prev)
      requires prev <= number < opts[k].number
      modifies this, pdu
      ensures pdu == old(pdu) || (fresh(pdu) && !constructedFromBuffer)
      ensures unchanged(`payloadPointer, `payloadLength, `maxAddedOptionNumber, `tail)
      ensures (r == 0 || r == 1) && numOptions == old(numOptions) + 1 - r
      ensures r == 0 ==>
        && StoredAs(stored, optionValue)
        && WellFormed() && Head(Message()) == Head(old(Message()))
        && opts == Insert(old(opts), Opt(number, stored)) && Last(0, opts) == Last(0, old(opts))
      ensures r == 0 && constructedFromBuffer ==>
        InHole(stored, optionValue, old(pdu[..]), old(pduLength), pduLength, position,
               position + OptionLength(number - prev, |optionValue|))
      ensures r == 1 ==> WellFormed() && Message() == old(Message()) && opts == old(opts)
      ensures
        var needed := HeadLength(old(Message())) + EncodedLength(Insert(old(opts), Opt(number, optionValue))) + |tail|;
        && (r == 1 <==> constructedFromBuffer && needed > old(bufferLength))
        && (r == 0 ==> pduLength == needed)
    {
      hide Means, Sorted, At, Insert, EncodeOne, ExtraBytes, Growth, Encode, InHole, Head, HeadLength;
      ghost var was := Message();
      BehindHead(was, opts, tail, position, k, prev);
      ghost var one, rest := NextAt(was, opts, tail, HeadLength(was), position, k, prev);
      InsertedMeaning(was, opts, tail, position, k, prev, number, optionValue, one, rest);
      var ok;
      ok, stored := InsertBefore(position, prev, number, optionValue, opts[k], rest);
      if ok {
        InsertedMeaning(was, opts, tail, position, k, prev, number, stored, one, rest);
        opts := Insert(opts, Opt(number, stored));
      }
      r := if ok then 0 else 1;
    }

    /** `addOption` at the payload marker, which it takes for an option with delta 15. */
    method AddAtMarker(number: uint16, position: nat, prev: uint16, optionValue: seq<byte>)
        returns (r: int, ghost stored: seq<byte>)
      requires WellFormed() && |optionValue| <= 65530 && tail != [] && prev <= number
      requires position + |tail| == pduLength && pdu[position..pduLength] == tail && position >= COAP_HDR_SIZE
      modifies this, pdu
      ensures pdu == old(pdu) || (fresh(pdu) && !constructedFromBuffer)
      ensures unchanged(`payloadPointer, `payloadLength, `maxAddedOptionNumber, `opts, `tail)
      ensures (r == 0 || r == 1) && numOptions == old(numOptions) + 1 - r
      ensures var e := ToUint16(prev + 15 - number);
        var needed := old(pduLength) + OptionLength(number - prev, |optionValue|) + ExtraBytes(e) - 1;
        && (r == 1 <==> constructedFromBuffer && needed > old(bufferLength))
        && (r == 0 ==>
              && pduLength == needed && StoredAs(stored, optionValue)
              && Buffered() && Message() == old(Message())[..position]
                 + (EncodeOne(number - prev, stored) + Overwritten(e, tail)))
      ensures r == 0 && constructedFromBuffer ==>
        InHole(stored, optionValue, old(pdu[..]), old(pduLength), pduLength, position,
               position + OptionLength(number - prev, |optionValue|))
      ensures r == 1 ==> WellFormed() && Message() == old(Message())
    {
      hide EncodeOne, ExtraBytes, CopyLength, Means, InHole, Overwritten;
      ghost var was := Message();
      MarkerFirst(was, opts, tail);
      var oldPDULength, length := pduLength, OptionLength(number - prev, |optionValue|);
      LongerThanValue(number - prev, |optionValue|);
      var newNextOptionDelta := ToUint16(prev + 15 - number);
      ExtraOfFifteen();
      var ok := Reserve(pduLength + length + ExtraBytes(newNextOptionDelta) - ExtraBytes(15));
      if !ok {
        assert Message() == was;
        return 1, [];
      }
      StillThere(pdu[..], was, position);
      stored := FillAtMarker(position, oldPDULength, number - prev, optionValue, newNextOptionDelta, tail);
      numOptions := numOptions + 1;
      r := 0;
    }

    /** The PDU has just grown from `n` bytes: opens the hole at the payload marker and writes the option. */
    method FillAtMarker(position: nat, n: nat, delta: uint16, optionValue: seq<byte>, e: uint16, ghost rest: seq<byte>)
        returns (ghost stored: seq<byte>)
      requires Buffered() && COAP_HDR_SIZE <= position <= n <= pduLength && |optionValue| < 0x1_0000
      requires pduLength + 1 == n + OptionLength(delta, |optionValue|) + ExtraBytes(e)
      requires pdu[..][position..n] == rest && |rest| > 1 && rest[0] == PAYLOAD_MARKER
      modifies pdu
      ensures StoredAs(stored, optionValue)
      ensures InHole(stored, optionValue, old(pdu[..]), n, pduLength, position,
          position + OptionLength(delta, |optionValue|))
      ensures Message() == old(pdu[..])[..position] + (EncodeOne(delta, stored) + Overwritten(e, rest))
    {
      hide EncodeOne, ExtraBytes, CopyLength, MovedUp, Stored, InHole, Uncopied, Overwritten;
      ghost var was := pdu[..];
      var length := OptionLength(delta, |optionValue|);
      LongerThanValue(delta, |optionValue|);
      OpenAtMarker(position, n, length, e, rest);
      SameHole(pdu[..], optionValue, was, n, pduLength, position, position + length);
      StoredFront(pdu[..], position + length, optionValue);
      stored := FillHole(position, delta, optionValue);
      assert Message() == pdu[..][..position] + pdu[..][position..pduLength];
    }

    /** The PDU has just grown from `n` bytes: the hole in front of the payload marker. */
    method OpenAtMarker(position: nat, n: nat, length: nat, e: uint16, ghost rest: seq<byte>)
      requires Buffered() && COAP_HDR_SIZE <= position <= n <= pduLength && length > 0
      requires pduLength + 1 == n + length + ExtraBytes(e)
      requires pdu[..][position..n] == rest && |rest| > 1 && rest[0] == PAYLOAD_MARKER
      modifies pdu
      ensures pdu[..][..position] == old(pdu[..])[..position] && position + length <= pduLength
      ensures pdu[..][..position + length]
           == MovedUp(old(pdu[..]), pduLength, pduLength - n, n - position)[..position + length]
      ensures pdu[..][position + length..pduLength] == Overwritten(e, rest)
    {
      hide MovedUp, Splice, Ext, Nibble, Overwritten;
      ghost var s0 := pdu[..];
      ShiftPDUUp(pduLength - n, n - position);
      pdu[position + length] := pdu[position + pduLength - n];
      ghost var s2 := pdu[..];
      SetOptionDelta(position + length, e);
      MarkerMoved(s0, position, n, pduLength, length, e, rest, s2, pdu[..]);
    }

    /** `addOption` in front of an option, or at the payload marker, which the same steps treat as an option. */
    method AddWithin(number: uint16, position: nat, prev: uint16, ghost k: nat, optionValue: seq<byte>)
        returns (r: int, ghost stored: seq<byte>, ghost end: nat)
      requires WellFormed() && |optionValue| <= 65530 && k <= |opts| && position < pduLength && prev <= number
      requires At(Message(), opts, tail, HeadLength(Message()), position, k, prev)
      requires k < |opts| ==> number < opts[k].number
      modifies this, pdu
      ensures pdu == old(pdu) || (fresh(pdu) && !constructedFromBuffer)
      ensures unchanged(`payloadPointer, `payloadLength, `maxAddedOptionNumber, `tail)
      ensures (r == 0 || r == 1) && numOptions == old(numOptions) + 1 - r
      ensures r == 0 ==> StoredAs(stored, optionValue)
      ensures r == 0 && constructedFromBuffer ==>
        InHole(stored, optionValue, old(pdu[..]), old(pduLength), pduLength, position, end)
      ensures r == 0 && k < |old(opts)| ==>
        && WellFormed() && Head(Message()) == Head(old(Message()))
        && opts == Insert(old(opts), Opt(number, stored)) && Last(0, opts) == Last(0, old(opts))
      ensures r == 0 && k == |old(opts)| ==>
        && Buffered() && 1 < |tail| <= old(pduLength)
        && Message() == old(Message())[..old(pduLength) - |tail|]
           + (EncodeOne(number - prev, stored) + Overwritten(ToUint16(prev + 15 - number), tail))
        && Meaningless(Message())
      ensures r == 1 ==> WellFormed() && Message() == old(Message()) && opts == old(opts)
      ensures k < |old(opts)| ==>
        var needed := HeadLength(old(Message())) + EncodedLength(Insert(old(opts), Opt(number, optionValue))) + |tail|;
        && (r == 1 <==> constructedFromBuffer && needed > old(bufferLength))
        && (r == 0 ==> pduLength == needed)
      ensures k == |old(opts)| ==>
        var e := ToUint16(prev + 15 - number);
        var needed := old(pduLength) + OptionLength(number - prev, |optionValue|) + ExtraBytes(e) - 1;
        && (r == 1 <==> constructedFromBuffer && needed > old(bufferLength))
        && (r == 0 ==> pduLength == needed)
    {
      hide Means, Insert, EncodeOne, Encode, EncodedLength, At, CopyLength, InHole, Head, Overwritten, HeadLength,
           Sorted, Meaningless, ExtraBytes;
      ghost var b := Message();
      AtMarker(b, opts, tail, HeadLength(b), position, k, prev, pdu[..]);
      NotAtEnd(b, opts, tail, HeadLength(b), position, k, prev);
      end := position + OptionLength(number - prev, |optionValue|);
      if pdu[position] == PAYLOAD_MARKER {
        r, stored := AddAtMarker(number, position, prev, optionValue);
        if r == 0 {
          MarkerOverwritten(b, opts, tail, number - prev, stored, ToUint16(prev + 15 - number), Message());
        }
      } else {
        r, stored := AddInside(number, position, prev, k, optionValue);
      }
    }

    /** `addOption`. Options may come in any order: the bytes are moved so that the message encodes the
        options in stable order of number. Returns 0, or 1 when a caller's buffer is too small. */
    method AddOption(number: uint16, optionValue: seq<byte>)
        returns (r: int, ghost stored: seq<byte>, ghost at: nat, ghost end: nat)
      requires Valid() && |optionValue| <= 65530
      modifies this, pdu
      ensures pdu == old(pdu) || (fresh(pdu) && !constructedFromBuffer)
      ensures unchanged(`payloadPointer, `payloadLength)
      ensures (r == 0 || r == 1) && numOptions == old(numOptions) + 1 - r
      // the value is stored whole when it is shorter than 269 bytes; otherwise its last bytes are what a caller's
      // buffer held at the end of the hole `at..end` once the bytes behind the option had been moved up
      ensures r == 0 ==> StoredAs(stored, optionValue)
      ensures r == 0 && constructedFromBuffer ==>
        && InHole(stored, optionValue, old(pdu[..]), old(pduLength), pduLength, at, end)
        && (Appends(old(opts), old(tail), old(maxAddedOptionNumber), number) ==>
            at == old(pduLength) && end == pduLength)
      // the option goes to its place, everything else stays
      ensures r == 0 && (old(tail) == [] || number < Last(0, old(opts))) ==>
        && WellFormed() && tail == old(tail) && Head(Message()) == Head(old(Message()))
        && opts == Insert(old(opts),
            Opt(EffectiveNumber(old(opts), old(tail), old(maxAddedOptionNumber), number), stored))
        && (old(opts) != [] || number >= old(maxAddedOptionNumber) ==> Valid())
        && (old(maxAddedOptionNumber) == Last(0, old(opts)) ==> maxAddedOptionNumber == Last(0, opts))
      // behind a payload, an option that should go last becomes payload
      ensures r == 0 && old(tail) != [] && number >= old(maxAddedOptionNumber) ==>
        && Buffered() && Means(Message(), opts, tail) && Head(Message()) == Head(old(Message()))
        && opts == old(opts) && tail == old(tail) + EncodeOne(ToUint16(number - old(maxAddedOptionNumber)), stored)
      // between the last option and a larger maximum left by a refusal, the payload marker is taken for an option
      ensures r == 0 && old(tail) != [] && Last(0, old(opts)) <= number < old(maxAddedOptionNumber) ==>
        && Buffered() && 1 < |old(tail)| <= old(pduLength)
        && Message() == old(Message())[..old(pduLength) - |old(tail)|]
           + (EncodeOne(number - Last(0, old(opts)), stored)
              + Overwritten(ToUint16(Last(0, old(opts)) + 15 - number), old(tail)))
        && Meaningless(Message())
      // so the message holds the option at its place and the old payload if and only if there was no payload, or
      // an option behind that place
      ensures r == 0 ==>
        var o := Opt(EffectiveNumber(old(opts), old(tail), old(maxAddedOptionNumber), number), stored);
        && Buffered()
        && (Means(Message(), Insert(old(opts), o), old(tail)) <==> old(tail) == [] || number < Last(0, old(opts)))
      // the recorded payload position, which the code does not move, then stays current if and only if nothing grew
      ensures r == 0 && (old(tail) == [] || number < Last(0, old(opts))) && old(PayloadTracked()) ==>
        (PayloadTracked() <==> tail == [] || pduLength == old(pduLength))
      // the maximum is the last number, added or refused, that was not below the last option
      ensures maxAddedOptionNumber ==
        if number >= Last(0, old(opts)) && (old(tail) == [] || number >= old(maxAddedOptionNumber)) then number
        else old(maxAddedOptionNumber)
      // failure: exactly when the message would outgrow a caller's buffer; nothing but the maximum changes
      ensures r == 1 ==> Valid() && Message() == old(Message()) && opts == old(opts) && tail == old(tail)
      ensures
        var needed := Needed(old(Message()), old(opts), old(tail), old(maxAddedOptionNumber), number, optionValue);
        && (r == 1 <==> constructedFromBuffer && needed > old(bufferLength))
        && (r == 0 ==> pduLength == needed)
    {
      hide Means, Insert, EncodeOne, Encode, EncodedLength, At, CopyLength, InHole, Head, Overwritten, HeadLength,
           Sorted, Meaningless, ExtraBytes, OptionLength, ToUint16;
      ghost var b := Message();
      var position, prev;
      ghost var k;
      position, prev, k := FindInsertionPosition(number);
      DeltaWraps(number, prev);
      if !Appends(opts, tail, maxAddedOptionNumber, number) {
        NotAtEnd(b, opts, tail, HeadLength(b), position, k, prev);
      }
      at := position;
      if position == pduLength {
        r, stored := AddAtEnd(number, prev, optionValue);
        end := pduLength;
      } else {
        r, stored, end := AddWithin(number, position, prev, k, optionValue);
        if r == 0 && k == |old(opts)| {
          NotMeant(Message(), Insert(old(opts), Opt(number, stored)), tail);
        }
      }
    }

    // ----- header fields -----

    /** `setVersion`: returns 0 for a version that does not fit. */
    method SetVersion(version: byte) returns (r: int)
      requires WellFormed()
      modifies pdu
      ensures WellFormed()
      ensures r == if version > 3 then 0 else 1
      ensures Message() == if version > 3 then old(Message())
                           else old(Message())[0 := version * 64 + old(pdu[0]) % 64]
    {
      hide Means;
      if version > 3 {
        return 0;
      }
      ghost var b := Message();
      MeansLong(b, opts, tail);
      VersionField(pdu[0], version);
      pdu[0] := pdu[0] % 64;
      pdu[0] := pdu[0] + version * 64;
      HeaderByteSet(b, opts, tail, 0, pdu[0]);
      assert Message() == b[0 := pdu[0]];
      return 1;
    }

    /** `setType`; the source's type constants are the field already shifted into place. */
    method SetType(kind: byte)
      requires WellFormed() && kind in {0x00, 0x10, 0x20, 0x30}
      modifies pdu
      ensures WellFormed()
      ensures Message() == old(Message())[0 := old(pdu[0]) / 64 * 64 + kind + old(pdu[0]) % 16]
    {
      hide Means;
      ghost var b := Message();
      MeansLong(b, opts, tail);
      TypeField(pdu[0], kind / 16);
      pdu[0] := pdu[0] / 64 * 64 + pdu[0] % 16;
      pdu[0] := pdu[0] + kind;
      HeaderByteSet(b, opts, tail, 0, pdu[0]);
      assert Message() == b[0 := pdu[0]];
    }

    /** `setCode`. */
    method SetCode(code: byte)
      requires WellFormed()
      modifies pdu
      ensures WellFormed() && Message() == old(Message())[1 := code]
    {
      hide Means;
      ghost var b := Message();
      MeansLong(b, opts, tail);
      pdu[1] := code;
      HeaderByteSet(b, opts, tail, 1, code);
      assert Message() == b[1 := code];
    }

    /** `setMessageID`: network byte order. */
    method SetMessageID(messageID: uint16)
      requires WellFormed()
      modifies pdu
      ensures WellFormed()
      ensures Message() == old(Message())[2 := messageID / 0x100][3 := messageID % 0x100]
    {
      hide Means;
      ghost var b := Message();
      MeansLong(b, opts, tail);
      var bytes := Store16(messageID);
      pdu[2], pdu[3] := bytes[0], bytes[1];
      HeaderByteSet(b, opts, tail, 2, bytes[0]);
      HeaderByteSet(b[2 := bytes[0]], opts, tail, 3, bytes[1]);
      assert Message() == b[2 := bytes[0]][3 := bytes[1]];
    }

    // ----- reading the header -----

    function GetVersion(): byte
      requires pdu.Length >= COAP_HDR_SIZE
      reads this, pdu
    {
      pdu[0] / 64
    }

    function GetType(): byte
      requires pdu.Length >= COAP_HDR_SIZE
      reads this, pdu
    {
      pdu[0] / 16 % 4 * 16
    }

    function GetCode(): byte
      requires pdu.Length >= COAP_HDR_SIZE
      reads this, pdu
    {
      pdu[1]
    }

    function GetMessageID(): uint16
      requires pdu.Length >= COAP_HDR_SIZE
      reads this, pdu
    {
      Load16(pdu[2], pdu[3])
    }

    /** The bytes from `getTokenPointer` on, as many as `getTokenLength` says. */
    function GetToken(): seq<byte>
      requires pdu.Length >= COAP_HDR_SIZE && COAP_HDR_SIZE + pdu[0] % 16 <= pdu.Length
      reads this, pdu
    {
      pdu[COAP_HDR_SIZE..COAP_HDR_SIZE + TokenLength()]
    }

    // ----- token -----

    /** `setToken`: replaces the token and moves everything behind it up or down. The old length is kept
        in a `uint8_t`, hence the bound. */
    method SetToken(token: seq<byte>) returns (r: int)
      requires Buffered() && HeadLength(Message()) <= pduLength <= 255 && |token| < 0x100
      modifies this, pdu
      ensures pdu == old(pdu) || (fresh(pdu) && !constructedFromBuffer)
      ensures Buffered() && unchanged(`numOptions, `maxAddedOptionNumber, `payloadPointer, `payloadLength, `opts, `tail)
      ensures r == 0 || r == 1
      ensures r == 1 ==> Message() == old(Message())
      ensures var growth := |token| - old(TokenLength());
        (r == 1 <==>
           |token| == 0 || (constructedFromBuffer && growth > 0 && old(pduLength) + growth > old(bufferLength)))
      ensures r == 0 ==> Message() == Retokened(old(Message()), token)
      ensures r == 0 && old(PayloadTracked()) ==> (PayloadTracked() <==> tail == [] || |token| == old(TokenLength()))
    {
      if |token| == 0 {
        return 1;
      }
      hide TokenSwapped, Retokened;
      ghost var was := Message();
      TokenRecorded(was, token);
      var oldTokenLength := TokenLength();
      if |token| == oldTokenLength {
        CopyToken(token);
        return 0;
      }
      var newLength := pduLength - oldTokenLength + |token|;
      if newLength > pduLength {
        var ok := GrowToken(token, newLength);
        if !ok {
          return 1;
        }
      } else {
        ShrinkToken(token, newLength);
      }
      var _ := SetTokenLength(|token|);
      TokenRecorded(was, token);
      return 0;
    }

    /** `setTokenLength`: a length above 8 is refused and nothing changes. */
    method SetTokenLength(tokenLength: byte) returns (r: int)
      requires Buffered()
      modifies pdu
      ensures Buffered() && r == if tokenLength > 8 then 1 else 0
      ensures Message() == if tokenLength > 8 then old(Message())
                           else old(Message())[0 := old(pdu[0]) / 16 * 16 + tokenLength]
    {
      if tokenLength > 8 {
        return 1;
      }
      ghost var b := Message();
      pdu[0] := pdu[0] / 16 * 16;
      pdu[0] := pdu[0] + tokenLength;
      assert Message() == b[0 := pdu[0]];
      return 0;
    }

    /** `setToken` when the length does not change. */
    method CopyToken(token: seq<byte>)
      requires Buffered() && HeadLength(Message()) <= pduLength && |token| == TokenLength()
      modifies pdu
      ensures Buffered() && Message() == TokenSwapped(old(Message()), token)
    {
      ghost var s0 := pdu[..];
      CopyValue(4, |token|, token);
      assert token[..|token|] == token;
      TokenReplaced(s0, s0[..pduLength], token, pdu[..]);
    }

    /** `setToken` with a longer token. */
    method GrowToken(token: seq<byte>, newLength: nat) returns (ok: bool)
      requires Buffered() && HeadLength(Message()) <= pduLength && |token| > TokenLength()
      requires newLength == pduLength - TokenLength() + |token|
      modifies this`pdu, this`pduLength, this`bufferLength, pdu
      ensures pdu == old(pdu) || (fresh(pdu) && !constructedFromBuffer)
      ensures ok <==> !constructedFromBuffer || newLength <= old(bufferLength)
      ensures Buffered() && Message() == if ok then TokenSwapped(old(Message()), token) else old(Message())
    {
      hide Splice, MovedUp, TokenSwapped;
      ghost var was := Message();
      var oldPDULength := pduLength;
      ok := Reserve(newLength);
      if !ok {
        assert Message() == was;
        return;
      }
      ghost var s0 := pdu[..];
      assert s0[..oldPDULength] == was;
      ShiftPDUUp(newLength - oldPDULength, newLength - |token| - COAP_HDR_SIZE);
      CopyValue(4, |token|, token);
      assert token[..|token|] == token;
      TokenGrown(s0, was, token, newLength, pdu[..]);
    }

    /** `setToken` with a shorter token. */
    method ShrinkToken(token: seq<byte>, newLength: nat)
      requires Buffered() && HeadLength(Message()) <= pduLength && |token| < TokenLength()
      requires newLength == pduLength - TokenLength() + |token|
      modifies this`pdu, this`pduLength, this`bufferLength, pdu
      ensures pdu == old(pdu) || (fresh(pdu) && !constructedFromBuffer)
      ensures Buffered() && Message() == TokenSwapped(old(Message()), token)
    {
      hide TokenSwapped;
      MoveDownBehind(token, newLength);
      ghost var s2 := pdu[..];
      var ok := Reserve(newLength);
      assert Message() == s2[..newLength];
    }

    method MoveDownBehind(token: seq<byte>, newLength: nat)
      requires Buffered() && HeadLength(Message()) <= pduLength && |token| < TokenLength()
      requires newLength == pduLength - TokenLength() + |token|
      modifies pdu
      ensures pdu[..][..newLength] == TokenSwapped(old(Message()), token)
    {
      hide Splice, TokenSwapped;
      var oldTokenLength := TokenLength();
      ghost var s0, was := pdu[..], Message();
      CopyValue(4, |token|, token);
      ShiftPDUDown(COAP_HDR_SIZE + |token|, pduLength - newLength, pduLength - oldTokenLength - COAP_HDR_SIZE);
      assert token[..|token|] == token;
      TokenShrunk(s0, was, token, newLength, pdu[..]);
    }

    // ----- payload -----

    /** `_payloadPointer` and `_payloadLength` describe the payload (they go stale when bytes in front move). */
    ghost predicate PayloadTracked()
      reads this, pdu
    {
      if tail == [] then payloadPointer == -1 && payloadLength == 0
      else payloadLength == |tail| - 1 && payloadPointer == pduLength - payloadLength
    }

    /** `mallocPayload`: room for a payload of `len` bytes, keeping as much of an old payload as fits. */
    method MallocPayload(len: nat) returns (pointer: int)
      requires WellFormed() && PayloadTracked()
      modifies this, pdu
      ensures pdu == old(pdu) || (fresh(pdu) && !constructedFromBuffer)
      ensures unchanged(`numOptions, `maxAddedOptionNumber, `opts)
      ensures WellFormed() && PayloadTracked() && Head(Message()) == Head(old(Message()))
      ensures pointer == -1 ==> Message() == old(Message()) && tail == old(tail)
      ensures pointer != -1 ==>
        && pointer == payloadPointer && |tail| == 1 + len
        && forall i :: 0 <= i <= len && i < |old(tail)| ==> tail[i] == old(tail)[i]
      ensures var needed := old(pduLength) - |old(tail)| + 1 + len;
        (pointer == -1 <==> len == 0 || (constructedFromBuffer && needed > old(bufferLength)))
    {
      hide Means;
      TailIsLast(Message(), opts, tail);
      if len == 0 {
        pointer := -1;
      } else if len == payloadLength {
        pointer := payloadPointer;
      } else {
        pointer := ResizePayload(len);
      }
    }

    /** `mallocPayload` when there is not yet a payload of the wanted length. */
    method ResizePayload(len: nat) returns (pointer: int)
      requires WellFormed() && PayloadTracked() && len > 0 && len != payloadLength
      modifies this, pdu
      ensures pdu == old(pdu) || (fresh(pdu) && !constructedFromBuffer)
      ensures unchanged(`numOptions, `maxAddedOptionNumber, `opts)
      ensures WellFormed() && PayloadTracked() && Head(Message()) == Head(old(Message()))
      ensures pointer == -1 ==> Message() == old(Message()) && tail == old(tail)
      ensures pointer != -1 ==>
        && pointer == payloadPointer && |tail| == 1 + len
        && forall i :: 0 <= i <= len && i < |old(tail)| ==> tail[i] == old(tail)[i]
      ensures pointer == -1 <==> constructedFromBuffer && old(pduLength) - |old(tail)| + 1 + len > old(bufferLength)
    {
      hide Means;
      ghost var was, tailWas := Message(), tail;
      TailIsLast(was, opts, tail);
      var markerSpace, payloadSpace := 1, len;
      if payloadLength != 0 {
        markerSpace, payloadSpace := 0, len - payloadLength;
      }
      var oldPDULength := pduLength;
      var ok := Reserve(pduLength + payloadSpace + markerSpace);
      if ok {
        if payloadPointer == -1 {
          pdu[oldPDULength] := PAYLOAD_MARKER;
          payloadPointer := oldPDULength + 1;
        }
        payloadLength := len;
        tail := PayloadResized(was, opts, tailWas, Message());
        pointer := payloadPointer;
      } else {
        assert Message() == was;
        pointer := -1;
      }
    }

    /** `setPayload`. */
    method SetPayload(payload: seq<byte>) returns (r: int)
      requires WellFormed() && PayloadTracked()
      modifies this, pdu
      ensures pdu == old(pdu) || (fresh(pdu) && !constructedFromBuffer)
      ensures unchanged(`numOptions, `maxAddedOptionNumber, `opts)
      ensures WellFormed() && PayloadTracked() && Head(Message()) == Head(old(Message()))
      ensures r == 0 || r == 1
      ensures r == 0 ==> tail == [PAYLOAD_MARKER] + payload
      ensures r == 1 ==> Message() == old(Message()) && tail == old(tail)
      ensures var needed := old(pduLength) - |old(tail)| + 1 + |payload|;
        (r == 1 <==> payload == [] || (constructedFromBuffer && needed > old(bufferLength)))
    {
      hide Means, Head;
      var payloadPointer := MallocPayload(|payload|);
      if payloadPointer == -1 {
        r := 1;
      } else {
        CopyPayload(payload);
        r := 0;
      }
    }

    /** The `memcpy` of `setPayload` into a payload of the right length. */
    method CopyPayload(payload: seq<byte>)
      requires WellFormed() && PayloadTracked() && |tail| == 1 + |payload| && payload != []
      modifies this`tail, pdu
      ensures WellFormed() && PayloadTracked() && Head(Message()) == Head(old(Message()))
      ensures tail == [PAYLOAD_MARKER] + payload
    {
      hide Means, Splice, Head;
      ghost var was, s0 := Message(), pdu[..];
      TailIsLast(was, opts, tail);
      CopyValue(payloadPointer, |payload|, payload);
      PayloadCopied(s0, was, tail, payload, pdu[..]);
      PayloadMeaning(was, opts, tail, [PAYLOAD_MARKER] + payload, Message());
      tail := [PAYLOAD_MARKER] + payload;
    }

    // ----- parsing -----

    /** `validate`, for a buffer with arbitrary bytes; `behind` is what memory holds behind the buffer. */
    method Validate(behind: seq<byte>) returns (r: int)
      requires pduLength <= pdu.Length && |behind| >= 2
      modifies this`numOptions, this`payloadPointer, this`payloadLength
      ensures r == 0 || r == 1
      ensures r == 1 <==> Accepts(pdu[..] + behind, pduLength)
      ensures r == 1 ==>
        var s := ScanMessage(pdu[..] + behind, pduLength);
        && numOptions == |s.recs| && s.end <= pduLength
        && payloadLength == (if s.end == pduLength then 0 else pduLength - s.end - 1)
        && payloadPointer == if s.end < pduLength then s.end + 1
                             else if pduLength == COAP_HDR_SIZE + TokenLength() then old(payloadPointer) else -1
      // a refused message changes nothing, unless its header is valid and its options end in a marker without payload
      ensures r == 0 ==>
        var b := pdu[..] + behind;
        && numOptions == old(numOptions)
        && (payloadPointer, payloadLength)
           == if HeaderValid(b, pduLength) && EndsInMarker(b, pduLength, COAP_HDR_SIZE + TokenLength()) then (-1, 0)
              else (old(payloadPointer), old(payloadLength))
    {
      hide ScanFrom;
      var b := pdu[..] + behind;
      if pduLength < COAP_HDR_SIZE || pdu[0] / 64 != 1 {
        return 0;
      }
      var tokenLength := pdu[0] % 16;
      if tokenLength > 8 || COAP_HDR_SIZE + tokenLength > pduLength || !ValidCode(pdu[1]) {
        return 0;
      }
      assert b[0] == pdu[0] && b[1] == pdu[1];
      var optionPos := COAP_HDR_SIZE + tokenLength;
      if optionPos == pduLength {
        ScanAtEnd(b, pduLength);
        numOptions, payloadLength := 0, 0;
        return 1;
      }
      var end, count;
      r, end, count := WalkOptions(b, pduLength, optionPos);
      GivesUpAtMarker(b, pduLength, optionPos);
      if r == 1 {
        numOptions := count;
        if end < pduLength {
          payloadPointer, payloadLength := end + 1, pduLength - end - 1;
        } else {
          payloadPointer, payloadLength := -1, 0;
        }
      } else if end + 1 == pduLength && pdu[end] == PAYLOAD_MARKER {
        payloadPointer, payloadLength := -1, 0;
      }
    }

    /** `getOptions` on a message whose options have been counted by `validate` or by adding them. */
    method GetOptions(behind: seq<byte>) returns (options: seq<Rec>)
      requires Buffered() && HeadLength(Message()) <= pduLength && |behind| >= 2
      requires var s := ScanMessage(pdu[..] + behind, pduLength); s.Complete? && numOptions == |s.recs|
      ensures options == ScanMessage(pdu[..] + behind, pduLength).recs
    {
      options := CollectOptions(pdu[..] + behind, pduLength, COAP_HDR_SIZE + TokenLength(), numOptions);
    }
  }

  lemma ScanAtEnd(b: seq<byte>, n: nat)
    requires n + 2 <= |b|
    ensures var s := ScanFrom(b, n, n, 0); s.Complete? && s.recs == [] && s.end == n
  {}

  /** The option loop of `validate`; `end` is where it stopped. */
  method WalkOptions(b: seq<byte>, pduLength: nat, start: nat) returns (r: int, end: nat, count: nat)
    requires start < pduLength && pduLength + 2 <= |b|
    ensures r == if ScanFrom(b, pduLength, start, 0).Complete? then 1 else 0
    ensures end <= pduLength && (r == 0 ==> end == ScanFrom(b, pduLength, start, 0).at)
    ensures r == 1 ==> end == ScanFrom(b, pduLength, start, 0).end && count == |ScanFrom(b, pduLength, start, 0).recs|
  {
    hide DeltaOf, LengthOf, Readable, ExtraBytes;
    ghost var whole := ScanFrom(b, pduLength, start, 0);
    var optionPos := start;
    var optionNumber: uint16 := 0;
    var bytesRemaining := pduLength - start;
    count := 0;
    while true
      invariant start <= optionPos <= pduLength && bytesRemaining == pduLength - optionPos
      invariant ContinuesAs(whole, count, ScanFrom(b, pduLength, optionPos, optionNumber))
      decreases pduLength - optionPos
    {
      if bytesRemaining <= 0 {
        return 1, optionPos, count;
      }
      var optionHeader := b[optionPos];
      if optionHeader == PAYLOAD_MARKER {
        return (if bytesRemaining > 1 then 1 else 0), optionPos, count;
      }
      var upperNibble, lowerNibble := optionHeader / 16, optionHeader % 16;
      if upperNibble == 0x0F || lowerNibble == 0x0F {
        return 0, optionPos, count;
      }
      bytesRemaining := bytesRemaining - 1;
      var headerBytesNeeded := ExtraBytes(upperNibble);
      if headerBytesNeeded > bytesRemaining {
        return 0, optionPos, count;
      }
      headerBytesNeeded := headerBytesNeeded + ExtraBytes(lowerNibble);
      if headerBytesNeeded > bytesRemaining {
        return 0, optionPos, count;
      }
      FitsMeansReadable(b, pduLength, optionPos);
      ghost var rec := RecAt(b, optionPos, optionNumber);
      var optionDelta := DeltaOf(b[optionPos..]);
      optionNumber := ToUint16(optionNumber + optionDelta);
      var optionValueLength := LengthOf(b[optionPos..]);
      var totalLength := 1 + ExtraBytes(optionDelta) + ExtraBytes(optionValueLength) + optionValueLength;
      assert totalLength == rec.total && optionNumber == rec.number;
      if optionPos + totalLength > pduLength {
        return 0, optionPos, count;
      }
      bytesRemaining := bytesRemaining - totalLength + 1;
      optionPos := optionPos + totalLength;
      count := count + 1;
    }
  }

  /** After `count` options, `rest` is what remains of the walk `whole`. */
  ghost predicate ContinuesAs(whole: Scan, count: nat, rest: Scan) {
    if rest.Malformed? then whole == rest
    else whole.Complete? && whole.end == rest.end && |whole.recs| == count + |rest.recs|
  }

  /** The loop of `getOptions`: `n` records without any check. */
  method CollectOptions(b: seq<byte>, pduLength: nat, start: nat, n: nat) returns (options: seq<Rec>)
    requires start <= pduLength && pduLength + 2 <= |b|
    requires var s := ScanFrom(b, pduLength, start, 0); s.Complete? && n == |s.recs|
    ensures options == ScanFrom(b, pduLength, start, 0).recs
  {
    ghost var whole := ScanFrom(b, pduLength, start, 0).recs;
    options := [];
    var optionPos := start;
    var optionNumber: uint16 := 0;
    for i := 0 to n
      invariant start <= optionPos <= pduLength
      invariant var rest := ScanFrom(b, pduLength, optionPos, optionNumber);
        rest.Complete? && options + rest.recs == whole && |options| == i
    {
      ghost var rest := ScanFrom(b, pduLength, optionPos, optionNumber);
      assert rest.recs != [];
      FitsMeansReadable(b, pduLength, optionPos);
      var r := RecAt(b, optionPos, optionNumber);
      assert rest.recs == [r] + ScanFrom(b, pduLength, r.End(), r.number).recs;
      options := options + [r];
      optionPos, optionNumber := r.End(), r.number;
    }
  }

  /** A buffer that begins with the old message. */
  lemma StillThere(s: seq<byte>, was: seq<byte>, position: nat)
    requires position <= |was| <= |s| && forall i :: 0 <= i < |was| ==> s[i] == was[i]
    ensures s[..|was|] == was && s[..position] == was[..position] && s[position..|was|] == was[position..]
  {}

  lemma Assembled(s: seq<byte>, m: nat, position: nat, front: seq<byte>, back: seq<byte>)
    requires position <= m <= |s| && s[..position] == front && s[position..m] == back
    ensures s[..m] == front + back
  {
    assert s[..m] == s[..position] + s[position..m];
  }

  lemma ExtraOfFifteen()
    ensures ExtraBytes(15) == 1
  {}

  lemma MarkerFirst(b: seq<byte>, opts: seq<Opt>, tail: seq<byte>)
    requires Means(b, opts, tail) && tail != []
    ensures |tail| > 1 && tail[0] == PAYLOAD_MARKER
  {}

  lemma TailGrown(b: seq<byte>, opts: seq<Opt>, tail: seq<byte>, more: seq<byte>)
    requires Means(b, opts, tail) && tail != []
    ensures Means(b + more, opts, tail + more) && HeadLength(b) <= |b| && Head(b + more) == Head(b)
  {
    var h := HeadLength(b);
    assert (b + more)[h..] == b[h..] + more;
    Grouped(Encode(0, opts), tail, more);
  }

  /** A message with bytes behind its payload no longer has the old payload. */
  lemma OtherTail(b: seq<byte>, opts: seq<Opt>, tail: seq<byte>, more: seq<byte>)
    requires Means(b, opts, tail + more) && more != []
    ensures forall x :: !Means(b, x, tail)
  {
    hide Means;
    assert |tail + more| > |tail|;
    forall x ensures !Means(b, x, tail) {
      if Means(b, x, tail) {
        MeansOnce(b, opts, tail + more, x, tail);
      }
    }
  }

  lemma TailIsLast(b: seq<byte>, opts: seq<Opt>, tail: seq<byte>)
    requires Means(b, opts, tail)
    ensures COAP_HDR_SIZE <= |b| - |tail| && b[|b| - |tail|..] == tail
    ensures tail != [] ==> |tail| > 1 && tail[0] == PAYLOAD_MARKER == b[|b| - |tail|]
  {
    assert b[|b| - |tail|..] == b[HeadLength(b)..][|Encode(0, opts)|..];
  }

  /** A message cut or extended behind its options, with a marker in place, has the resized tail. */
  lemma PayloadResized(b: seq<byte>, opts: seq<Opt>, tail: seq<byte>, b2: seq<byte>) returns (newTail: seq<byte>)
    requires Means(b, opts, tail) && 0 <= |b| - |tail| <= |b2| - 2
    requires forall i :: 0 <= i < |b| && i < |b2| ==> b2[i] == b[i]
    requires b2[|b| - |tail|] == PAYLOAD_MARKER
    ensures Means(b2, opts, newTail) && Head(b2) == Head(b)
    ensures |newTail| == |b2| - (|b| - |tail|)
    ensures forall i :: 0 <= i < |newTail| && i < |tail| ==> newTail[i] == tail[i]
  {
    hide Means, Head;
    TailIsLast(b, opts, tail);
    var n := |b| - |tail|;
    newTail := b2[n..];
    assert forall i :: 0 <= i < |tail| ==> tail[i] == b[n..][i] == b[n + i];
    assert b2 == b[..n] + newTail;
    PayloadMeaning(b, opts, tail, newTail, b2);
  }

  lemma PayloadCopied(s0: seq<byte>, b: seq<byte>, tail: seq<byte>, payload: seq<byte>, s: seq<byte>)
    requires b <= s0 && |tail| == |payload| + 1 <= |b| && b[|b| - |tail|..] == tail && tail[0] == PAYLOAD_MARKER
    requires s == Splice(s0, |b| - |payload|, payload[..|payload|])
    ensures s[..|b|] == b[..|b| - |tail|] + ([PAYLOAD_MARKER] + payload)
  {
    assert payload[..|payload|] == payload;
    assert b[|b| - |tail|] == b[|b| - |tail|..][0];
  }

  /** A new tail behind the same header, token and options. */
  lemma PayloadMeaning(b: seq<byte>, opts: seq<Opt>, tail: seq<byte>, newTail: seq<byte>, b2: seq<byte>)
    requires Means(b, opts, tail) && |newTail| > 1 && newTail[0] == PAYLOAD_MARKER
    requires var n := |b| - |tail|; n >= 0 && b2 == b[..n] + newTail
    ensures Means(b2, opts, newTail) && Head(b2) == Head(b)
  {
    hide Encode, Sorted;
    var n, h := |b| - |tail|, HeadLength(b);
    StartsWith(b, h, Encode(0, opts), tail);
    assert b2[h..] == b[h..n] + newTail && b2[..h] == b[..h] && b2[0] == b[0];
  }

  /** Another token between the unchanged header and the unchanged rest. */
  ghost function TokenSwapped(b: seq<byte>, token: seq<byte>): seq<byte>
    requires |b| >= COAP_HDR_SIZE && HeadLength(b) <= |b|
  {
    b[..4] + token + b[HeadLength(b)..]
  }

  lemma MeansLong(b: seq<byte>, opts: seq<Opt>, tail: seq<byte>)
    requires Means(b, opts, tail)
    ensures |b| >= COAP_HDR_SIZE
  {}

  lemma VersionField(p: byte, v: nat)
    requires v < 4
    ensures var q := v * 64 + p % 64; q < 0x100 && q % 16 == p % 16
  {}

  lemma TypeField(p: byte, t: nat)
    requires t < 4
    ensures var q := p / 64 * 64 + 16 * t + p % 16;
      q < 0x100 && q % 16 == p % 16 && q / 64 == p / 64 && q / 16 % 4 == t
  {}

  lemma TokenRecorded(b: seq<byte>, token: seq<byte>)
    requires |b| >= COAP_HDR_SIZE && HeadLength(b) <= |b|
    ensures var moved := TokenSwapped(b, token);
      && |moved| >= 4 && moved[0] == b[0]
      && Retokened(b, token) == (if |token| > 8 then moved else moved[0 := b[0] / 16 * 16 + |token|])
      && (|token| == b[0] % 16 ==> Retokened(b, token) == moved)
  {}

  lemma TokenReplaced(s0: seq<byte>, was: seq<byte>, token: seq<byte>, s: seq<byte>)
    requires COAP_HDR_SIZE <= |was| && HeadLength(was) <= |was| && |token| == was[0] % 16 && was <= s0
    requires s == Splice(s0, 4, token)
    ensures s[..|was|] == TokenSwapped(was, token)
  {}

  lemma TokenGrown(s0: seq<byte>, was: seq<byte>, token: seq<byte>, n: nat, s: seq<byte>)
    requires COAP_HDR_SIZE <= |was| && HeadLength(was) <= |was| && |token| > was[0] % 16 && was <= s0
    requires n == |was| - was[0] % 16 + |token| <= |s0|
    requires s == Splice(MovedUp(s0, n, n - |was|, n - |token| - COAP_HDR_SIZE), 4, token)
    ensures s[..n] == TokenSwapped(was, token)
  {
    hide Splice, MovedUp;
    var h := n - |token| - COAP_HDR_SIZE;
    var moved := MovedUp(s0, n, n - |was|, h);
    MovedTail(s0, was, n, h);
    SpliceSlice(moved, 4, token, n);
    Prefixes(s0, was, s, 4, n);
    Grouped(s[..4], token, was[|was| - h..]);
  }

  lemma MovedTail(s0: seq<byte>, was: seq<byte>, n: nat, h: nat)
    requires was <= s0 && h + 4 <= |was| <= n <= |s0|
    ensures var moved := MovedUp(s0, n, n - |was|, h);
      moved[n - h..n] == was[|was| - h..] && moved[..4] == was[..4]
  {
    hide Splice, MovedUp;
    MovedUpIs(s0, n, n - |was|, h);
    var x := s0[|was| - h..|was|];
    SpliceSlice(s0, n - h, x, n);
    assert x + s0[n..n] == x == was[|was| - h..];
    assert Splice(s0, n - h, x)[..4] == Splice(s0, n - h, x)[..n - h][..4];
    assert s0[..n - h][..4] == s0[..4] == was[..4];
  }

  lemma MovedUpIs(s: seq<byte>, n: nat, offset: nat, amount: nat)
    requires offset + amount <= n <= |s|
    ensures MovedUp(s, n, offset, amount) == Splice(s, n - amount, s[n - offset - amount..n - offset])
  {}

  lemma Prefixes(s0: seq<byte>, was: seq<byte>, s: seq<byte>, h: nat, n: nat)
    requires was <= s0 && h <= |was| && h <= n <= |s|
    ensures s0[..h] == was[..h] && s[..n] == s[..h] + s[h..n]
  {}

  lemma TokenShrunk(s0: seq<byte>, was: seq<byte>, token: seq<byte>, n: nat, s: seq<byte>)
    requires COAP_HDR_SIZE <= |was| && HeadLength(was) <= |was| && |token| < was[0] % 16 && was <= s0
    requires n == |was| - was[0] % 16 + |token|
    requires var s1 := Splice(s0, 4, token); s == Splice(s1, 4 + |token|, s1[HeadLength(was)..|was|])
    ensures s[..n] == TokenSwapped(was, token)
  {
    var s1 := Splice(s0, 4, token);
    assert s1[HeadLength(was)..|was|] == was[HeadLength(was)..];
  }

  /** A message with another token. A token longer than 8 bytes is copied but its length is not recorded. */
  ghost function Retokened(b: seq<byte>, token: seq<byte>): seq<byte>
    requires |b| >= COAP_HDR_SIZE && HeadLength(b) <= |b|
  {
    [if |token| <= 8 then b[0] / 16 * 16 + |token| else b[0]] + b[1..4] + token + b[HeadLength(b)..]
  }

  /** The message with a new token still means its options and payload if and only if the token has at most
      8 bytes, although `setToken` reports success for longer ones; it then differs in its token only. */
  lemma RetokenedMeaning(b: seq<byte>, opts: seq<Opt>, tail: seq<byte>, token: seq<byte>)
    requires Means(b, opts, tail) && token != []
    ensures Means(Retokened(b, token), opts, tail) <==> |token| <= 8
    ensures |token| <= 8 ==>
      var b2 := Retokened(b, token);
      && HeadLength(b2) == 4 + |token| && b2[4..HeadLength(b2)] == token
      && b2[0] / 16 == b[0] / 16 && b2[1..4] == b[1..4] && b2[HeadLength(b2)..] == b[HeadLength(b)..]
  {
    hide Retokened, Means;
    RetokenedParts(b, opts, tail, token);
    var b2 := Retokened(b, token);
    if |token| <= 8 {
      MeansBehindToken(b, b2, opts, tail);
    } else {
      LongerThanMeant(b, b2, opts, tail);
    }
  }

  lemma RetokenedParts(b: seq<byte>, opts: seq<Opt>, tail: seq<byte>, token: seq<byte>)
    requires Means(b, opts, tail)
    ensures |b| >= COAP_HDR_SIZE && HeadLength(b) <= |b| && b[0] % 16 <= 8
    ensures var b2 := Retokened(b, token); var n := 4 + |token|;
      && |b2| == n + |b| - HeadLength(b) && b2[4..n] == token && b2[n..] == b[HeadLength(b)..]
      && b2[0] / 16 == b[0] / 16 && b2[1..4] == b[1..4]
      && HeadLength(b2) == if |token| <= 8 then n else HeadLength(b)
  {
    if |token| <= 8 {
      FieldReplaced(b[0], |token|);
    }
  }

  lemma FieldReplaced(x: byte, n: nat)
    requires n <= 8
    ensures var y := x / 16 * 16 + n; y < 0x100 && y / 16 == x / 16 && y % 16 == n
  {}

  lemma MeansBehindToken(b: seq<byte>, b2: seq<byte>, opts: seq<Opt>, tail: seq<byte>)
    requires Means(b, opts, tail) && |b2| >= COAP_HDR_SIZE && HeadLength(b2) <= |b2| && b2[0] % 16 <= 8
    requires b2[HeadLength(b2)..] == b[HeadLength(b)..]
    ensures Means(b2, opts, tail)
  {}

  /** The options and the payload take fewer bytes. */
  lemma LongerThanMeant(b: seq<byte>, b2: seq<byte>, opts: seq<Opt>, tail: seq<byte>)
    requires Means(b, opts, tail) && |b| > 0 && |b2| > 0 && HeadLength(b2) == HeadLength(b) && |b2| > |b|
    ensures !Means(b2, opts, tail)
  {
    assert |b2[HeadLength(b2)..]| > |b[HeadLength(b)..]|;
  }

  /** Changing a header byte other than the token length leaves the meaning alone. */
  lemma HeaderByteSet(b: seq<byte>, opts: seq<Opt>, tail: seq<byte>, i: nat, x: byte)
    requires Means(b, opts, tail) && i < COAP_HDR_SIZE && (i == 0 ==> x % 16 == b[0] % 16)
    ensures Means(b[i := x], opts, tail)
  {
    assert b[i := x][HeadLength(b)..] == b[HeadLength(b)..];
  }

  /** The bytes needed by a sorted option list. */
  ghost function EncodedLength(opts: seq<Opt>): nat {
    if Sorted(0, opts) then |Encode(0, opts)| else 0
  }

  /** A walk is at the end of the message exactly when it has passed all options and there is no payload. */
  lemma NotAtEnd(b: seq<byte>, opts: seq<Opt>, tail: seq<byte>, base: nat, position: nat, k: nat, prev: uint16)
    requires Means(b, opts, tail) && k <= |opts| && At(b, opts, tail, base, position, k, prev)
    ensures position == |b| <==> k == |opts| && tail == []
    ensures k == |opts| ==> prev == Last(0, opts)
    ensures k < |opts| ==> opts[k].number <= Last(0, opts)
  {
    LastIsMax(0, opts);
    if k < |opts| {
      var one, rest := NextAt(b, opts, tail, base, position, k, prev);
    } else {
      assert opts[..k] == opts;
    }
  }

  lemma BehindHead(b: seq<byte>, opts: seq<Opt>, tail: seq<byte>, position: nat, k: nat, prev: uint16)
    requires Means(b, opts, tail) && k <= |opts| && At(b, opts, tail, HeadLength(b), position, k, prev)
    ensures Sorted(0, opts) && COAP_HDR_SIZE <= HeadLength(b) <= position <= |b|
  {}

  /** A walk that is not at the end of the message is at an option, or behind all options at the payload marker. */
  lemma AtMarker(b: seq<byte>, opts: seq<Opt>, tail: seq<byte>, base: nat, position: nat, k: nat, prev: uint16,
                 buffer: seq<byte>)
    requires Means(b, opts, tail) && base == HeadLength(b) && k <= |opts| && b <= buffer
    requires At(b, opts, tail, base, position, k, prev) && position < |b|
    ensures COAP_HDR_SIZE <= position
    ensures buffer[position] == PAYLOAD_MARKER <==> k == |opts|
    ensures k == |opts| ==> tail != [] && |tail| > 1 && position + |tail| == |b| && buffer[position..|b|] == tail
  {
    if k < |opts| {
      ReadAt(b, opts, tail, base, position, k, prev, buffer);
    } else {
      EndAt(b, opts, tail, base, position, prev);
      assert buffer[position..|b|] == b[position..];
    }
  }

  /** Appending an encoded option to the bytes appends it to the options. */
  lemma AppendedMeaning(b: seq<byte>, opts: seq<Opt>, delta: uint16, value: seq<byte>)
    requires Means(b, opts, [])
    requires Last(0, opts) + delta < 0x1_0000 && |value| < 0x1_0000
    ensures var ins := Insert(opts, Opt(Last(0, opts) + delta, value)); var b2 := b + EncodeOne(delta, value);
      && Means(b2, ins, []) && |ins| == |opts| + 1 && Last(0, ins) == Last(0, opts) + delta
      && HeadLength(b) <= |b| && Head(b2) == Head(b)
      && HeadLength(b) + EncodedLength(ins) == |b| + OptionLength(delta, |value|)
  {
    hide EncodeOne;
    var o := Opt(Last(0, opts) + delta, value);
    assert opts[..|opts|] == opts;
    InsertAt(0, opts, o, |opts|);
    assert Insert(opts, o) == opts + [o];
    SortedAppend(0, opts, [o]);
    EncodeAppend(0, opts, [o]);
    OneOption(Last(0, opts), o);
  }

  /** The bytes that `addOption` leaves when it opens a hole encode the inserted option list. */
  lemma InsertedMeaning(b: seq<byte>, opts: seq<Opt>, tail: seq<byte>, position: nat, k: nat, prev: uint16,
                        number: uint16, value: seq<byte>, one: seq<byte>, rest: seq<byte>)
    requires Means(b, opts, tail)
    requires k < |opts| && At(b, opts, tail, HeadLength(b), position, k, prev)
    requires prev <= number < opts[k].number && |value| < 0x1_0000
    requires |opts[k].value| < 0x1_0000 && one == EncodeOne(opts[k].number - prev, opts[k].value)
    requires Sorted(opts[k].number, opts[k + 1..]) && rest == Encode(opts[k].number, opts[k + 1..]) + tail
    requires b[position..] == one + rest
    ensures var ins := Insert(opts, Opt(number, value)); var next := opts[k];
      && |ins| == |opts| + 1 && Last(0, ins) == Last(0, opts)
      && var b2 := b[..position]
          + (EncodeOne(number - prev, value) + (EncodeOne(next.number - number, next.value) + rest));
         && Means(b2, ins, tail) && Head(b2) == Head(b)
         && HeadLength(b) + EncodedLength(ins) + |tail|
            == |b| + Growth(number - prev, |value|, next.number - prev, next.number - number)
  {
    hide EncodeOne, ExtraBytes, Growth, Encode, Insert;
    var before := PrefixAt(b, opts, tail, HeadLength(b), position, k, prev);
    var mine, next, after := InsertedEncoding(opts, k, Opt(number, value));
    LengthsAdd(mine, next, one, number, prev, value, opts[k]);
    var ins := Insert(opts, Opt(number, value));
    var b2 := b[..position] + (mine + (next + (after + tail)));
    Glue(b, HeadLength(b), position, before, mine, next, after, tail);
    hide *;
    MeansWithHead(b, b2, opts, ins, tail);
  }

  lemma MeansWithHead(b: seq<byte>, b2: seq<byte>, opts: seq<Opt>, ins: seq<Opt>, tail: seq<byte>)
    requires Means(b, opts, tail) && Sorted(0, ins)
    requires HeadLength(b) <= |b2| && b2[..HeadLength(b)] == b[..HeadLength(b)]
    requires b2[HeadLength(b)..] == Encode(0, ins) + tail
    ensures Means(b2, ins, tail) && Head(b2) == Head(b)
    ensures HeadLength(b) + EncodedLength(ins) + |tail| == |b2|
  {
    assert b2[0] == b2[..HeadLength(b)][0];
  }

  lemma LengthsAdd(mine: seq<byte>, next: seq<byte>, one: seq<byte>, number: uint16, prev: uint16, value: seq<byte>,
                   o: Opt)
    requires |value| < 0x1_0000 && |o.value| < 0x1_0000 && prev <= number <= o.number
    requires mine == EncodeOne(number - prev, value) && next == EncodeOne(o.number - number, o.value)
    requires one == EncodeOne(o.number - prev, o.value)
    ensures |mine| + |next| == |one| + Growth(number - prev, |value|, o.number - prev, o.number - number)
  {}

  /** The bytes in front of the k-th option encode the first k options. */
  lemma PrefixAt(b: seq<byte>, opts: seq<Opt>, tail: seq<byte>, base: nat, position: nat, k: nat, prev: uint16)
      returns (before: seq<byte>)
    requires Sorted(0, opts) && base <= |b| && b[base..] == Encode(0, opts) + tail
    requires k <= |opts| && At(b, opts, tail, base, position, k, prev)
    ensures before == Encode(0, opts[..k]) && base <= position <= |b| && b[base..position] == before
  {
    hide Encode, Sorted;
    assert opts == opts[..k] + opts[k..];
    EncodeAppend(0, opts[..k], opts[k..]);
    before := Encode(0, opts[..k]);
    var rest := Encode(Last(0, opts[..k]), opts[k..]);
    Grouped(before, rest, tail);
    StartsWith(b, base, before, rest + tail);
  }

  lemma StartsWith(b: seq<byte>, base: nat, before: seq<byte>, after: seq<byte>)
    requires base <= |b| && b[base..] == before + after
    ensures base + |before| <= |b| && b[base..base + |before|] == before && b[base + |before|..] == after
  {
    assert b[base..base + |before|] == b[base..][..|before|];
    assert b[base + |before|..] == b[base..][|before|..];
  }

  lemma SplitOpts(opts: seq<Opt>, k: nat)
    requires k < |opts|
    ensures opts == opts[..k] + opts[k..] && opts[k..] != [] && opts[k..][0] == opts[k]
        && opts[k..][1..] == opts[k + 1..]
  {}

  lemma GroupedOpts(a: seq<Opt>, o: Opt, b: seq<Opt>)
    ensures a + [o] + b == a + ([o] + b)
  {}

  /** Inserting in front of the k-th option replaces that option's encoding by two. */
  lemma InsertedEncoding(opts: seq<Opt>, k: nat, o: Opt) returns (mine: seq<byte>, next: seq<byte>, after: seq<byte>)
    requires Sorted(0, opts) && k < |opts| && |o.value| < 0x1_0000
    requires Sorted(0, opts[..k]) && Last(0, opts[..k]) <= o.number < opts[k].number
    ensures |opts[k].value| < 0x1_0000 && Sorted(opts[k].number, opts[k + 1..])
    ensures mine == EncodeOne(o.number - Last(0, opts[..k]), o.value)
    ensures next == EncodeOne(opts[k].number - o.number, opts[k].value)
    ensures after == Encode(opts[k].number, opts[k + 1..])
    ensures var ins := Insert(opts, o);
      && Sorted(0, ins) && |ins| == |opts| + 1 && Last(0, ins) == Last(0, opts)
      && Encode(0, ins) == Encode(0, opts[..k]) + (mine + (next + after))
  {
    hide EncodeOne, Sorted, Encode, Insert;
    var done, todo := opts[..k], opts[k..];
    SplitOpts(opts, k);
    SortedAppend(0, done, todo);
    InsertAt(0, opts, o, k);
    SortedRestart(Last(0, done), o.number, todo);
    EncodeCons(o.number, todo);
    ConsSorted(Last(0, done), o, todo);
    GroupedOpts(done, o, todo);
    SortedAppend(0, done, [o] + todo);
    EncodeAppend(0, done, [o] + todo);
    mine, next := EncodeOne(o.number - Last(0, done), o.value), EncodeOne(opts[k].number - o.number, opts[k].value);
    after := Encode(opts[k].number, opts[k + 1..]);
  }

  lemma Glue(b: seq<byte>, base: nat, position: nat, before: seq<byte>, mine: seq<byte>, next: seq<byte>,
             after: seq<byte>, tail: seq<byte>)
    requires base <= position <= |b| && b[base..position] == before
    ensures var b2 := b[..position] + (mine + (next + (after + tail)));
      b2[..base] == b[..base] && b2[base..] == (before + (mine + (next + after))) + tail
  {
    assert b[..position] == b[..base] + before;
  }

  /** The loop of `findInsertionPosition` over the buffer's bytes. */
  method WalkTo(buffer: seq<byte>, pduLength: nat, base: nat, optionNumber: uint16, ghost opts: seq<Opt>,
                ghost tail: seq<byte>)
      returns (position: nat, prev: uint16, ghost k: nat)
    requires base <= pduLength <= |buffer| && Sorted(0, opts) && (tail == [] || tail[0] == PAYLOAD_MARKER)
    requires buffer[base..pduLength] == Encode(0, opts) + tail
    ensures k <= |opts| && At(buffer[..pduLength], opts, tail, base, position, k, prev) && prev <= optionNumber
    ensures k < |opts| ==> optionNumber < opts[k].number
  {
    hide At, DeltaOf, LengthOf, ExtraBytes, Encode, Sorted;
    ghost var b := buffer[..pduLength];
    position, prev, k := base, 0, 0;
    StartAt(b, opts, tail, base);
    while position < pduLength && buffer[position] != PAYLOAD_MARKER
      invariant k <= |opts| && At(b, opts, tail, base, position, k, prev)
      invariant prev <= optionNumber
      decreases |opts| - k
    {
      if k == |opts| {
        EndAt(b, opts, tail, base, position, prev);
        assert false;
      }
      ReadAt(b, opts, tail, base, position, k, prev, buffer);
      var optionDelta := DeltaOf(buffer[position..]);
      var currentOptionNumber := ToUint16(prev + optionDelta);
      var optionValueLength := LengthOf(buffer[position..]);
      if currentOptionNumber > optionNumber {
        return;
      }
      prev := currentOptionNumber;
      position := position + OptionLength(optionDelta, optionValueLength);
      k := k + 1;
    }
    if k < |opts| {
      ReadAt(b, opts, tail, base, position, k, prev, buffer);
      assert false;
    }
  }

  lemma StartAt(b: seq<byte>, opts: seq<Opt>, tail: seq<byte>, base: nat)
    requires Sorted(0, opts) && base <= |b| && b[base..] == Encode(0, opts) + tail
    ensures At(b, opts, tail, base, base, 0, 0)
  {
    assert opts[0..] == opts;
  }

  /** In the message `b`, whose options start at `base`, the option of index `k` starts at `position`. */
  ghost predicate At(b: seq<byte>, opts: seq<Opt>, tail: seq<byte>, base: nat, position: nat, k: nat, prev: uint16)
    requires k <= |opts|
  {
    && Sorted(0, opts[..k]) && prev == Last(0, opts[..k]) && Sorted(prev, opts[k..])
    && base <= position <= |b| && position == base + |Encode(0, opts[..k])|
    && b[position..] == Encode(prev, opts[k..]) + tail
  }

  /** Behind the last option there is nothing but the tail. */
  lemma EndAt(b: seq<byte>, opts: seq<Opt>, tail: seq<byte>, base: nat, position: nat, prev: uint16)
    requires At(b, opts, tail, base, position, |opts|, prev)
    ensures position <= |b| && b[position..] == tail
    ensures position < |b| ==> tail != [] && b[position] == tail[0]
  {}

  /** What the readers see at the k-th option of a message held in a larger buffer, and where the next one is. */
  lemma ReadAt(b: seq<byte>, opts: seq<Opt>, tail: seq<byte>, base: nat, position: nat, k: nat, prev: uint16,
               buffer: seq<byte>)
    requires Sorted(0, opts) && k < |opts| && At(b, opts, tail, base, position, k, prev) && b <= buffer
    ensures position < |b| && buffer[position] != PAYLOAD_MARKER && Readable(buffer[position..])
    ensures prev <= opts[k].number
    ensures DeltaOf(buffer[position..]) == opts[k].number - prev && LengthOf(buffer[position..]) == |opts[k].value|
    ensures At(b, opts, tail, base, position + OptionLength(opts[k].number - prev, |opts[k].value|), k + 1,
        opts[k].number)
  {
    var one, rest := NextAt(b, opts, tail, base, position, k, prev);
    hide At, Encode, EncodeOne, Readable, DeltaOf, LengthOf;
    SliceOfPrefix(b, buffer, position, one, rest);
    ReadBack(opts[k].number - prev, opts[k].value, rest + buffer[|b|..]);
  }

  lemma DeltaInBuffer(buffer: seq<byte>, n: nat, position: nat, delta: uint16, value: seq<byte>, rest: seq<byte>)
    requires |value| < 0x1_0000 && position <= n <= |buffer|
    requires buffer[position..n] == EncodeOne(delta, value) + rest
    ensures Readable(buffer[position..]) && DeltaOf(buffer[position..]) == delta
    ensures position + 1 + ExtraBytes(delta) <= n
  {
    hide DeltaOf, LengthOf;
    assert buffer[..n][position..] == buffer[position..n];
    SliceOfPrefix(buffer[..n], buffer, position, EncodeOne(delta, value), rest);
    ReadBack(delta, value, rest + buffer[n..]);
  }

  lemma SliceOfPrefix(b: seq<byte>, buffer: seq<byte>, position: nat, one: seq<byte>, rest: seq<byte>)
    requires b <= buffer && position <= |b| && b[position..] == one + rest && one != []
    ensures position < |b| && buffer[position..] == one + (rest + buffer[|b|..]) && buffer[position] == one[0]
  {
    assert buffer[position..] == b[position..] + buffer[|b|..];
  }

  lemma NextAt(b: seq<byte>, opts: seq<Opt>, tail: seq<byte>, base: nat, position: nat, k: nat, prev: uint16)
      returns (one: seq<byte>, rest: seq<byte>)
    requires Sorted(0, opts) && k < |opts| && At(b, opts, tail, base, position, k, prev)
    ensures var o := opts[k];
      && prev <= o.number && |o.value| < 0x1_0000 && Sorted(o.number, opts[k + 1..])
      && one == EncodeOne(o.number - prev, o.value) && rest == Encode(o.number, opts[k + 1..]) + tail
      && position <= |b| && b[position..] == one + rest
      && At(b, opts, tail, base, position + OptionLength(o.number - prev, |o.value|), k + 1, o.number)
  {
    hide Encode, EncodeOne;
    var o := opts[k];
    assert opts[k..][0] == o && opts[k..][1..] == opts[k + 1..];
    EncodeCons(prev, opts[k..]);
    var enc := Encode(o.number, opts[k + 1..]);
    one, rest := EncodeOne(o.number - prev, o.value), enc + tail;
    DropFront(b, position, one, enc, tail);
    EncodeNext(opts, k);
  }

  lemma DropFront(b: seq<byte>, position: nat, one: seq<byte>, enc: seq<byte>, tail: seq<byte>)
    requires position <= |b| && b[position..] == (one + enc) + tail
    ensures position + |one| <= |b| && b[position..] == one + (enc + tail) && b[position + |one|..] == enc + tail
  {
    assert (one + enc) + tail == one + (enc + tail);
    assert b[position + |one|..] == b[position..][|one|..];
  }

  lemma EncodeNext(opts: seq<Opt>, k: nat)
    requires Sorted(0, opts) && k < |opts|
    ensures Sorted(0, opts[..k]) && Sorted(0, opts[..k + 1])
    ensures Last(0, opts[..k]) <= opts[k].number && |opts[k].value| < 0x1_0000
    ensures Encode(0, opts[..k + 1])
        == Encode(0, opts[..k]) + EncodeOne(opts[k].number - Last(0, opts[..k]), opts[k].value)
  {
    hide Sorted, Encode, EncodeOne;
    var done, o, rest := opts[..k], opts[k], opts[k + 1..];
    assert opts[..k + 1] == done + [o] && opts == (done + [o]) + rest;
    SortedAppend(0, done + [o], rest);
    SortedAppend(0, done, [o]);
    EncodeAppend(0, done, [o]);
    OneOption(Last(0, done), o);
  }

  /** The scan of any message that means something gives back its options and its payload. */
  lemma MeansScans(b: seq<byte>, opts: seq<Opt>, tail: seq<byte>, behind: seq<byte>)
    requires Means(b, opts, tail) && |behind| >= 2
    ensures |b| >= 4 && HeadLength(b) <= |b|
    ensures var s := ScanMessage(b + behind, |b|);
      && s.Complete? && AllIn(s.recs, |b + behind|) && OptionsIn(b + behind, s.recs) == opts && |s.recs| == |opts|
      && s.end == |b| - |tail| && (b + behind)[s.end..|b|] == tail
  {
    hide Means, Encode, ScanFrom, OptionsIn, AllIn, Head;
    HeadFits(b, opts, tail);
    var head, c := Head(b), b + behind;
    TailIsLast(b, opts, tail);
    MessageParts(b, head, opts, tail);
    Followed(head, Encode(0, opts), tail, behind);
    ScanEncoded(head, 0, opts, tail, behind, c, |b|);
    Slices(b, behind, |b| - |tail|);
  }

  lemma HeadFits(b: seq<byte>, opts: seq<Opt>, tail: seq<byte>)
    requires Means(b, opts, tail)
    ensures |b| >= 4 && HeadLength(b) <= |b|
  {}

  lemma Followed(head: seq<byte>, enc: seq<byte>, tail: seq<byte>, behind: seq<byte>)
    ensures head + (enc + tail) + behind == head + (enc + (tail + behind))
  {}

  lemma Slices(b: seq<byte>, behind: seq<byte>, k: nat)
    requires k <= |b|
    ensures (b + behind)[k..|b|] == b[k..]
    ensures forall i :: 0 <= i < |b| ==> (b + behind)[i] == b[i]
  {}

  lemma MessageParts(b: seq<byte>, head: seq<byte>, opts: seq<Opt>, tail: seq<byte>)
    requires Means(b, opts, tail) && Head(b) == head
    ensures b == head + (Encode(0, opts) + tail)
    ensures |head| > 1 && b[0] == head[0] && b[1] == head[1]
    ensures Sorted(0, opts) && |head| == 4 + b[0] % 16 <= 12 && (tail == [] || (tail[0] == 0xFF && |tail| > 1))
  {}

  /** A message has one meaning. */
  lemma MeansOnce(b: seq<byte>, opts: seq<Opt>, tail: seq<byte>, opts': seq<Opt>, tail': seq<byte>)
    requires Means(b, opts, tail) && Means(b, opts', tail')
    ensures opts == opts' && tail == tail'
  {
    hide Means, ScanMessage, OptionsIn, AllIn;
    MeansScans(b, opts, tail, [0, 0]);
    MeansScans(b, opts', tail', [0, 0]);
  }

  /** The bytes are no message at all: they mean no options and payload, and `validate` refuses them whatever lies
      behind them. */
  ghost predicate Meaningless(b: seq<byte>) {
    && (forall opts, tail :: !Means(b, opts, tail))
    && (forall behind: seq<byte> :: |behind| >= 2 ==> !Accepts(b + behind, |b|))
  }

  /** What an option written in front of the payload marker makes of a message. */
  lemma MarkerOverwritten(b: seq<byte>, opts: seq<Opt>, tail: seq<byte>, delta: uint16, value: seq<byte>, e: uint16,
                          b2: seq<byte>)
    requires Means(b, opts, tail) && |tail| > 1 && |b| >= |tail|
    requires Last(0, opts) + delta < 0x1_0000 && |value| < 0x1_0000
    requires b2 == b[..|b| - |tail|] + (EncodeOne(delta, value) + Overwritten(e, tail))
    ensures Meaningless(b2)
  {
    hide EncodeOne, Encode, Sorted, Head, ScanMessage, Overwritten, HeadLength;
    var o, head := Opt(Last(0, opts) + delta, value), Head(b);
    AppendedAt(b, opts, tail, o);
    var enc, rest := Encode(0, opts + [o]), Overwritten(e, tail);
    OverwrittenFirst(e, tail);
    Grouped(b[..|b| - |tail|], EncodeOne(delta, value), rest);
    Grouped(head, enc, rest);
    FirstOf(head, enc + rest);
    HeadLengthOf(b, b2);
    forall behind: seq<byte> | |behind| >= 2 ensures ScanMessage(b2 + behind, |b2|).Malformed? {
      ReservedRefused(head, opts + [o], rest, b2, behind);
    }
    NoMessage(b2);
  }

  lemma OverwrittenFirst(e: uint16, tail: seq<byte>)
    requires |tail| > 1
    ensures var rest := Overwritten(e, tail); rest != [] && rest[0] % 16 == 15 && rest[0] != 0xFF
  {}

  lemma FirstOf(head: seq<byte>, rest: seq<byte>)
    requires head != []
    ensures (head + rest)[0] == head[0]
  {}

  lemma HeadLengthOf(b: seq<byte>, b2: seq<byte>)
    requires |b| > 0 && |b2| > 0 && b[0] == b2[0]
    ensures HeadLength(b2) == HeadLength(b) == 4 + b2[0] % 16
  {}

  lemma ReservedRefused(head: seq<byte>, opts: seq<Opt>, rest: seq<byte>, b: seq<byte>, behind: seq<byte>)
    requires Sorted(0, opts) && b == head + (Encode(0, opts) + rest) && |head| >= 4 && |head| == 4 + b[0] % 16
    requires rest != [] && rest[0] % 16 == 15 && rest[0] != 0xFF && |behind| >= 2
    ensures ScanMessage(b + behind, |b|).Malformed?
  {
    hide ScanFrom;
    var enc := Encode(0, opts);
    Grouped(head, enc + rest, behind);
    Grouped(enc, rest, behind);
    ScanReserved(head, 0, opts, rest + behind, b + behind, |b|);
  }

  /** The bytes in front of the tail, with one more option behind them. */
  lemma AppendedAt(b: seq<byte>, opts: seq<Opt>, tail: seq<byte>, o: Opt)
    requires Means(b, opts, tail) && |b| >= |tail| && Last(0, opts) <= o.number && |o.value| < 0x1_0000
    ensures HeadLength(b) <= |b| && |Head(b)| == HeadLength(b) > 1 && Head(b)[0] == b[0] && b[0] % 16 <= 8
    ensures Sorted(0, opts + [o])
    ensures b[..|b| - |tail|] + EncodeOne(o.number - Last(0, opts), o.value) == Head(b) + Encode(0, opts + [o])
  {
    hide EncodeOne;
    var enc, one := Encode(0, opts), EncodeOne(o.number - Last(0, opts), o.value);
    assert b == Head(b) + b[HeadLength(b)..];
    assert b[..|b| - |tail|] == Head(b) + enc;
    SortedAppend(0, opts, [o]);
    EncodeAppend(0, opts, [o]);
    OneOption(Last(0, opts), o);
    Grouped(Head(b), enc, one);
  }

  lemma NotMeant(b: seq<byte>, opts: seq<Opt>, tail: seq<byte>)
    requires Meaningless(b)
    ensures !Means(b, opts, tail)
  {}

  lemma NoMessage(b: seq<byte>)
    requires |b| >= 4 && HeadLength(b) <= |b|
    requires forall behind: seq<byte> :: |behind| >= 2 ==> ScanMessage(b + behind, |b|).Malformed?
    ensures Meaningless(b)
  {
    hide ScanMessage, Means;
    forall opts, tail ensures !Means(b, opts, tail) {
      if Means(b, opts, tail) {
        MeansScans(b, opts, tail, [0, 0]);
      }
    }
  }
}
