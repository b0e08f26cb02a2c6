/** The 16-bit checksum of the serial protocols: a table-driven CRC, shown to be division by the polynomial
    x^16 + x^15 + x^2 + 1. The bit operations are named so that proofs can work with their laws alone. */
module Crc16 {

  const POLYNOMIAL: bv16 := 0x8005

  function Xor(a: bv16, b: bv16): bv16 {
    a ^ b
  }

  function Shl(a: bv16): bv16 {
    a << 1
  }

  predicate Top(a: bv16) {
    a & 0x8000 != 0
  }

  // ----- the table -----

  function Eight(k: bv16, a: bv16, b: bv16, c: bv16, d: bv16, e: bv16, f: bv16, g: bv16, h: bv16): bv16 {
    if k == 0 then a else if k == 1 then b else if k == 2 then c else if k == 3 then d
    else if k == 4 then e else if k == 5 then f else if k == 6 then g else h
  }

  /** Entry `k` of row `r` of the table, eight entries to a row as in the source. */
  function Rows0To7(r: bv16, k: bv16): bv16 {
    match r
    case 0 => Eight(k, 0x0000, 0x8005, 0x800F, 0x000A, 0x801B, 0x001E, 0x0014, 0x8011)
    case 1 => Eight(k, 0x8033, 0x0036, 0x003C, 0x8039, 0x0028, 0x802D, 0x8027, 0x0022)
    case 2 => Eight(k, 0x8063, 0x0066, 0x006C, 0x8069, 0x0078, 0x807D, 0x8077, 0x0072)
    case 3 => Eight(k, 0x0050, 0x8055, 0x805F, 0x005A, 0x804B, 0x004E, 0x0044, 0x8041)
    case 4 => Eight(k, 0x80C3, 0x00C6, 0x00CC, 0x80C9, 0x00D8, 0x80DD, 0x80D7, 0x00D2)
    case 5 => Eight(k, 0x00F0, 0x80F5, 0x80FF, 0x00FA, 0x80EB, 0x00EE, 0x00E4, 0x80E1)
    case 6 => Eight(k, 0x00A0, 0x80A5, 0x80AF, 0x00AA, 0x80BB, 0x00BE, 0x00B4, 0x80B1)
    case _ => Eight(k, 0x8093, 0x0096, 0x009C, 0x8099, 0x0088, 0x808D, 0x8087, 0x0082)
  }

  function Rows8To15(r: bv16, k: bv16): bv16 {
    match r
    case 8 => Eight(k, 0x8183, 0x0186, 0x018C, 0x8189, 0x0198, 0x819D, 0x8197, 0x0192)
    case 9 => Eight(k, 0x01B0, 0x81B5, 0x81BF, 0x01BA, 0x81AB, 0x01AE, 0x01A4, 0x81A1)
    case 10 => Eight(k, 0x01E0, 0x81E5, 0x81EF, 0x01EA, 0x81FB, 0x01FE, 0x01F4, 0x81F1)
    case 11 => Eight(k, 0x81D3, 0x01D6, 0x01DC, 0x81D9, 0x01C8, 0x81CD, 0x81C7, 0x01C2)
    case 12 => Eight(k, 0x0140, 0x8145, 0x814F, 0x014A, 0x815B, 0x015E, 0x0154, 0x8151)
    case 13 => Eight(k, 0x8173, 0x0176, 0x017C, 0x8179, 0x0168, 0x816D, 0x8167, 0x0162)
    case 14 => Eight(k, 0x8123, 0x0126, 0x012C, 0x8129, 0x0138, 0x813D, 0x8137, 0x0132)
    case _ => Eight(k, 0x0110, 0x8115, 0x811F, 0x011A, 0x810B, 0x010E, 0x0104, 0x8101)
  }

  function Rows16To23(r: bv16, k: bv16): bv16 {
    match r
    case 16 => Eight(k, 0x8303, 0x0306, 0x030C, 0x8309, 0x0318, 0x831D, 0x8317, 0x0312)
    case 17 => Eight(k, 0x0330, 0x8335, 0x833F, 0x033A, 0x832B, 0x032E, 0x0324, 0x8321)
    case 18 => Eight(k, 0x0360, 0x8365, 0x836F, 0x036A, 0x837B, 0x037E, 0x0374, 0x8371)
    case 19 => Eight(k, 0x8353, 0x0356, 0x035C, 0x8359, 0x0348, 0x834D, 0x8347, 0x0342)
    case 20 => Eight(k, 0x03C0, 0x83C5, 0x83CF, 0x03CA, 0x83DB, 0x03DE, 0x03D4, 0x83D1)
    case 21 => Eight(k, 0x83F3, 0x03F6, 0x03FC, 0x83F9, 0x03E8, 0x83ED, 0x83E7, 0x03E2)
    case 22 => Eight(k, 0x83A3, 0x03A6, 0x03AC, 0x83A9, 0x03B8, 0x83BD, 0x83B7, 0x03B2)
    case _ => Eight(k, 0x0390, 0x8395, 0x839F, 0x039A, 0x838B, 0x038E, 0x0384, 0x8381)
  }

  function Rows24To31(r: bv16, k: bv16): bv16 {
    match r
    case 24 => Eight(k, 0x0280, 0x8285, 0x828F, 0x028A, 0x829B, 0x029E, 0x0294, 0x8291)
    case 25 => Eight(k, 0x82B3, 0x02B6, 0x02BC, 0x82B9, 0x02A8, 0x82AD, 0x82A7, 0x02A2)
    case 26 => Eight(k, 0x82E3, 0x02E6, 0x02EC, 0x82E9, 0x02F8, 0x82FD, 0x82F7, 0x02F2)
    case 27 => Eight(k, 0x02D0, 0x82D5, 0x82DF, 0x02DA, 0x82CB, 0x02CE, 0x02C4, 0x82C1)
    case 28 => Eight(k, 0x8243, 0x0246, 0x024C, 0x8249, 0x0258, 0x825D, 0x8257, 0x0252)
    case 29 => Eight(k, 0x0270, 0x8275, 0x827F, 0x027A, 0x826B, 0x026E, 0x0264, 0x8261)
    case 30 => Eight(k, 0x0220, 0x8225, 0x822F, 0x022A, 0x823B, 0x023E, 0x0234, 0x8231)
    case _ => Eight(k, 0x8213, 0x0216, 0x021C, 0x8219, 0x0208, 0x820D, 0x8207, 0x0202)
  }

  function Row(r: bv16, k: bv16): bv16 {
    if r < 8 then Rows0To7(r, k) else if r < 16 then Rows8To15(r, k)
    else if r < 24 then Rows16To23(r, k) else Rows24To31(r, k)
  }

  function Table(i: bv16): bv16 {
    Row(i >> 3, i & 7)
  }

  /** `CRC16::calculate` on the first `size` bytes. */
  method Calculate(payload: seq<bv8>, size: nat) returns (crc: bv16)
    requires size <= |payload|
    ensures crc == Crc(payload[..size])
  {
    hide Xor, Table, ByteStep;
    crc := 0;
    var index := 0;
    while index < size
      invariant 0 <= index <= size && crc == Crc(payload[..index])
    {
      var temp := payload[index] as bv16;
      var value := Table(Xor(crc >> 8, temp) & 0x00ff);
      TableStepIs(crc, payload[index]);
      assert payload[..index + 1][..index] == payload[..index];
      crc := Xor(crc << 8, value);
      index := index + 1;
    }
  }

  // ----- the same, bit by bit -----

  /** Takes the polynomial away if the bit shifted out was 1. */
  function Feed(a: bv16, out: bool): bv16 {
    if out then Xor(a, POLYNOMIAL) else a
  }

  /** One step of long division with a zero bit shifted in. */
  function Step(x: bv16): bv16 {
    Feed(Shl(x), Top(x))
  }

  function Step4(x: bv16): bv16 {
    Step(Step(Step(Step(x))))
  }

  function Step8(x: bv16): bv16 {
    Step4(Step4(x))
  }

  /** One byte: it meets the upper half of the register and eight steps follow. */
  function ByteStep(crc: bv16, b: bv8): bv16 {
    Step8(Xor(crc, (b as bv16) << 8))
  }

  function Crc(message: seq<bv8>): bv16 {
    if message == [] then 0 else ByteStep(Crc(message[..|message| - 1]), message[|message| - 1])
  }

  lemma ShiftXor(x: bv16, y: bv16)
    ensures Shl(Xor(x, y)) == Xor(Shl(x), Shl(y))
  {
  }

  lemma TopXor(x: bv16, y: bv16)
    ensures Top(Xor(x, y)) <==> Top(x) != Top(y)
  {
  }

  lemma FeedBoth(x: bv16, y: bv16)
    ensures Feed(Xor(x, y), false) == Xor(Feed(x, true), Feed(y, true))
  {
  }

  lemma FeedFirst(x: bv16, y: bv16)
    ensures Feed(Xor(x, y), true) == Xor(Feed(x, true), Feed(y, false))
  {
  }

  lemma FeedSecond(x: bv16, y: bv16)
    ensures Feed(Xor(x, y), true) == Xor(Feed(x, false), Feed(y, true))
  {
  }

  lemma FeedXor(x: bv16, y: bv16, a: bool, b: bool)
    ensures Feed(Xor(x, y), a != b) == Xor(Feed(x, a), Feed(y, b))
  {
    FeedBoth(x, y);
    FeedFirst(x, y);
    FeedSecond(x, y);
    assert Feed(Xor(x, y), false) == Xor(Feed(x, false), Feed(y, false));
    hide Feed, Xor;
  }

  /** A step is linear. */
  lemma StepXor(x: bv16, y: bv16)
    ensures Step(Xor(x, y)) == Xor(Step(x), Step(y))
  {
    hide Top, Feed, Xor, Shl;
    ShiftXor(x, y);
    TopXor(x, y);
    FeedXor(Shl(x), Shl(y), Top(x), Top(y));
  }

  lemma Step4Xor(x: bv16, y: bv16)
    ensures Step4(Xor(x, y)) == Xor(Step4(x), Step4(y))
  {
    hide Step, Xor;
    StepXor(x, y);
    StepXor(Step(x), Step(y));
    StepXor(Step(Step(x)), Step(Step(y)));
    StepXor(Step(Step(Step(x))), Step(Step(Step(y))));
  }

  lemma Step8Xor(x: bv16, y: bv16)
    ensures Step8(Xor(x, y)) == Xor(Step8(x), Step8(y))
  {
    hide Step4, Xor;
    Step4Xor(x, y);
    Step4Xor(Step4(x), Step4(y));
  }

  /** The first row of the table, and below the first column of each eight rows. All other entries are sums. */
  lemma FirstRow(k: bv16)
    requires k < 8
    ensures Rows0To7(0, k) == Step8(k << 8)
  {
  }

  lemma Rows0To7Start(r: bv16)
    requires 0 <= r <= 7
    ensures Rows0To7(r, 0) == Step8(r << 11)
  {
  }

  lemma Rows0To7Sum(r: bv16, k: bv16)
    requires 0 <= r <= 7 && k < 8
    ensures Rows0To7(r, k) == Xor(Rows0To7(r, 0), Rows0To7(0, k))
  {
    match k case 0 => case 1 => case 2 => case 3 => case 4 => case 5 => case 6 => case _ =>
    match r case 0 => case 1 => case 2 => case 3 => case 4 => case 5 => case 6 => case _ =>
  }

  lemma Rows8To15Start(r: bv16)
    requires 8 <= r <= 15
    ensures Rows8To15(r, 0) == Step8(r << 11)
  {
  }

  lemma Rows8To15Sum(r: bv16, k: bv16)
    requires 8 <= r <= 15 && k < 8
    ensures Rows8To15(r, k) == Xor(Rows8To15(r, 0), Rows0To7(0, k))
  {
    match k case 0 => case 1 => case 2 => case 3 => case 4 => case 5 => case 6 => case _ =>
    match r case 8 => case 9 => case 10 => case 11 => case 12 => case 13 => case 14 => case _ =>
  }

  lemma Rows16To23Start(r: bv16)
    requires 16 <= r <= 23
    ensures Rows16To23(r, 0) == Step8(r << 11)
  {
  }

  lemma Rows16To23Sum(r: bv16, k: bv16)
    requires 16 <= r <= 23 && k < 8
    ensures Rows16To23(r, k) == Xor(Rows16To23(r, 0), Rows0To7(0, k))
  {
    match k case 0 => case 1 => case 2 => case 3 => case 4 => case 5 => case 6 => case _ =>
    match r case 16 => case 17 => case 18 => case 19 => case 20 => case 21 => case 22 => case _ =>
  }

  lemma Rows24To31Start(r: bv16)
    requires 24 <= r <= 31
    ensures Rows24To31(r, 0) == Step8(r << 11)
  {
  }

  lemma Rows24To31Sum(r: bv16, k: bv16)
    requires 24 <= r <= 31 && k < 8
    ensures Rows24To31(r, k) == Xor(Rows24To31(r, 0), Rows0To7(0, k))
  {
    match k case 0 => case 1 => case 2 => case 3 => case 4 => case 5 => case 6 => case _ =>
    match r case 24 => case 25 => case 26 => case 27 => case 28 => case 29 => case 30 => case _ =>
  }

  lemma IndexSum(r: bv16, k: bv16)
    requires r < 32 && k < 8
    ensures (r << 11) | (k << 8) == Xor(r << 11, k << 8)
  {
  }

  lemma Rows0To7Divide(r: bv16, k: bv16)
    requires 0 <= r <= 7 && k < 8
    ensures Rows0To7(r, k) == Step8((r << 11) | (k << 8))
  {
    hide Rows0To7, Step8, Xor;
    Rows0To7Start(r);
    FirstRow(k);
    Rows0To7Sum(r, k);
    IndexSum(r, k);
    Step8Xor(r << 11, k << 8);
  }

  lemma Rows8To15Divide(r: bv16, k: bv16)
    requires 8 <= r <= 15 && k < 8
    ensures Rows8To15(r, k) == Step8((r << 11) | (k << 8))
  {
    hide Rows0To7, Rows8To15, Step8, Xor;
    Rows8To15Start(r);
    FirstRow(k);
    Rows8To15Sum(r, k);
    IndexSum(r, k);
    Step8Xor(r << 11, k << 8);
  }

  lemma Rows16To23Divide(r: bv16, k: bv16)
    requires 16 <= r <= 23 && k < 8
    ensures Rows16To23(r, k) == Step8((r << 11) | (k << 8))
  {
    hide Rows0To7, Rows16To23, Step8, Xor;
    Rows16To23Start(r);
    FirstRow(k);
    Rows16To23Sum(r, k);
    IndexSum(r, k);
    Step8Xor(r << 11, k << 8);
  }

  lemma Rows24To31Divide(r: bv16, k: bv16)
    requires 24 <= r <= 31 && k < 8
    ensures Rows24To31(r, k) == Step8((r << 11) | (k << 8))
  {
    hide Rows0To7, Rows24To31, Step8, Xor;
    Rows24To31Start(r);
    FirstRow(k);
    Rows24To31Sum(r, k);
    IndexSum(r, k);
    Step8Xor(r << 11, k << 8);
  }

  lemma Position(i: bv16)
    requires i < 256
    ensures (i >> 3) < 32 && (i & 7) < 8 && ((i >> 3) << 11) | ((i & 7) << 8) == i << 8
  {
  }

  /** Every entry of the table is its index divided through eight steps. */
  lemma TableIsDivision(i: bv16)
    requires i < 256
    ensures Table(i) == Step8(i << 8)
  {
    hide Rows0To7, Rows8To15, Rows16To23, Rows24To31, Step8;
    Position(i);
    var r, k := i >> 3, i & 7;
    if r < 8 { Rows0To7Divide(r, k); } else if r < 16 { Rows8To15Divide(r, k); }
    else if r < 24 { Rows16To23Divide(r, k); } else { Rows24To31Divide(r, k); }
  }

  lemma LowHalf(lo: bv16)
    requires lo < 256
    ensures Step8(lo) == lo << 8
  {
  }

  lemma Halves(crc: bv16, b: bv8)
    ensures var hi, t := crc >> 8, b as bv16;
      && Xor(hi, t) & 0x00ff == Xor(hi, t) && Xor(hi, t) < 256 && crc & 0x00ff < 256
      && Xor(crc, t << 8) == Xor(Xor(hi, t) << 8, crc & 0x00ff)
      && (crc & 0x00ff) << 8 == crc << 8
  {
  }

  lemma XorSwap(a: bv16, b: bv16)
    ensures Xor(a, b) == Xor(b, a)
  {
  }

  /** A table lookup does the work of eight steps. */
  lemma TableStepIs(crc: bv16, b: bv8)
    ensures Xor(crc << 8, Table(Xor(crc >> 8, b as bv16) & 0x00ff)) == ByteStep(crc, b)
  {
    hide Xor, Table, Step8;
    var i, lo := Xor(crc >> 8, b as bv16), crc & 0x00ff;
    Halves(crc, b);
    TableIsDivision(i);
    LowHalf(lo);
    Step8Xor(i << 8, lo);
    XorSwap(Step8(i << 8), Step8(lo));
  }

  // ----- damage is noticed -----

  lemma ShiftLoses(x: bv16, y: bv16)
    ensures Shl(x) == Shl(y) && Top(x) == Top(y) ==> x == y
  {
  }

  lemma FeedSets(x: bv16, y: bv16)
    ensures Feed(Shl(x), true) != Feed(Shl(y), false)
  {
  }

  lemma FeedCancels(x: bv16, y: bv16)
    ensures Feed(x, true) == Feed(y, true) ==> x == y
  {
  }

  /** A step loses nothing. */
  lemma StepInjective(x: bv16, y: bv16)
    requires Step(x) == Step(y)
    ensures x == y
  {
    assert Feed(Shl(x), false) == Shl(x) && Feed(Shl(y), false) == Shl(y);
    hide Top, Feed, Shl;
    ShiftLoses(x, y);
    FeedSets(x, y);
    FeedSets(y, x);
    FeedCancels(Shl(x), Shl(y));
  }

  lemma Step8Injective(x: bv16, y: bv16)
    requires Step8(x) == Step8(y)
    ensures x == y
  {
    hide Step;
    Step4Injective(Step4(x), Step4(y));
    Step4Injective(x, y);
  }

  lemma Step4Injective(x: bv16, y: bv16)
    requires Step4(x) == Step4(y)
    ensures x == y
  {
    hide Step;
    StepInjective(Step(Step(Step(x))), Step(Step(Step(y))));
    StepInjective(Step(Step(x)), Step(Step(y)));
    StepInjective(Step(x), Step(y));
    StepInjective(x, y);
  }

  lemma XorCancels(a: bv16, x: bv16, y: bv16)
    ensures Xor(a, x) == Xor(a, y) <==> x == y
    ensures Xor(x, a) == Xor(y, a) <==> x == y
  {
  }

  lemma UpperHalf(x: bv8, y: bv8)
    ensures (x as bv16) << 8 == (y as bv16) << 8 ==> x == y
  {
  }

  /** Different registers stay different through the same bytes. */
  lemma {:induction false} SuffixKeepsDifference(a: seq<bv8>, b: seq<bv8>, s: seq<bv8>)
    ensures Crc(a + s) == Crc(b + s) <==> Crc(a) == Crc(b)
    decreases |s|
  {
    if s == [] {
      assert a + s == a && b + s == b;
    } else {
      var front, last := s[..|s| - 1], s[|s| - 1];
      assert (a + s)[..|a + s| - 1] == a + front && (b + s)[..|b + s| - 1] == b + front;
      hide ByteStep;
      SuffixKeepsDifference(a, b, front);
      SameByte(Crc(a + front), Crc(b + front), last);
    }
  }

  lemma SameByte(c: bv16, d: bv16, b: bv8)
    ensures ByteStep(c, b) == ByteStep(d, b) <==> c == d
  {
    hide Step8, Xor;
    XorCancels((b as bv16) << 8, c, d);
    if ByteStep(c, b) == ByteStep(d, b) {
      Step8Injective(Xor(c, (b as bv16) << 8), Xor(d, (b as bv16) << 8));
    }
  }

  lemma CrcOfOneMore(p: seq<bv8>, x: bv8)
    ensures Crc(p + [x]) == ByteStep(Crc(p), x)
  {
    assert (p + [x])[..|p|] == p;
  }

  /** Changing one byte of a message of any length changes its checksum. */
  lemma OneByteChanged(p: seq<bv8>, x: bv8, y: bv8, s: seq<bv8>)
    requires x != y
    ensures Crc(p + [x] + s) != Crc(p + [y] + s)
  {
    hide Xor, Step8;
    CrcOfOneMore(p, x);
    CrcOfOneMore(p, y);
    XorCancels(Crc(p), (x as bv16) << 8, (y as bv16) << 8);
    UpperHalf(x, y);
    if ByteStep(Crc(p), x) == ByteStep(Crc(p), y) {
      Step8Injective(Xor(Crc(p), (x as bv16) << 8), Xor(Crc(p), (y as bv16) << 8));
    }
    SuffixKeepsDifference(p + [x], p + [y], s);
  }

  /** Two bytes are sixteen steps of one 16-bit word. */
  lemma TwoBytes(crc: bv16, x: bv8, y: bv8)
    ensures ByteStep(ByteStep(crc, x), y) == Step8(Step8(Xor(crc, Word(x, y))))
  {
    hide Xor, Step8;
    var t := (x as bv16) << 8;
    LowHalf(y as bv16);
    WordIs(crc, x, y);
    Step8Xor(Xor(crc, t), y as bv16);
  }

  function Word(x: bv8, y: bv8): bv16 {
    ((x as bv16) << 8) | (y as bv16)
  }

  lemma WordIs(crc: bv16, x: bv8, y: bv8)
    ensures (y as bv16) < 256 && Xor(crc, Word(x, y)) == Xor(Xor(crc, (x as bv16) << 8), y as bv16)
  {
    assert (y as bv16) < 256 && Word(x, y) == Xor((x as bv16) << 8, y as bv16);
    XorAssociates(crc, (x as bv16) << 8, y as bv16);
    hide Xor, Word;
  }

  lemma XorAssociates(a: bv16, b: bv16, c: bv16)
    ensures Xor(a, Xor(b, c)) == Xor(Xor(a, b), c)
  {
  }

  lemma WordInjective(x: bv8, y: bv8, x': bv8, y': bv8)
    ensures Word(x, y) == Word(x', y') ==> x == x' && y == y'
  {
  }

  /** Changing one or both of two adjacent bytes changes the checksum as well. */
  lemma AdjacentBytesChanged(p: seq<bv8>, x: bv8, y: bv8, x': bv8, y': bv8, s: seq<bv8>)
    requires x != x' || y != y'
    ensures Crc(p + [x, y] + s) != Crc(p + [x', y'] + s)
  {
    hide Xor, Step8, Word, ByteStep;
    CrcOfTwoMore(p, x, y);
    CrcOfTwoMore(p, x', y');
    WordInjective(x, y, x', y');
    XorCancels(Crc(p), Word(x, y), Word(x', y'));
    var a, b := Xor(Crc(p), Word(x, y)), Xor(Crc(p), Word(x', y'));
    if Step8(Step8(a)) == Step8(Step8(b)) {
      Step8Injective(Step8(a), Step8(b));
      Step8Injective(a, b);
    }
    SuffixKeepsDifference(p + [x, y], p + [x', y'], s);
  }

  lemma CrcOfTwoMore(p: seq<bv8>, x: bv8, y: bv8)
    ensures Crc(p + [x, y]) == Step8(Step8(Xor(Crc(p), Word(x, y))))
  {
    hide Xor, Step8, Word, ByteStep;
    CrcOfOneMore(p, x);
    CrcOfOneMore(p + [x], y);
    assert p + [x] + [y] == p + [x, y];
    TwoBytes(Crc(p), x, y);
  }

  // ----- polynomial division -----

  /** Long division by the polynomial, one message bit at a time: what is left of `bits` behind the remainder `r`. */
  function Divide(r: bv16, bits: seq<bool>): bv16
    decreases |bits|
  {
    if bits == [] then r else Divide(LongStep(r, bits[0]), bits[1..])
  }

  /** The next bit comes down, and the polynomial is taken away when the leading bit was 1. */
  function LongStep(r: bv16, bit: bool): bv16 {
    Feed(Down(Shl(r), bit), Top(r))
  }

  function Down(a: bv16, bit: bool): bv16 {
    a | Unit(bit)
  }

  function Unit(bit: bool): bv16 {
    if bit then 1 else 0
  }

  /** The bits of a byte, highest first. */
  function BitsOf(b: bv8): seq<bool> {
    [b & 128 != 0, b & 64 != 0, b & 32 != 0, b & 16 != 0, b & 8 != 0, b & 4 != 0, b & 2 != 0, b & 1 != 0]
  }

  function MessageBits(message: seq<bv8>): seq<bool> {
    if message == [] then [] else MessageBits(message[..|message| - 1]) + BitsOf(message[|message| - 1])
  }

  const EIGHT_ZEROS: seq<bool> := [false, false, false, false, false, false, false, false]

  lemma {:induction false} DivideAppend(r: bv16, a: seq<bool>, b: seq<bool>)
    ensures Divide(r, a + b) == Divide(Divide(r, a), b)
    decreases |a|
  {
    if a == [] {
      assert a + b == b;
    } else {
      hide LongStep;
      assert (a + b)[1..] == a[1..] + b;
      DivideAppend(LongStep(r, a[0]), a[1..], b);
    }
  }

  lemma LongStepXor(x: bv16, y: bv16, bit: bool)
    ensures LongStep(Xor(x, y), bit) == Xor(Step(x), LongStep(y, bit))
  {
    LongStepIs(Xor(x, y), bit);
    LongStepIs(y, bit);
    hide LongStep, Step, Xor, Unit;
    StepXor(x, y);
    XorAssociates(Step(x), Step(y), Unit(bit));
  }

  lemma LongStepIs(r: bv16, bit: bool)
    ensures LongStep(r, bit) == Xor(Step(r), Unit(bit))
  {
    hide Top, Feed, Shl, Xor, Unit, Down;
    ComesDown(r, bit);
    FeedAside(Shl(r), Unit(bit), Top(r));
  }

  lemma ComesDown(r: bv16, bit: bool)
    ensures Down(Shl(r), bit) == Xor(Shl(r), Unit(bit))
  {
    OneComesDown(r);
    ZeroComesDown(r);
    hide Down, Shl, Xor, Unit;
  }

  lemma OneComesDown(r: bv16)
    ensures Down(Shl(r), true) == Xor(Shl(r), Unit(true))
  {
  }

  lemma ZeroComesDown(r: bv16)
    ensures Down(Shl(r), false) == Xor(Shl(r), Unit(false)) == Shl(r)
  {
  }

  lemma FeedAside(a: bv16, u: bv16, out: bool)
    ensures Feed(Xor(a, u), out) == Xor(Feed(a, out), u)
  {
    XorAside(a, u, POLYNOMIAL);
    hide Xor;
  }

  lemma XorAside(a: bv16, u: bv16, p: bv16)
    ensures Xor(Xor(a, u), p) == Xor(Xor(a, p), u)
  {
  }

  lemma DivideByte(r: bv16, b: bv8)
    ensures Divide(r, BitsOf(b)) == Long8(r, BitsOf(b))
  {
    hide LongStep;
    var s := BitsOf(b);
    assert s == [s[0], s[1], s[2], s[3], s[4], s[5], s[6], s[7]];
    DivideEight(r, s[0], s[1], s[2], s[3], s[4], s[5], s[6], s[7]);
  }

  /** Eight bits at once. */
  function Long8(r: bv16, s: seq<bool>): bv16
    requires |s| == 8
  {
    Long4(Long4(r, s[0], s[1], s[2], s[3]), s[4], s[5], s[6], s[7])
  }

  function Long4(r: bv16, a: bool, b: bool, c: bool, d: bool): bv16 {
    LongStep(LongStep(LongStep(LongStep(r, a), b), c), d)
  }

  lemma DivideFour(r: bv16, a: bool, b: bool, c: bool, d: bool)
    ensures Divide(r, [a, b, c, d]) == Long4(r, a, b, c, d)
  {
    hide LongStep;
    assert [a, b, c, d][1..] == [b, c, d] && [b, c, d][1..] == [c, d] && [c, d][1..] == [d] && [d][1..] == [];
    var r1 := LongStep(r, a);
    var r2 := LongStep(r1, b);
    assert Divide(r, [a, b, c, d]) == Divide(r1, [b, c, d]);
    assert Divide(r1, [b, c, d]) == Divide(r2, [c, d]);
    assert Divide(r2, [c, d]) == Divide(LongStep(r2, c), [d]);
    assert Divide(LongStep(r2, c), [d]) == Divide(LongStep(LongStep(r2, c), d), []);
  }

  lemma DivideEight(r: bv16, a: bool, b: bool, c: bool, d: bool, e: bool, f: bool, g: bool, h: bool)
    ensures Divide(r, [a, b, c, d, e, f, g, h]) == Long4(Long4(r, a, b, c, d), e, f, g, h)
  {
    hide LongStep, Divide, Long4;
    assert [a, b, c, d, e, f, g, h] == [a, b, c, d] + [e, f, g, h];
    DivideAppend(r, [a, b, c, d], [e, f, g, h]);
    DivideFour(r, a, b, c, d);
    DivideFour(Long4(r, a, b, c, d), e, f, g, h);
  }

  lemma Long4Xor(x: bv16, y: bv16, a: bool, b: bool, c: bool, d: bool)
    ensures Long4(Xor(x, y), a, b, c, d) == Xor(Step4(x), Long4(y, a, b, c, d))
  {
    hide LongStep, Xor, Step;
    var y1 := LongStep(y, a);
    var y2 := LongStep(y1, b);
    var y3 := LongStep(y2, c);
    LongStepXor(x, y, a);
    LongStepXor(Step(x), y1, b);
    LongStepXor(Step(Step(x)), y2, c);
    LongStepXor(Step(Step(Step(x))), y3, d);
  }

  lemma Long8Xor(x: bv16, y: bv16, s: seq<bool>)
    requires |s| == 8
    ensures Long8(Xor(x, y), s) == Xor(Step8(x), Long8(y, s))
  {
    hide Long4, Xor, Step4;
    Long4Xor(x, y, s[0], s[1], s[2], s[3]);
    Long4Xor(Step4(x), Long4(y, s[0], s[1], s[2], s[3]), s[4], s[5], s[6], s[7]);
  }

  /** Bit `k` of a byte comes down behind the bits above it. */
  lemma NextBit(x: bv16, k: bv16)
    requires x < 256 && k < 8
    ensures LongStep(x >> (k + 1), x & (1 << k) != 0) == x >> k
  {
  }

  lemma ByteAsWord(b: bv8)
    ensures var x := b as bv16;
      x < 256 && x >> 8 == 0 && x >> 0 == x
      && BitsOf(b) == [x & 128 != 0, x & 64 != 0, x & 32 != 0, x & 16 != 0, x & 8 != 0, x & 4 != 0, x & 2 != 0,
          x & 1 != 0]
  {
  }

  /** The eight bits of a byte shift in without meeting the polynomial. */
  lemma ByteFromBits(b: bv8)
    ensures Long8(0, BitsOf(b)) == b as bv16
  {
    hide LongStep, BitsOf;
    var x := b as bv16;
    ByteAsWord(b);
    NextBit(x, 7);
    NextBit(x, 6);
    NextBit(x, 5);
    NextBit(x, 4);
    NextBit(x, 3);
    NextBit(x, 2);
    NextBit(x, 1);
    NextBit(x, 0);
  }

  lemma StepIsZeroBit(r: bv16)
    ensures LongStep(r, false) == Step(r)
  {
    hide Down, Shl, Feed, Top;
    ZeroComesDown(r);
  }

  lemma ZerosAreSteps(r: bv16)
    ensures Long8(r, EIGHT_ZEROS) == Step8(r)
  {
    hide LongStep, Step;
    FourZeros(r);
    FourZeros(Step4(r));
  }

  lemma FourZeros(r: bv16)
    ensures Long4(r, false, false, false, false) == Step4(r)
  {
    hide LongStep, Step;
    StepIsZeroBit(r);
    StepIsZeroBit(Step(r));
    StepIsZeroBit(Step(Step(r)));
    StepIsZeroBit(Step(Step(Step(r))));
  }

  lemma XorZero(r: bv16)
    ensures Xor(r, 0) == r
  {
  }

  /** A whole byte of the message comes down. */
  lemma DivideMore(message: seq<bv8>, b: bv8)
    ensures Divide(0, MessageBits(message + [b])) == Xor(Step8(Divide(0, MessageBits(message))), b as bv16)
  {
    hide Xor, Step8, Divide, BitsOf, Long8;
    var r := Divide(0, MessageBits(message));
    assert (message + [b])[..|message|] == message;
    DivideAppend(0, MessageBits(message), BitsOf(b));
    assert |BitsOf(b)| == 8 by { BitCount(b); }
    DivideByte(r, b);
    XorZero(r);
    Long8Xor(r, 0, BitsOf(b));
    ByteFromBits(b);
  }

  lemma BitCount(b: bv8)
    ensures |BitsOf(b)| == 8
  {
  }

  /** The checksum is the remainder of the message, with 16 zero bits behind it, divided by the polynomial. */
  lemma {:induction false} CrcIsRemainder(message: seq<bv8>)
    ensures Crc(message) == Divide(0, MessageBits(message) + EIGHT_ZEROS + EIGHT_ZEROS)
  {
    hide Divide, MessageBits, Crc, Long8;
    var r := Divide(0, MessageBits(message));
    DivideAppend(0, MessageBits(message) + EIGHT_ZEROS, EIGHT_ZEROS);
    DivideAppend(0, MessageBits(message), EIGHT_ZEROS);
    DivideZeros(r);
    DivideZeros(Step8(r));
    CrcOfRemainder(message);
  }

  lemma DivideZeros(r: bv16)
    ensures Divide(r, EIGHT_ZEROS) == Step8(r)
  {
    hide Step8, Long4, Divide;
    DivideEight(r, false, false, false, false, false, false, false, false);
    ZerosAreSteps(r);
  }

  lemma {:induction false} CrcOfRemainder(message: seq<bv8>)
    ensures Crc(message) == Step8(Step8(Divide(0, MessageBits(message))))
  {
    if message == [] {
      assert Step8(0) == 0;
    } else {
      var front, b := message[..|message| - 1], message[|message| - 1];
      assert message == front + [b];
      CrcOfRemainder(front);
      hide Step8, Xor, Divide, MessageBits;
      DivideMore(front, b);
      CrcOfOneMore(front, b);
      var r := Step8(Divide(0, MessageBits(front)));
      Step8Xor(r, b as bv16);
      ByteBelow(b);
      LowHalf(b as bv16);
    }
  }

  lemma ByteBelow(b: bv8)
    ensures (b as bv16) < 256
  {
  }
}
