/** libcoap's variable-length integers and its find-last-set. */
module VarBytes {
  import opened Bytes
  import opened Powers

  const WORD: nat := 0x1_0000_0000

  // ----- find last set -----

  function Bits(i: nat): nat {
    if i == 0 then 0 else 1 + Bits(i / 2)
  }

  /** `coap_fls`. */
  method Fls(i: nat) returns (n: nat)
    ensures n == Bits(i)
  {
    n := 0;
    var rest := i;
    while rest > 0
      invariant n + Bits(rest) == Bits(i)
    {
      rest := rest / 2;
      n := n + 1;
    }
  }

  /** The find-last-set result brackets its argument between powers of two. */
  lemma {:induction false} BitsBracket(i: nat)
    requires i > 0
    ensures Bits(i) > 0 && Pow2(Bits(i) - 1) <= i < Pow2(Bits(i))
  {
    if i > 1 {
      BitsBracket(i / 2);
    } else {
      assert Bits(1) == 1 + Bits(0);
    }
  }

  // ----- encoding -----

  /** Big-endian bytes without leading zeros. */
  function VarBytes(v: nat): seq<byte> {
    if v == 0 then [] else VarBytes(v / 256) + [v % 256]
  }

  function Decode(b: seq<byte>): nat {
    if b == [] then 0 else Decode(b[..|b| - 1]) * 256 + b[|b| - 1]
  }

  lemma {:induction false} DecodeEncoded(v: nat)
    ensures Decode(VarBytes(v)) == v
  {
    if v > 0 {
      DecodeEncoded(v / 256);
      var b := VarBytes(v);
      assert b[..|b| - 1] == VarBytes(v / 256);
    }
  }

  /** The highest byte comes first. */
  lemma BigEndianExample()
    ensures VarBytes(0x010203) == [1, 2, 3] && Decode([1, 2, 3]) == 0x010203
  {
    assert VarBytes(0x0102) == [1, 2] && VarBytes(1) == [1];
    assert [1, 2, 3][..2] == [1, 2] && [1, 2][..1] == [1] && [1][..0] == [];
  }

  /** The decoder is undone by the encoder just on byte strings without a leading zero. */
  lemma {:induction false} EncodeDecoded(b: seq<byte>)
    ensures VarBytes(Decode(b)) == b <==> b == [] || b[0] != 0
  {
    hide VarBytes;
    NothingEncoded();
    if |b| > 0 {
      var front, last := b[..|b| - 1], b[|b| - 1];
      EncodeDecoded(front);
      assert b == front + [last];
      if Decode(b) > 0 {
        OneMore(Decode(front), last);
        NoLeadingZero(Decode(b));
        SameFront(VarBytes(Decode(front)), front, last);
      }
    }
  }

  lemma NothingEncoded()
    ensures VarBytes(0) == []
  {
  }

  lemma OneMore(high: nat, last: byte)
    requires high * 256 + last > 0
    ensures VarBytes(high * 256 + last) == VarBytes(high) + [last]
  {
    assert (high * 256 + last) / 256 == high && (high * 256 + last) % 256 == last;
  }

  lemma SameFront(a: seq<byte>, b: seq<byte>, last: byte)
    ensures a + [last] == b + [last] <==> a == b
  {
    if a + [last] == b + [last] {
      assert a == (a + [last])[..|a|] && b == (b + [last])[..|b|];
    }
  }

  lemma {:induction false} NoLeadingZero(v: nat)
    ensures v > 0 ==> |VarBytes(v)| > 0 && VarBytes(v)[0] != 0
  {
    if v > 0 {
      NoLeadingZero(v / 256);
    }
  }

  /** How many bytes a number takes. */
  lemma SizeOf(v: nat)
    ensures |VarBytes(v)| <= 3 <==> v < 0x100_0000
    ensures |VarBytes(v)| <= 4 <==> v < WORD
    ensures |VarBytes(v)| <= 1 <==> v < 256
    ensures |VarBytes(v)| <= 2 <==> v < 0x1_0000
    ensures |VarBytes(v)| == 0 <==> v == 0
  {
    var a := v / 256;
    var b := a / 256;
    var c := b / 256;
    var d := c / 256;
    assert |VarBytes(v)| == if v == 0 then 0 else 1 + |VarBytes(a)|;
    assert |VarBytes(a)| == if a == 0 then 0 else 1 + |VarBytes(b)|;
    assert |VarBytes(b)| == if b == 0 then 0 else 1 + |VarBytes(c)|;
    assert |VarBytes(c)| == if c == 0 then 0 else 1 + |VarBytes(d)|;
    assert |VarBytes(d)| == 0 <==> d == 0;
  }

  /** `coap_encode_var_bytes`. */
  method EncodeVarBytes(buf: array<byte>, val: nat) returns (n: nat)
    requires val < WORD && |VarBytes(val)| <= buf.Length
    modifies buf
    ensures n == |VarBytes(val)| && buf[..n] == VarBytes(val)
    ensures buf[n..] == old(buf[n..])
  {
    SizeOf(val);
    n := 0;
    var i: nat := val;
    while i > 0 && n < 4
      invariant n <= 4 && n + |VarBytes(i)| == |VarBytes(val)|
    {
      i := i / 256;
      n := n + 1;
    }
    assert i == 0;
    i := n;
    var v: nat := val;
    while i > 0
      invariant i <= n <= buf.Length && |VarBytes(v)| == i
      invariant VarBytes(v) + buf[i..n] == VarBytes(val)
      invariant buf[n..] == old(buf[n..])
    {
      i := i - 1;
      ghost var was := buf[i + 1..n];
      buf[i] := v % 256;
      assert buf[i..n] == [v % 256] + was;
      assert VarBytes(v) == VarBytes(v / 256) + [v % 256];
      v := v / 256;
    }
  }

  /** `coap_decode_var_bytes`, in 32-bit arithmetic. */
  method DecodeVarBytes(buf: array<byte>, len: nat) returns (n: nat)
    requires len <= buf.Length
    ensures n == Decode(buf[..len]) % WORD
  {
    var i := 0;
    n := 0;
    while i < len
      invariant i <= len && n == Decode(buf[..i]) % WORD
    {
      assert buf[..i + 1][..i] == buf[..i];
      ShiftIn(Decode(buf[..i]), buf[i]);
      n := (n * 256 + buf[i]) % WORD;
      i := i + 1;
    }
  }

  lemma ShiftIn(d: nat, b: byte)
    ensures (d % WORD * 256 + b) % WORD == (d * 256 + b) % WORD
  {
    assert d == d / WORD * WORD + d % WORD;
    assert d * 256 + b == d / WORD * 256 * WORD + (d % WORD * 256 + b);
    ModMultiple(d / WORD * 256, d % WORD * 256 + b);
  }

  lemma {:induction false} ModMultiple(k: nat, x: nat)
    ensures (k * WORD + x) % WORD == x % WORD
  {
    if k > 0 {
      ModMultiple(k - 1, x);
      assert k * WORD + x == (k - 1) * WORD + x + WORD;
      assert ((k - 1) * WORD + x + WORD) % WORD == ((k - 1) * WORD + x) % WORD;
    }
  }
}
