/** libcoap's option iterator over the bytes of a message, with or without a filter. */
module OptionIterator {
  import opened Bytes
  import opened LibcoapOption
  import opened OptionFilter

  /** An option found: where it starts, and its number. */
  datatype Item = Item(pos: nat, number: uint16)

  /** All options from `pos` on, up to the payload marker, the end or the first malformed one. The bytes may
      be read one position beyond the `length` bytes that belong to the message. */
  function Items(b: seq<byte>, pos: nat, length: nat, number: uint16): seq<Item>
    requires pos + length < |b|
    decreases length
  {
    match Parse(b[pos..], length)
    case Bad => []
    case Opt(size, delta, _, _) =>
      var n := ToUint16(number + delta);
      [Item(pos, n)] + Items(b, pos + size, length - size, n)
  }

  /** The options with a number in `wanted`, in message order. */
  function Selected(items: seq<Item>, wanted: set<nat>): seq<Item> {
    if items == [] then []
    else (if items[0].number in wanted then [items[0]] else []) + Selected(items[1..], wanted)
  }

  datatype Option = None | Some(pos: nat)

  class Iterator {
    const bytes: seq<byte>
    var next: nat
    var length: nat
    var number: uint16
    var bad: bool
    const filter: Filter?

    /** `coap_option_iterator_init` on the `total` bytes of a message with a token; no filter means all options. */
    constructor (bytes: seq<byte>, total: nat, tokenLength: nat, filter: Filter?)
      requires total < |bytes| && (filter != null ==> filter.Valid())
      ensures Valid() && this.filter == filter && this.bytes == bytes
      ensures Remaining() == if total <= 4 + tokenLength then []
                             else Items(bytes, 4 + tokenLength, total - (4 + tokenLength), 0)
    {
      hide Items, Good;
      this.bytes, this.filter := bytes, filter;
      number := 0;
      if total <= 4 + tokenLength {
        next, length, bad := 0, 0, true;
      } else {
        next, length, bad := 4 + tokenLength, total - (4 + tokenLength), false;
      }
    }

    ghost function FilterParts(): set<object> {
      if filter == null then {} else {filter as object, filter.longOpts as object, filter.shortOpts as object}
    }

    ghost predicate Valid()
      reads this, FilterParts()
    {
      next + length < |bytes| && (filter != null ==> filter.Valid())
    }

    /** What the iterator has not passed yet. */
    ghost function Remaining(): seq<Item>
      reads this
      requires next + length < |bytes|
    {
      if bad then [] else Items(bytes, next, length, number)
    }

    /** What it will still deliver. */
    ghost function ToDeliver(): seq<Item>
      reads this, FilterParts()
      requires next + length < |bytes|
    {
      if filter == null then Remaining() else Selected(Remaining(), filter.Contents())
    }

    /** `coap_option_next`: delivers the wanted options one by one and in order, then null for ever. */
    method Next() returns (r: Option)
      requires Valid()
      modifies this
      ensures Valid()
      ensures bad == (r == None) && (old(ToDeliver()) == [] ==> r == None && ToDeliver() == [])
      ensures old(ToDeliver()) != [] ==>
        r == Some(old(ToDeliver()[0].pos)) && number == old(ToDeliver()[0].number)
            && ToDeliver() == old(ToDeliver()[1..])
    {
      hide Items, Selected, Good, Parse;
      NothingSelected(if filter == null then {} else filter.Contents());
      if bad || length == 0 || bytes[next] == COAP_PAYLOAD_START {
        if !bad { NoItems(bytes, next, length, number); }
        bad := true;
        return None;
      }
      while true
        invariant Valid() && !bad
        invariant ToDeliver() == old(ToDeliver())
        decreases length
      {
        var current, parsed := next, Parse(bytes[next..], length);
        FirstItem(bytes, next, length, number);
        if parsed == Bad {
          bad := true;
          return None;
        }
        next := next + parsed.size;
        length := length - parsed.size;
        number := ToUint16(number + parsed.delta);
        if filter == null {
          return Some(current);
        }
        SelectedCons(Item(current, number), Items(bytes, next, length, number), filter.Contents());
        var wanted := filter.Contains(number);
        if wanted {
          return Some(current);
        }
      }
    }
  }

  lemma NoItems(b: seq<byte>, pos: nat, length: nat, number: uint16)
    requires pos + length < |b| && (length == 0 || b[pos] == COAP_PAYLOAD_START)
    ensures Items(b, pos, length, number) == []
  {
    assert b[pos..][0] == b[pos];
  }

  lemma FirstItem(b: seq<byte>, pos: nat, length: nat, number: uint16)
    requires pos + length < |b|
    ensures match Parse(b[pos..], length)
            case Bad => Items(b, pos, length, number) == []
            case Opt(size, delta, _, _) =>
              && 0 < size <= length
              && var n := ToUint16(number + delta);
              Items(b, pos, length, number) == [Item(pos, n)] + Items(b, pos + size, length - size, n)
  {
  }

  lemma NothingSelected(wanted: set<nat>)
    ensures Selected([], wanted) == []
  {
  }

  lemma SelectedCons(item: Item, rest: seq<Item>, wanted: set<nat>)
    ensures Selected([item] + rest, wanted) == (if item.number in wanted then [item] else []) + Selected(rest, wanted)
  {
    assert ([item] + rest)[1..] == rest;
  }

  /** One behind the other in the message. */
  predicate InOrder(items: seq<Item>) {
    forall i, j :: 0 <= i < j < |items| ==> items[i].pos < items[j].pos
  }

  lemma {:induction false} ItemsInOrder(b: seq<byte>, pos: nat, length: nat, number: uint16)
    requires pos + length < |b|
    ensures InOrder(Items(b, pos, length, number))
    ensures forall x :: x in Items(b, pos, length, number) ==> pos <= x.pos < pos + length
    decreases length
  {
    hide Parse;
    var parsed := Parse(b[pos..], length);
    FirstItem(b, pos, length, number);
    if parsed.Opt? {
      ItemsInOrder(b, pos + parsed.size, length - parsed.size, ToUint16(number + parsed.delta));
    }
  }

  /** A filter lets exactly the options with a wanted number through and keeps their order. */
  lemma {:induction false} SelectedExactly(items: seq<Item>, wanted: set<nat>)
    ensures forall x :: x in Selected(items, wanted) <==> x in items && x.number in wanted
    ensures InOrder(items) ==> InOrder(Selected(items, wanted))
    decreases |items|
  {
    if items != [] {
      var rest := items[1..];
      SelectedExactly(rest, wanted);
      assert items == [items[0]] + rest;
      if InOrder(items) {
        forall i, j | 0 <= i < j < |rest| ensures rest[i].pos < rest[j].pos {
          assert items[i + 1].pos < items[j + 1].pos;
        }
        forall x | x in Selected(rest, wanted) ensures items[0].pos < x.pos {
          var i :| 0 <= i < |rest| && rest[i] == x;
          assert items[i + 1] == x;
        }
      }
    }
  }

  // ----- what the iterator finds in encoded options -----

  datatype Opt = Opt(number: uint16, value: seq<byte>)

  /** What repeated `coap_add_option` calls write, starting behind an option with number `last`. */
  function EncodeAll(opts: seq<Opt>, last: uint16): seq<byte>
    requires Ascending(opts, last)
  {
    if opts == [] then []
    else Encoded(opts[0].number - last, opts[0].value) + EncodeAll(opts[1..], opts[0].number)
  }

  predicate Ascending(opts: seq<Opt>, last: uint16) {
    opts == [] || (last <= opts[0].number && Ascending(opts[1..], opts[0].number))
  }

  /** No delta and no length is the one the codec loses, and no length is longer than the format allows. */
  predicate Readable(opts: seq<Opt>, last: uint16) {
    opts == [] || (&& opts[0].number - last != 269 && |opts[0].value| != 269 && |opts[0].value| < 269 + 0x1_0000
                   && Readable(opts[1..], opts[0].number))
  }

  /** Where each of these options is written, from `pos` on. */
  function Written(opts: seq<Opt>, pos: nat, last: uint16): seq<Item>
    requires Ascending(opts, last)
  {
    if opts == [] then []
    else
      var o := opts[0];
      [Item(pos, o.number)] + Written(opts[1..], pos + |Encoded(o.number - last, o.value)|, o.number)
  }

  /** The iterator finds exactly the options written, each at its place and with its own number. */
  lemma {:induction false} ItemsOfEncoded(b: seq<byte>, pos: nat, length: nat, opts: seq<Opt>, last: uint16,
                                          after: seq<byte>)
    requires Ascending(opts, last) && Readable(opts, last)
    requires pos + length < |b| && b[pos..] == EncodeAll(opts, last) + after
    requires |EncodeAll(opts, last)| <= length
    requires length == |EncodeAll(opts, last)| || after[0] == COAP_PAYLOAD_START
    ensures Items(b, pos, length, last) == Written(opts, pos, last)
    decreases |opts|
  {
    hide Encoded, Parse, Items;
    if opts == [] {
      assert b[pos] == b[pos..][0];
      NoItems(b, pos, length, last);
    } else {
      var o, rest := opts[0], opts[1..];
      var e := Encoded(o.number - last, o.value);
      SplitFirst(b, pos, e, EncodeAll(rest, o.number), after);
      ParseEncoded(o.number - last, o.value, EncodeAll(rest, o.number) + after, length);
      FirstItem(b, pos, length, last);
      ItemsOfEncoded(b, pos + |e|, length - |e|, rest, o.number, after);
    }
  }

  lemma SplitFirst(b: seq<byte>, pos: nat, e: seq<byte>, rest: seq<byte>, after: seq<byte>)
    requires pos <= |b| && b[pos..] == e + rest + after
    ensures b[pos..] == e + (rest + after)
    ensures |b| >= pos + |e| && b[pos + |e|..] == rest + after
  {
    assert b[pos + |e|..] == b[pos..][|e|..];
  }
}
