/** `setURI` and `getURI`: a URI as Uri-Path and Uri-Query options, and back. */
module CoapUri {
  import opened Bytes
  import opened OptionWire
  import opened OptionList
  import opened CoapScan
  import opened CoapPdu
  import opened CoapRoundTrip
  import CoapRuns

  const URI_PATH: uint16 := 11
  const URI_QUERY: uint16 := 15
  const SLASH: byte := 0x2F
  const QUESTION: byte := 0x3F
  const AMPERSAND: byte := 0x26

  type Text = seq<byte>

  /** Where the C string that starts at `i` ends: the first NUL, or the one behind the text. */
  function Nul(s: Text, i: nat): (k: nat)
    requires i <= |s|
    ensures i <= k <= |s| && (k < |s| ==> s[k] == 0)
    ensures forall j :: i <= j < k ==> s[j] != 0
    decreases |s| - i
  {
    if i == |s| || s[i] == 0 then i else Nul(s, i + 1)
  }

  /** `strchr`: the first position of `c` at or behind `i` and in front of any NUL; `|s|` stands for NULL. */
  function Find(s: Text, c: byte, i: nat): (k: nat)
    requires i <= |s| && c != 0
    ensures i <= k <= |s| && (k < |s| ==> s[k] == c)
    ensures forall j :: i <= j < k && j < Nul(s, i) ==> s[j] != c
    ensures k < |s| ==> k < Nul(s, i)
    decreases |s| - i
  {
    if i == |s| || s[i] == 0 then |s| else if s[i] == c then i else Find(s, c, i + 1)
  }

  // ----- the URI as text -----

  function RenderPath(segments: seq<Text>): Text {
    if segments == [] then [] else RenderPath(segments[..|segments| - 1]) + [SLASH] + segments[|segments| - 1]
  }

  /** '?' and the queries with '&' between them; nothing when there is no query. */
  function RenderQuery(queries: seq<Text>): Text {
    if queries == [] then []
    else
      RenderQuery(queries[..|queries| - 1]) + [if |queries| == 1 then QUESTION else AMPERSAND]
      + queries[|queries| - 1]
  }

  function Render(segments: seq<Text>, queries: seq<Text>): Text {
    RenderPath(segments) + RenderQuery(queries)
  }

  predicate Plain(s: Text) {
    s != [] && SLASH !in s && QUESTION !in s && AMPERSAND !in s
  }

  // ----- setURI -----

  /** One round of `setURI`'s loop from position `i`: the option added and the next position and stage. */
  function Piece(uri: Text, i: nat, query: bool): (r: (Opt, nat, bool))
    requires i + 1 < |uri| < 0x1_0000
    ensures i < r.1 <= |uri|
  {
    var split := if query then AMPERSAND else SLASH;
    var number := if query then URI_QUERY else URI_PATH;
    var start := if uri[i] == split then i + 1 else i;
    var next := Find(uri, split, start);
    var mark := Find(uri, QUESTION, start);
    if next < |uri| || mark == |uri| then (Opt(number, uri[start..next]), next, query)
    else (Opt(number, uri[start..mark]), mark + 1, true)
  }

  /** The options `setURI` adds from position `i` on. */
  function Pieces(uri: Text, i: nat, query: bool): seq<Opt>
    requires i <= |uri| < 0x1_0000
    decreases |uri| - i
  {
    if i + 1 >= |uri| || uri[i] == 0 || uri[i + 1] == 0 then []
    else
      var (o, next, q) := Piece(uri, i, query);
      [o] + Pieces(uri, next, q)
  }

  /** All options `setURI` adds for a URI. */
  function SplitUri(uri: Text): seq<Opt>
    requires |uri| < 0x1_0000
  {
    if |uri| == 1 then [Opt(URI_PATH, uri)] else Pieces(uri, 0, false)
  }

  function PathOpts(segments: seq<Text>): seq<Opt> {
    seq(|segments|, i requires 0 <= i < |segments| => Opt(URI_PATH, segments[i]))
  }

  function QueryOpts(queries: seq<Text>): seq<Opt> {
    seq(|queries|, i requires 0 <= i < |queries| => Opt(URI_QUERY, queries[i]))
  }

  /** The options that a message keeps of `pieces`. */
  ghost predicate Kept(kept: seq<Opt>, pieces: seq<Opt>) {
    |kept| <= |pieces| && forall i :: 0 <= i < |kept| ==>
      kept[i].number == pieces[i].number && StoredAs(kept[i].value, pieces[i].value)
  }

  /** Components shorter than 269 bytes are kept as they are. */
  lemma KeptWhole(kept: seq<Opt>, pieces: seq<Opt>)
    requires Kept(kept, pieces) && forall i :: 0 <= i < |kept| ==> |pieces[i].value| < 269
    ensures kept == pieces[..|kept|]
  {
    forall i | 0 <= i < |kept| ensures kept[i] == pieces[i] {
      ShortStored(kept[i].value, pieces[i].value);
    }
  }

  /** `setURI`. Components of 269 bytes and more are kept as far as `addOption` stores them. The source ignores the
      result of the only `addOption` call for a URI of one character. */
  method SetURI(p: CoapPDU, uri: Text) returns (r: int, ghost kept: seq<Opt>)
    requires p.Valid() && p.tail == [] && p.maxAddedOptionNumber == Last(0, p.opts)
    requires |uri| < 0x1_0000 && forall i :: 0 <= i < |SplitUri(uri)| ==> |SplitUri(uri)[i].value| <= 65530
    modifies p, p.pdu
    ensures p.pdu == old(p.pdu) || fresh(p.pdu)
    ensures p.Valid() && p.tail == [] && Head(p.Message()) == Head(old(p.Message()))
    ensures p.opts == InsertMany(old(p.opts), kept) && Kept(kept, SplitUri(uri))
    ensures uri == [] ==> r == 1 && kept == []
    ensures uri != [] && !p.constructedFromBuffer ==> r == 0 && |kept| == |SplitUri(uri)|
    ensures |uri| == 1 ==> r == 0
    ensures |uri| > 1 ==> (r == 0 || r == 1) && (r == 0 ==> |kept| == |SplitUri(uri)|)
  {
    hide Means, Insert, Head, StoredAs;
    ghost var before := p.opts;
    if uri == [] {
      return 1, [];
    }
    if |uri| == 1 {
      assert SplitUri(uri) == [Opt(URI_PATH, uri)];
      var ok;
      ghost var stored;
      ok, stored := AddNext(p, Opt(URI_PATH, uri));
      assert InsertMany(before, [Opt(URI_PATH, stored)]) == Insert(before, Opt(URI_PATH, stored));
      return 0, if ok then [Opt(URI_PATH, stored)] else [];
    }
    r, kept := AddPieces(p, uri);
  }

  /** The loop of `setURI`. */
  method AddPieces(p: CoapPDU, uri: Text) returns (r: int, ghost kept: seq<Opt>)
    requires p.Valid() && p.tail == [] && p.maxAddedOptionNumber == Last(0, p.opts)
    requires 1 < |uri| < 0x1_0000 && forall i :: 0 <= i < |SplitUri(uri)| ==> |SplitUri(uri)[i].value| <= 65530
    modifies p, p.pdu
    ensures p.pdu == old(p.pdu) || fresh(p.pdu)
    ensures p.Valid() && p.tail == [] && Head(p.Message()) == Head(old(p.Message()))
    ensures r == 0 || (r == 1 && p.constructedFromBuffer)
    ensures p.opts == InsertMany(old(p.opts), kept) && Kept(kept, SplitUri(uri))
    ensures r == 0 ==> |kept| == |SplitUri(uri)|
  {
    hide Insert, Head, Piece, Sorted, Encode, Find, Nul, StoredAs;
    var startP, query := 0, false;
    ghost var all, before := SplitUri(uri), p.opts;
    kept := [];
    while true
      invariant p.pdu == old(p.pdu) || fresh(p.pdu)
      invariant p.Valid() && p.tail == [] && Head(p.Message()) == Head(old(p.Message()))
      invariant p.maxAddedOptionNumber == Last(0, p.opts) && p.opts == InsertMany(before, kept) && Kept(kept, all)
      invariant startP <= |uri| && all[|kept|..] == Pieces(uri, startP, query)
      decreases |uri| - startP
    {
      if startP == |uri| || startP + 1 == |uri| || uri[startP] == 0 || uri[startP + 1] == 0 {
        return 0, kept;
      }
      var o;
      ghost var rest := Pieces(uri, Piece(uri, startP, query).1, Piece(uri, startP, query).2);
      o, startP, query := NextPiece(uri, startP, query);
      assert all[|kept|] == all[|kept|..][0] == o;
      var ok;
      ghost var stored;
      ok, stored := AddNext(p, o);
      if !ok {
        return 1, kept;
      }
      Advance(all, kept, o, rest, stored, before);
      kept := kept + [Opt(o.number, stored)];
    }
  }

  lemma Advance(all: seq<Opt>, kept: seq<Opt>, o: Opt, rest: seq<Opt>, stored: seq<byte>, before: seq<Opt>)
    requires Kept(kept, all) && all[|kept|..] == [o] + rest && StoredAs(stored, o.value)
    ensures var next := kept + [Opt(o.number, stored)];
      && Kept(next, all) && all[|next|..] == rest
      && InsertMany(before, next) == Insert(InsertMany(before, kept), Opt(o.number, stored))
  {
    var next := kept + [Opt(o.number, stored)];
    assert all[|kept|] == all[|kept|..][0];
    assert all[|next|..] == all[|kept|..][1..];
    assert next[..|kept|] == kept;
  }

  /** One round of `setURI`'s loop, without the `addOption` call. */
  method NextPiece(uri: Text, position: nat, query: bool) returns (o: Opt, next: nat, q: bool)
    requires position + 1 < |uri| < 0x1_0000
    ensures (o, next, q) == Piece(uri, position, query)
  {
    hide Find, Nul;
    var startP, splitChar, optionType := position, SLASH, URI_PATH;
    if query {
      splitChar, optionType := AMPERSAND, URI_QUERY;
    }
    var queryStageTriggered := false;
    if uri[startP] == splitChar {
      startP := startP + 1;
    }
    var endP := Find(uri, splitChar, startP);
    if endP == |uri| {
      endP := Find(uri, QUESTION, startP);
      if endP < |uri| {
        queryStageTriggered := true;
      }
    }
    o := Opt(optionType, uri[startP..endP]);
    next, q := endP, query;
    if queryStageTriggered {
      next, q := next + 1, true;
    }
  }

  // ----- getURI -----

  datatype Uri = TooSmall | Uri(text: Text, length: nat)

  /** The loop of `getURI`: `out` holds what was written, a separator last; `room` is the space for it. */
  function Collect(opts: seq<Opt>, out: Text, room: int, query: bool): Uri
    requires out != []
    decreases |opts|
  {
    if opts == [] then Uri(out[..|out| - 1], |out| - 1)
    else
      var o := opts[0];
      if o.number != URI_PATH && o.number != URI_QUERY then Collect(opts[1..], out, room, query)
      else
        var q := query || o.number == URI_QUERY;
        var marked := if o.number == URI_QUERY && !query then out[|out| - 1 := QUESTION] else out;
        if |marked| + |o.value| > room then TooSmall
        else if o.value == [SLASH] then Uri(marked, 1)
        else if |marked| + |o.value| + 1 > room then TooSmall
        else Collect(opts[1..], marked + o.value + [if q then AMPERSAND else SLASH], room, q)
  }

  /** What `getURI` writes into a buffer of `dstlen` bytes, and the length it reports. */
  function GetUri(opts: seq<Opt>, dstlen: int): Uri {
    if dstlen <= 0 then TooSmall
    else if opts == [] then Uri([], 0)
    else if dstlen - 1 < 1 then TooSmall
    else Collect(opts, [SLASH], dstlen - 1, false)
  }

  function Values(opts: seq<Opt>): (v: seq<Text>)
    ensures |v| == |opts|
  {
    seq(|opts|, i requires 0 <= i < |opts| => opts[i].value)
  }

  /** The result code, the reported length and the NUL-terminated text in `dst` agree with `u`. */
  ghost predicate Wrote(dst: array<byte>, u: Uri, r: int, outLen: int)
    reads dst
  {
    match u
    case TooSmall => r == 1
    case Uri(text, length) =>
      r == 0 && outLen == length && |text| < dst.Length && dst[..|text|] == text && dst[|text|] == 0
  }

  /** `getURI` on a validated message. */
  method GetURI(p: CoapPDU, dst: array<byte>, dstlen: int, behind: seq<byte>) returns (r: int, outLen: int)
    requires p.Buffered() && HeadLength(p.Message()) <= p.pduLength && |behind| >= 2
    requires var s := ScanMessage(p.pdu[..] + behind, p.pduLength); s.Complete? && p.numOptions == |s.recs|
    requires 0 < dst.Length && dstlen <= dst.Length && dst != p.pdu
    modifies dst
    ensures var s := ScanMessage(p.pdu[..] + behind, p.pduLength);
      && AllIn(s.recs, |p.pdu[..] + behind|)
      && Wrote(dst, GetUri(OptionsIn(p.pdu[..] + behind, s.recs), dstlen), r, outLen)
    // nothing is written behind the first `dstlen` bytes, but for one NUL byte when there are none
    ensures dstlen > 0 ==> dst[dstlen..] == old(dst[dstlen..])
    ensures dstlen <= 0 ==> outLen == 0 && dst[0] == 0 && dst[1..] == old(dst[1..])
  {
    ghost var b := p.pdu[..] + behind;
    ScanTiles(b, p.pduLength, COAP_HDR_SIZE + p.TokenLength(), 0);
    if dstlen <= 0 || p.numOptions == 0 {
      dst[0] := 0;
      return (if dstlen <= 0 then 1 else 0), 0;
    }
    var options := p.GetOptions(behind);
    var source := p.pdu[..] + behind;
    r, outLen := CollectInto(dst, dstlen, source, options);
  }

  /** The loop of `getURI`: `dst` grows in place, a separator last. */
  method CollectInto(dst: array<byte>, dstlen: int, b: seq<byte>, options: seq<Rec>) returns (r: int, outLen: int)
    requires 0 < dstlen <= dst.Length && options != [] && AllIn(options, |b|)
    modifies dst
    ensures Wrote(dst, GetUri(OptionsIn(b, options), dstlen), r, outLen) && dst[dstlen..] == old(dst[dstlen..])
  {
    ghost var opts := OptionsIn(b, options);
    if dstlen - 1 < 1 {
      return 1, 0;
    }
    dst[0] := SLASH;
    var used, query, status := 1, false, Fits;
    assert opts[0..] == opts && dst[..used] == [SLASH];
    for i := 0 to |options|
      invariant 1 <= used <= dstlen - 1
      invariant Collect(opts[i..], dst[..used], dstlen - 1, query) == GetUri(opts, dstlen)
      invariant dst[dstlen..] == old(dst[dstlen..])
    {
      var number := options[i].number;
      var value := b[options[i].ValueStart()..options[i].End()];
      assert opts[i..][0] == Opt(number, value) && opts[i..][1..] == opts[i + 1..];
      if number == URI_PATH || number == URI_QUERY {
        status, used := PutComponent(dst, dstlen, used, query, number == URI_QUERY, value);
        if status == Full {
          return 1, 0;
        } else if status == LoneSlash {
          return 0, 1;
        }
        query := query || number == URI_QUERY;
      }
    }
    assert opts[|options|..] == [];
    used := used - 1;
    ghost var text := dst[..used];
    dst[used] := 0;
    assert dst[..used] == text;
    return 0, used;
  }

  datatype Status = Fits | Full | LoneSlash

  /** One round of `getURI`'s loop for a path or query option, with `used` bytes written so far. */
  method PutComponent(dst: array<byte>, dstlen: int, used: nat, query: bool, isQuery: bool, value: seq<byte>)
      returns (status: Status, next: nat)
    requires 1 <= used <= dstlen - 1 < dst.Length
    modifies dst
    ensures
      var marked := if isQuery && !query then old(dst[..used])[used - 1 := QUESTION] else old(dst[..used]);
      if used + |value| > dstlen - 1 then status == Full
      else if value == [SLASH] then status == LoneSlash && dst[..used] == marked && dst[used] == 0
      else if used + |value| + 1 > dstlen - 1 then status == Full
      else
        && status == Fits && next == used + |value| + 1
        && dst[..next] == marked + value + [if query || isQuery then AMPERSAND else SLASH]
    ensures dst[dstlen..] == old(dst[dstlen..])
  {
    var bytesLeft := dstlen - 1 - used;
    var oLen := |value|;
    next := used;
    if isQuery && !query {
      dst[used - 1] := QUESTION;
    }
    ghost var marked := dst[..used];
    if oLen > bytesLeft {
      return Full, next;
    }
    if oLen == 1 && value[0] == SLASH {
      dst[used] := 0;
      return LoneSlash, next;
    }
    CopyText(dst, used, value);
    assert dst[..used + oLen] == dst[..used] + dst[used..used + oLen];
    bytesLeft := bytesLeft - oLen;
    if bytesLeft < 1 {
      return Full, next;
    }
    dst[used + oLen] := if query || isQuery then AMPERSAND else SLASH;
    next := used + oLen + 1;
    assert dst[..next] == marked + value + [dst[used + oLen]];
    return Fits, next;
  }

  method CopyText(dst: array<byte>, at: nat, value: seq<byte>)
    requires at + |value| <= dst.Length
    modifies dst
    ensures dst[..at] == old(dst[..at]) && dst[at..at + |value|] == value
    ensures dst[at + |value|..] == old(dst[at + |value|..])
  {
    forall i | 0 <= i < |value| {
      dst[at + i] := value[i];
    }
  }

  // ----- what getURI means -----

  /** No path or query component is a lone "/", which `getURI` treats as the whole URI. */
  predicate NoSlash(opts: seq<Opt>) {
    forall i :: 0 <= i < |opts| ==> opts[i].number in {URI_PATH, URI_QUERY} ==> opts[i].value != [SLASH]
  }

  /** The state of `getURI`'s loop: components written so far, each followed by a separator. */
  function WrittenSoFar(segments: seq<Text>, queries: seq<Text>): Text {
    Render(segments, queries) + [if queries == [] then SLASH else AMPERSAND]
  }

  lemma RenderSnoc(segments: seq<Text>, queries: seq<Text>, s: Text)
    ensures RenderPath(segments + [s]) == RenderPath(segments) + [SLASH] + s
    ensures RenderQuery(queries + [s]) == RenderQuery(queries) + [if queries == [] then QUESTION else AMPERSAND] + s
  {
    assert (segments + [s])[..|segments|] == segments;
    assert (queries + [s])[..|queries|] == queries;
  }

  /** From any state on, `getURI`'s loop writes the remaining path segments and queries, or runs out of room
      exactly when they and one more byte do not fit. */
  lemma {:induction false} CollectMeaning(prev: uint16, opts: seq<Opt>, segments: seq<Text>, queries: seq<Text>,
                                          room: int)
    requires Sorted(prev, opts) && (queries != [] ==> prev >= URI_QUERY)
    requires NoSlash(opts)
    requires |WrittenSoFar(segments, queries)| <= room
    ensures var all := Render(segments + Values(OfNumber(URI_PATH, opts)), queries + Values(OfNumber(URI_QUERY, opts)));
      Collect(opts, WrittenSoFar(segments, queries), room, queries != [])
        == if |all| + 1 <= room then Uri(all, |all|) else TooSmall
    decreases |opts|, 0
  {
    if opts == [] {
      var out := WrittenSoFar(segments, queries);
      assert segments + [] == segments && queries + [] == queries;
      assert out[..|out| - 1] == Render(segments, queries);
    } else {
      var o, rest := opts[0], opts[1..];
      if o.number == URI_PATH {
        CollectPath(opts, segments, room);
        ValuesCons(o, OfNumber(URI_PATH, rest), segments);
        hide Collect, Render, WrittenSoFar;
        CollectStep(o, rest, segments + [o.value], [], room);
      } else if o.number == URI_QUERY {
        NoneBelow(o.number, rest, URI_PATH);
        CollectQuery(opts, segments, queries, room);
        ValuesCons(o, OfNumber(URI_QUERY, rest), queries);
        hide Collect, Render, WrittenSoFar;
        CollectStep(o, rest, segments, queries + [o.value], room);
      } else {
        CollectMeaning(o.number, rest, segments, queries, room);
      }
    }
  }

  lemma CollectPath(opts: seq<Opt>, segments: seq<Text>, room: int)
    requires opts != [] && opts[0].number == URI_PATH && opts[0].value != [SLASH]
    ensures var next := WrittenSoFar(segments + [opts[0].value], []);
      Collect(opts, WrittenSoFar(segments, []), room, false)
        == if |next| > room then TooSmall else Collect(opts[1..], next, room, false)
  {
    RenderSnoc(segments, [], opts[0].value);
    assert WrittenSoFar(segments + [opts[0].value], []) == WrittenSoFar(segments, []) + opts[0].value + [SLASH];
  }

  lemma CollectQuery(opts: seq<Opt>, segments: seq<Text>, queries: seq<Text>, room: int)
    requires opts != [] && opts[0].number == URI_QUERY && opts[0].value != [SLASH]
    ensures var next := WrittenSoFar(segments, queries + [opts[0].value]);
      Collect(opts, WrittenSoFar(segments, queries), room, queries != [])
        == if |next| > room then TooSmall else Collect(opts[1..], next, room, true)
  {
    var out, v := WrittenSoFar(segments, queries), opts[0].value;
    RenderSnoc(segments, queries, v);
    var marked := if queries == [] then out[|out| - 1 := QUESTION] else out;
    assert WrittenSoFar(segments, queries + [v]) == marked + v + [AMPERSAND];
  }

  lemma {:induction false} CollectStep(o: Opt, rest: seq<Opt>, segments: seq<Text>, queries: seq<Text>, room: int)
    requires Sorted(o.number, rest) && (queries != [] ==> o.number >= URI_QUERY)
    requires NoSlash(rest)
    ensures var all := Render(segments + Values(OfNumber(URI_PATH, rest)), queries + Values(OfNumber(URI_QUERY, rest)));
      (if |WrittenSoFar(segments, queries)| > room then TooSmall
       else Collect(rest, WrittenSoFar(segments, queries), room, queries != []))
        == if |all| + 1 <= room then Uri(all, |all|) else TooSmall
    decreases |rest|, 1
  {
    if |WrittenSoFar(segments, queries)| > room {
      RenderGrows(segments, Values(OfNumber(URI_PATH, rest)), queries, Values(OfNumber(URI_QUERY, rest)));
    } else {
      CollectMeaning(o.number, rest, segments, queries, room);
    }
  }

  lemma {:induction false} RenderGrows(segments: seq<Text>, moreSegments: seq<Text>, queries: seq<Text>,
                                       moreQueries: seq<Text>)
    ensures |Render(segments + moreSegments, queries + moreQueries)| >= |Render(segments, queries)|
    decreases |moreSegments| + |moreQueries|
  {
    if moreSegments != [] {
      var n := |moreSegments| - 1;
      assert segments + moreSegments == (segments + moreSegments[..n]) + [moreSegments[n]];
      RenderSnoc(segments + moreSegments[..n], [], moreSegments[n]);
      RenderGrows(segments, moreSegments[..n], queries, moreQueries);
    } else if moreQueries != [] {
      var n := |moreQueries| - 1;
      assert queries + moreQueries == (queries + moreQueries[..n]) + [moreQueries[n]];
      RenderSnoc([], queries + moreQueries[..n], moreQueries[n]);
      RenderGrows(segments, moreSegments, queries, moreQueries[..n]);
    } else {
      assert segments + [] == segments && queries + [] == queries;
    }
  }

  lemma ValuesCons(o: Opt, rest: seq<Opt>, done: seq<Text>)
    ensures done + Values([o] + rest) == (done + [o.value]) + Values(rest)
  {}

  /** `getURI` on any sorted option list without a lone "/" component: path and query options are joined in
      order, all other options are skipped, and it fails exactly when the text and two more bytes do not fit. */
  lemma GetUriMeaning(opts: seq<Opt>, dstlen: int)
    requires Sorted(0, opts) && NoSlash(opts)
    ensures var all := Render(Values(OfNumber(URI_PATH, opts)), Values(OfNumber(URI_QUERY, opts)));
      GetUri(opts, dstlen) ==
        if opts == [] then (if dstlen > 0 then Uri([], 0) else TooSmall)
        else if |all| + 2 <= dstlen then Uri(all, |all|) else TooSmall
  {
    hide Render, Collect, OfNumber, Values, WrittenSoFar, Sorted, NoSlash;
    if opts != [] && dstlen >= 2 {
      NothingWritten();
      CollectMeaning(0, opts, [], [], dstlen - 1);
      assert [] + Values(OfNumber(URI_PATH, opts)) == Values(OfNumber(URI_PATH, opts));
      assert [] + Values(OfNumber(URI_QUERY, opts)) == Values(OfNumber(URI_QUERY, opts));
    }
  }

  /** The separator in front of one more component. */
  function Separator(queries: seq<Text>, number: uint16): byte {
    if queries != [] then AMPERSAND else if number == URI_QUERY then QUESTION else SLASH
  }

  /** From any state on, the loop ends at the first lone "/": what was written so far stays, its last separator
      marked for it, and the length reported is 1. */
  lemma {:induction false} CollectSlash(prev: uint16, front: seq<Opt>, o: Opt, rest: seq<Opt>, segments: seq<Text>,
                                        queries: seq<Text>, room: int)
    requires Sorted(prev, front + [o]) && (queries != [] ==> prev >= URI_QUERY) && NoSlash(front)
    requires o.number in {URI_PATH, URI_QUERY} && o.value == [SLASH]
    ensures var ps, qs := segments + Values(OfNumber(URI_PATH, front)), queries + Values(OfNumber(URI_QUERY, front));
      Collect(front + ([o] + rest), WrittenSoFar(segments, queries), room, queries != [])
        == if |Render(ps, qs)| + 2 <= room then Uri(Render(ps, qs) + [Separator(qs, o.number)], 1) else TooSmall
    decreases |front|
  {
    hide Collect, Render, WrittenSoFar, Values, Separator;
    var all := front + ([o] + rest);
    if front == [] {
      assert all == [o] + rest && segments + [] == segments && queries + [] == queries;
      SlashHere(o, rest, segments, queries, room);
    } else {
      var f, more := front[0], front[1..];
      assert front == [f] + more;
      FrontCons(f, more, o, rest);
      if f.number == URI_PATH {
        CollectPath(all, segments, room);
        ValuesCons(f, OfNumber(URI_PATH, more), segments);
        RenderGrows(segments + [f.value], Values(OfNumber(URI_PATH, more)), [], Values(OfNumber(URI_QUERY, more)));
        WrittenLength(segments + [f.value], []);
        CollectSlash(f.number, more, o, rest, segments + [f.value], [], room);
      } else if f.number == URI_QUERY {
        CollectQuery(all, segments, queries, room);
        ValuesCons(f, OfNumber(URI_QUERY, more), queries);
        RenderGrows(segments, Values(OfNumber(URI_PATH, more)), queries + [f.value], Values(OfNumber(URI_QUERY, more)));
        WrittenLength(segments, queries + [f.value]);
        CollectSlash(f.number, more, o, rest, segments, queries + [f.value], room);
      } else {
        WrittenLength(segments, queries);
        CollectOther(all, WrittenSoFar(segments, queries), room, queries != []);
        CollectSlash(f.number, more, o, rest, segments, queries, room);
      }
    }
  }

  lemma FrontCons(f: Opt, more: seq<Opt>, o: Opt, rest: seq<Opt>)
    ensures var all := [f] + more + ([o] + rest); all[0] == f && all[1..] == more + ([o] + rest)
    ensures var first := [f] + more + [o]; first[0] == f && first[1..] == more + [o]
  {
  }

  lemma WrittenLength(segments: seq<Text>, queries: seq<Text>)
    ensures |WrittenSoFar(segments, queries)| == |Render(segments, queries)| + 1
  {
  }

  lemma CollectOther(opts: seq<Opt>, out: Text, room: int, query: bool)
    requires opts != [] && opts[0].number !in {URI_PATH, URI_QUERY} && out != []
    ensures Collect(opts, out, room, query) == Collect(opts[1..], out, room, query)
  {
  }

  lemma SlashHere(o: Opt, rest: seq<Opt>, segments: seq<Text>, queries: seq<Text>, room: int)
    requires o.number in {URI_PATH, URI_QUERY} && o.value == [SLASH] && (queries != [] ==> o.number >= URI_QUERY)
    ensures Collect([o] + rest, WrittenSoFar(segments, queries), room, queries != [])
      == if |Render(segments, queries)| + 2 <= room
         then Uri(Render(segments, queries) + [Separator(queries, o.number)], 1) else TooSmall
  {
    hide Render;
    var out := WrittenSoFar(segments, queries);
    assert out[|out| - 1 := QUESTION] == Render(segments, queries) + [QUESTION];
  }

  /** `getURI` on any sorted list with a lone "/": it writes the components in front of the first one, with the
      separator for it, and reports length 1; it fails exactly when that text and two more bytes do not fit. */
  lemma GetUriSlash(front: seq<Opt>, o: Opt, rest: seq<Opt>, dstlen: int)
    requires Sorted(0, front + [o]) && NoSlash(front) && o.number in {URI_PATH, URI_QUERY} && o.value == [SLASH]
    ensures var ps, qs := Values(OfNumber(URI_PATH, front)), Values(OfNumber(URI_QUERY, front));
      var text := Render(ps, qs) + [Separator(qs, o.number)];
      GetUri(front + ([o] + rest), dstlen) == if |text| + 2 <= dstlen then Uri(text, 1) else TooSmall
  {
    hide Render, Collect, OfNumber, Values, WrittenSoFar, Sorted, NoSlash, Separator;
    if dstlen >= 2 {
      NothingWritten();
      CollectSlash(0, front, o, rest, [], [], dstlen - 1);
      assert [] + Values(OfNumber(URI_PATH, front)) == Values(OfNumber(URI_PATH, front));
      assert [] + Values(OfNumber(URI_QUERY, front)) == Values(OfNumber(URI_QUERY, front));
    }
  }

  lemma NothingWritten()
    ensures WrittenSoFar([], []) == [SLASH]
  {}

  // ----- what setURI means -----

  /** The queries behind the first one, each with its '&'. */
  function MoreQueries(queries: seq<Text>): Text {
    if queries == [] then [] else [AMPERSAND] + queries[0] + MoreQueries(queries[1..])
  }

  lemma {:induction false} RenderFront(segments: seq<Text>)
    requires segments != []
    ensures RenderPath(segments) == [SLASH] + segments[0] + RenderPath(segments[1..])
    decreases |segments|
  {
    var n := |segments| - 1;
    if n > 0 {
      RenderFront(segments[..n]);
      assert segments[..n][1..] == segments[1..][..n - 1];
    }
  }

  lemma {:induction false} RenderQueryFront(queries: seq<Text>)
    requires queries != []
    ensures RenderQuery(queries) == [QUESTION] + queries[0] + MoreQueries(queries[1..])
    decreases |queries|
  {
    var n := |queries| - 1;
    if n > 0 {
      RenderQueryFront(queries[..n]);
      MoreSnoc(queries[1..]);
      assert queries[..n][1..] == queries[1..][..n - 1];
    }
  }

  lemma {:induction false} MoreSnoc(queries: seq<Text>)
    requires queries != []
    ensures MoreQueries(queries) == MoreQueries(queries[..|queries| - 1]) + [AMPERSAND] + queries[|queries| - 1]
    decreases |queries|
  {
    var n := |queries| - 1;
    if n > 0 {
      MoreSnoc(queries[1..]);
      assert queries[1..][..n - 1] == queries[..n][1..];
    }
  }

  lemma {:induction false} FindAt(uri: Text, c: byte, i: nat, k: nat)
    requires i <= k <= |uri| && c != 0 && 0 !in uri && c !in uri[i..k] && (k < |uri| ==> uri[k] == c)
    ensures Find(uri, c, i) == k
    decreases k - i
  {
    if i < k {
      assert uri[i..k][0] == uri[i] && uri[i..k][1..] == uri[i + 1..k];
      FindAt(uri, c, i + 1, k);
    }
  }

  lemma {:induction false} MoreHasOnly(queries: seq<Text>, c: byte)
    requires c != AMPERSAND && forall q :: q in queries ==> c !in q
    ensures c !in MoreQueries(queries)
    decreases |queries|
  {
    if queries != [] {
      assert queries[0] in queries && forall q :: q in queries[1..] ==> q in queries;
      MoreHasOnly(queries[1..], c);
    }
  }

  lemma RenderQueryHasOnly(queries: seq<Text>)
    requires PlainAll(queries)
    ensures SLASH !in RenderQuery(queries)
    ensures if queries == [] then RenderQuery(queries) == []
            else RenderQuery(queries) != [] && RenderQuery(queries)[0] == QUESTION
  {
    if queries != [] {
      RenderQueryFront(queries);
      assert Plain(queries[0]) && forall q :: q in queries[1..] ==> Plain(q);
      MoreHasOnly(queries[1..], SLASH);
    }
  }

  predicate PlainAll(components: seq<Text>) {
    forall s :: s in components ==> Plain(s)
  }

  /** The query stage, from a query that follows '&'. */
  lemma {:induction false} MorePieces(uri: Text, pre: Text, queries: seq<Text>)
    requires 0 !in uri && PlainAll(queries) && |uri| < 0x1_0000 && uri == pre + MoreQueries(queries)
    ensures Pieces(uri, |pre|, true) == QueryOpts(queries)
    decreases |queries|
  {
    hide Piece, MoreQueries, QueryOpts, Pieces;
    if queries == [] {
      NoMoreQueries();
      NoPieces(uri, |pre|, true);
    } else {
      var q, rest := queries[0], queries[1..];
      var pre2 := pre + [AMPERSAND] + q;
      MoreQueriesCons(queries);
      Reassociate(pre, [AMPERSAND] + q, MoreQueries(rest));
      Reassociate(pre, [AMPERSAND], q);
      assert Plain(q) && PlainAll(rest) by { assert q in queries; }
      OneQuery(uri, |pre|, |pre| + 1, q, rest, pre2);
      MorePieces(uri, pre2, rest);
      PiecesStep(uri, |pre|, true);
    }
  }

  lemma NoMoreQueries()
    ensures MoreQueries([]) == [] && QueryOpts([]) == []
  {}

  lemma MoreQueriesCons(queries: seq<Text>)
    requires queries != []
    ensures MoreQueries(queries) == [AMPERSAND] + queries[0] + MoreQueries(queries[1..])
    ensures QueryOpts(queries) == [Opt(URI_QUERY, queries[0])] + QueryOpts(queries[1..])
  {}

  /** One round of the query stage: the loop stands at `i`, the query begins at `start`. */
  lemma OneQuery(uri: Text, i: nat, start: nat, q: Text, rest: seq<Text>, pre: Text)
    requires 0 !in uri && Plain(q) && PlainAll(rest) && uri == pre + MoreQueries(rest) && |uri| < 0x1_0000
    requires i <= start <= i + 1 && |pre| == start + |q| && pre[start..] == q
    requires i + 1 < |uri| && start == (if uri[i] == AMPERSAND then i + 1 else i)
    ensures Piece(uri, i, true) == (Opt(URI_QUERY, q), |pre|, true)
  {
    assert uri[start..|pre|] == q;
    FindAt(uri, AMPERSAND, start, |pre|);
    if rest == [] {
      FindAt(uri, QUESTION, start, |uri|);
    }
  }

  /** The path stage, followed by the query stage when there are queries. */
  lemma {:induction false} PathPieces(uri: Text, pre: Text, segments: seq<Text>, queries: seq<Text>)
    requires 0 !in uri && segments != [] && PlainAll(segments) && PlainAll(queries) && |uri| < 0x1_0000
    requires uri == pre + RenderPath(segments) + RenderQuery(queries)
    ensures Pieces(uri, |pre|, false) == PathOpts(segments) +
      (if queries == [] || (|queries| == 1 && |queries[0]| == 1) then [] else QueryOpts(queries))
    decreases |segments|
  {
    hide Piece, RenderPath, RenderQuery, PathOpts, QueryOpts, Pieces;
    var s, rest := segments[0], segments[1..];
    assert Plain(s) && PlainAll(rest) by { assert s in segments; }
    RenderFront(segments);
    PathOptsCons(segments);
    if rest == [] {
      LastSegment(uri, pre, s, queries);
    } else {
      RenderFront(rest);
      Reassociate(pre + [SLASH] + s, RenderPath(rest), RenderQuery(queries));
      PathPiece(uri, pre, s, RenderPath(rest) + RenderQuery(queries));
      PiecesStep(uri, |pre|, false);
      PathPieces(uri, pre + [SLASH] + s, rest, queries);
    }
  }

  lemma LastSegment(uri: Text, pre: Text, s: Text, queries: seq<Text>)
    requires 0 !in uri && Plain(s) && PlainAll(queries) && |uri| < 0x1_0000
    requires uri == pre + ([SLASH] + s + RenderPath([])) + RenderQuery(queries)
    ensures Pieces(uri, |pre|, false) == [Opt(URI_PATH, s)] + PathOpts([]) +
      (if queries == [] || (|queries| == 1 && |queries[0]| == 1) then [] else QueryOpts(queries))
  {
    hide Piece, RenderQuery, RenderPath, QueryOpts, PathOpts, Pieces, Plain, PlainAll;
    NothingRendered();
    var after := RenderQuery(queries);
    SegmentLast(uri, pre, s, after);
    RenderQueryHasOnly(queries);
    PathPiece(uri, pre, s, after);
    PiecesStep(uri, |pre|, false);
    if queries != [] {
      QueryPieces(uri, |pre| + 1 + |s|, queries);
    } else {
      NoPieces(uri, |uri|, false);
    }
  }

  lemma SegmentLast(uri: Text, pre: Text, s: Text, after: Text)
    requires uri == pre + ([SLASH] + s + []) + after
    ensures uri == pre + [SLASH] + s + after && uri[|pre| + 1 + |s|..] == after
  {
    assert [SLASH] + s + [] == [SLASH] + s;
  }

  lemma Reassociate(a: Text, b: Text, c: Text)
    ensures a + b + c == a + (b + c)
  {}

  lemma PiecesStep(uri: Text, i: nat, query: bool)
    requires i + 1 < |uri| < 0x1_0000 && uri[i] != 0 && uri[i + 1] != 0
    ensures var (o, next, q) := Piece(uri, i, query); Pieces(uri, i, query) == [o] + Pieces(uri, next, q)
  {}

  lemma PathOptsCons(segments: seq<Text>)
    requires segments != []
    ensures PathOpts(segments) == [Opt(URI_PATH, segments[0])] + PathOpts(segments[1..])
  {}

  /** One round of the path stage. */
  lemma PathPiece(uri: Text, pre: Text, s: Text, after: Text)
    requires 0 !in uri && Plain(s) && |uri| < 0x1_0000 && uri == pre + [SLASH] + s + after
    requires after == [] || after[0] == SLASH || (after[0] == QUESTION && SLASH !in after)
    ensures var end := |pre| + 1 + |s|;
      |pre| + 1 < |uri| &&
      Piece(uri, |pre|, false) == (Opt(URI_PATH, s), if after != [] && after[0] == QUESTION then end + 1 else end,
                                   after != [] && after[0] == QUESTION)
  {
    var start := |pre| + 1;
    var end := start + |s|;
    assert uri[start..end] == s && uri[|pre|] == SLASH && uri[end..] == after;
    if after != [] && after[0] == QUESTION {
      assert uri[start..|uri|] == s + after;
      FindAt(uri, SLASH, start, |uri|);
      FindAt(uri, QUESTION, start, end);
    } else {
      FindAt(uri, SLASH, start, end);
      if after == [] {
        FindAt(uri, QUESTION, start, end);
      }
    }
  }

  /** The query stage as a whole, behind the '?' at `mark`: a sole one-character query is dropped. */
  lemma QueryPieces(uri: Text, mark: nat, queries: seq<Text>)
    requires 0 !in uri && queries != [] && PlainAll(queries) && |uri| < 0x1_0000
    requires mark <= |uri| && uri[mark..] == RenderQuery(queries)
    ensures mark + 1 <= |uri|
    ensures Pieces(uri, mark + 1, true) == if |queries| == 1 && |queries[0]| == 1 then [] else QueryOpts(queries)
  {
    hide Piece, RenderQuery, Pieces, MoreQueries;
    RenderQueryFront(queries);
    var q, rest := queries[0], queries[1..];
    assert Plain(q) && PlainAll(rest) by { assert q in queries; }
    var start := mark + 1;
    Behind(uri, mark, QUESTION, q + MoreQueries(rest));
    MoreLength(rest);
    if rest == [] && |q| == 1 {
      NoPieces(uri, start, true);
    } else {
      FirstQuery(uri, start, q, rest);
      assert QueryOpts(queries) == [Opt(URI_QUERY, q)] + QueryOpts(rest);
    }
  }

  lemma Behind(uri: Text, mark: nat, c: byte, s: Text)
    requires mark <= |uri| && uri[mark..] == [c] + s
    ensures mark + 1 <= |uri| && uri[mark + 1..] == s
  {
    assert uri[mark + 1..] == uri[mark..][1..];
  }

  lemma MoreLength(queries: seq<Text>)
    ensures |MoreQueries(queries)| > 0 <==> queries != []
  {}

  lemma NoPieces(uri: Text, i: nat, query: bool)
    requires i <= |uri| <= i + 1 && |uri| < 0x1_0000
    ensures Pieces(uri, i, query) == []
  {}

  lemma FirstQuery(uri: Text, start: nat, q: Text, rest: seq<Text>)
    requires 0 !in uri && Plain(q) && PlainAll(rest) && start + 1 < |uri| < 0x1_0000
        && uri[start..] == q + MoreQueries(rest)
    ensures Pieces(uri, start, true) == [Opt(URI_QUERY, q)] + QueryOpts(rest)
  {
    hide MoreQueries, Pieces, Piece, Plain, PlainAll, QueryOpts;
    var pre := SplitBehind(uri, start, q, MoreQueries(rest));
    PlainStart(q);
    OneQuery(uri, start, start, q, rest, pre);
    PiecesStep(uri, start, true);
    MorePieces(uri, pre, rest);
  }

  lemma SplitBehind(uri: Text, start: nat, q: Text, more: Text) returns (pre: Text)
    requires start <= |uri| && uri[start..] == q + more
    ensures |pre| == start + |q| && uri == pre + more && pre[start..] == q
        && (q != [] ==> start < |uri| && uri[start] == q[0])
  {
    pre := uri[..start + |q|];
    assert uri[start..][..|q|] == q && uri[start..][|q|..] == more;
    assert uri[start + |q|..] == uri[start..][|q|..];
    assert pre[start..] == uri[start..][..|q|];
  }

  lemma PlainStart(q: Text)
    requires Plain(q)
    ensures q != [] && q[0] != SLASH && q[0] != QUESTION && q[0] != AMPERSAND
  {
    assert q[0] in q;
  }

  // ----- there and back -----

  lemma {:induction false} OfNumberOfOne(n: uint16, opts: seq<Opt>, m: uint16)
    requires forall o :: o in opts ==> o.number == m
    ensures OfNumber(n, opts) == if n == m then opts else []
    decreases |opts|
  {
    if opts != [] {
      assert opts[0] in opts && forall o :: o in opts[1..] ==> o in opts;
      OfNumberOfOne(n, opts[1..], m);
      assert opts == [opts[0]] + opts[1..];
    }
  }

  lemma PiecesOfNumber(segments: seq<Text>, queries: seq<Text>)
    ensures Values(OfNumber(URI_PATH, PathOpts(segments) + QueryOpts(queries))) == segments
    ensures Values(OfNumber(URI_QUERY, PathOpts(segments) + QueryOpts(queries))) == queries
  {
    hide Values, OfNumber, PathOpts, QueryOpts;
    var ps, qs := PathOpts(segments), QueryOpts(queries);
    OfNumberAppend(URI_PATH, ps, qs);
    OfNumberAppend(URI_QUERY, ps, qs);
    PieceNumbers(segments, queries);
    OfNumberOfOne(URI_PATH, ps, URI_PATH);
    OfNumberOfOne(URI_PATH, qs, URI_QUERY);
    OfNumberOfOne(URI_QUERY, ps, URI_PATH);
    OfNumberOfOne(URI_QUERY, qs, URI_QUERY);
    assert ps + [] == ps && [] + qs == qs;
  }

  lemma PieceNumbers(segments: seq<Text>, queries: seq<Text>)
    ensures forall o :: o in PathOpts(segments) ==> o.number == URI_PATH
    ensures forall o :: o in QueryOpts(queries) ==> o.number == URI_QUERY
    ensures Values(PathOpts(segments)) == segments && Values(QueryOpts(queries)) == queries
  {}

  /** The options `setURI` adds for a rendered URI without NUL. */
  lemma SplitRendered(segments: seq<Text>, queries: seq<Text>)
    requires segments != [] && PlainAll(segments) && PlainAll(queries) && |Render(segments, queries)| < 0x1_0000
    requires 0 !in Render(segments, queries)
    ensures SplitUri(Render(segments, queries)) == PathOpts(segments) +
      (if queries == [] || (|queries| == 1 && |queries[0]| == 1) then [] else QueryOpts(queries))
  {
    var uri := Render(segments, queries);
    RenderFront(segments);
    assert |segments[0]| > 0 by { assert segments[0] in segments; }
    assert [] + RenderPath(segments) + RenderQuery(queries) == uri;
    PathPieces(uri, [], segments, queries);
  }

  // ----- there and back, for components with any bytes -----

  predicate IsSeparator(c: byte) {
    c == SLASH || c == QUESTION || c == AMPERSAND
  }

  /** The C string in `uri` ends neither in a separator nor in '?' and one more character. */
  predicate EndsWell(uri: Text) {
    var z := Nul(uri, 0);
    z >= 2 && !IsSeparator(uri[z - 1]) && uri[z - 2] != QUESTION
  }

  /** How much of a rendered URI survives: all of it, or what is in front of the last separator of the C string. */
  function Cut(uri: Text): (n: nat)
    ensures n <= |uri|
  {
    var z := Nul(uri, 0);
    if EndsWell(uri) then |uri| else if z >= 1 && IsSeparator(uri[z - 1]) then z - 1 else if z >= 2 then z - 2 else 0
  }

  /** Where the separators of a rendered URI are; the queries begin behind `mark`. */
  predicate Shaped(uri: Text, mark: nat) {
    && 0 < mark <= |uri| < 0x1_0000 && uri[0] == SLASH
    && (forall k :: 0 <= k < mark ==> uri[k] != QUESTION && uri[k] != AMPERSAND)
    && (forall k :: mark < k < |uri| ==> uri[k] != SLASH && uri[k] != QUESTION)
    && (mark < |uri| ==> uri[mark] == QUESTION) && (mark + 1 < |uri| ==> uri[mark + 1] != AMPERSAND)
  }

  lemma {:induction false} PathHasOnly(segments: seq<Text>, c: byte)
    requires c != SLASH && forall s :: s in segments ==> c !in s
    ensures c !in RenderPath(segments)
    decreases |segments|
  {
    if segments != [] {
      var n := |segments| - 1;
      assert segments[n] in segments && forall s :: s in segments[..n] ==> s in segments;
      PathHasOnly(segments[..n], c);
    }
  }

  lemma RenderedShape(segments: seq<Text>, queries: seq<Text>)
    requires segments != [] && PlainAll(segments) && PlainAll(queries) && |Render(segments, queries)| < 0x1_0000
    ensures Shaped(Render(segments, queries), |RenderPath(segments)|) && |Render(segments, queries)| > 1
  {
    hide RenderPath, RenderQuery, Shaped, MoreQueries;
    var path, query := RenderPath(segments), RenderQuery(queries);
    RenderFront(segments);
    assert Plain(segments[0]) by { assert segments[0] in segments; }
    PathHasOnly(segments, QUESTION);
    PathHasOnly(segments, AMPERSAND);
    if queries == [] {
      NothingRendered();
    } else {
      RenderQueryFront(queries);
      var q, rest := queries[0], queries[1..];
      assert Plain(q) && forall q :: q in rest ==> Plain(q) by { assert q in queries; }
      MoreHasOnly(rest, SLASH);
      MoreHasOnly(rest, QUESTION);
      PlainStart(q);
      QueryShape(query, q, MoreQueries(rest));
    }
    JoinShape(path, query);
  }

  lemma QueryShape(query: Text, q: Text, more: Text)
    requires query == [QUESTION] + q + more && q != [] && q[0] != AMPERSAND
    requires SLASH !in q && QUESTION !in q && SLASH !in more && QUESTION !in more
    ensures |query| > 1 && query[0] == QUESTION && query[1] != AMPERSAND
    ensures forall k :: 0 < k < |query| ==> query[k] != SLASH && query[k] != QUESTION
  {
    assert query == [QUESTION] + (q + more) && query[1] == q[0];
    forall k | 0 < k < |query| ensures query[k] in q || query[k] in more {
      assert query[k] == (q + more)[k - 1];
    }
  }

  lemma JoinShape(path: Text, query: Text)
    requires path != [] && path[0] == SLASH && QUESTION !in path && AMPERSAND !in path && |path + query| < 0x1_0000
    requires query != [] ==> |query| > 1 && query[0] == QUESTION && query[1] != AMPERSAND
    requires forall k :: 0 < k < |query| ==> query[k] != SLASH && query[k] != QUESTION
    ensures Shaped(path + query, |path|)
  {
    var uri := path + query;
    assert forall k :: 0 <= k < |path| ==> uri[k] == path[k] && path[k] in path;
    assert forall k :: |path| <= k < |uri| ==> uri[k] == query[k - |path|];
  }

  lemma {:induction false} NulFrom(s: Text, i: nat, j: nat)
    requires i <= j <= |s| && forall k :: i <= k < j ==> s[k] != 0
    ensures Nul(s, i) == Nul(s, j)
    decreases j - i
  {
    if i < j {
      NulFrom(s, i + 1, j);
    }
  }

  lemma NulBehind(s: Text, i: nat)
    requires i <= |s| && i <= Nul(s, 0)
    ensures Nul(s, i) == Nul(s, 0)
  {
    NulFrom(s, 0, i);
  }

  predicate NoneLone(components: seq<Text>) {
    forall s :: s in components ==> s != [SLASH]
  }

  /** One round of the query stage that is not the last one of the loop. */
  lemma QueryRound(uri: Text, mark: nat, i: nat) returns (v: Text, next: nat)
    requires Shaped(uri, mark) && mark < i && i + 1 < |uri| && i + 1 < Nul(uri, 0)
    requires i == mark + 1 || uri[i] == AMPERSAND
    ensures i < next <= |uri| && Piece(uri, i, true) == (Opt(URI_QUERY, v), next, true) && v != [SLASH]
    ensures v == uri[if i == mark + 1 then i else i + 1..next]
    ensures next < |uri| ==> uri[next] == AMPERSAND && next < Nul(uri, 0)
    ensures next == |uri| ==> EndsWell(uri)
  {
    var start := if i == mark + 1 then i else i + 1;
    NulBehind(uri, start);
    next := Find(uri, AMPERSAND, start);
    v := uri[start..next];
    assert v != [] ==> v[0] == uri[start];
    if next == |uri| {
      assert Find(uri, QUESTION, start) == |uri|;
    }
  }

  /** Where the loop stops: at the end, or at a NUL here or one further. */
  lemma Stops(uri: Text, i: nat, query: bool)
    requires i <= |uri| < 0x1_0000 && i <= Nul(uri, 0)
    ensures Nul(uri, 0) <= i + 1 ==> Pieces(uri, i, query) == []
    ensures Nul(uri, 0) > i + 1 ==> i + 1 < |uri| && uri[i] != 0 && uri[i + 1] != 0
  {
    NulBehind(uri, i);
    if i < Nul(uri, 0) {
      NulBehind(uri, i + 1);
    }
  }

  lemma Joined(uri: Text, i: nat, start: nat, next: nat, stop: nat, sep: byte)
    requires i < start <= next <= stop <= |uri| && start == i + 1 && uri[i] == sep
    ensures uri[i..stop] == [sep] + uri[start..next] + uri[next..stop]
  {}

  /** The query stage at a '&': what it reads, rendered again, is the URI up to `stop`. */
  lemma {:induction false} QueryText(uri: Text, mark: nat, i: nat) returns (qs: seq<Text>, stop: nat)
    requires Shaped(uri, mark) && mark + 1 < i <= |uri| < 0x1_0000
    requires i < |uri| ==> uri[i] == AMPERSAND && i < Nul(uri, 0)
    ensures Pieces(uri, i, true) == QueryOpts(qs) && NoneLone(qs)
    ensures i <= stop <= |uri| && MoreQueries(qs) == uri[i..stop]
    ensures i < |uri| && stop == |uri| ==> EndsWell(uri)
    ensures stop < |uri| ==> Nul(uri, 0) == stop + 1 && uri[stop] == AMPERSAND
    decreases |uri| - i
  {
    hide Shaped, EndsWell, Piece, Pieces, QueryOpts, MoreQueries;
    NoMoreQueries();
    if i == |uri| {
      NoPieces(uri, i, true);
      return [], i;
    }
    Stops(uri, i, true);
    if Nul(uri, 0) <= i + 1 {
      return [], i;
    }
    var v, next := QueryRound(uri, mark, i);
    var rest;
    rest, stop := QueryText(uri, mark, next);
    PiecesStep(uri, i, true);
    qs := [v] + rest;
    MoreQueriesCons(qs);
    Joined(uri, i, i + 1, next, stop, AMPERSAND);
  }

  /** The query stage behind the '?' at `mark`. */
  lemma FirstQueryText(uri: Text, mark: nat) returns (qs: seq<Text>, stop: nat)
    requires Shaped(uri, mark) && mark < |uri| < 0x1_0000 && mark < Nul(uri, 0)
    ensures Pieces(uri, mark + 1, true) == QueryOpts(qs) && NoneLone(qs)
    ensures mark <= stop <= |uri| && RenderQuery(qs) == uri[mark..stop]
    ensures stop == |uri| ==> EndsWell(uri)
    ensures stop < |uri| ==> !EndsWell(uri) && Cut(uri) == stop
  {
    hide Shaped, EndsWell, Piece, Pieces, QueryOpts, MoreQueries, RenderQuery;
    NoMoreQueries();
    NothingRendered();
    MarkIs(uri, mark);
    Stops(uri, mark + 1, true);
    if Nul(uri, 0) <= mark + 2 {
      CutHere(uri, mark);
      return [], mark;
    }
    var v, next := QueryRound(uri, mark, mark + 1);
    var rest;
    rest, stop := QueryText(uri, mark, next);
    PiecesStep(uri, mark + 1, true);
    qs := [v] + rest;
    RenderQueryFront(qs);
    MoreQueriesCons(qs);
    Joined(uri, mark, mark + 1, next, stop, QUESTION);
    if stop < |uri| {
      CutHere(uri, stop);
    }
  }

  lemma MarkIs(uri: Text, mark: nat)
    requires Shaped(uri, mark) && mark < |uri|
    ensures uri[mark] == QUESTION
    ensures mark + 1 < |uri| ==> !IsSeparator(uri[mark + 1])
  {}

  /** The loop stopped at `stop`, at a separator, or behind a '?' there. */
  lemma CutHere(uri: Text, stop: nat)
    requires stop < |uri| && IsSeparator(uri[stop]) && (uri[stop] == SLASH ==> stop == 0 || uri[stop - 1] != QUESTION)
    requires stop < Nul(uri, 0)
    requires Nul(uri, 0) == stop + 1
        || (Nul(uri, 0) == stop + 2 && uri[stop] == QUESTION && !IsSeparator(uri[stop + 1]))
    ensures !EndsWell(uri) && Cut(uri) == stop
  {}

  /** One round of the path stage that is not the last one of the loop: `end` is where its value ends. */
  lemma PathRound(uri: Text, mark: nat, i: nat) returns (v: Text, end: nat)
    requires Shaped(uri, mark) && i < mark && uri[i] == SLASH && i + 1 < |uri| && i + 1 < Nul(uri, 0)
    ensures i < end <= |uri| && v == uri[i + 1..end] && v != [SLASH]
    ensures end < |uri| && end != mark ==>
      && Piece(uri, i, false) == (Opt(URI_PATH, v), end, false)
      && end < mark && uri[end] == SLASH && end < Nul(uri, 0)
    ensures end < |uri| && end == mark ==>
      Piece(uri, i, false) == (Opt(URI_PATH, v), mark + 1, true) && mark < Nul(uri, 0)
    ensures end == |uri| ==> Piece(uri, i, false) == (Opt(URI_PATH, v), end, false) && EndsWell(uri)
  {
    var start := i + 1;
    NulBehind(uri, start);
    var next, m := Find(uri, SLASH, start), Find(uri, QUESTION, start);
    end := if next < |uri| then next else m;
    v := uri[start..end];
    assert v != [] ==> v[0] == uri[start];
    if end == |uri| {
      assert Nul(uri, 0) <= mark;
    }
  }

  /** The path stage at a '/', and the query stage behind it. */
  lemma {:induction false} PathText(uri: Text, mark: nat, i: nat) returns (ps: seq<Text>, qs: seq<Text>, stop: nat)
    requires Shaped(uri, mark) && i < mark <= |uri| < 0x1_0000 && uri[i] == SLASH && i < Nul(uri, 0)
    ensures Pieces(uri, i, false) == PathOpts(ps) + QueryOpts(qs) && NoneLone(ps) && NoneLone(qs)
    ensures i <= stop <= |uri| && RenderPath(ps) + RenderQuery(qs) == uri[i..stop] && (ps == [] ==> qs == [])
    ensures stop == |uri| ==> EndsWell(uri)
    ensures stop < |uri| ==> !EndsWell(uri) && Cut(uri) == stop
    decreases |uri| - i
  {
    hide Shaped, EndsWell, Piece, Pieces, QueryOpts, PathOpts, RenderPath, RenderQuery, Cut, Nul, Find, IsSeparator;
    NothingRendered();
    Stops(uri, i, false);
    if Nul(uri, 0) <= i + 1 {
      NoQuestionBefore(uri, mark, i);
      CutHere(uri, i);
      return [], [], i;
    }
    var v, end := PathRound(uri, mark, i);
    PiecesStep(uri, i, false);
    var rest;
    if end == |uri| {
      NoPieces(uri, end, false);
      rest, qs, stop := [], [], end;
    } else if end == mark {
      rest := [];
      qs, stop := FirstQueryText(uri, mark);
    } else {
      rest, qs, stop := PathText(uri, mark, end);
    }
    ps := [v] + rest;
    PathOptsCons(ps);
    RenderFront(ps);
    Joined(uri, i, i + 1, end, stop, SLASH);
  }

  lemma NoQuestionBefore(uri: Text, mark: nat, i: nat)
    requires Shaped(uri, mark) && i < mark
    ensures i > 0 ==> uri[i - 1] != QUESTION
  {}

  lemma NothingRendered()
    ensures RenderPath([]) == [] && RenderQuery([]) == [] && PathOpts([]) == [] && QueryOpts([]) == []
  {}

  /** `setURI` then `getURI` on a message with any other options, for components with any bytes but the three
      separators: what comes back is the URI up to `Cut`, so the URI itself if and only if the C string in it
      ends well. Without NUL bytes that fails only for a sole query of one character. A buffer one byte longer
      than the C string always suffices. */
  lemma UriRoundTrip(opts: seq<Opt>, segments: seq<Text>, queries: seq<Text>, dstlen: int)
    requires Sorted(0, opts) && OfNumber(URI_PATH, opts) == [] && OfNumber(URI_QUERY, opts) == []
    requires segments != [] && PlainAll(segments) && PlainAll(queries) && |Render(segments, queries)| < 0x1_0000
    ensures var uri := Render(segments, queries); var result := GetUri(InsertMany(opts, SplitUri(uri)), dstlen);
      && (dstlen >= |uri| + 2 ==> result == Uri(uri[..Cut(uri)], Cut(uri)))
      && (dstlen >= |uri| + 2 ==> (result == Uri(uri, |uri|) <==> EndsWell(uri)))
      && (0 < Cut(uri) && dstlen < Cut(uri) + 2 ==> result == TooSmall)
      && (0 !in uri ==> (EndsWell(uri) <==> !(|queries| == 1 && |queries[0]| == 1)))
  {
    var uri := Render(segments, queries);
    RenderedShape(segments, queries);
    if 0 !in uri {
      EndsOfPlain(segments, queries);
    }
    StartsHere(uri, |RenderPath(segments)|);
    hide Shaped, PathOpts, QueryOpts, GetUri, InsertMany, Render, EndsWell, Pieces;
    var ps, qs, stop := PathText(uri, |RenderPath(segments)|, 0);
    assert Cut(uri) == stop;
    assert uri[0..stop] == uri[..stop];
    assert uri[..|uri|] == uri;
    AddedPieces(opts, ps, qs, dstlen);
  }

  lemma {:induction false} InsertSplits(prev: uint16, opts: seq<Opt>, o: Opt) returns (k: nat)
    requires Sorted(prev, opts) && prev <= o.number && |o.value| < 0x1_0000
    ensures k <= |opts| && Insert(opts, o) == opts[..k] + ([o] + opts[k..])
    ensures Sorted(prev, opts[..k] + [o])
    decreases |opts|
  {
    if opts == [] || o.number < opts[0].number {
      k := 0;
      assert opts[..0] + ([o] + opts[0..]) == [o] + opts && opts[..0] + [o] == [o];
    } else {
      var i := InsertSplits(opts[0].number, opts[1..], o);
      k := i + 1;
      assert opts[..k] == [opts[0]] + opts[1..][..i] && opts[k..] == opts[1..][i..];
      assert opts[..k] + [o] == [opts[0]] + (opts[1..][..i] + [o]);
    }
  }

  lemma OnlyOthers(opts: seq<Opt>, k: nat)
    requires k <= |opts| && OfNumber(URI_PATH, opts) == [] && OfNumber(URI_QUERY, opts) == []
    ensures OfNumber(URI_PATH, opts[..k]) == [] && OfNumber(URI_QUERY, opts[..k]) == [] && NoSlash(opts[..k])
  {
    assert opts == opts[..k] + opts[k..];
    OfNumberAppend(URI_PATH, opts[..k], opts[k..]);
    OfNumberAppend(URI_QUERY, opts[..k], opts[k..]);
    NoSlashFrom(opts[..k], [], [], [], []);
  }

  /** A URI of one character, added to a message without path and query: "/" comes back as "/", any other
      character with a "/" in front. */
  lemma LoneCharacter(opts: seq<Opt>, c: byte, dstlen: int)
    requires Sorted(0, opts) && OfNumber(URI_PATH, opts) == [] && OfNumber(URI_QUERY, opts) == []
    ensures SplitUri([c]) == [Opt(URI_PATH, [c])]
    ensures var text := if c == SLASH then [SLASH] else [SLASH, c];
      GetUri(InsertMany(opts, [Opt(URI_PATH, [c])]), dstlen)
        == if |text| + 2 <= dstlen then Uri(text, |text|) else TooSmall
  {
    var o := Opt(URI_PATH, [c]);
    assert InsertMany(opts, [o]) == Insert(InsertMany(opts, []), o);
    if c == SLASH {
      var k := InsertSplits(0, opts, o);
      OnlyOthers(opts, k);
      hide Collect;
      GetUriSlash(opts[..k], o, opts[k..], dstlen);
      assert Render([], []) == [];
    } else {
      assert PathOpts([[c]]) + QueryOpts([]) == [o] && RenderPath([[c]]) == [SLASH, c];
      hide GetUri;
      AddedPieces(opts, [[c]], [], dstlen);
    }
  }

  /** "/a?b" comes back as "/a". */
  lemma LoneQueryExample()
    ensures Render([[0x61]], [[0x62]]) == [SLASH, 0x61, QUESTION, 0x62]
    ensures GetUri(InsertMany([], SplitUri([SLASH, 0x61, QUESTION, 0x62])), 6) == Uri([SLASH, 0x61], 2)
  {
    hide GetUri, InsertMany, Pieces, EndsWell;
    assert RenderPath([[0x61]]) == [SLASH, 0x61] && RenderQuery([[0x62]]) == [QUESTION, 0x62];
    UriRoundTrip([], [[0x61]], [[0x62]], 6);
    CutExample();
  }

  /** The URI "/a/b?c&d". */
  lemma UriExample()
    ensures var uri := [0x2F, 0x61, 0x2F, 0x62, 0x3F, 0x63, 0x26, 0x64];
      && SplitUri(uri) == [Opt(11, [0x61]), Opt(11, [0x62]), Opt(15, [0x63]), Opt(15, [0x64])]
      && GetUri(SplitUri(uri), 10) == Uri(uri, 8) && GetUri(SplitUri(uri), 9) == TooSmall
  {
    hide GetUri, Render, Pieces, NoSlash, PathOpts, QueryOpts, Sorted, Values, OfNumber, SplitUri;
    var segments, queries := [[0x61], [0x62]], [[0x63], [0x64]];
    var opts := [Opt(11, [0x61]), Opt(11, [0x62]), Opt(15, [0x63]), Opt(15, [0x64])];
    ExampleText();
    SplitRendered(segments, queries);
    ExampleOptions(opts);
    GetUriMeaning(opts, 10);
    GetUriMeaning(opts, 9);
  }

  lemma ExampleText()
    ensures Render([[0x61], [0x62]], [[0x63], [0x64]]) == [0x2F, 0x61, 0x2F, 0x62, 0x3F, 0x63, 0x26, 0x64]
  {
    assert [[0x61], [0x62]][..1] == [[0x61]] && [[0x63], [0x64]][..1] == [[0x63]];
    assert RenderPath([[0x61]]) == [0x2F, 0x61] && RenderQuery([[0x63]]) == [0x3F, 0x63];
  }

  lemma ExampleOptions(opts: seq<Opt>)
    requires opts == [Opt(11, [0x61]), Opt(11, [0x62]), Opt(15, [0x63]), Opt(15, [0x64])]
    ensures PathOpts([[0x61], [0x62]]) + QueryOpts([[0x63], [0x64]]) == opts && Sorted(0, opts) && NoSlash(opts)
    ensures Values(OfNumber(URI_PATH, opts)) == [[0x61], [0x62]]
    ensures Values(OfNumber(URI_QUERY, opts)) == [[0x63], [0x64]]
  {
    hide Values, OfNumber;
    var paths, queries := opts[..2], opts[2..];
    assert PathOpts([[0x61], [0x62]]) == paths && QueryOpts([[0x63], [0x64]]) == queries && paths + queries == opts;
    PiecesOfNumber([[0x61], [0x62]], [[0x63], [0x64]]);
    assert paths == [opts[0], opts[1]] && queries == [opts[2], opts[3]];
    TwoSorted(0, opts[0], opts[1]);
    TwoSorted(11, opts[2], opts[3]);
    SortedAppend(0, paths, queries);
  }

  lemma TwoSorted(prev: uint16, a: Opt, b: Opt)
    requires prev <= a.number <= b.number && |a.value| < 0x1_0000 && |b.value| < 0x1_0000
    ensures Sorted(prev, [a, b])
  {
    assert [a, b][1..] == [b];
  }

  lemma CutExample()
    ensures var uri := [SLASH, 0x61, QUESTION, 0x62]; Cut(uri) == 2 && uri[..2] == [SLASH, 0x61]
  {
    NulFrom([SLASH, 0x61, QUESTION, 0x62], 0, 4);
  }

  /** Of a URI that goes on behind a NUL byte nothing is read from there. */
  lemma NulExample()
    ensures SplitUri([SLASH, 0, 0x61]) == []
  {}

  /** `getURI` on a message that was built here. */
  method GetBack(p: CoapPDU, dst: array<byte>, dstlen: int, behind: seq<byte>) returns (r: int, outLen: int)
    requires p.WellFormed() && |behind| >= 2 && 0 < dst.Length && dstlen <= dst.Length && dst != p.pdu
    modifies dst
    ensures Wrote(dst, GetUri(p.opts, dstlen), r, outLen)
  {
    hide Means, OptionsIn, AllIn, ScanFrom, Wrote, GetUri;
    ghost var beyond := p.pdu[p.pduLength..] + behind;
    assert p.Message() + beyond == p.pdu[..] + behind;
    MeansScans(p.Message(), p.opts, p.tail, beyond);
    r, outLen := GetURI(p, dst, dstlen, behind);
  }

  /** The two calls one after the other. When `setURI` finds room for all pieces, `getURI` writes the URI up to
      `Cut`, NUL-terminated, into any buffer one byte longer than the C string. */
  method SetThenGet(p: CoapPDU, segments: seq<Text>, queries: seq<Text>, uri: Text, dst: array<byte>, dstlen: int,
                    behind: seq<byte>) returns (made: int, r: int, outLen: int)
    requires p.Valid() && p.tail == [] && p.maxAddedOptionNumber == Last(0, p.opts)
    requires OfNumber(URI_PATH, p.opts) == [] && OfNumber(URI_QUERY, p.opts) == []
    requires segments != [] && PlainAll(segments) && PlainAll(queries)
    requires uri == Render(segments, queries) && |uri| < 0x1_0000
    requires forall i :: 0 <= i < |SplitUri(uri)| ==> |SplitUri(uri)[i].value| < 269
    requires |uri| + 2 <= dstlen <= dst.Length && dst != p.pdu && |behind| >= 2
    modifies p, p.pdu, dst
    ensures !p.constructedFromBuffer ==> made == 0
    ensures made == 0 ==>
      r == 0 && 0 <= outLen == Cut(uri) < dst.Length && dst[..outLen] == uri[..outLen] && dst[outLen] == 0
    ensures made == 0 && 0 !in uri && !(|queries| == 1 && |queries[0]| == 1) ==> dst[..outLen] == uri
  {
    hide Means, Insert, InsertMany, Head, SplitUri, Render, PlainAll, OfNumber, EndsWell, Cut, Sorted, GetUri, Wrote,
         Shaped;
    ghost var opts := p.opts;
    RenderedShape(segments, queries);
    assert Sorted(0, opts) by { CoapRuns.WellSorted(p.Message(), opts, p.tail); }
    ghost var kept;
    made, kept := SetURI(p, uri);
    KeptWhole(kept, SplitUri(uri));
    assert SplitUri(uri)[..|SplitUri(uri)|] == SplitUri(uri);
    if made != 0 {
      return made, 1, 0;
    }
    r, outLen := GetBack(p, dst, dstlen, behind);
    BackAgain(opts, segments, queries, uri, dst, dstlen, p.opts, r, outLen);
  }

  lemma BackAgain(opts: seq<Opt>, segments: seq<Text>, queries: seq<Text>, uri: Text, dst: array<byte>, dstlen: int,
                  final: seq<Opt>, r: int, outLen: int)
    requires Sorted(0, opts) && OfNumber(URI_PATH, opts) == [] && OfNumber(URI_QUERY, opts) == []
    requires segments != [] && PlainAll(segments) && PlainAll(queries)
    requires uri == Render(segments, queries) && |uri| < 0x1_0000 && |uri| + 2 <= dstlen <= dst.Length
    requires |uri| > 1 ==> final == InsertMany(opts, SplitUri(uri))
    requires Wrote(dst, GetUri(final, dstlen), r, outLen)
    ensures r == 0 && 0 <= outLen == Cut(uri) < dst.Length && dst[..outLen] == uri[..outLen] && dst[outLen] == 0
    ensures 0 !in uri && !(|queries| == 1 && |queries[0]| == 1) ==> dst[..outLen] == uri
  {
    hide Render, PlainAll, OfNumber, EndsWell, InsertMany, SplitUri, GetUri, Sorted;
    UriRoundTrip(opts, segments, queries, dstlen);
    RenderedShape(segments, queries);
    assert uri[..|uri|] == uri;
  }

  lemma StartsHere(uri: Text, mark: nat)
    requires Shaped(uri, mark) && |uri| > 1
    ensures 0 < mark && uri[0] == SLASH && 0 < Nul(uri, 0)
    ensures SplitUri(uri) == Pieces(uri, 0, false)
    ensures Cut(uri) == |uri| <==> EndsWell(uri)
  {}

  /** Without NUL the C string is the whole text. */
  lemma EndsOfPlain(segments: seq<Text>, queries: seq<Text>)
    requires segments != [] && PlainAll(segments) && PlainAll(queries) && 0 !in Render(segments, queries)
    ensures EndsWell(Render(segments, queries)) <==> !(|queries| == 1 && |queries[0]| == 1)
  {
    var uri := Render(segments, queries);
    hide EndsWell, Plain;
    NulFrom(uri, 0, |uri|);
    var n, k := |segments| - 1, |queries| - 1;
    if queries == [] {
      assert segments[n] in segments;
      EndOf(uri, RenderPath(segments[..n]), SLASH, segments[n]);
    } else {
      assert queries[k] in queries;
      EndOf(uri, RenderPath(segments) + RenderQuery(queries[..k]), if k == 0 then QUESTION else AMPERSAND, queries[k]);
    }
  }

  lemma EndOf(uri: Text, front: Text, sep: byte, last: Text)
    requires Plain(last) && IsSeparator(sep) && uri == front + [sep] + last && Nul(uri, 0) == |uri|
    ensures EndsWell(uri) <==> !(sep == QUESTION && |last| == 1)
  {
    assert uri[|uri| - |last|..] == last;
    assert uri[|uri| - 1] == last[|last| - 1] && last[|last| - 1] in last;
    if |last| > 1 {
      assert uri[|uri| - 2] == last[|last| - 2] && last[|last| - 2] in last;
    }
  }

  /** `getURI` after adding path and query options to a message that had none. */
  lemma AddedPieces(opts: seq<Opt>, segments: seq<Text>, queries: seq<Text>, dstlen: int)
    requires Sorted(0, opts) && OfNumber(URI_PATH, opts) == [] && OfNumber(URI_QUERY, opts) == []
    requires NoneLone(segments) && NoneLone(queries) && (segments == [] ==> queries == [])
    requires |Render(segments, queries)| < 0x1_0000
    ensures var all := Render(segments, queries);
        var final := InsertMany(opts, PathOpts(segments) + QueryOpts(queries));
      && (|all| + 2 <= dstlen ==> GetUri(final, dstlen) == Uri(all, |all|))
      && (all != [] && dstlen < |all| + 2 ==> GetUri(final, dstlen) == TooSmall)
  {
    var adds := PathOpts(segments) + QueryOpts(queries);
    PiecesAreShort(segments, queries, queries);
    PiecesOfNumber(segments, queries);
    NothingRendered();
    hide PathOpts, QueryOpts, InsertMany, OfNumber, Render, Collect;
    InsertManySorted(opts, adds);
    InsertManyOfNumber(opts, adds, URI_PATH);
    InsertManyOfNumber(opts, adds, URI_QUERY);
    var final := InsertMany(opts, adds);
    assert OfNumber(URI_PATH, final) == OfNumber(URI_PATH, adds);
    assert OfNumber(URI_QUERY, final) == OfNumber(URI_QUERY, adds);
    NoSlashFrom(final, OfNumber(URI_PATH, final), OfNumber(URI_QUERY, final), segments, queries);
    if final == [] {
      NoneOfNumber();
      assert segments == [] && Render([], []) == [];
    } else {
      GetUriMeaning(final, dstlen);
    }
  }

  lemma NoneOfNumber()
    ensures OfNumber(URI_PATH, []) == [] && Values([]) == [] && Render([], []) == []
  {}

  lemma PiecesAreShort(segments: seq<Text>, kept: seq<Text>, queries: seq<Text>)
    requires |Render(segments, queries)| < 0x1_0000 && (kept == queries || kept == [])
    ensures var adds := PathOpts(segments) + QueryOpts(kept); forall i :: 0 <= i < |adds| ==> |adds[i].value| < 0x1_0000
  {
    forall s | s in segments ensures |s| < 0x1_0000 { LongerThanParts(segments, s); }
    forall q | q in queries ensures |q| < 0x1_0000 { LongerThanQueries(queries, q); }
  }

  lemma {:induction false} LongerThanParts(segments: seq<Text>, s: Text)
    requires s in segments
    ensures |s| < |RenderPath(segments)|
  {
    var n := |segments| - 1;
    if s != segments[n] {
      assert segments == segments[..n] + [segments[n]];
      LongerThanParts(segments[..n], s);
    }
  }

  lemma {:induction false} LongerThanQueries(queries: seq<Text>, q: Text)
    requires q in queries
    ensures |q| < |RenderQuery(queries)|
  {
    var n := |queries| - 1;
    if q != queries[n] {
      assert queries == queries[..n] + [queries[n]];
      LongerThanQueries(queries[..n], q);
    }
  }

  /** Every path or query option of a list is among those its number selects. */
  lemma {:induction false} InOfNumber(opts: seq<Opt>, i: nat)
    requires i < |opts|
    ensures opts[i] in OfNumber(opts[i].number, opts)
    decreases |opts|
  {
    if i > 0 {
      InOfNumber(opts[1..], i - 1);
    }
  }

  lemma NoSlashFrom(opts: seq<Opt>, paths: seq<Opt>, others: seq<Opt>, segments: seq<Text>, queries: seq<Text>)
    requires paths == OfNumber(URI_PATH, opts) && others == OfNumber(URI_QUERY, opts)
    requires Values(paths) == segments && Values(others) == queries && NoneLone(segments) && NoneLone(queries)
    ensures NoSlash(opts)
  {
    forall i | 0 <= i < |opts| && opts[i].number in {URI_PATH, URI_QUERY} ensures opts[i].value != [SLASH] {
      InOfNumber(opts, i);
      var chosen := if opts[i].number == URI_PATH then paths else others;
      var k :| 0 <= k < |chosen| && chosen[k] == opts[i];
      assert Values(chosen)[k] in Values(chosen);
    }
  }
}
