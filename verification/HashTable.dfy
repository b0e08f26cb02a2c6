/** The bucket half of a uthash table: intrusive chains, and doubling of the buckets, refine a map. */
module HashTable {
  import opened Powers
  import opened Sequences

  const HASH_INITIAL_NUM_BUCKETS: nat := 32
  const HASH_INITIAL_NUM_BUCKETS_LOG2: nat := 5
  const HASH_BKT_CAPACITY_THRESH: nat := 10

  /** The bucket half of a hash handle. The hash value is computed from the key when the element is added. */
  class Handle<K> {
    const key: K
    const hashv: nat
    var hhPrev: Handle?<K>
    var hhNext: Handle?<K>

    constructor (key: K, hash: K -> nat)
      ensures this.key == key && hashv == hash(key)
    {
      this.key, this.hashv := key, hash(key);
      hhPrev, hhNext := null, null;
    }
  }

  datatype Bucket<K> = Bucket(head: Handle?<K>, count: nat, expandMult: nat)

  ghost function At<K>(s: seq<Handle<K>>, i: int): Handle?<K> {
    if 0 <= i < |s| then s[i] else null
  }

  /** `head` leads through exactly `s`, and the `hh_prev` links lead back. */
  ghost predicate Chained<K>(head: Handle?<K>, s: seq<Handle<K>>)
    reads s
  {
    head == At(s, 0) && forall i {:trigger s[i]} :: 0 <= i < |s| ==>
        s[i].hhNext == At(s, i + 1) && s[i].hhPrev == At(s, i - 1)
  }

  /** Every element of the map sits in the chain of its hash, once, and the chains hold nothing else. */
  ghost predicate Placed<K>(chains: seq<seq<Handle<K>>>, items: map<K, Handle<K>>, hash: K -> nat) {
    && |chains| > 0
    && (forall b, i :: 0 <= b < |chains| && 0 <= i < |chains[b]| ==> Sits(chains[b][i], b, |chains|, items))
    && (forall k :: k in items ==>
        items[k].key == k && items[k].hashv == hash(k) && items[k] in chains[items[k].hashv % |chains|])
    && (forall b :: 0 <= b < |chains| ==> Distinct(chains[b]))
  }

  ghost predicate Sits<K>(h: Handle<K>, b: nat, n: nat, items: map<K, Handle<K>>)
    requires n > 0
  {
    h.hashv % n == b && h.key in items && items[h.key] == h
  }

  /** The number of elements in all chains. */
  ghost function Total<K>(chains: seq<seq<Handle<K>>>): nat {
    if chains == [] then 0 else Total(chains[..|chains| - 1]) + |chains[|chains| - 1]|
  }

  lemma {:induction false} TotalUpdate<K>(chains: seq<seq<Handle<K>>>, b: nat, s: seq<Handle<K>>)
    requires b < |chains|
    ensures Total(chains[b := s]) == Total(chains) - |chains[b]| + |s|
  {
    var front := chains[..|chains| - 1];
    if b == |chains| - 1 {
      assert chains[b := s][..|chains| - 1] == front;
    } else {
      TotalUpdate(front, b, s);
      assert chains[b := s][..|chains| - 1] == front[b := s];
    }
  }

  lemma AddPlaced<K>(chains: seq<seq<Handle<K>>>, items: map<K, Handle<K>>, hash: K -> nat, h: Handle<K>)
    requires Placed(chains, items, hash) && h.key !in items && h.hashv == hash(h.key)
    ensures var b := h.hashv % |chains|;
      Placed(chains[b := [h] + chains[b]], items[h.key := h], hash)
  {
    var n, b := |chains|, h.hashv % |chains|;
    var chains', items' := chains[b := [h] + chains[b]], items[h.key := h];
    forall c, i | 0 <= c < n && 0 <= i < |chains'[c]| ensures Sits(chains'[c][i], c, n, items') {
      if c == b && i > 0 {
        assert chains'[c][i] == chains[c][i - 1];
        assert Sits(chains[c][i - 1], c, n, items);
      } else if c != b {
        assert Sits(chains[c][i], c, n, items);
      }
    }
    assert forall i :: 0 <= i < |chains[b]| ==> Sits(chains[b][i], b, n, items);
    assert Distinct(chains'[b]);
    forall k | k in items'
      ensures items'[k].key == k && items'[k].hashv == hash(k) && items'[k] in chains'[items'[k].hashv % n]
    {
      if k != h.key {
        var i :| 0 <= i < |chains[items[k].hashv % n]| && chains[items[k].hashv % n][i] == items[k];
        if items[k].hashv % n == b { assert chains'[b][i + 1] == items[k]; }
      } else {
        assert chains'[b][0] == h;
      }
    }
  }

  lemma DelPlaced<K>(chains: seq<seq<Handle<K>>>, items: map<K, Handle<K>>, hash: K -> nat, h: Handle<K>, i: nat)
    requires Placed(chains, items, hash)
    requires h.key in items && items[h.key] == h
    requires i < |chains[h.hashv % |chains|]| && chains[h.hashv % |chains|][i] == h
    ensures var b := h.hashv % |chains|;
      Placed(chains[b := chains[b][..i] + chains[b][i + 1..]], items - {h.key}, hash)
  {
    hide Distinct;
    var n, b := |chains|, h.hashv % |chains|;
    var rest := chains[b][..i] + chains[b][i + 1..];
    var chains', items' := chains[b := rest], items - {h.key};
    DistinctWithout(chains[b], i);
    assert forall j :: 0 <= j < |rest| ==> rest[j] == chains[b][if j < i then j else j + 1];
    forall c, j | 0 <= c < n && 0 <= j < |chains'[c]| ensures Sits(chains'[c][j], c, n, items') {
      if c == b {
        assert Sits(chains[c][if j < i then j else j + 1], c, n, items);
      } else {
        assert Sits(chains[c][j], c, n, items);
      }
    }
    forall k | k in items'
      ensures items'[k].key == k && items'[k].hashv == hash(k) && items'[k] in chains'[items'[k].hashv % n]
    {
      var c := items[k].hashv % n;
      var j :| 0 <= j < |chains[c]| && chains[c][j] == items[k];
      if c == b { assert rest[if j < i then j else j - 1] == items[k]; }
    }
  }

  /** No handle occurs twice in the chains. */
  ghost predicate Apart<K>(chains: seq<seq<Handle<K>>>) {
    && (forall b :: 0 <= b < |chains| ==> Distinct(chains[b]))
    && (forall b, c, h :: 0 <= b < |chains| && 0 <= c < |chains| && h in chains[b] && h in chains[c] ==> b == c)
  }

  ghost function Members<K>(chains: seq<seq<Handle<K>>>): set<Handle<K>> {
    set b, i | 0 <= b < |chains| && 0 <= i < |chains[b]| :: chains[b][i]
  }

  lemma PlacedApart<K>(chains: seq<seq<Handle<K>>>, items: map<K, Handle<K>>, hash: K -> nat)
    requires Placed(chains, items, hash)
    ensures Apart(chains)
  {
    forall b, c, h | 0 <= b < |chains| && 0 <= c < |chains| && h in chains[b] && h in chains[c] ensures b == c {
      var i :| 0 <= i < |chains[b]| && chains[b][i] == h;
      var j :| 0 <= j < |chains[c]| && chains[c][j] == h;
      assert Sits(chains[b][i], b, |chains|, items) && Sits(chains[c][j], c, |chains|, items);
    }
  }

  lemma OneOfChain<K>(chains: seq<seq<Handle<K>>>, b: nat, i: nat)
    requires Apart(chains) && b < |chains| && i < |chains[b]|
    ensures forall c :: 0 <= c < |chains| && c != b ==> chains[b][i] !in chains[c]
    ensures forall j :: 0 <= j < |chains[b]| && j != i ==> chains[b][j] != chains[b][i]
  {
    assert chains[b][i] in chains[b] && Distinct(chains[b]);
  }

  /** The buckets lead through the chains and count them. */
  ghost predicate Shows<K>(bs: seq<Bucket<K>>, chains: seq<seq<Handle<K>>>)
    reads Members(chains)
  {
    |bs| == |chains| && forall b {:trigger bs[b]} {:trigger chains[b]} :: 0 <= b < |bs| ==>
      Chained(bs[b].head, chains[b]) && bs[b].count == |chains[b]|
  }

  /** All buckets but one. */
  ghost predicate ShowsOthers<K>(bs: seq<Bucket<K>>, chains: seq<seq<Handle<K>>>, bkt: nat)
    reads Members(chains)
  {
    |bs| == |chains| && forall b {:trigger bs[b]} {:trigger chains[b]} :: 0 <= b < |bs| && b != bkt ==>
      Chained(bs[b].head, chains[b]) && bs[b].count == |chains[b]|
  }

  lemma ShowsReplace<K>(bs: seq<Bucket<K>>, chains: seq<seq<Handle<K>>>, bkt: nat, bucket: Bucket<K>, s: seq<Handle<K>>)
    requires ShowsOthers(bs, chains, bkt) && bkt < |bs| && Chained(bucket.head, s) && bucket.count == |s|
    ensures Shows(bs[bkt := bucket], chains[bkt := s])
  {
    hide Chained;
  }

  /** Puts a handle in front of a chain. */
  method Push<K>(buckets: array<Bucket<K>>, bkt: nat, h: Handle<K>, ghost chains: seq<seq<Handle<K>>>)
    requires Shows(buckets[..], chains) && Apart(chains) && bkt < buckets.Length && h !in Members(chains)
    modifies buckets, h, if buckets[bkt].head == null then {} else {buckets[bkt].head}
    ensures Shows(buckets[..], chains[bkt := [h] + chains[bkt]])
    ensures buckets[..] == old(buckets[..][bkt := Bucket(h, buckets[bkt].count + 1, buckets[bkt].expandMult)])
  {
    hide Chained, Apart, Distinct;
    ghost var bs, s := buckets[..], chains[bkt];
    ApartDistinct(chains, bkt);
    var head := buckets[bkt].head;
    ChainStart(head, s);
    if head != null { OneOfChain(chains, bkt, 0); }
    assert forall b :: 0 <= b < |chains| ==> h !in chains[b];
    PushLinks(head, h, s);
    assert ShowsOthers(bs, chains, bkt);
    buckets[bkt] := Bucket(h, buckets[bkt].count + 1, buckets[bkt].expandMult);
    ShowsReplace(bs, chains, bkt, buckets[bkt], [h] + s);
    assert buckets[..] == bs[bkt := buckets[bkt]];
  }

  lemma ChainStart<K>(head: Handle?<K>, s: seq<Handle<K>>)
    requires Chained(head, s)
    ensures head == At(s, 0)
  {
  }

  method PushLinks<K>(head: Handle?<K>, h: Handle<K>, ghost s: seq<Handle<K>>)
    requires Chained(head, s) && h !in s && Distinct(s)
    modifies h, if head == null then {} else {head}
    ensures Chained(h, [h] + s)
  {
    h.hhNext := head;
    h.hhPrev := null;
    if head != null {
      head.hhPrev := h;
    }
    ghost var s' := [h] + s;
    assert forall i :: 0 <= i < |s| ==> s'[i + 1] == s[i];
    forall i | 0 <= i < |s'| ensures s'[i].hhNext == At(s', i + 1) && s'[i].hhPrev == At(s', i - 1) {
      if i > 0 { assert s[i - 1].hhNext == At(s, i); }
    }
  }

  /** `HASH_DEL_IN_BKT` on the `i`-th handle of a chain. */
  method DelInBucket<K>(buckets: array<Bucket<K>>, bkt: nat, h: Handle<K>, ghost chains: seq<seq<Handle<K>>>,
                        ghost i: nat)
    requires Shows(buckets[..], chains) && Apart(chains) && bkt < buckets.Length && i < |chains[bkt]|
        && h == chains[bkt][i]
    modifies buckets, h.hhPrev, h.hhNext
    ensures Shows(buckets[..], chains[bkt := chains[bkt][..i] + chains[bkt][i + 1..]])
    ensures buckets[..] == old(buckets[..])[bkt := buckets[bkt]]
    ensures buckets[bkt].expandMult == old(buckets[bkt].expandMult)
  {
    hide Chained, Apart, Distinct;
    ghost var bs, s := buckets[..], chains[bkt];
    LinksAt(buckets[bkt].head, s, i);
    ApartDistinct(chains, bkt);
    if i > 0 { OneOfChain(chains, bkt, i - 1); }
    if i + 1 < |s| { OneOfChain(chains, bkt, i + 1); }
    assert forall b :: 0 <= b < |chains| && b != bkt ==> h.hhPrev !in chains[b] && h.hhNext !in chains[b];
    var head := DelLinks(buckets[bkt].head, h, s, i);
    assert ShowsOthers(bs, chains, bkt);
    buckets[bkt] := Bucket(head, buckets[bkt].count - 1, buckets[bkt].expandMult);
    ShowsReplace(bs, chains, bkt, buckets[bkt], s[..i] + s[i + 1..]);
    assert buckets[..] == bs[bkt := buckets[bkt]];
  }

  lemma LinksAt<K>(head: Handle?<K>, s: seq<Handle<K>>, i: nat)
    requires Chained(head, s) && i < |s|
    ensures s[i].hhPrev == At(s, i - 1) && s[i].hhNext == At(s, i + 1)
  {
  }

  lemma ApartDistinct<K>(chains: seq<seq<Handle<K>>>, b: nat)
    requires Apart(chains) && b < |chains|
    ensures Distinct(chains[b])
  {
  }

  method DelLinks<K>(head: Handle?<K>, h: Handle<K>, ghost s: seq<Handle<K>>, ghost i: nat) returns (head': Handle?<K>)
    requires Chained(head, s) && Distinct(s) && i < |s| && h == s[i]
    modifies h.hhPrev, h.hhNext
    ensures Chained(head', s[..i] + s[i + 1..])
  {
    Elsewhere(s, i);
    if i > 0 { Elsewhere(s, i - 1); }
    if i + 1 < |s| { Elsewhere(s, i + 1); }
    hide Distinct;
    var prev, next := h.hhPrev, h.hhNext;
    head' := head;
    if head == h {
      head' := next;
    }
    if prev != null {
      prev.hhNext := next;
    }
    if next != null {
      next.hhPrev := prev;
    }
    Relinked(head', s, i);
  }

  /** The links of a chain that passes over its `i`-th handle. */
  lemma Relinked<K>(head: Handle?<K>, s: seq<Handle<K>>, i: nat)
    requires i < |s| && head == if i == 0 then At(s, 1) else At(s, 0)
    requires forall j {:trigger s[j]} :: 0 <= j < |s| && j != i ==>
      && s[j].hhNext == (if j + 1 == i then At(s, i + 1) else At(s, j + 1))
      && s[j].hhPrev == (if j == i + 1 then At(s, i - 1) else At(s, j - 1))
    ensures Chained(head, s[..i] + s[i + 1..])
  {
    var s' := s[..i] + s[i + 1..];
    NextWithout(s, i);
    PrevWithout(s, i);
    assert head == At(s', 0);
  }

  lemma NextWithout<K>(s: seq<Handle<K>>, i: nat)
    requires i < |s|
    requires forall j {:trigger s[j]} :: 0 <= j < |s| && j != i ==>
        s[j].hhNext == if j + 1 == i then At(s, i + 1) else At(s, j + 1)
    ensures var s' := s[..i] + s[i + 1..]; forall j {:trigger s'[j]} :: 0 <= j < |s'| ==> s'[j].hhNext == At(s', j + 1)
  {
    var s' := s[..i] + s[i + 1..];
    assert forall j :: 0 <= j < |s'| ==> s'[j] == s[if j < i then j else j + 1];
  }

  lemma PrevWithout<K>(s: seq<Handle<K>>, i: nat)
    requires i < |s|
    requires forall j {:trigger s[j]} :: 0 <= j < |s| && j != i ==>
        s[j].hhPrev == if j == i + 1 then At(s, i - 1) else At(s, j - 1)
    ensures var s' := s[..i] + s[i + 1..]; forall j {:trigger s'[j]} :: 0 <= j < |s'| ==> s'[j].hhPrev == At(s', j - 1)
  {
    var s' := s[..i] + s[i + 1..];
    assert forall j :: 0 <= j < |s'| ==> s'[j] == s[if j < i then j else j + 1];
  }

  /** `HASH_FIND_IN_BKT` */
  method FindInBucket<K(==)>(head: Handle?<K>, key: K, ghost s: seq<Handle<K>>) returns (out: Handle?<K>)
    requires Chained(head, s)
    ensures out != null ==> out in s && out.key == key
    ensures out == null ==> forall h :: h in s ==> h.key != key
  {
    out := head;
    ghost var i := 0;
    while out != null
      invariant 0 <= i <= |s| && out == At(s, i)
      invariant forall j :: 0 <= j < i ==> s[j].key != key
      decreases |s| - i
    {
      if out.key == key {
        break;
      }
      out := out.hhNext;
      i := i + 1;
    }
  }

  // ----- doubling -----

  ghost function NoChains<K>(m: nat): seq<seq<Handle<K>>> {
    seq(m, _ => [])
  }

  /** The chains of `m` buckets after these handles were put into them, one after the other. */
  ghost function Spread<K>(moved: seq<Handle<K>>, m: nat): (chains: seq<seq<Handle<K>>>)
    requires m > 0
    ensures |chains| == m
  {
    if moved == [] then NoChains(m)
    else
      var h, chains := moved[|moved| - 1], Spread(moved[..|moved| - 1], m);
      chains[h.hashv % m := [h] + chains[h.hashv % m]]
  }

  lemma SpreadMore<K>(moved: seq<Handle<K>>, h: Handle<K>, m: nat)
    requires m > 0
    ensures var chains := Spread(moved, m);
      Spread(moved + [h], m) == chains[h.hashv % m := [h] + chains[h.hashv % m]]
  {
    assert (moved + [h])[..|moved|] == moved;
  }

  /** Each chain holds just the handles of its bucket. */
  lemma {:induction false} SpreadHolds<K>(moved: seq<Handle<K>>, m: nat, b: nat, h: Handle<K>)
    requires b < m
    ensures h in Spread(moved, m)[b] <==> h in moved && h.hashv % m == b
  {
    if moved != [] {
      var front, x := moved[..|moved| - 1], moved[|moved| - 1];
      SpreadHolds(front, m, b, h);
      assert moved == front + [x];
    }
  }

  /** None of them twice. */
  lemma {:induction false} SpreadApart<K>(moved: seq<Handle<K>>, m: nat)
    requires m > 0 && Distinct(moved)
    ensures Apart(Spread(moved, m))
  {
    forall b, c, h | 0 <= b < m && 0 <= c < m && h in Spread(moved, m)[b] && h in Spread(moved, m)[c] ensures b == c {
      SpreadHolds(moved, m, b, h);
      SpreadHolds(moved, m, c, h);
    }
    if moved != [] {
      var front, x := moved[..|moved| - 1], moved[|moved| - 1];
      SpreadApart(front, m);
      SpreadHolds(front, m, x.hashv % m, x);
      forall b | 0 <= b < m ensures Distinct(Spread(moved, m)[b]) {
        assert Distinct(Spread(front, m)[b]);
      }
    }
  }

  lemma {:induction false} SpreadTotal<K>(moved: seq<Handle<K>>, m: nat)
    requires m > 0
    ensures Total(Spread(moved, m)) == |moved|
  {
    if moved == [] {
      TotalNone<K>(m);
    } else {
      var front, x := moved[..|moved| - 1], moved[|moved| - 1];
      SpreadTotal(front, m);
      var chains, b := Spread(front, m), x.hashv % m;
      hide Total;
      TotalUpdate(chains, b, [x] + chains[b]);
    }
  }

  lemma {:induction false} TotalNone<K>(m: nat)
    ensures Total(NoChains<K>(m)) == 0
  {
    if m > 0 {
      assert NoChains<K>(m)[..m - 1] == NoChains<K>(m - 1);
      TotalNone<K>(m - 1);
    }
  }

  ghost function Flat<K>(chains: seq<seq<Handle<K>>>): seq<Handle<K>> {
    if chains == [] then [] else Flat(chains[..|chains| - 1]) + chains[|chains| - 1]
  }

  ghost predicate InSome<K>(chains: seq<seq<Handle<K>>>, h: Handle<K>) {
    exists b :: 0 <= b < |chains| && h in chains[b]
  }

  lemma {:induction false} FlatHolds<K>(chains: seq<seq<Handle<K>>>, h: Handle<K>)
    ensures h in Flat(chains) <==> InSome(chains, h)
  {
    if chains != [] {
      var front, last := chains[..|chains| - 1], chains[|chains| - 1];
      FlatHolds(front, h);
      assert forall b :: 0 <= b < |front| ==> front[b] == chains[b];
      if h in last { assert h in chains[|chains| - 1]; }
      if InSome(front, h) {
        var b :| 0 <= b < |front| && h in front[b];
        assert h in chains[b];
      }
    }
  }

  lemma {:induction false} FlatDistinct<K>(chains: seq<seq<Handle<K>>>)
    requires Apart(chains)
    ensures Distinct(Flat(chains)) && |Flat(chains)| == Total(chains)
  {
    if chains != [] {
      var front, last := chains[..|chains| - 1], chains[|chains| - 1];
      FlatDistinct(front);
      forall h | h in Flat(front) ensures h !in last {
        FlatHolds(front, h);
        var b :| 0 <= b < |front| && h in front[b];
        assert h in chains[b];
      }
      assert Distinct(last);
      DistinctAppend(Flat(front), last);
    }
  }

  /** The part of the chains that a doubling has moved, and what it has not touched yet. */
  lemma FlatMore<K>(chains: seq<seq<Handle<K>>>, i: nat)
    requires i < |chains| && Apart(chains)
    ensures Flat(chains[..i + 1]) == Flat(chains[..i]) + chains[i]
    ensures Distinct(Flat(chains[..i + 1]))
    ensures forall h :: h in Flat(chains[..i]) || h in chains[i] ==> h in Members(chains)
    ensures forall b, j :: i < b < |chains| && 0 <= j < |chains[b]| ==>
      chains[b][j] !in Flat(chains[..i]) && chains[b][j] !in chains[i]
  {
    assert chains[..i + 1][..i] == chains[..i];
    ApartPrefix(chains, i + 1);
    FlatDistinct(chains[..i + 1]);
    forall h | h in Flat(chains[..i]) ensures h in Members(chains) {
      var b := Source(chains, i, h);
    }
    forall b, j | i < b < |chains| && 0 <= j < |chains[b]|
      ensures chains[b][j] !in Flat(chains[..i]) && chains[b][j] !in chains[i]
    {
      var h := chains[b][j];
      assert h in chains[b];
      if h in Flat(chains[..i]) {
        var c := Source(chains, i, h);
      }
    }
  }

  lemma Source<K>(chains: seq<seq<Handle<K>>>, n: nat, h: Handle<K>) returns (b: nat)
    requires n <= |chains| && h in Flat(chains[..n])
    ensures b < n && h in chains[b] && h in Members(chains)
  {
    FlatHolds(chains[..n], h);
    b :| 0 <= b < n && h in chains[..n][b];
    var j :| 0 <= j < |chains[b]| && chains[b][j] == h;
  }

  lemma ApartPrefix<K>(chains: seq<seq<Handle<K>>>, n: nat)
    requires n <= |chains| && Apart(chains)
    ensures Apart(chains[..n])
  {
    forall b, c, h | 0 <= b < n && 0 <= c < n && h in chains[..n][b] && h in chains[..n][c] ensures b == c {
      assert h in chains[b] && h in chains[c];
    }
  }

  /** Spreading a placed table over any number of buckets places it again. */
  lemma SpreadPlaced<K>(chains: seq<seq<Handle<K>>>, items: map<K, Handle<K>>, hash: K -> nat, m: nat)
    requires Placed(chains, items, hash) && m > 0
    ensures Placed(Spread(Flat(chains), m), items, hash)
  {
    hide Spread, Flat, Total;
    PlacedApart(chains, items, hash);
    FlatDistinct(chains);
    SpreadApart(Flat(chains), m);
    var spread := Spread(Flat(chains), m);
    forall b, i | 0 <= b < m && 0 <= i < |spread[b]| ensures Sits(spread[b][i], b, m, items) {
      var h := spread[b][i];
      SpreadHolds(Flat(chains), m, b, h);
      FlatHolds(chains, h);
      var c :| 0 <= c < |chains| && h in chains[c];
      var j :| 0 <= j < |chains[c]| && chains[c][j] == h;
      assert Sits(chains[c][j], c, |chains|, items);
    }
    forall k | k in items ensures items[k] in spread[items[k].hashv % m] {
      FlatHolds(chains, items[k]);
      SpreadHolds(Flat(chains), m, items[k].hashv % m, items[k]);
    }
  }

  // ----- the figures of a doubling -----

  /** The elements beyond the ideal length of their chain. */
  ghost function Excess<K>(chains: seq<seq<Handle<K>>>, ideal: nat): nat {
    if chains == [] then 0
    else Excess(chains[..|chains| - 1], ideal) + Over(|chains[|chains| - 1]|, ideal)
  }

  function Over(count: nat, ideal: nat): nat {
    if count > ideal then count - ideal else 0
  }

  lemma {:induction false} ExcessUpdate<K>(chains: seq<seq<Handle<K>>>, b: nat, s: seq<Handle<K>>, ideal: nat)
    requires b < |chains|
    ensures Excess(chains[b := s], ideal) == Excess(chains, ideal) - Over(|chains[b]|, ideal) + Over(|s|, ideal)
  {
    var front := chains[..|chains| - 1];
    if b == |chains| - 1 {
      assert chains[b := s][..|chains| - 1] == front;
    } else {
      ExcessUpdate(front, b, s, ideal);
      assert chains[b := s][..|chains| - 1] == front[b := s];
    }
  }

  lemma {:induction false} ExcessNone<K>(m: nat, ideal: nat)
    ensures Excess(NoChains<K>(m), ideal) == 0
  {
    if m > 0 {
      assert NoChains<K>(m)[..m - 1] == NoChains<K>(m - 1);
      ExcessNone<K>(m - 1, ideal);
    }
  }

  /** Each bucket that is too long tells how many times. */
  ghost predicate Weighed<K>(bs: seq<Bucket<K>>, ideal: nat) {
    ideal > 0 && forall b :: 0 <= b < |bs| ==> bs[b].expandMult == Times(bs[b].count, ideal)
  }

  function Times(count: nat, ideal: nat): nat
    requires ideal > 0
  {
    if count > ideal then count / ideal else 0
  }

  /** No element is in excess exactly when no chain is longer than the ideal. */
  lemma {:induction false} NoExcess<K>(chains: seq<seq<Handle<K>>>, ideal: nat)
    ensures Excess(chains, ideal) == 0 <==> forall b :: 0 <= b < |chains| ==> |chains[b]| <= ideal
  {
    if chains != [] {
      var front, last := chains[..|chains| - 1], chains[|chains| - 1];
      NoExcess(front, ideal);
      assert chains == front + [last];
    }
  }

  /** Chains of 3, 0 and 5 elements with an ideal length of 2: one and three of them are in excess, and the longest
      is twice too long. */
  lemma ExcessExample<K>(a: seq<Handle<K>>, c: seq<Handle<K>>)
    requires |a| == 3 && |c| == 5
    ensures Excess([a, [], c], 2) == 4 && Times(3, 2) == 1 && Times(0, 2) == Times(2, 2) == 0 && Times(5, 2) == 2
  {
    var chains := [a, [], c];
    assert chains[..2] == [a, []] && [a, []][..1] == [a] && [a][..0] == [];
    assert Excess([a], 2) == 1 && Excess([a, []], 2) == 1;
  }

  /** `q` is `n / m`, rounded up. */
  predicate RoundsUp(q: nat, n: nat, m: nat) {
    q > 0 && (q - 1) * m < n <= q * m
  }

  /** `ideal_chain_maxlen`: a shift, and one more if any of the bits shifted out is set. */
  method IdealLength(n: nat, log2: nat) returns (ideal: nat)
    requires n > 0
    ensures RoundsUp(ideal, n, Pow2(log2))
  {
    RoundedUp(n, Pow2(log2));
    ideal := n / Pow2(log2) + if n % Pow2(log2) != 0 then 1 else 0;
  }

  lemma RoundedUp(n: nat, m: nat)
    requires n > 0 && m > 0
    ensures RoundsUp(n / m + if n % m != 0 then 1 else 0, n, m)
  {
  }

  /** One round of the inner loop of `HASH_EXPAND_BUCKETS`; `over` tells whether the handle is beyond the
      ideal length. */
  method MoveHandle<K>(buckets: array<Bucket<K>>, h: Handle<K>, m: nat, ideal: nat, ghost moved: seq<Handle<K>>)
      returns (over: nat)
    requires buckets.Length == m > 0 && Distinct(moved) && h !in moved
    requires Shows(buckets[..], Spread(moved, m)) && Weighed(buckets[..], ideal)
    modifies buckets, h, moved
    ensures Shows(buckets[..], Spread(moved + [h], m)) && Weighed(buckets[..], ideal)
    ensures Excess(Spread(moved + [h], m), ideal) == Excess(Spread(moved, m), ideal) + over
  {
    hide Spread, Shows, Excess;
    ghost var chains := Spread(moved, m);
    var bkt := h.hashv % m;
    SpreadApart(moved, m);
    SpreadMore(moved, h, m);
    NotSpread(moved, m, h);
    ExcessUpdate(chains, bkt, [h] + chains[bkt], ideal);
    CountIs(buckets[..], chains, bkt);
    HeadIn(buckets[..], moved, m, bkt);
    Push(buckets, bkt, h, chains);
    over := 0;
    if buckets[bkt].count > ideal {
      over := 1;
      SetMult(buckets, bkt, buckets[bkt].count / ideal, Spread(moved + [h], m));
    }
  }

  /** The `hh_next` links alone. */
  ghost predicate Leads<K>(head: Handle?<K>, s: seq<Handle<K>>)
    reads s
  {
    head == At(s, 0) && forall i {:trigger s[i]} :: 0 <= i < |s| ==> s[i].hhNext == At(s, i + 1)
  }

  /** The inner loop: moves all handles of one old chain. */
  method MoveChain<K>(buckets: array<Bucket<K>>, head: Handle?<K>, m: nat, ideal: nat, ghost moved: seq<Handle<K>>,
                      ghost s: seq<Handle<K>>)
      returns (over: nat)
    requires buckets.Length == m > 0 && Distinct(moved + s) && Leads(head, s)
    requires Shows(buckets[..], Spread(moved, m)) && Weighed(buckets[..], ideal)
    modifies buckets, s, moved
    ensures Shows(buckets[..], Spread(moved + s, m)) && Weighed(buckets[..], ideal)
    ensures Excess(Spread(moved + s, m), ideal) == Excess(Spread(moved, m), ideal) + over
  {
    hide Spread, Shows, Excess, Weighed, Distinct;
    var thh := head;
    over := 0;
    ghost var j := 0;
    assert moved + s[..0] == moved;
    while thh != null
      invariant 0 <= j <= |s| && thh == At(s, j)
      invariant Shows(buckets[..], Spread(moved + s[..j], m)) && Weighed(buckets[..], ideal)
      invariant Excess(Spread(moved + s[..j], m), ideal) == Excess(Spread(moved, m), ideal) + over
      invariant forall i {:trigger s[i]} :: j <= i < |s| ==> s[i].hhNext == At(s, i + 1)
      decreases |s| - j
    {
      NextApart(moved, s, j);
      var next := thh.hhNext;
      var more := MoveHandle(buckets, thh, m, ideal, moved + s[..j]);
      over := over + more;
      thh := next;
      j := j + 1;
    }
    assert s[..j] == s;
  }

  lemma NextApart<K>(moved: seq<Handle<K>>, s: seq<Handle<K>>, j: nat)
    requires Distinct(moved + s) && j < |s|
    ensures Distinct(moved + s[..j]) && s[j] !in moved + s[..j]
    ensures moved + s[..j] + [s[j]] == moved + s[..j + 1]
    ensures forall i :: j < i < |s| ==> s[i] !in moved + s[..j] && s[i] != s[j]
  {
    var t := moved + s;
    assert forall i :: 0 <= i < |s| ==> t[|moved| + i] == s[i];
    assert forall i :: 0 <= i < |moved| + j ==> (moved + s[..j])[i] == t[i];
  }

  lemma NotSpread<K>(moved: seq<Handle<K>>, m: nat, h: Handle<K>)
    requires m > 0 && h !in moved
    ensures h !in Members(Spread(moved, m))
  {
    hide Spread;
    if h in Members(Spread(moved, m)) {
      var b, i :| 0 <= b < m && 0 <= i < |Spread(moved, m)[b]| && Spread(moved, m)[b][i] == h;
      SpreadHolds(moved, m, b, h);
    }
  }

  lemma CountIs<K>(bs: seq<Bucket<K>>, chains: seq<seq<Handle<K>>>, b: nat)
    requires Shows(bs, chains) && b < |chains|
    ensures |bs| == |chains| && bs[b].count == |chains[b]| && bs[b].head == At(chains[b], 0)
  {
  }

  lemma HeadIn<K>(bs: seq<Bucket<K>>, moved: seq<Handle<K>>, m: nat, b: nat)
    requires m > 0 && Shows(bs, Spread(moved, m)) && b < m
    ensures |bs| == m && (bs[b].head != null ==> bs[b].head in moved)
  {
    hide Spread;
    CountIs(bs, Spread(moved, m), b);
    if bs[b].head != null {
      assert bs[b].head in Spread(moved, m)[b];
      SpreadHolds(moved, m, b, bs[b].head);
    }
  }

  method SetMult<K>(buckets: array<Bucket<K>>, bkt: nat, mult: nat, ghost chains: seq<seq<Handle<K>>>)
    requires bkt < buckets.Length && Shows(buckets[..], chains)
    modifies buckets
    ensures Shows(buckets[..], chains)
    ensures buckets[..] == old(buckets[..])[bkt := old(buckets[bkt]).(expandMult := mult)]
  {
    hide Chained;
    buckets[bkt] := buckets[bkt].(expandMult := mult);
  }

  // ----- the table -----

  class Table<K(==)> {
    const hash: K -> nat
    var buckets: array<Bucket<K>>
    var numBuckets: nat
    var log2NumBuckets: nat
    var numItems: nat
    var idealChainMaxlen: nat
    var nonidealItems: nat
    var ineffExpands: nat
    var noexpand: bool
    ghost var chains: seq<seq<Handle<K>>>
    ghost var items: map<K, Handle<K>>

    ghost predicate Valid()
      reads this, buckets, Members(chains)
    {
      && numBuckets == Pow2(log2NumBuckets) == |chains| && Shows(buckets[..], chains)
      && Placed(chains, items, hash)
      && numItems == Total(chains) == |items|
    }

    /** `HASH_MAKE_TABLE` */
    constructor (hash: K -> nat)
      ensures Valid() && items == map[] && this.hash == hash && fresh(buckets) && Members(chains) == {}
      ensures numBuckets == 32 && !noexpand && ineffExpands == 0 && idealChainMaxlen == 0 && nonidealItems == 0
      ensures forall b :: 0 <= b < buckets.Length ==> buckets[b].expandMult == 0
    {
      this.hash := hash;
      buckets := new Bucket<K>[HASH_INITIAL_NUM_BUCKETS](_ => Bucket(null, 0, 0));
      numBuckets, log2NumBuckets := HASH_INITIAL_NUM_BUCKETS, HASH_INITIAL_NUM_BUCKETS_LOG2;
      numItems, idealChainMaxlen, nonidealItems, ineffExpands, noexpand := 0, 0, 0, 0, false;
      chains, items := NoChains(HASH_INITIAL_NUM_BUCKETS), map[];
      new;
      TotalNone<K>(HASH_INITIAL_NUM_BUCKETS);
      assert Pow2(5) == 2 * Pow2(4) && Pow2(4) == 2 * Pow2(3) && Pow2(3) == 8;
    }

    /** `HASH_EXPAND_BUCKETS`: twice as many buckets hold the same elements. The ideal chain length is the number
        of elements divided by the number of buckets, rounded up, and the elements beyond it are counted. */
    method ExpandBuckets()
      requires Valid() && numItems > 0
      modifies this, Members(chains)
      ensures Valid() && items == old(items) && numItems == old(numItems) && fresh(buckets)
      ensures numBuckets == 2 * old(numBuckets) && log2NumBuckets == old(log2NumBuckets) + 1
      ensures RoundsUp(idealChainMaxlen, numItems, numBuckets)
      ensures nonidealItems == Excess(chains, idealChainMaxlen) && Weighed(buckets[..], idealChainMaxlen)
      ensures ineffExpands == if nonidealItems > numItems / 2 then old(ineffExpands) + 1 else 0
      ensures noexpand == (old(noexpand) || ineffExpands > 1)
      ensures Members(chains) <= old(Members(chains))
    {
      hide Placed, Apart, Spread, Excess, RoundsUp, Weighed, Flat, Total, Shows, Pow2;
      Pow2Next(log2NumBuckets);
      ghost var spread := Spread(Flat(chains), 2 * numBuckets);
      PlacedApart(chains, items, hash);
      SpreadKeeps(chains, items, hash, 2 * numBuckets);
      SpreadMembers(chains, 2 * numBuckets);
      var ideal := IdealLength(numItems, log2NumBuckets + 1);
      var newBuckets, nonideal := MoveAll(buckets, 2 * numBuckets, ideal, chains);
      Install(newBuckets, ideal, nonideal, spread);
    }

    /** `HASH_FIND` in an existing table: `hashv & (num_buckets - 1)` picks the bucket, as the number of buckets
        is a power of two. */
    method Find(key: K) returns (out: Handle?<K>)
      requires Valid()
      ensures out == if key in items then items[key] else null
    {
      var bkt := hash(key) % numBuckets;
      out := FindInBucket(buckets[bkt].head, key, chains[bkt]);
      KeyInBucket(chains, items, hash, key);
    }

    /** The bucket half of `HASH_ADD_KEYPTR`, with `HASH_ADD_TO_BKT`. */
    method Add(h: Handle<K>)
      requires Valid() && h.key !in items && h.hashv == hash(h.key)
      modifies this, buckets, h, Members(chains)
      ensures Valid() && items == old(items)[h.key := h] && numItems == old(numItems) + 1
      // the buckets double exactly when the bucket of the new element now holds as many as it takes, and doubling
      // has not been given up; otherwise no figure of the table changes
      ensures h.hashv % old(numBuckets) < |old(chains)|
      ensures var bkt := h.hashv % old(numBuckets);
        var full := 1 + |old(chains[bkt])| >= 10 * (1 + old(buckets[bkt].expandMult));
        if full && !old(noexpand) then
          && numBuckets == 2 * old(numBuckets) && log2NumBuckets == old(log2NumBuckets) + 1 && fresh(buckets)
          && RoundsUp(idealChainMaxlen, numItems, numBuckets)
          && nonidealItems == Excess(chains, idealChainMaxlen) && Weighed(buckets[..], idealChainMaxlen)
          && ineffExpands == (if nonidealItems > numItems / 2 then old(ineffExpands) + 1 else 0)
          && noexpand == (ineffExpands > 1)
        else
          && numBuckets == old(numBuckets) && buckets == old(buckets)
          && unchanged(`log2NumBuckets, `idealChainMaxlen, `nonidealItems, `ineffExpands, `noexpand)
          && chains == old(chains)[bkt := [h] + old(chains[bkt])]
      ensures Members(chains) <= old(Members(chains)) + {h}
    {
      hide Placed, Shows, Total, Pow2, Members;
      var bkt := h.hashv % numBuckets;
      Insert(h, bkt);
      if buckets[bkt].count >= (buckets[bkt].expandMult + 1) * HASH_BKT_CAPACITY_THRESH && !noexpand {
        ExpandBuckets();
      }
    }

    method Insert(h: Handle<K>, bkt: nat)
      requires Valid() && h.key !in items && h.hashv == hash(h.key) && bkt == h.hashv % numBuckets
      modifies this, buckets, h, Members(chains)
      ensures Valid() && items == old(items)[h.key := h] && numItems == old(numItems) + 1
      ensures numBuckets == old(numBuckets) && log2NumBuckets == old(log2NumBuckets) && buckets == old(buckets)
      ensures unchanged(`idealChainMaxlen, `nonidealItems, `ineffExpands, `noexpand)
      ensures bkt < |old(chains)| && chains == old(chains)[bkt := [h] + old(chains[bkt])]
      ensures bkt < buckets.Length && buckets[bkt].expandMult == old(buckets[bkt].expandMult)
      ensures buckets[bkt].count == 1 + |old(chains[bkt])|
      ensures Members(chains) == old(Members(chains)) + {h}
    {
      hide Placed, Apart, Distinct, Shows, Total, Pow2, Members;
      PlacedApart(chains, items, hash);
      AddPlaced(chains, items, hash, h);
      NewToChains(chains, items, hash, h);
      TotalUpdate(chains, bkt, [h] + chains[bkt]);
      CountIs(buckets[..], chains, bkt);
      HeadIsMember(chains, bkt);
      AddMember(chains, bkt, h);
      Push(buckets, bkt, h, chains);
      numItems := numItems + 1;
      chains := chains[bkt := [h] + chains[bkt]];
      items := items[h.key := h];
    }

    /** The bucket half of `HASH_DELETE`. */
    method Del(h: Handle<K>)
      requires Valid() && h.key in items && items[h.key] == h
      modifies this, buckets, Members(chains)
      ensures Valid() && items == old(items) - {h.key} && numItems == old(numItems) - 1
      ensures numBuckets == old(numBuckets) && buckets == old(buckets)
      ensures Members(chains) <= old(Members(chains))
    {
      hide Placed, Apart, Distinct, Shows, Total, Pow2, Members;
      var bkt := h.hashv % numBuckets;
      ghost var i := PlaceOf(chains, items, hash, h);
      PlacedApart(chains, items, hash);
      DelPlaced(chains, items, hash, h, i);
      TotalUpdate(chains, bkt, chains[bkt][..i] + chains[bkt][i + 1..]);
      ShowsLinks(buckets[..], chains, bkt, i);
      if i > 0 { ChainMembers(chains, bkt, i - 1); }
      ChainMembers(chains, bkt, i + 1);
      DropMember(chains, bkt, i);
      DelInBucket(buckets, bkt, h, chains, i);
      numItems := numItems - 1;
      chains := chains[bkt := chains[bkt][..i] + chains[bkt][i + 1..]];
      items := items - {h.key};
    }

    /** The new figures of a doubling. */
    method Install(newBuckets: array<Bucket<K>>, ideal: nat, nonideal: nat, ghost newChains: seq<seq<Handle<K>>>)
      requires 2 * numBuckets == Pow2(log2NumBuckets + 1) == |newChains| && Shows(newBuckets[..], newChains)
      requires Placed(newChains, items, hash) && numItems == Total(newChains) == |items|
      modifies this
      ensures Valid() && buckets == newBuckets && chains == newChains && items == old(items)
          && numItems == old(numItems)
      ensures numBuckets == 2 * old(numBuckets) && log2NumBuckets == old(log2NumBuckets) + 1
      ensures idealChainMaxlen == ideal && nonidealItems == nonideal
      ensures ineffExpands == if nonideal > numItems / 2 then old(ineffExpands) + 1 else 0
      ensures noexpand == (old(noexpand) || ineffExpands > 1)
    {
      hide Placed, Total, Chained, Pow2, Members;
      idealChainMaxlen, nonidealItems := ideal, nonideal;
      numBuckets := numBuckets * 2;
      log2NumBuckets := log2NumBuckets + 1;
      buckets := newBuckets;
      chains := newChains;
      ineffExpands := if nonidealItems > numItems / 2 then ineffExpands + 1 else 0;
      if ineffExpands > 1 {
        noexpand := true;
      }
    }
  }

  /** A key that is in the map is in the chain of its bucket. */
  lemma KeyInBucket<K>(chains: seq<seq<Handle<K>>>, items: map<K, Handle<K>>, hash: K -> nat, key: K)
    requires Placed(chains, items, hash)
    ensures key in items ==> items[key] in chains[hash(key) % |chains|]
    ensures forall h :: h in chains[hash(key) % |chains|] && h.key == key ==> key in items && items[key] == h
  {
    var b := hash(key) % |chains|;
    forall h | h in chains[b] && h.key == key ensures key in items && items[key] == h {
      var i :| 0 <= i < |chains[b]| && chains[b][i] == h;
      assert Sits(chains[b][i], b, |chains|, items);
    }
  }

  lemma NewToChains<K>(chains: seq<seq<Handle<K>>>, items: map<K, Handle<K>>, hash: K -> nat, h: Handle<K>)
    requires Placed(chains, items, hash) && h.key !in items
    ensures h !in Members(chains)
  {
  }

  lemma PlaceOf<K>(chains: seq<seq<Handle<K>>>, items: map<K, Handle<K>>, hash: K -> nat, h: Handle<K>) returns (i: nat)
    requires Placed(chains, items, hash) && h.key in items && items[h.key] == h
    ensures i < |chains[h.hashv % |chains|]| && chains[h.hashv % |chains|][i] == h
  {
    var s := chains[h.hashv % |chains|];
    assert h in s;
    i :| 0 <= i < |s| && s[i] == h;
  }

  lemma ChainMembers<K>(chains: seq<seq<Handle<K>>>, b: nat, i: int)
    requires b < |chains|
    ensures At(chains[b], i) != null ==> At(chains[b], i) in Members(chains)
  {
  }

  lemma ShowsLinks<K>(bs: seq<Bucket<K>>, chains: seq<seq<Handle<K>>>, b: nat, i: nat)
    requires Shows(bs, chains) && b < |chains| && i < |chains[b]|
    ensures |bs| == |chains| && chains[b][i].hhPrev == At(chains[b], i - 1)
        && chains[b][i].hhNext == At(chains[b], i + 1)
  {
  }

  lemma DropMember<K>(chains: seq<seq<Handle<K>>>, b: nat, i: nat)
    requires b < |chains| && i < |chains[b]|
    ensures Members(chains[b := chains[b][..i] + chains[b][i + 1..]]) <= Members(chains)
  {
    var s := chains[b][..i] + chains[b][i + 1..];
    forall x | x in Members(chains[b := s]) ensures x in Members(chains) {
      var c, j :| 0 <= c < |chains| && 0 <= j < |chains[b := s][c]| && chains[b := s][c][j] == x;
      if c == b {
        assert chains[b][if j < i then j else j + 1] == x;
      } else {
        assert chains[c][j] == x;
      }
    }
  }

  lemma HeadIsMember<K>(chains: seq<seq<Handle<K>>>, b: nat)
    requires b < |chains|
    ensures At(chains[b], 0) != null ==> At(chains[b], 0) in Members(chains)
  {
  }

  lemma AddMember<K>(chains: seq<seq<Handle<K>>>, b: nat, h: Handle<K>)
    requires b < |chains|
    ensures Members(chains[b := [h] + chains[b]]) == Members(chains) + {h}
  {
    var chains' := chains[b := [h] + chains[b]];
    forall x ensures x in Members(chains') <==> x in Members(chains) || x == h {
      if x in Members(chains') {
        var c, i :| 0 <= c < |chains'| && 0 <= i < |chains'[c]| && chains'[c][i] == x;
        if c == b && i > 0 { assert chains[c][i - 1] == x; }
        if c != b { assert chains[c][i] == x; }
      }
      if x in Members(chains) {
        var c, i :| 0 <= c < |chains| && 0 <= i < |chains[c]| && chains[c][i] == x;
        assert chains'[c][if c == b then i + 1 else i] == x;
      }
      assert chains'[b][0] == h;
    }
  }

  /** The outer loop of a doubling. */
  method MoveAll<K>(buckets: array<Bucket<K>>, m: nat, ideal: nat, ghost chains: seq<seq<Handle<K>>>)
      returns (newBuckets: array<Bucket<K>>, nonideal: nat)
    requires m > 0 && ideal > 0 && Apart(chains) && Shows(buckets[..], chains)
    modifies Members(chains)
    ensures fresh(newBuckets) && Shows(newBuckets[..], Spread(Flat(chains), m)) && Weighed(newBuckets[..], ideal)
    ensures nonideal == Excess(Spread(Flat(chains), m), ideal)
  {
    hide Spread, Excess, Weighed, Distinct, Flat, Apart, Leads, Shows;
    newBuckets := NewBuckets(m, ideal);
    FlatNone(chains);
    AllLead(buckets[..], chains);
    nonideal := 0;
    var i := 0;
    while i < buckets.Length
      invariant 0 <= i <= buckets.Length == |chains| && fresh(newBuckets) && newBuckets.Length == m
      invariant Shows(newBuckets[..], Spread(Flat(chains[..i]), m))
      invariant Weighed(newBuckets[..], ideal)
      invariant nonideal == Excess(Spread(Flat(chains[..i]), m), ideal)
      invariant forall b :: i <= b < |chains| ==> Leads(buckets[b].head, chains[b])
    {
      FlatMore(chains, i);
      var over := MoveChain(newBuckets, buckets[i].head, m, ideal, Flat(chains[..i]), chains[i]);
      nonideal := nonideal + over;
      i := i + 1;
    }
    assert chains[..i] == chains;
  }

  lemma FlatNone<K>(chains: seq<seq<Handle<K>>>)
    ensures Flat(chains[..0]) == []
  {
  }

  lemma AllLead<K>(bs: seq<Bucket<K>>, chains: seq<seq<Handle<K>>>)
    requires Shows(bs, chains)
    ensures |bs| == |chains| && forall b :: 0 <= b < |chains| ==> Leads(bs[b].head, chains[b])
  {
  }

  method NewBuckets<K>(m: nat, ideal: nat) returns (newBuckets: array<Bucket<K>>)
    requires m > 0 && ideal > 0
    ensures fresh(newBuckets) && newBuckets.Length == m
    ensures Shows(newBuckets[..], Spread<K>([], m)) && Weighed(newBuckets[..], ideal)
    ensures Excess(Spread<K>([], m), ideal) == 0
  {
    newBuckets := new Bucket<K>[m](_ => Bucket(null, 0, 0));
    ExcessNone<K>(m, ideal);
  }

  lemma SpreadMembers<K>(chains: seq<seq<Handle<K>>>, m: nat)
    requires m > 0
    ensures Members(Spread(Flat(chains), m)) <= Members(chains)
  {
    hide Spread, Flat;
    forall h | h in Members(Spread(Flat(chains), m)) ensures h in Members(chains) {
      var b, i :| 0 <= b < m && 0 <= i < |Spread(Flat(chains), m)[b]| && Spread(Flat(chains), m)[b][i] == h;
      SpreadHolds(Flat(chains), m, b, h);
      FlatHolds(chains, h);
      var c :| 0 <= c < |chains| && h in chains[c];
      var j :| 0 <= j < |chains[c]| && chains[c][j] == h;
    }
  }

  lemma SpreadKeeps<K>(chains: seq<seq<Handle<K>>>, items: map<K, Handle<K>>, hash: K -> nat, m: nat)
    requires Placed(chains, items, hash) && m > 0
    ensures var spread := Spread(Flat(chains), m);
      |spread| == m && Placed(spread, items, hash) && Total(spread) == Total(chains)
  {
    SpreadPlaced(chains, items, hash, m);
    PlacedApart(chains, items, hash);
    FlatDistinct(chains);
    SpreadTotal(Flat(chains), m);
  }
}
