/** The application-order list of a uthash table, and `HASH_SRT`, which sorts it in place. */
module HashSort {
  import opened MergeSort
  import opened Sequences

  /** The list half of a hash handle. */
  class Element<T> {
    const item: T
    var prev: Element?<T>
    var next: Element?<T>

    constructor (item: T)
      ensures this.item == item && prev == null && next == null
    {
      this.item := item;
      prev, next := null, null;
    }
  }

  ghost predicate Apart<E>(s: seq<E>, t: seq<E>) {
    forall i, j :: 0 <= i < |s| && 0 <= j < |t| ==> s[i] != t[j]
  }

  /** The `next` fields inside `s` lead from each element to the one behind it. */
  ghost predicate NextLinks<T>(s: seq<Element<T>>)
    reads s
  {
    forall i {:trigger s[i].next} :: 0 <= i < |s| - 1 ==> s[i].next == s[i + 1]
  }

  ghost predicate PrevLinks<T>(s: seq<Element<T>>)
    reads s
  {
    forall i {:trigger s[i].prev} :: 0 <= i < |s| ==> s[i].prev == if i == 0 then null else s[i - 1]
  }

  /** `first` leads through exactly `s` and then to null. */
  ghost predicate Chain<T>(first: Element?<T>, s: seq<Element<T>>)
    reads s
  {
    && NextLinks(s)
    && if s == [] then first == null else first == s[0] && s[|s| - 1].next == null
  }

  /** A doubly linked list with its last element. */
  ghost predicate Linked<T>(head: Element?<T>, tail: Element?<T>, s: seq<Element<T>>)
    reads s
  {
    Distinct(s) && Chain(head, s) && PrevLinks(s) && tail == (if s == [] then null else s[|s| - 1])
  }

  /** The list that grows during a pass: the last element's `next` is still arbitrary. */
  ghost predicate Growing<T>(list: Element?<T>, tail: Element?<T>, s: seq<Element<T>>)
    reads s
  {
    && Distinct(s) && NextLinks(s) && PrevLinks(s)
    && list == (if s == [] then null else s[0]) && tail == (if s == [] then null else s[|s| - 1])
  }

  /** Appends `e` behind `tail`; the fields of no other element change. */
  method Append<T>(list: Element?<T>, tail: Element?<T>, e: Element<T>, ghost out: seq<Element<T>>)
      returns (list': Element?<T>, tail': Element<T>)
    requires Growing(list, tail, out) && e !in out
    modifies if tail == null then {} else {tail}`next, e`prev
    ensures Growing(list', tail', out + [e])
    ensures e.next == old(e.next)
  {
    list' := list;
    if tail != null {
      tail.next := e;
    } else {
      list' := e;
    }
    e.prev := tail;
    tail' := e;
  }

  /** Steps over a run of at most `insize` elements from `p`. */
  method StepOver<T>(p: Element<T>, insize: nat, ghost rest: seq<Element<T>>) returns (q: Element?<T>, psize: nat)
    requires rest != [] && Chain(p, rest) && insize > 0
    ensures psize == Min(insize, |rest|) && Chain(q, rest[psize..])
  {
    q := p;
    psize := 0;
    var i := 0;
    while i < insize
      invariant i == psize <= Min(insize, |rest|)
      invariant psize < |rest| && q == rest[psize]
    {
      psize := psize + 1;
      q := q.next;
      if q == null {
        break;
      }
      i := i + 1;
    }
    ChainSuffix(p, rest, psize, q);
  }

  lemma ChainSuffix<T>(p: Element<T>, s: seq<Element<T>>, k: nat, q: Element?<T>)
    requires Chain(p, s) && 0 < k <= |s| && q == s[k - 1].next
    ensures Chain(q, s[k..])
  {
    forall i | 0 <= i < |s[k..]| - 1 ensures s[k..][i].next == s[k..][i + 1] {
      assert s[k + i].next == s[k + i + 1];
    }
  }

  /** What the inner merge loop keeps: `done` is linked, `p` leads through `P`, `q` leads through `R`. */
  ghost predicate Merging<T>(list: Element?<T>, tail: Element?<T>, done: seq<Element<T>>, p: Element?<T>,
                             P: seq<Element<T>>, q: Element?<T>, R: seq<Element<T>>)
    reads done, P, R
  {
    && Growing(list, tail, done)
    && NextLinks(P) && (P != [] ==> p == P[0])
    && Chain(q, R)
    && Distinct(P) && Distinct(R) && Apart(P, R) && Apart(done, P) && Apart(done, R)
  }

  /** Moves the first element of `P` behind the done ones. */
  method TakeP<T>(list: Element?<T>, tail: Element?<T>, p: Element<T>, q: Element?<T>,
                  ghost done: seq<Element<T>>, ghost P: seq<Element<T>>, ghost R: seq<Element<T>>)
      returns (list': Element?<T>, tail': Element<T>, p': Element?<T>)
    requires P != [] && Merging(list, tail, done, p, P, q, R)
    modifies done, P[0]
    ensures Merging(list', tail', done + [P[0]], p', P[1..], q, R)
  {
    ghost var e := P[0];
    assert |P| > 1 ==> P[0].next == P[1];
    p' := p.next;
    list', tail' := Append(list, tail, p, done);
    NextLinksTail(P);
  }

  lemma NextLinksTail<T>(s: seq<Element<T>>)
    requires s != [] && forall i {:trigger s[i].next} :: 1 <= i < |s| - 1 ==> s[i].next == s[i + 1]
    ensures NextLinks(s[1..])
  {
    forall i | 0 <= i < |s[1..]| - 1 ensures s[1..][i].next == s[1..][i + 1] {
      assert s[i + 1].next == s[i + 2];
    }
  }

  /** Moves the first element of `R` behind the done ones. */
  method TakeQ<T>(list: Element?<T>, tail: Element?<T>, p: Element?<T>, q: Element<T>,
                  ghost done: seq<Element<T>>, ghost P: seq<Element<T>>, ghost R: seq<Element<T>>)
      returns (list': Element?<T>, tail': Element<T>, q': Element?<T>)
    requires R != [] && Merging(list, tail, done, p, P, q, R)
    modifies done, R[0]
    ensures Merging(list', tail', done + [R[0]], p, P, q', R[1..])
  {
    assert |R| > 1 ==> R[0].next == R[1];
    q' := q.next;
    list', tail' := Append(list, tail, q, done);
    NextLinksTail(R);
  }

  /** Merges the run `P` with the first `insize` elements of `R` behind `out`; `q'` is where the pass goes on. */
  method MergeRuns<T>(cmp: (Element<T>, Element<T>) -> int, list: Element?<T>, tail: Element?<T>,
                      p0: Element<T>, psize0: nat, q0: Element?<T>, insize: nat, ghost out: seq<Element<T>>,
                      ghost P0: seq<Element<T>>, ghost R0: seq<Element<T>>, ghost dom: set<Element<T>>)
      returns (list': Element?<T>, tail': Element?<T>, q': Element?<T>)
    requires |P0| == psize0 && Merging(list, tail, out, p0, P0, q0, R0)
    requires Over(out, dom) && Over(P0, dom) && Over(R0, dom)
    modifies dom
    ensures var n := Min(insize, |R0|); var m := Merge(cmp, P0, R0[..n]);
      && Growing(list', tail', out + m) && Chain(q', R0[n..]) && Over(out + m, dom)
      && Distinct(R0[n..]) && Apart(out + m, R0[n..]) && Over(R0[n..], dom)
  {
    hide Merge, Merging, Growing, Chain, Distinct, Apart, NextLinks;
    list', tail', q' := list, tail, q0;
    var p: Element?<T> := p0;
    var psize, qsize := psize0, insize;
    ghost var done, P, R, n := out, P0, R0, Min(insize, |R0|);
    ghost var whole, stop := out + Merge(cmp, P0, R0[..n]), R0[n..];
    while psize > 0 || (qsize > 0 && q' != null)
      invariant psize == |P| && n == Min(qsize, |R|)
      invariant Merging(list', tail', done, p, P, q', R)
      invariant Over(done, dom) && Over(P, dom) && Over(R, dom)
      invariant done + Merge(cmp, P, R[..n]) == whole && R[n..] == stop
      decreases |P| + n
    {
      MergeTake(cmp, P, R[..n]);
      PAndQ(list', tail', done, p, P, q', R);
      if psize == 0 || (qsize > 0 && q' != null && cmp(p, q') > 0) {
        list', tail', q' := TakeQ(list', tail', p, q', done, P, R);
        TailOf(R, n);
        Snoc(done, R[0], Merge(cmp, P, R[1..][..n - 1]));
        done, R, n := done + [R[0]], R[1..], n - 1;
        qsize := qsize - 1;
      } else {
        list', tail', p := TakeP(list', tail', p, q', done, P, R);
        Snoc(done, P[0], Merge(cmp, P[1..], R[..n]));
        done, P := done + [P[0]], P[1..];
        psize := psize - 1;
      }
    }
    PAndQ(list', tail', done, p, P, q', R);
    MergeNothing(cmp, P, R[..n]);
    assert done + [] == done && R[n..] == R;
    MergingEnd(list', tail', done, p, P, q', R);
  }

  lemma TailOf<E>(r: seq<E>, n: nat)
    requires 0 < n <= |r|
    ensures r[..n][1..] == r[1..][..n - 1] && r[1..][n - 1..] == r[n..] && r[..n][0] == r[0]
  {}

  lemma MergingEnd<T>(list: Element?<T>, tail: Element?<T>, done: seq<Element<T>>, p: Element?<T>, P: seq<Element<T>>,
                      q: Element?<T>, R: seq<Element<T>>)
    requires Merging(list, tail, done, p, P, q, R)
    ensures Growing(list, tail, done) && Chain(q, R) && Distinct(R) && Apart(done, R)
  {}

  lemma PAndQ<T>(list: Element?<T>, tail: Element?<T>, done: seq<Element<T>>, p: Element?<T>, P: seq<Element<T>>,
                 q: Element?<T>, R: seq<Element<T>>)
    requires Merging(list, tail, done, p, P, q, R)
    ensures P != [] ==> p == P[0]
    ensures q == (if R == [] then null else R[0])
  {}

  lemma Snoc<E>(done: seq<E>, e: E, rest: seq<E>)
    ensures (done + [e]) + rest == done + ([e] + rest)
  {}

  /** One pass of `HASH_SRT` over the list `cur`; the list is doubly linked and ends properly afterwards. */
  method RunPass<T>(cmp: (Element<T>, Element<T>) -> int, first: Element<T>, insize: nat,
                    ghost cur: seq<Element<T>>, ghost dom: set<Element<T>>)
      returns (list: Element?<T>, tail: Element?<T>, nmerges: nat)
    requires cur != [] && Chain(first, cur) && Distinct(cur) && Over(cur, dom) && insize > 0
    modifies dom
    ensures Linked(list, tail, Pass(cmp, insize, cur)) && Over(Pass(cmp, insize, cur), dom)
    ensures nmerges <= 1 <==> |cur| <= 2 * insize
  {
    hide Pass, Merge, Merging, Growing, Chain, Over, Linked, Distinct, Apart;
    list, tail, nmerges := null, null, 0;
    var p: Element?<T> := first;
    PassStart(cmp, insize, cur, dom, list, tail);
    ghost var out, rest: seq<Element<T>> := [], cur;
    while p != null
      invariant Growing(list, tail, out) && Chain(p, rest) && Distinct(rest) && Apart(out, rest)
      invariant Over(out, dom) && Over(rest, dom)
      invariant out + Pass(cmp, insize, rest) == Pass(cmp, insize, cur)
      invariant nmerges == 0 ==> rest == cur
      invariant nmerges == 1 ==> |rest| == |cur| - Min(2 * insize, |cur|)
      invariant nmerges > 1 ==> |cur| > 2 * insize
      decreases |rest|
    {
      RestNotEmpty(p, rest);
      nmerges := nmerges + 1;
      var q, psize := StepOver(p, insize, rest);
      StartMerge(list, tail, out, p, rest, psize, q, dom);
      PassStep(cmp, insize, rest, psize, out);
      list, tail, p := MergeRuns(cmp, list, tail, p, psize, q, insize, out, rest[..psize], rest[psize..], dom);
      ghost var b := Min(2 * insize, |rest|);
      out := out + Merge(cmp, rest[..psize], rest[psize..b]);
      rest := rest[b..];
    }
    PassEnd(cmp, insize, out, rest, p);
    EndList(list, tail, out, dom);
    PassLength(cmp, insize, cur);
  }

  lemma PassStart<T>(cmp: (Element<T>, Element<T>) -> int, w: nat, cur: seq<Element<T>>, dom: set<Element<T>>,
                     list: Element?<T>, tail: Element?<T>)
    requires w > 0 && list == tail == null
    ensures Growing(list, tail, []) && Apart([], cur) && Over([], dom)
    ensures [] + Pass(cmp, w, cur) == Pass(cmp, w, cur)
  {}

  lemma PassEnd<T>(cmp: (Element<T>, Element<T>) -> int, w: nat, out: seq<Element<T>>, rest: seq<Element<T>>,
                   p: Element?<T>)
    requires w > 0 && Chain(p, rest) && p == null
    ensures rest == [] && out + Pass(cmp, w, rest) == out
  {}

  /** Terminates the list that a pass has built. */
  method EndList<T>(list: Element?<T>, tail: Element?<T>, ghost out: seq<Element<T>>, ghost dom: set<Element<T>>)
    requires Growing(list, tail, out) && Over(out, dom)
    modifies dom
    ensures Linked(list, tail, out)
  {
    if tail != null {
      tail.next := null;
    }
  }

  lemma RestNotEmpty<T>(p: Element<T>, rest: seq<Element<T>>)
    requires Chain(p, rest)
    ensures rest != []
  {}

  lemma StartMerge<T>(list: Element?<T>, tail: Element?<T>, out: seq<Element<T>>, p: Element<T>, rest: seq<Element<T>>,
                      psize: nat, q: Element?<T>, dom: set<Element<T>>)
    requires Growing(list, tail, out) && Chain(p, rest) && Distinct(rest) && Apart(out, rest) && Over(rest, dom)
    requires 0 < psize <= |rest| && Chain(q, rest[psize..])
    ensures Merging(list, tail, out, p, rest[..psize], q, rest[psize..])
    ensures Over(rest[..psize], dom) && Over(rest[psize..], dom)
  {
    assert forall i {:trigger rest[..psize][i].next} :: 0 <= i < psize - 1 ==> rest[i].next == rest[i + 1];
  }

  lemma PassStep<E>(cmp: (E, E) -> int, w: nat, s: seq<E>, a: nat, out: seq<E>)
    requires w > 0 && s != [] && a == Min(w, |s|)
    ensures var b := Min(2 * w, |s|); var n := Min(w, |s| - a);
      && s[a..][..n] == s[a..b] && s[a..][n..] == s[b..]
      && (out + Merge(cmp, s[..a], s[a..b])) + Pass(cmp, w, s[b..]) == out + Pass(cmp, w, s)
  {
    hide Merge, Pass;
    PassCons(cmp, w, s);
    var b, n := Min(2 * w, |s|), Min(w, |s| - a);
    assert s[a..][..n] == s[a..b] && s[a..][n..] == s[b..];
  }

  /** The head and tail of a table's application-order list. */
  class AppOrder<T> {
    var head: Element?<T>
    var tail: Element?<T>
    ghost var order: seq<Element<T>>

    ghost predicate Valid()
      reads this, order
    {
      Linked(head, tail, order)
    }

    constructor ()
      ensures Valid() && order == []
    {
      head, tail, order := null, null, [];
    }

    /** The list part of `HASH_ADD_KEYPTR`. */
    method Add(e: Element<T>)
      requires Valid() && e !in order
      modifies this, order, e
      ensures Valid() && order == old(order) + [e]
    {
      e.next := null;
      head, tail := Append(head, tail, e, order);
      order := order + [e];
    }

    /** The list part of `HASH_DELETE`. */
    method Delete(e: Element<T>, ghost k: nat)
      requires Valid() && k < |order| && order[k] == e
      modifies this, order
      ensures Valid() && order == old(order)[..k] + old(order)[k + 1..]
    {
      hide Linked, Distinct, At;
      LinkFields(head, tail, order);
      ghost var s := order;
      AtIsIn(s, k as int - 1);
      AtIsIn(s, k + 1);
      if e == tail {
        tail := e.prev;
      }
      if e.prev == null {
        head := e.next;
      }
      order := s[..k] + s[k + 1..];
      EndsWithout(old(head), old(tail), head, tail, s, k);
      PassOver(e, s, k);
      Relinked(head, tail, s, k);
    }

    /** `HASH_SRT`. The run length is a 32-bit number, hence the bound on the number of elements. */
    method Sort(cmp: (Element<T>, Element<T>) -> int)
      requires Valid() && |order| <= 0x8000_0000
      modifies this, order
      ensures Valid() && order == SortFrom(cmp, 1, old(order))
    {
      if head != null {
        ghost var dom := set e | e in order;
        head, tail := SortList(cmp, head, order, dom);
        SortKeeps(cmp, 1, order, dom);
        SameElements(order, SortFrom(cmp, 1, order));
        order := SortFrom(cmp, 1, order);
      }
    }
  }

  ghost function At<T>(s: seq<Element<T>>, i: int): Element?<T> {
    if 0 <= i < |s| then s[i] else null
  }

  lemma AtIsIn<T>(s: seq<Element<T>>, i: int)
    ensures At(s, i) != null ==> At(s, i) in s
  {}

  /** What the fields of a linked list hold. */
  lemma LinkFields<T>(head: Element?<T>, tail: Element?<T>, s: seq<Element<T>>)
    requires Linked(head, tail, s)
    ensures head == At(s, 0) && tail == At(s, |s| - 1) && Distinct(s)
    ensures forall i {:trigger s[i]} :: 0 <= i < |s| ==> s[i].next == At(s, i + 1) && s[i].prev == At(s, i - 1)
  {}

  /** The links of a list that passes over its `k`-th element. */
  lemma Relinked<T>(head: Element?<T>, tail: Element?<T>, s: seq<Element<T>>, k: nat)
    requires k < |s| && Distinct(s)
    requires head == (if k == 0 then At(s, 1) else At(s, 0))
        && tail == (if k == |s| - 1 then At(s, k - 1) else At(s, |s| - 1))
    requires forall i {:trigger s[i]} :: 0 <= i < |s| && i != k ==>
      && s[i].next == (if i + 1 == k then At(s, k + 1) else At(s, i + 1))
      && s[i].prev == (if i == k + 1 then At(s, k - 1) else At(s, i - 1))
    ensures Linked(head, tail, s[..k] + s[k + 1..])
  {
    hide Distinct, NextLinks, PrevLinks;
    DistinctWithout(s, k);
    NextWithout(s, k);
    PrevWithout(s, k);
    var s' := s[..k] + s[k + 1..];
    assert forall j :: 0 <= j < |s'| ==> s'[j] == s[if j < k then j else j + 1];
  }

  lemma NextWithout<T>(s: seq<Element<T>>, k: nat)
    requires k < |s|
    requires forall i {:trigger s[i]} :: 0 <= i < |s| && i != k ==>
        s[i].next == if i + 1 == k then At(s, k + 1) else At(s, i + 1)
    ensures NextLinks(s[..k] + s[k + 1..])
  {
    var s' := s[..k] + s[k + 1..];
    assert forall j :: 0 <= j < |s'| ==> s'[j] == s[if j < k then j else j + 1];
  }

  lemma PrevWithout<T>(s: seq<Element<T>>, k: nat)
    requires k < |s|
    requires forall i {:trigger s[i]} :: 0 <= i < |s| && i != k ==>
        s[i].prev == if i == k + 1 then At(s, k - 1) else At(s, i - 1)
    ensures PrevLinks(s[..k] + s[k + 1..])
  {
    var s' := s[..k] + s[k + 1..];
    assert forall j :: 0 <= j < |s'| ==> s'[j] == s[if j < k then j else j + 1];
  }

  /** Links the neighbours of the `k`-th element to each other. */
  method PassOver<T>(e: Element<T>, ghost s: seq<Element<T>>, ghost k: nat)
    requires k < |s| && e == s[k] && Distinct(s)
    requires forall i {:trigger s[i]} :: 0 <= i < |s| ==> s[i].next == At(s, i + 1) && s[i].prev == At(s, i - 1)
    modifies e.prev, e.next
    ensures forall i {:trigger s[i]} :: 0 <= i < |s| && i != k ==>
      && s[i].next == (if i + 1 == k then At(s, k + 1) else At(s, i + 1))
      && s[i].prev == (if i == k + 1 then At(s, k - 1) else At(s, i - 1))
  {
    hide Distinct;
    Elsewhere(s, k);
    if e.prev != null {
      SetNext(e.prev, e.next, s, k - 1);
    }
    if e.next != null {
      SetPrev(e.next, e.prev, s, k + 1);
    }
  }

  method SetNext<T>(e: Element<T>, to: Element?<T>, ghost s: seq<Element<T>>, ghost k: nat)
    requires k < |s| && e == s[k] && Distinct(s)
    modifies e`next
    ensures e.next == to && forall i {:trigger s[i]} :: 0 <= i < |s| && i != k ==> s[i].next == old(s[i].next)
  {
    Elsewhere(s, k);
    e.next := to;
  }

  method SetPrev<T>(e: Element<T>, to: Element?<T>, ghost s: seq<Element<T>>, ghost k: nat)
    requires k < |s| && e == s[k] && Distinct(s)
    modifies e`prev
    ensures e.prev == to && forall i {:trigger s[i]} :: 0 <= i < |s| && i != k ==> s[i].prev == old(s[i].prev)
  {
    Elsewhere(s, k);
    e.prev := to;
  }

  /** Head and tail of a list without its `k`-th element. */
  lemma EndsWithout<T>(head: Element?<T>, tail: Element?<T>, head': Element?<T>, tail': Element?<T>,
                       s: seq<Element<T>>, k: nat)
    requires Linked(head, tail, s) && k < |s|
    requires tail' == (if s[k] == tail then s[k].prev else tail)
    requires head' == (if s[k].prev == null then s[k].next else head)
    ensures head' == (if k == 0 then At(s, 1) else At(s, 0))
        && tail' == (if k == |s| - 1 then At(s, k - 1) else At(s, |s| - 1))
  {
    LinkFields(head, tail, s);
    Elsewhere(s, k);
    hide Linked, Distinct;
  }

  lemma SameElements<E>(s: seq<E>, t: seq<E>)
    requires multiset(s) == multiset(t)
    ensures forall e :: e in t ==> e in s
  {
    forall e | e in t ensures e in s {
      assert e in multiset(t);
    }
  }

  /** The pass loop of `HASH_SRT`. */
  method SortList<T>(cmp: (Element<T>, Element<T>) -> int, first: Element<T>, ghost s: seq<Element<T>>,
                     ghost dom: set<Element<T>>)
      returns (list: Element<T>, last: Element?<T>)
    requires s != [] && Chain(first, s) && Distinct(s) && Over(s, dom) && |s| <= 0x8000_0000
    modifies dom
    ensures Linked(list, last, SortFrom(cmp, 1, s))
  {
    hide Pass, SortFrom, Linked, Chain, Distinct, Over;
    list, last := first, null;
    var insize, looping := 1, true;
    ghost var cur := s;
    while looping
      invariant cur != [] && |cur| == |s| && Over(cur, dom)
      invariant looping ==> Chain(list, cur) && Distinct(cur)
      invariant looping ==> 1 <= insize && SortFrom(cmp, insize, cur) == SortFrom(cmp, 1, s)
      invariant !looping ==> Linked(list, last, cur) && cur == SortFrom(cmp, 1, s)
      decreases looping, |cur| - insize
    {
      var merged, nmerges;
      merged, last, nmerges := RunPass(cmp, list, insize, cur, dom);
      SortStep(cmp, insize, cur);
      cur := Pass(cmp, insize, cur);
      LinkedIsChain(merged, last, cur);
      list := merged;
      if nmerges <= 1 {
        looping := false;
      }
      insize := insize * 2 % 0x1_0000_0000;
    }
  }

  lemma SortStep<E>(cmp: (E, E) -> int, w: nat, s: seq<E>)
    requires w > 0
    ensures |Pass(cmp, w, s)| == |s|
    ensures SortFrom(cmp, w, s) == if |s| <= 2 * w then Pass(cmp, w, s) else SortFrom(cmp, 2 * w, Pass(cmp, w, s))
  {
    PassLength(cmp, w, s);
  }

  lemma LinkedIsChain<T>(head: Element?<T>, tail: Element?<T>, s: seq<Element<T>>)
    requires Linked(head, tail, s)
    ensures Chain(head, s) && Distinct(s) && (s != [] ==> head == s[0])
  {}
}
