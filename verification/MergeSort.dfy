/** The bottom-up merge sort of uthash (`HASH_SRT`) on sequences, and what it guarantees. */
module MergeSort {

  function Min(a: nat, b: nat): nat {
    if a < b then a else b
  }

  /** One merge: `p` wins ties. */
  function Merge<E>(cmp: (E, E) -> int, p: seq<E>, q: seq<E>): seq<E> {
    if p == [] then q
    else if q == [] then p
    else if cmp(p[0], q[0]) <= 0 then [p[0]] + Merge(cmp, p[1..], q)
    else [q[0]] + Merge(cmp, p, q[1..])
  }

  /** One pass: merges neighbouring runs of length `w`. */
  function Pass<E>(cmp: (E, E) -> int, w: nat, s: seq<E>): seq<E>
    requires w > 0
    decreases |s|
  {
    if s == [] then []
    else
      var a, b := Min(w, |s|), Min(2 * w, |s|);
      Merge(cmp, s[..a], s[a..b]) + Pass(cmp, w, s[b..])
  }

  /** Passes with doubling run length until one merge suffices. */
  function SortFrom<E>(cmp: (E, E) -> int, w: nat, s: seq<E>): seq<E>
    requires w > 0
    decreases |s| - w
  {
    if |s| <= 2 * w then Pass(cmp, w, s)
    else
      PassLength(cmp, w, s);
      SortFrom(cmp, 2 * w, Pass(cmp, w, s))
  }

  lemma MergeLength<E>(cmp: (E, E) -> int, p: seq<E>, q: seq<E>)
    ensures |Merge(cmp, p, q)| == |p| + |q|
  {}

  lemma PassLength<E>(cmp: (E, E) -> int, w: nat, s: seq<E>)
    requires w > 0
    ensures |Pass(cmp, w, s)| == |s|
    decreases |s|
  {
    if s != [] {
      var a, b := Min(w, |s|), Min(2 * w, |s|);
      MergeLength(cmp, s[..a], s[a..b]);
      PassLength(cmp, w, s[b..]);
    }
  }

  // ----- what sorting means -----

  /** On `dom`, `cmp` is a comparison function: antisymmetric in sign, transitive. */
  ghost predicate Comparison<E>(cmp: (E, E) -> int, dom: set<E>) {
    && (forall x, y :: x in dom && y in dom ==> (cmp(x, y) <= 0 <==> cmp(y, x) >= 0))
    && (forall x, y, z :: x in dom && y in dom && z in dom && cmp(x, y) <= 0 && cmp(y, z) <= 0 ==> cmp(x, z) <= 0)
  }

  ghost predicate Over<E>(s: seq<E>, dom: set<E>) {
    forall i :: 0 <= i < |s| ==> s[i] in dom
  }

  ghost predicate Ordered<E>(cmp: (E, E) -> int, s: seq<E>) {
    forall i, j :: 0 <= i < j < |s| ==> cmp(s[i], s[j]) <= 0
  }

  /** The elements of `s` that compare equal to `x`, in order. */
  function Equals<E>(cmp: (E, E) -> int, x: E, s: seq<E>): seq<E> {
    if s == [] then []
    else if cmp(x, s[0]) == 0 then [s[0]] + Equals(cmp, x, s[1..])
    else Equals(cmp, x, s[1..])
  }

  /** Every block of `w` elements is ordered. */
  ghost predicate Runs<E>(cmp: (E, E) -> int, w: nat, s: seq<E>)
    requires w > 0
    decreases |s|
  {
    s == [] || (Ordered(cmp, s[..Min(w, |s|)]) && Runs(cmp, w, s[Min(w, |s|)..]))
  }

  // ----- one merge -----

  lemma {:induction false} MergeKeeps<E>(cmp: (E, E) -> int, p: seq<E>, q: seq<E>, dom: set<E>)
    requires Over(p, dom) && Over(q, dom)
    ensures multiset(Merge(cmp, p, q)) == multiset(p) + multiset(q)
    ensures Over(Merge(cmp, p, q), dom)
  {
    hide Merge, Over;
    MergeTake(cmp, p, q);
    MergeNothing(cmp, p, q);
    if p != [] && (q == [] || cmp(p[0], q[0]) <= 0) {
      HeadApart(p, dom);
      MergeKeeps(cmp, p[1..], q, dom);
      ConsKeeps(p[0], Merge(cmp, p[1..], q), dom);
    } else if q != [] {
      HeadApart(q, dom);
      MergeKeeps(cmp, p, q[1..], dom);
      ConsKeeps(q[0], Merge(cmp, p, q[1..]), dom);
    }
  }

  lemma HeadApart<E>(s: seq<E>, dom: set<E>)
    requires s != [] && Over(s, dom)
    ensures multiset(s) == multiset{s[0]} + multiset(s[1..]) && s[0] in dom && Over(s[1..], dom)
  {
    assert s == [s[0]] + s[1..];
  }

  lemma ConsKeeps<E>(x: E, s: seq<E>, dom: set<E>)
    requires x in dom && Over(s, dom)
    ensures multiset([x] + s) == multiset{x} + multiset(s) && Over([x] + s, dom)
  {
  }

  lemma OrderedCons<E>(cmp: (E, E) -> int, x: E, s: seq<E>)
    requires Ordered(cmp, s) && forall i :: 0 <= i < |s| ==> cmp(x, s[i]) <= 0
    ensures Ordered(cmp, [x] + s)
  {}

  /** Whatever bounds both inputs from below bounds the merge. */
  lemma {:induction false} MergeBound<E>(cmp: (E, E) -> int, p: seq<E>, q: seq<E>, x: E)
    requires forall i :: 0 <= i < |p| ==> cmp(x, p[i]) <= 0
    requires forall i :: 0 <= i < |q| ==> cmp(x, q[i]) <= 0
    ensures forall i :: 0 <= i < |Merge(cmp, p, q)| ==> cmp(x, Merge(cmp, p, q)[i]) <= 0
  {
    if p != [] && q != [] {
      if cmp(p[0], q[0]) <= 0 {
        MergeBound(cmp, p[1..], q, x);
      } else {
        MergeBound(cmp, p, q[1..], x);
      }
    }
  }

  lemma {:induction false} MergeOrdered<E>(cmp: (E, E) -> int, p: seq<E>, q: seq<E>, dom: set<E>)
    requires Comparison(cmp, dom) && Over(p, dom) && Over(q, dom)
    requires Ordered(cmp, p) && Ordered(cmp, q)
    ensures Ordered(cmp, Merge(cmp, p, q))
  {
    if p != [] && q != [] {
      var x := if cmp(p[0], q[0]) <= 0 then p[0] else q[0];
      var p', q' := if cmp(p[0], q[0]) <= 0 then p[1..] else p, if cmp(p[0], q[0]) <= 0 then q else q[1..];
      MergeOrdered(cmp, p', q', dom);
      Reflexive(cmp, x, dom);
      forall i | 0 <= i < |p'| ensures cmp(x, p'[i]) <= 0 {
        BelowAll(cmp, x, p, i + |p| - |p'|, dom);
      }
      forall i | 0 <= i < |q'| ensures cmp(x, q'[i]) <= 0 {
        BelowAll(cmp, x, q, i + |q| - |q'|, dom);
      }
      MergeBound(cmp, p', q', x);
      OrderedCons(cmp, x, Merge(cmp, p', q'));
    }
  }

  lemma Reflexive<E>(cmp: (E, E) -> int, x: E, dom: set<E>)
    requires Comparison(cmp, dom) && x in dom
    ensures cmp(x, x) == 0
  {}

  lemma BelowAll<E>(cmp: (E, E) -> int, x: E, s: seq<E>, i: nat, dom: set<E>)
    requires Comparison(cmp, dom) && Over(s, dom) && Ordered(cmp, s) && i < |s| && x in dom && cmp(x, s[0]) <= 0
    ensures cmp(x, s[i]) <= 0
  {
    if i > 0 {
      assert cmp(s[0], s[i]) <= 0;
    }
  }

  lemma {:induction false} EqualsAppend<E>(cmp: (E, E) -> int, x: E, a: seq<E>, b: seq<E>)
    ensures Equals(cmp, x, a + b) == Equals(cmp, x, a) + Equals(cmp, x, b)
  {
    if a == [] {
      assert a + b == b;
    } else {
      assert (a + b)[1..] == a[1..] + b;
      EqualsAppend(cmp, x, a[1..], b);
    }
  }

  lemma MergeTake<E>(cmp: (E, E) -> int, p: seq<E>, q: seq<E>)
    ensures p == [] && q != [] ==> Merge(cmp, p, q) == [q[0]] + Merge(cmp, p, q[1..])
    ensures p != [] && (q == [] || cmp(p[0], q[0]) <= 0) ==> Merge(cmp, p, q) == [p[0]] + Merge(cmp, p[1..], q)
    ensures p != [] && q != [] && cmp(p[0], q[0]) > 0 ==> Merge(cmp, p, q) == [q[0]] + Merge(cmp, p, q[1..])
  {}

  lemma MergeNothing<E>(cmp: (E, E) -> int, p: seq<E>, q: seq<E>)
    ensures p == [] && q == [] ==> Merge(cmp, p, q) == []
  {}

  lemma EqualsCons<E>(cmp: (E, E) -> int, x: E, s: seq<E>)
    ensures Equals(cmp, x, []) == []
    ensures s != [] ==> Equals(cmp, x, s) == (if cmp(x, s[0]) == 0 then [s[0]] else []) + Equals(cmp, x, s[1..])
  {
  }

  /** A merge is stable: equal elements keep their order, those of the left run first. */
  lemma {:induction false} MergeStable<E>(cmp: (E, E) -> int, p: seq<E>, q: seq<E>, x: E, dom: set<E>)
    requires Comparison(cmp, dom) && Over(p, dom) && Over(q, dom) && x in dom && Ordered(cmp, p)
    ensures Equals(cmp, x, Merge(cmp, p, q)) == Equals(cmp, x, p) + Equals(cmp, x, q)
  {
    hide Merge, Equals;
    var m := Merge(cmp, p, q);
    MergeTake(cmp, p, q);
    MergeNothing(cmp, p, q);
    EqualsCons(cmp, x, m);
    EqualsCons(cmp, x, p);
    EqualsCons(cmp, x, q);
    if p != [] && (q == [] || cmp(p[0], q[0]) <= 0) {
      assert m[1..] == Merge(cmp, p[1..], q);
      MergeStable(cmp, p[1..], q, x, dom);
    } else if q != [] {
      assert m[1..] == Merge(cmp, p, q[1..]);
      MergeStable(cmp, p, q[1..], x, dom);
      if p != [] && cmp(x, q[0]) == 0 {
        NoneEqual(cmp, p, x, q[0], dom);
      }
    }
  }

  /** When the smallest element of `p` is greater than `y`, none of `p` compares equal to what equals `y`. */
  lemma {:induction false} NoneEqual<E>(cmp: (E, E) -> int, p: seq<E>, x: E, y: E, dom: set<E>)
    requires Comparison(cmp, dom) && Over(p, dom) && x in dom && y in dom && cmp(x, y) == 0
    requires Ordered(cmp, p) && (p != [] ==> cmp(p[0], y) > 0)
    ensures Equals(cmp, x, p) == []
    decreases |p|
  {
    if p != [] {
      assert cmp(x, p[0]) != 0;
      if |p| > 1 {
        assert cmp(p[0], p[1]) <= 0;
        assert cmp(p[1], y) > 0;
      }
      NoneEqual(cmp, p[1..], x, y, dom);
    }
  }

  // ----- one pass -----

  lemma {:induction false} PassKeeps<E>(cmp: (E, E) -> int, w: nat, s: seq<E>, dom: set<E>)
    requires w > 0 && Over(s, dom)
    ensures multiset(Pass(cmp, w, s)) == multiset(s) && Over(Pass(cmp, w, s), dom)
    decreases |s|
  {
    hide Merge, Pass;
    if s == [] {
      PassNothing(cmp, w);
    } else {
      var a, b := Min(w, |s|), Min(2 * w, |s|);
      var p, q, rest := s[..a], s[a..b], s[b..];
      MergeKeeps(cmp, p, q, dom);
      PassKeeps(cmp, w, rest, dom);
      PassCons(cmp, w, s);
      assert s == (p + q) + rest;
      assert multiset(s) == multiset(p + q) + multiset(rest);
    }
  }

  lemma PassNothing<E>(cmp: (E, E) -> int, w: nat)
    requires w > 0
    ensures Pass(cmp, w, []) == []
  {
  }

  lemma RunsSplit<E>(cmp: (E, E) -> int, w: nat, s: seq<E>)
    requires w > 0 && Runs(cmp, w, s) && s != []
    ensures var a, b := Min(w, |s|), Min(2 * w, |s|);
      Ordered(cmp, s[..a]) && Ordered(cmp, s[a..b]) && Runs(cmp, w, s[b..])
  {
    hide Ordered, Runs;
    var a, b := Min(w, |s|), Min(2 * w, |s|);
    var rest := s[a..];
    FirstRun(cmp, w, s);
    FirstRun(cmp, w, rest);
    assert rest[..b - a] == s[a..b] && rest[b - a..] == s[b..];
    assert rest == [] || Min(w, |rest|) == b - a;
    assert rest == [] ==> s[a..b] == [] && s[b..] == [];
    EmptyOrdered(cmp, s[a..b]);
  }

  lemma FirstRun<E>(cmp: (E, E) -> int, w: nat, s: seq<E>)
    requires w > 0
    ensures Runs(cmp, w, s) <==> s == [] || (Ordered(cmp, s[..Min(w, |s|)]) && Runs(cmp, w, s[Min(w, |s|)..]))
  {
  }

  lemma EmptyOrdered<E>(cmp: (E, E) -> int, s: seq<E>)
    ensures s == [] ==> Ordered(cmp, s)
  {
  }

  /** A pass over ordered runs doubles the run length. */
  lemma {:induction false} PassRuns<E>(cmp: (E, E) -> int, w: nat, s: seq<E>, dom: set<E>)
    requires w > 0 && Comparison(cmp, dom) && Over(s, dom) && Runs(cmp, w, s)
    ensures Runs(cmp, 2 * w, Pass(cmp, w, s))
    decreases |s|
  {
    if s != [] {
      var a, b := Min(w, |s|), Min(2 * w, |s|);
      var m, rest := Merge(cmp, s[..a], s[a..b]), Pass(cmp, w, s[b..]);
      RunsSplit(cmp, w, s);
      MergeOrdered(cmp, s[..a], s[a..b], dom);
      MergeLength(cmp, s[..a], s[a..b]);
      PassLength(cmp, w, s[b..]);
      PassRuns(cmp, w, s[b..], dom);
      assert (m + rest)[..b] == m && (m + rest)[b..] == rest;
      assert Min(2 * w, |m + rest|) == b;
    }
  }

  lemma {:induction false} PassStable<E>(cmp: (E, E) -> int, w: nat, s: seq<E>, x: E, dom: set<E>)
    requires w > 0 && Comparison(cmp, dom) && Over(s, dom) && x in dom && Runs(cmp, w, s)
    ensures Equals(cmp, x, Pass(cmp, w, s)) == Equals(cmp, x, s)
    decreases |s|
  {
    if s != [] {
      var a, b := Min(w, |s|), Min(2 * w, |s|);
      RunsSplit(cmp, w, s);
      PassCons(cmp, w, s);
      hide Pass, Equals, Merge, Runs, Ordered;
      MergeStable(cmp, s[..a], s[a..b], x, dom);
      PassStable(cmp, w, s[b..], x, dom);
      hide Comparison, Over;
      EqualsAppend(cmp, x, Merge(cmp, s[..a], s[a..b]), Pass(cmp, w, s[b..]));
      EqualsSplit(cmp, x, s, b);
      EqualsSplit(cmp, x, s[..b], a);
      assert s[..b][..a] == s[..a] && s[..b][a..] == s[a..b];
    }
  }

  lemma PassCons<E>(cmp: (E, E) -> int, w: nat, s: seq<E>)
    requires w > 0 && s != []
    ensures var a, b := Min(w, |s|), Min(2 * w, |s|);
      Pass(cmp, w, s) == Merge(cmp, s[..a], s[a..b]) + Pass(cmp, w, s[b..])
  {}

  lemma EqualsSplit<E>(cmp: (E, E) -> int, x: E, s: seq<E>, k: nat)
    requires k <= |s|
    ensures Equals(cmp, x, s) == Equals(cmp, x, s[..k]) + Equals(cmp, x, s[k..])
  {
    assert s == s[..k] + s[k..];
    EqualsAppend(cmp, x, s[..k], s[k..]);
  }

  // ----- the whole sort -----

  /** `r` is the stable sort of `s`. */
  ghost predicate StablySorted<E>(cmp: (E, E) -> int, s: seq<E>, r: seq<E>, dom: set<E>) {
    Ordered(cmp, r) && multiset(r) == multiset(s) && forall x :: x in dom ==> Equals(cmp, x, r) == Equals(cmp, x, s)
  }

  lemma {:induction false} SortFromSorts<E>(cmp: (E, E) -> int, w: nat, s: seq<E>, dom: set<E>)
    requires w > 0 && Comparison(cmp, dom) && Over(s, dom) && Runs(cmp, w, s)
    ensures StablySorted(cmp, s, SortFrom(cmp, w, s), dom)
    decreases |s| - w
  {
    var t := Pass(cmp, w, s);
    PassLength(cmp, w, s);
    PassKeeps(cmp, w, s, dom);
    PassRuns(cmp, w, s, dom);
    forall x | x in dom ensures Equals(cmp, x, t) == Equals(cmp, x, s) {
      PassStable(cmp, w, s, x, dom);
    }
    if |s| <= 2 * w {
      if t != [] { assert t[..Min(2 * w, |t|)] == t; }
    } else {
      SortFromSorts(cmp, 2 * w, t, dom);
    }
  }

  lemma {:induction false} SingletonRuns<E>(cmp: (E, E) -> int, s: seq<E>)
    ensures Runs(cmp, 1, s)
    decreases |s|
  {
    if s != [] {
      SingletonRuns(cmp, s[1..]);
    }
  }

  /** Sorting with any comparison function is a stable sort. */
  lemma SortSorts<E>(cmp: (E, E) -> int, s: seq<E>, dom: set<E>)
    requires Comparison(cmp, dom) && Over(s, dom)
    ensures StablySorted(cmp, s, SortFrom(cmp, 1, s), dom)
  {
    SingletonRuns(cmp, s);
    SortFromSorts(cmp, 1, s, dom);
  }

  /** Whatever `cmp` is, sorting neither loses nor duplicates an element. */
  lemma {:induction false} SortKeeps<E>(cmp: (E, E) -> int, w: nat, s: seq<E>, dom: set<E>)
    requires w > 0 && Over(s, dom)
    ensures multiset(SortFrom(cmp, w, s)) == multiset(s)
    decreases |s| - w
  {
    PassLength(cmp, w, s);
    PassKeeps(cmp, w, s, dom);
    if |s| > 2 * w {
      SortKeeps(cmp, 2 * w, Pass(cmp, w, s), dom);
    }
  }
}
