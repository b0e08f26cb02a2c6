/** The abstract meaning of a message's options: a list kept in stable order of option number. */
module OptionList {
  import opened Bytes
  import opened OptionWire

  /** Puts `o` behind every option whose number is not greater. */
  function Insert(opts: seq<Opt>, o: Opt): seq<Opt>
    decreases |opts|
  {
    if opts == [] || o.number < opts[0].number then [o] + opts
    else [opts[0]] + Insert(opts[1..], o)
  }

  /** The options of a message that had `opts` after adding `adds` one after the other. */
  function InsertMany(opts: seq<Opt>, adds: seq<Opt>): seq<Opt> {
    if adds == [] then opts else Insert(InsertMany(opts, adds[..|adds| - 1]), adds[|adds| - 1])
  }

  /** The options of a new message after adding `adds` one after the other. */
  function InsertAll(adds: seq<Opt>): seq<Opt> {
    InsertMany([], adds)
  }

  /** The options with number `n`, in list order. */
  function OfNumber(n: uint16, opts: seq<Opt>): seq<Opt>
    decreases |opts|
  {
    if opts == [] then []
    else if opts[0].number == n then [opts[0]] + OfNumber(n, opts[1..])
    else OfNumber(n, opts[1..])
  }

  lemma {:induction false} InsertAt(prev: uint16, opts: seq<Opt>, o: Opt, k: nat)
    requires Sorted(prev, opts) && k <= |opts|
    requires Last(prev, opts[..k]) <= o.number && (k < |opts| ==> o.number < opts[k].number)
    ensures Insert(opts, o) == opts[..k] + [o] + opts[k..]
    decreases |opts|
  {
    hide Insert, Sorted;
    if k == 0 {
      InsertFront(opts, o);
    } else {
      FirstNotAbove(prev, opts, o, k);
      SplitFirst(opts, k);
      SortedTail(prev, opts);
      InsertAt(opts[0].number, opts[1..], o, k - 1);
      InsertBehind(opts, o);
      Rebuilt(opts, o, k);
    }
  }

  lemma FirstNotAbove(prev: uint16, opts: seq<Opt>, o: Opt, k: nat)
    requires Sorted(prev, opts) && 0 < k <= |opts| && Last(prev, opts[..k]) <= o.number
    ensures opts[0].number <= o.number
  {
    hide Sorted;
    var a := opts[..k];
    assert opts == a + opts[k..] && opts[0] in a;
    SortedAppend(prev, a, opts[k..]);
    LastIsMax(prev, a);
  }

  lemma Rebuilt(opts: seq<Opt>, o: Opt, k: nat)
    requires 0 < k <= |opts|
    ensures [opts[0]] + (opts[1..][..k - 1] + [o] + opts[1..][k - 1..]) == opts[..k] + [o] + opts[k..]
  {}

  lemma InsertFront(opts: seq<Opt>, o: Opt)
    requires opts == [] || o.number < opts[0].number
    ensures Insert(opts, o) == opts[..0] + [o] + opts[0..]
  {}

  lemma InsertBehind(opts: seq<Opt>, o: Opt)
    requires opts != [] && opts[0].number <= o.number
    ensures Insert(opts, o) == [opts[0]] + Insert(opts[1..], o)
  {}

  lemma SplitFirst(opts: seq<Opt>, k: nat)
    requires 0 < k <= |opts|
    ensures k > 1 ==> opts[1..][..k - 1][k - 2] == opts[..k][k - 1]
    ensures k < |opts| ==> opts[1..][k - 1] == opts[k]
  {}

  lemma SortedTail(prev: uint16, opts: seq<Opt>)
    requires Sorted(prev, opts) && opts != []
    ensures prev <= opts[0].number && Sorted(opts[0].number, opts[1..])
  {}

  /** In a sorted list no number exceeds that of the last option. */
  lemma {:induction false} LastIsMax(prev: uint16, opts: seq<Opt>)
    requires Sorted(prev, opts)
    ensures prev <= Last(prev, opts)
    ensures forall o :: o in opts ==> o.number <= Last(prev, opts)
    decreases |opts|
  {
    if opts != [] {
      LastIsMax(opts[0].number, opts[1..]);
    }
  }

  lemma {:induction false} InsertSorted(prev: uint16, opts: seq<Opt>, o: Opt)
    requires Sorted(prev, opts) && prev <= o.number && |o.value| < 0x1_0000
    ensures Sorted(prev, Insert(opts, o))
    decreases |opts|
  {
    if opts != [] && opts[0].number <= o.number {
      InsertSorted(opts[0].number, opts[1..], o);
      assert Insert(opts, o)[1..] == Insert(opts[1..], o);
    } else {
      assert Insert(opts, o)[1..] == opts;
    }
  }

  /** Inserting puts the option last among its equals and leaves every other number's list alone. */
  lemma {:induction false} InsertOfNumber(prev: uint16, opts: seq<Opt>, o: Opt, n: uint16)
    requires Sorted(prev, opts)
    ensures OfNumber(n, Insert(opts, o)) == OfNumber(n, opts) + (if n == o.number then [o] else [])
    decreases |opts|
  {
    if opts != [] && opts[0].number <= o.number {
      InsertOfNumber(opts[0].number, opts[1..], o, n);
      assert Insert(opts, o)[1..] == Insert(opts[1..], o);
    } else {
      assert Insert(opts, o)[1..] == opts;
      if opts != [] && n == o.number {
        NoneBelow(opts[0].number, opts, n);
      }
    }
  }

  lemma {:induction false} NoneBelow(prev: uint16, opts: seq<Opt>, n: uint16)
    requires Sorted(prev, opts) && n < prev
    ensures OfNumber(n, opts) == []
    decreases |opts|
  {
    if opts != [] {
      NoneBelow(opts[0].number, opts[1..], n);
    }
  }

  lemma {:induction false} OfNumberAppend(n: uint16, a: seq<Opt>, b: seq<Opt>)
    ensures OfNumber(n, a + b) == OfNumber(n, a) + OfNumber(n, b)
    decreases |a|
  {
    if a == [] {
      assert a + b == b;
    } else {
      assert (a + b)[1..] == a[1..] + b;
      OfNumberAppend(n, a[1..], b);
    }
  }

  /** `r` is the stable sort of `adds` by option number. */
  ghost predicate StableSortOf(r: seq<Opt>, adds: seq<Opt>) {
    Sorted(0, r) && forall n: uint16 :: OfNumber(n, r) == OfNumber(n, adds)
  }

  lemma {:induction false} InsertManySorted(opts: seq<Opt>, adds: seq<Opt>)
    requires Sorted(0, opts) && forall i :: 0 <= i < |adds| ==> |adds[i].value| < 0x1_0000
    ensures Sorted(0, InsertMany(opts, adds))
  {
    if adds != [] {
      InsertManySorted(opts, adds[..|adds| - 1]);
      InsertSorted(0, InsertMany(opts, adds[..|adds| - 1]), adds[|adds| - 1]);
    }
  }

  /** Every number's list grows by the added options with that number, in order. */
  lemma {:induction false} InsertManyOfNumber(opts: seq<Opt>, adds: seq<Opt>, n: uint16)
    requires Sorted(0, opts) && forall i :: 0 <= i < |adds| ==> |adds[i].value| < 0x1_0000
    ensures OfNumber(n, InsertMany(opts, adds)) == OfNumber(n, opts) + OfNumber(n, adds)
  {
    hide Insert;
    if adds == [] {
      assert OfNumber(n, opts) + [] == OfNumber(n, opts);
    } else {
      var front, o := adds[..|adds| - 1], adds[|adds| - 1];
      assert adds == front + [o];
      InsertManyOfNumber(opts, front, n);
      InsertManySorted(opts, front);
      InsertOfNumber(0, InsertMany(opts, front), o, n);
      OfNumberAppend(n, front, [o]);
      OfNumberOne(n, o);
      hide OfNumber, InsertMany;
      assert (OfNumber(n, opts) + OfNumber(n, front)) + OfNumber(n, [o])
          == OfNumber(n, opts) + (OfNumber(n, front) + OfNumber(n, [o]));
    }
  }

  lemma OfNumberOne(n: uint16, o: Opt)
    ensures OfNumber(n, [o]) == if n == o.number then [o] else []
  {}

  /** Adding options one by one, in any order, sorts them stably. */
  lemma InsertAllIsStableSort(adds: seq<Opt>)
    requires forall o :: o in adds ==> |o.value| < 0x1_0000
    ensures StableSortOf(InsertAll(adds), adds)
  {
    InsertManySorted([], adds);
    forall n: uint16 ensures OfNumber(n, InsertAll(adds)) == OfNumber(n, adds) {
      InsertManyOfNumber([], adds, n);
    }
  }

  lemma HeadPresent(opts: seq<Opt>)
    requires opts != []
    ensures OfNumber(opts[0].number, opts) != []
  {}

  /** There is only one stable sort, so the predicate pins the list down completely. */
  lemma {:induction false} StableSortUnique(prev: uint16, a: seq<Opt>, b: seq<Opt>)
    requires Sorted(prev, a) && Sorted(prev, b)
    requires forall n: uint16 :: OfNumber(n, a) == OfNumber(n, b)
    ensures a == b
    decreases |a|
  {
    if a != [] { HeadPresent(a); }
    if b != [] { HeadPresent(b); }
    if a != [] && b != [] {
      var n, m := a[0].number, b[0].number;
      if n < m { NoneBelow(m, b, n); }
      if m < n { NoneBelow(n, a, m); }
      assert n == m;
      assert OfNumber(n, a)[0] == a[0] && OfNumber(n, b)[0] == b[0];
      forall k: uint16 ensures OfNumber(k, a[1..]) == OfNumber(k, b[1..]) {
        assert OfNumber(k, a) == OfNumber(k, b);
        if k == n {
          assert OfNumber(k, a)[1..] == OfNumber(k, a[1..]);
          assert OfNumber(k, b)[1..] == OfNumber(k, b[1..]);
        }
      }
      StableSortUnique(n, a[1..], b[1..]);
      assert a == [a[0]] + a[1..] && b == [b[0]] + b[1..];
    }
  }
}
