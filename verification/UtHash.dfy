/** A whole uthash: the insertion-order list and the bucket table over the same items. */
module UtHash {
  import opened MergeSort
  import opened Sequences
  import opened HashSort
  import opened HashTable

  /** The list half of an item; its value is the bucket half. */
  type Item<K> = Element<Handle<K>>

  function KeyOf<K>(e: Item<K>): K {
    e.item.key
  }

  /** The keys of a list. */
  ghost function Keys<K>(order: seq<Item<K>>): set<K> {
    set i | 0 <= i < |order| :: KeyOf(order[i])
  }

  /** The list holds exactly the items of the map, each once. */
  ghost predicate ListsExactly<K>(order: seq<Item<K>>, items: map<K, Handle<K>>) {
    && (forall i :: 0 <= i < |order| ==> KeyOf(order[i]) in items && items[KeyOf(order[i])] == order[i].item)
    && (forall i, j :: 0 <= i < j < |order| ==> KeyOf(order[i]) != KeyOf(order[j]))
    && Keys(order) == items.Keys
  }

  lemma ListAdd<K>(order: seq<Item<K>>, items: map<K, Handle<K>>, e: Item<K>)
    requires ListsExactly(order, items) && KeyOf(e) !in items
    ensures e !in order && ListsExactly(order + [e], items[KeyOf(e) := e.item])
  {
    var order', items' := order + [e], items[KeyOf(e) := e.item];
    assert order'[|order|] == e && forall i :: 0 <= i < |order| ==> order'[i] == order[i] && KeyOf(order[i]) in items;
    forall key ensures key in Keys(order') <==> key in items' {
      if key in Keys(order) {
        var i :| 0 <= i < |order| && KeyOf(order[i]) == key;
        assert KeyOf(order'[i]) == key;
      }
    }
  }

  lemma ListDelete<K>(order: seq<Item<K>>, items: map<K, Handle<K>>, k: nat)
    requires ListsExactly(order, items) && k < |order|
    ensures KeyOf(order[k]) in items && items[KeyOf(order[k])] == order[k].item
    ensures ListsExactly(order[..k] + order[k + 1..], items - {KeyOf(order[k])})
  {
    var order', items' := order[..k] + order[k + 1..], items - {KeyOf(order[k])};
    assert forall i :: 0 <= i < |order'| ==> order'[i] == order[if i < k then i else i + 1];
    forall key ensures key in Keys(order') <==> key in items' {
      if key in Keys(order) && key != KeyOf(order[k]) {
        var i :| 0 <= i < |order| && KeyOf(order[i]) == key;
        assert KeyOf(order'[if i < k then i else i - 1]) == key;
      }
    }
  }

  lemma {:induction false} CountOfKeys<K>(order: seq<Item<K>>)
    requires forall i, j :: 0 <= i < j < |order| ==> KeyOf(order[i]) != KeyOf(order[j])
    ensures |Keys(order)| == |order|
  {
    if order != [] {
      var n := |order| - 1;
      CountOfKeys(order[..n]);
      assert Keys(order) == Keys(order[..n]) + {KeyOf(order[n])};
    }
  }

  /** As many items as list places. */
  lemma SameCount<K>(order: seq<Item<K>>, items: map<K, Handle<K>>)
    requires ListsExactly(order, items)
    ensures |items| == |order|
  {
    CountOfKeys(order);
    assert |items| == |items.Keys|;
  }

  /** The test for the last item, on its list neighbours, is the test that the table holds one item. */
  lemma LastItem<K>(head: Element?<Handle<K>>, tail: Element?<Handle<K>>, order: seq<Item<K>>,
                    items: map<K, Handle<K>>, k: nat)
    requires Linked(head, tail, order) && ListsExactly(order, items) && k < |order|
    ensures order[k].prev == null && order[k].next == null <==> |items| == 1
    ensures |items| == |order|
  {
    hide ListsExactly, Linked;
    LinkFields(head, tail, order);
    SameCount(order, items);
  }

  lemma OnlyItem<K>(order: seq<Item<K>>, items: map<K, Handle<K>>, k: nat)
    requires ListsExactly(order, items) && k < |order| == 1
    ensures order[..k] + order[k + 1..] == [] && items - {KeyOf(order[k])} == map[]
  {
    assert Keys(order) == {KeyOf(order[0])};
  }

  lemma NothingListed<K>()
    ensures ListsExactly<K>([], map[]) && Linked<Handle<K>>(null, null, [])
  {
  }

  lemma Occurs<E>(s: seq<E>, t: seq<E>, i: nat) returns (j: nat)
    requires multiset(s) == multiset(t) && i < |t|
    ensures j < |s| && s[j] == t[i]
  {
    SameElements(s, t);
    assert t[i] in s;
    j :| 0 <= j < |s| && s[j] == t[i];
  }

  lemma SameKeys<K>(order: seq<Item<K>>, order': seq<Item<K>>)
    requires multiset(order) == multiset(order')
    ensures Keys(order') == Keys(order)
  {
    forall key ensures key in Keys(order') <==> key in Keys(order) {
      if i :| 0 <= i < |order| && KeyOf(order[i]) == key {
        var j := Occurs(order', order, i);
        assert KeyOf(order'[j]) == key;
      }
      if i :| 0 <= i < |order'| && KeyOf(order'[i]) == key {
        var j := Occurs(order, order', i);
        assert KeyOf(order[j]) == key;
      }
    }
  }

  /** Sorting keeps the items. */
  lemma SameOrder<K>(order: seq<Item<K>>, order': seq<Item<K>>, items: map<K, Handle<K>>)
    requires ListsExactly(order, items) && multiset(order) == multiset(order') && Distinct(order')
    ensures ListsExactly(order', items)
  {
    hide Keys;
    SameKeys(order, order');
    forall i | 0 <= i < |order'| ensures KeyOf(order'[i]) in items && items[KeyOf(order'[i])] == order'[i].item {
      var a := Occurs(order, order', i);
    }
    forall i, j | 0 <= i < j < |order'| ensures KeyOf(order'[i]) != KeyOf(order'[j]) {
      var a := Occurs(order, order', i);
      var b := Occurs(order, order', j);
      assert a != b;
    }
  }

  /** What `head` stands for: a list and, unless it is empty, a table of the same items. */
  class Hash<K(==)> {
    const hash: K -> nat
    const list: AppOrder<Handle<K>>
    var tbl: Table?<K>

    constructor (hash: K -> nat)
      ensures Valid() && Contents() == map[] && Order() == [] && this.hash == hash && fresh(list)
    {
      this.hash := hash;
      list := new AppOrder<Handle<K>>();
      tbl := null;
    }

    ghost function Parts(): set<object>
      reads this, tbl
    {
      if tbl == null then {}
          else {tbl as object, tbl.buckets as object} + (set h | h in Members(tbl.chains) :: h as object)
    }

    ghost predicate Valid()
      reads this, list, list.order, tbl, Parts()
    {
      && list.Valid() && ListsExactly(list.order, Contents())
      && (tbl == null <==> list.order == [])
      && (tbl != null ==> tbl.Valid() && tbl.hash == hash)
    }

    ghost function Contents(): map<K, Handle<K>>
      reads this, tbl
    {
      if tbl == null then map[] else tbl.items
    }

    /** No object of the table is one of the list. */
    ghost predicate Separate(e: Item<K>)
      reads this, list, tbl
    {
      && list as object !in Parts() && e as object !in Parts()
      && forall i :: 0 <= i < |list.order| ==> list.order[i] as object !in Parts()
    }

    lemma IsSeparate(e: Item<K>)
      ensures Separate(e)
    {
    }

    /** The items in list order. */
    ghost function Order(): seq<Item<K>>
      reads this, list
    {
      list.order
    }

    /** `HASH_FIND` */
    method Find(key: K) returns (out: Handle?<K>)
      requires Valid()
      ensures out == if key in Contents() then Contents()[key] else null
    {
      out := null;
      if tbl != null {
        out := tbl.Find(key);
      }
    }

    /** The list part of `HASH_ADD_KEYPTR` and `HASH_MAKE_TABLE`: the table does not notice. */
    method AddToList(e: Item<K>)
      requires list.Valid() && e !in list.order && (tbl != null ==> tbl.Valid() && tbl.hash == hash)
      modifies this, list, list.order, e
      ensures list.Valid() && list.order == old(list.order) + [e]
      ensures tbl != null && tbl.Valid() && tbl.hash == hash
      ensures if old(tbl) == null
              then tbl.items == map[] && Members(tbl.chains) == {} && fresh(tbl) && fresh(tbl.buckets)
              else tbl == old(tbl) && tbl.items == old(tbl.items) && Parts() == old(Parts())
    {
      hide Placed, Shows, Total, Linked;
      IsSeparate(e);
      list.Add(e);
      assert tbl != null ==> forall h :: h in Members(tbl.chains) ==> unchanged(h);
      if tbl == null {
        tbl := new Table(hash);
      }
    }

    /** `HASH_ADD_KEYPTR` of an item with a key that is not in the hash. */
    method Add(e: Item<K>)
      requires Valid() && KeyOf(e) !in Contents() && e.item.hashv == hash(KeyOf(e))
      modifies this, list, list.order, e, e.item, Parts()
      ensures Valid() && Contents() == old(Contents())[KeyOf(e) := e.item] && Order() == old(Order()) + [e]
      ensures fresh(Parts() - old(Parts()) - {e.item})
    {
      hide Members, Placed, Shows, Total, Linked, ListsExactly;
      ListAdd(list.order, Contents(), e);
      AddToList(e);
      IsSeparate(e);
      tbl.Add(e.item);
    }

    /** `HASH_DELETE` of an item of the hash: the one without neighbours takes the table with it. */
    method Delete(e: Item<K>, ghost k: nat)
      requires Valid() && k < |Order()| && Order()[k] == e
      modifies this, list, list.order, Parts()
      ensures Valid() && Contents() == old(Contents()) - {KeyOf(e)}
      ensures Order() == old(Order())[..k] + old(Order())[k + 1..]
      ensures Parts() <= old(Parts())
    {
      hide Members, Placed, Shows, Total, Linked, ListsExactly;
      ListDelete(list.order, Contents(), k);
      LastItem(list.head, list.tail, list.order, Contents(), k);
      IsSeparate(e);
      if e.prev == null && e.next == null {
        OnlyItem(list.order, Contents(), k);
        NothingListed<K>();
        tbl := null;
        list.head, list.tail, list.order := null, null, [];
      } else {
        DeleteFromList(e, k);
        IsSeparate(e);
        tbl.Del(e.item);
      }
    }

    /** The list part of `HASH_DELETE`. */
    method DeleteFromList(e: Item<K>, ghost k: nat)
      requires list.Valid() && k < |list.order| && list.order[k] == e && tbl != null && tbl.Valid()
      modifies list, list.order
      ensures list.Valid() && list.order == old(list.order)[..k] + old(list.order)[k + 1..]
      ensures tbl.Valid() && tbl.items == old(tbl.items) && tbl.numItems == old(tbl.numItems) && Parts() == old(Parts())
    {
      hide Placed, Shows, Total, Linked;
      IsSeparate(e);
      list.Delete(e, k);
      assert forall h :: h in Members(tbl.chains) ==> unchanged(h);
    }

    /** `HASH_SRT` */
    method Sort(cmp: (Item<K>, Item<K>) -> int)
      requires Valid() && |Order()| <= 0x8000_0000
      modifies list, list.order
      ensures Valid() && Contents() == old(Contents()) && Order() == SortFrom(cmp, 1, old(Order()))
    {
      hide Members, Placed, Shows, Total, Linked, ListsExactly, SortFrom;
      ghost var order := list.order;
      ghost var dom := set e | e in order;
      SortKeeps(cmp, 1, order, dom);
      SortList(cmp);
      LinkFields(list.head, list.tail, list.order);
      SameOrder(order, list.order, Contents());
    }

    method SortList(cmp: (Item<K>, Item<K>) -> int)
      requires list.Valid() && (tbl != null ==> tbl.Valid()) && |list.order| <= 0x8000_0000
      modifies list, list.order
      ensures list.Valid() && list.order == SortFrom(cmp, 1, old(list.order))
      ensures tbl != null ==> tbl.Valid() && tbl.items == old(tbl.items)
    {
      hide Placed, Shows, Total, Linked, SortFrom;
      if list.order != [] { IsSeparate(list.order[0]); }
      list.Sort(cmp);
      assert tbl != null ==> forall h :: h in Members(tbl.chains) ==> unchanged(h);
    }
  }
}
