/** Grouping a list into a dict of lists, the way Python code does it by hand:
    walk the list, create an empty list the first time a key is seen, append.
    Python dicts keep insertion order, so a group is its key order plus its map. */
module Grouping {
  import opened Wrappers

  /** A dict of lists: its keys in insertion order, and the list under each key. */
  datatype Groups<K, V> = Groups(order: seq<K>, members: map<K, seq<V>>)

  /** The distinct keys of `items`, in order of first appearance; `key` answers None
      for an item that is skipped. */
  function KeyOrder<K(==), V>(items: seq<V>, key: V -> Option<K>): seq<K>
  {
    if items == [] then []
    else
      var order := KeyOrder(items[..|items| - 1], key);
      match key(items[|items| - 1])
      case None => order
      case Some(k) => if k in order then order else order + [k]
  }

  /** The items whose key is `k`, in input order. */
  function Members<K(==), V>(items: seq<V>, key: V -> Option<K>, k: K): seq<V>
  {
    if items == [] then []
    else
      Members(items[..|items| - 1], key, k)
      + (if key(items[|items| - 1]) == Some(k) then [items[|items| - 1]] else [])
  }

  /** The items that have a key, in input order. */
  function Keyed<K(==), V>(items: seq<V>, key: V -> Option<K>): seq<V>
  {
    if items == [] then []
    else
      Keyed(items[..|items| - 1], key)
      + (if key(items[|items| - 1]).Some? then [items[|items| - 1]] else [])
  }

  /** The sum of the group sizes of the keys in `order`. */
  function TotalSize<K(==), V>(order: seq<K>, items: seq<V>, key: V -> Option<K>): nat
  {
    if order == [] then 0
    else TotalSize(order[..|order| - 1], items, key) + |Members(items, key, order[|order| - 1])|
  }

  predicate Distinct<K(==)>(s: seq<K>) {
    forall a, b :: 0 <= a < b < |s| ==> s[a] != s[b]
  }

  /** Builds the groups with one pass over `items`, as the loops in the source do. */
  method GroupBy<K(==), V>(items: seq<V>, key: V -> Option<K>) returns (g: Groups<K, V>)
    ensures g.order == KeyOrder(items, key)
    ensures forall k :: k in g.members <==> k in g.order
    ensures forall k :: k in g.members ==> g.members[k] == Members(items, key, k)
  {
    var order: seq<K> := [];
    var members: map<K, seq<V>> := map[];
    var i := 0;
    while i < |items|
      invariant 0 <= i <= |items|
      invariant order == KeyOrder(items[..i], key)
      invariant forall k :: k in members <==> k in order
      invariant forall k :: k in members ==> members[k] == Members(items[..i], key, k)
    {
      var v := items[i];
      ghost var done := items[..i + 1];
      assert done[..i] == items[..i] && done[i] == v;
      match key(v) {
        case None =>
        case Some(k) =>
          if k !in members {
            MembersOutsideKeyOrder(items[..i], key, k);
            order := order + [k];
            members := members[k := []];
          }
          members := members[k := members[k] + [v]];
      }
      i := i + 1;
    }
    assert items[..i] == items;
    g := Groups(order, members);
  }

  /** A key outside the key order has no members. */
  lemma {:induction false} MembersOutsideKeyOrder<K, V>(items: seq<V>, key: V -> Option<K>, k: K)
    requires k !in KeyOrder(items, key)
    ensures Members(items, key, k) == []
  {
    if items != [] {
      MembersOutsideKeyOrder(items[..|items| - 1], key, k);
    }
  }

  /** A group holds only items of the input that have its key. */
  lemma {:induction false} MembersHaveKey<K, V>(items: seq<V>, key: V -> Option<K>, k: K)
    ensures forall v :: v in Members(items, key, k) ==> v in items && key(v) == Some(k)
  {
    if items != [] {
      MembersHaveKey(items[..|items| - 1], key, k);
      assert forall v :: v in items[..|items| - 1] ==> v in items;
    }
  }

  /** Each key is listed once. */
  lemma {:induction false} KeyOrderDistinct<K, V>(items: seq<V>, key: V -> Option<K>)
    ensures Distinct(KeyOrder(items, key))
  {
    if items != [] {
      KeyOrderDistinct(items[..|items| - 1], key);
    }
  }

  /** The keys are exactly the keys some item has. */
  lemma {:induction false} KeyOrderHasKeys<K, V>(items: seq<V>, key: V -> Option<K>)
    ensures forall k :: k in KeyOrder(items, key) <==> exists i :: 0 <= i < |items| && key(items[i]) == Some(k)
  {
    if items != [] {
      var init := items[..|items| - 1];
      KeyOrderHasKeys(init, key);
      forall k ensures k in KeyOrder(items, key) <==> exists i :: 0 <= i < |items| && key(items[i]) == Some(k) {
        if k in KeyOrder(init, key) {
          var i :| 0 <= i < |init| && key(init[i]) == Some(k);
          assert items[i] == init[i];
        }
        if exists i :: 0 <= i < |items| && key(items[i]) == Some(k) {
          var i :| 0 <= i < |items| && key(items[i]) == Some(k);
          assert i < |init| ==> init[i] == items[i];
        }
      }
    }
  }

  /** A key is listed exactly when its group is not empty. */
  lemma {:induction false} KeyOrderHasGroups<K, V>(items: seq<V>, key: V -> Option<K>)
    ensures forall k :: k in KeyOrder(items, key) <==> Members(items, key, k) != []
  {
    if items != [] {
      KeyOrderHasGroups(items[..|items| - 1], key);
    }
  }

  /** The keys are exactly the keys some item has, each listed once, and each has
      a non-empty group. */
  lemma KeyOrderExactly<K, V>(items: seq<V>, key: V -> Option<K>)
    ensures Distinct(KeyOrder(items, key))
    ensures forall k :: k in KeyOrder(items, key) <==> exists i :: 0 <= i < |items| && key(items[i]) == Some(k)
    ensures forall k :: k in KeyOrder(items, key) <==> Members(items, key, k) != []
  {
    KeyOrderDistinct(items, key);
    KeyOrderHasKeys(items, key);
    KeyOrderHasGroups(items, key);
  }

  /** The groups partition the keyed items: every keyed item lands in exactly one group,
      so the group sizes add up to the number of keyed items. */
  lemma {:induction false} GroupsPartition<K, V>(items: seq<V>, key: V -> Option<K>)
    ensures TotalSize(KeyOrder(items, key), items, key) == |Keyed(items, key)|
  {
    if items != [] {
      var init := items[..|items| - 1];
      var v := items[|items| - 1];
      var order := KeyOrder(init, key);
      GroupsPartition(init, key);
      KeyOrderExactly(init, key);
      match key(v) {
        case None =>
          TotalSizeShift(order, items, init, key, None);
        case Some(k) =>
          TotalSizeShift(order, items, init, key, Some(k));
          if k !in order {
            MembersOutsideKeyOrder(init, key, k);
          }
      }
    }
  }

  /** Adding one item with key `bumped` to the input grows the total over `order` by one
      when `bumped` is in `order`, and by nothing otherwise. */
  lemma {:induction false} TotalSizeShift<K, V>(order: seq<K>, items: seq<V>, init: seq<V>,
                                                    key: V -> Option<K>, bumped: Option<K>)
    requires items != [] && init == items[..|items| - 1] && key(items[|items| - 1]) == bumped
    requires Distinct(order)
    ensures TotalSize(order, items, key)
            == TotalSize(order, init, key) + (if bumped.Some? && bumped.value in order then 1 else 0)
  {
    if order != [] {
      var front := order[..|order| - 1];
      assert Distinct(front);
      TotalSizeShift(front, items, init, key, bumped);
      assert order == front + [order[|order| - 1]];
    }
  }
}
