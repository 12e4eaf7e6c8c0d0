/** Grouping of items by key, in the order in which the keys first appear, as a dictionary of lists does it. */
module Grouping {

  datatype Group<K, V, T> = Group(key: K, tag: V, items: seq<T>)

  /** The position of the first group of `key` from `i` on, or the number of groups when there is none. */
  function IndexFrom<K(==), V, T>(groups: seq<Group<K, V, T>>, key: K, i: nat): (index: nat)
    requires i <= |groups|
    ensures i <= index <= |groups| && (index < |groups| ==> groups[index].key == key)
    ensures forall j :: i <= j < index ==> groups[j].key != key
    decreases |groups| - i
  {
    if i == |groups| || groups[i].key == key then i else IndexFrom(groups, key, i + 1)
  }

  /** Adds an item to the group of its key, opening the group at its first item. */
  function AddTo<K(==), V, T>(groups: seq<Group<K, V, T>>, key: K, tag: V, item: T): seq<Group<K, V, T>> {
    var i := IndexFrom(groups, key, 0);
    if i == |groups| then groups + [Group(key, tag, [item])]
    else groups[i := groups[i].(items := groups[i].items + [item])]
  }

  /** The groups formed by the first `n` items, each under its key. */
  function Grouped<K(==), V, T>(keys: seq<K>, tags: seq<V>, items: seq<T>, n: nat): seq<Group<K, V, T>>
    requires |keys| == |tags| == |items| && n <= |keys|
  {
    if n == 0 then [] else AddTo(Grouped(keys, tags, items, n - 1), keys[n - 1], tags[n - 1], items[n - 1])
  }

  /** Those of the first `n` items whose key is `key`, in order. */
  function Select<K(==), T>(keys: seq<K>, items: seq<T>, key: K, n: nat): seq<T>
    requires |keys| == |items| && n <= |keys|
  {
    if n == 0 then [] else Select(keys, items, key, n - 1) + if keys[n - 1] == key then [items[n - 1]] else []
  }

  /** The items of the first `n` groups, group after group. */
  function Joined<K, V, T>(groups: seq<Group<K, V, T>>, n: nat): seq<T>
    requires n <= |groups|
  {
    if n == 0 then [] else Joined(groups, n - 1) + groups[n - 1].items
  }

  /** The items of the first `n` groups, in whatever order. */
  function Tally<K, V, T(==)>(groups: seq<Group<K, V, T>>, n: nat): multiset<T>
    requires n <= |groups|
  {
    if n == 0 then multiset{} else Tally(groups, n - 1) + multiset(groups[n - 1].items)
  }

  ghost predicate HasGroup<K, V, T>(groups: seq<Group<K, V, T>>, key: K) {
    exists i :: 0 <= i < |groups| && groups[i].key == key
  }

  ghost predicate DistinctKeys<K, V, T>(groups: seq<Group<K, V, T>>) {
    forall i, j :: 0 <= i < j < |groups| ==> groups[i].key != groups[j].key
  }

  lemma {:induction false} AddToEffect<K, V, T>(groups: seq<Group<K, V, T>>, key: K, tag: V, item: T)
    requires DistinctKeys(groups)
    ensures var more := AddTo(groups, key, tag, item);
            && |groups| <= |more| && DistinctKeys(more) && HasGroup(more, key)
            && (|more| > |groups| ==> !HasGroup(groups, key) && more == groups + [Group(key, tag, [item])])
            && (forall i :: 0 <= i < |groups| ==>
                  more[i] == if groups[i].key == key then groups[i].(items := groups[i].items + [item]) else groups[i])
  {
    var more, i := AddTo(groups, key, tag, item), IndexFrom(groups, key, 0);
    assert more[i].key == key;
  }

  // ----- no item is lost or doubled

  lemma {:induction false} TallyIsJoined<K, V, T>(groups: seq<Group<K, V, T>>, n: nat)
    requires n <= |groups|
    ensures Tally(groups, n) == multiset(Joined(groups, n))
  {
    if n != 0 {
      TallyIsJoined(groups, n - 1);
    }
  }

  /** Groups that agree on the first `n` have the same tally there. */
  lemma {:induction false} SameTally<K, V, T>(groups: seq<Group<K, V, T>>, more: seq<Group<K, V, T>>, n: nat)
    requires n <= |groups| && n <= |more|
    requires forall i :: 0 <= i < n ==> groups[i] == more[i]
    ensures Tally(more, n) == Tally(groups, n)
  {
    if n != 0 {
      SameTally(groups, more, n - 1);
    }
  }

  /** One more item in one group is one more item in all. */
  lemma {:induction false} ExtendedTally<K, V, T>(groups: seq<Group<K, V, T>>, more: seq<Group<K, V, T>>, i: nat,
                                                  item: T, n: nat)
    requires i < n <= |groups| == |more|
    requires more[i].items == groups[i].items + [item]
    requires forall j :: 0 <= j < n && j != i ==> groups[j] == more[j]
    ensures Tally(more, n) == Tally(groups, n) + multiset{item}
  {
    if i == n - 1 {
      SameTally(groups, more, n - 1);
    } else {
      ExtendedTally(groups, more, i, item, n - 1);
    }
  }

  lemma {:induction false} AddToTally<K, V, T>(groups: seq<Group<K, V, T>>, key: K, tag: V, item: T)
    ensures var more := AddTo(groups, key, tag, item);
            Tally(more, |more|) == Tally(groups, |groups|) + multiset{item}
  {
    var more, i := AddTo(groups, key, tag, item), IndexFrom(groups, key, 0);
    if i == |groups| {
      SameTally(groups, more, |groups|);
    } else {
      ExtendedTally(groups, more, i, item, |groups|);
    }
  }

  function ItemTally<T(==)>(items: seq<T>, n: nat): multiset<T>
    requires n <= |items|
  {
    if n == 0 then multiset{} else ItemTally(items, n - 1) + multiset{items[n - 1]}
  }

  lemma {:induction false} ItemTallyIsMultiset<T>(items: seq<T>, n: nat)
    requires n <= |items|
    ensures ItemTally(items, n) == multiset(items[..n])
  {
    if n != 0 {
      ItemTallyIsMultiset(items, n - 1);
      assert items[..n] == items[..n - 1] + [items[n - 1]];
    }
  }

  /** The groups of the first `n` items hold these items. */
  ghost predicate TallyMatches<K, V, T>(keys: seq<K>, tags: seq<V>, items: seq<T>, n: nat)
    requires |keys| == |tags| == |items| && n <= |keys|
  {
    var groups := Grouped(keys, tags, items, n);
    Tally(groups, |groups|) == ItemTally(items, n)
  }

  lemma {:induction false} GroupedTallyStep<K, V, T>(keys: seq<K>, tags: seq<V>, items: seq<T>, n: nat)
    requires |keys| == |tags| == |items| && n < |keys|
    requires TallyMatches(keys, tags, items, n)
    ensures TallyMatches(keys, tags, items, n + 1)
  {
    AddToTally(Grouped(keys, tags, items, n), keys[n], tags[n], items[n]);
  }

  lemma {:induction false} GroupedTally<K, V, T>(keys: seq<K>, tags: seq<V>, items: seq<T>, n: nat)
    requires |keys| == |tags| == |items| && n <= |keys|
    ensures TallyMatches(keys, tags, items, n)
    decreases n
  {
    if n != 0 {
      GroupedTally(keys, tags, items, n - 1);
      GroupedTallyStep(keys, tags, items, n - 1);
    }
  }

  lemma {:induction false} GroupedKeepsItems<K, V, T>(keys: seq<K>, tags: seq<V>, items: seq<T>)
    requires |keys| == |tags| == |items|
    ensures var groups := Grouped(keys, tags, items, |items|); multiset(Joined(groups, |groups|)) == multiset(items)
  {
    var groups := Grouped(keys, tags, items, |items|);
    GroupedTally(keys, tags, items, |items|);
    TallyIsJoined(groups, |groups|);
    ItemTallyIsMultiset(items, |items|);
    assert items[..|items|] == items;
  }

  // ----- which groups there are, and what is in them

  /** Distinct groups, and only for keys in use. */
  lemma {:induction false} GroupedKeys<K, V, T>(keys: seq<K>, tags: seq<V>, items: seq<T>, n: nat)
    requires |keys| == |tags| == |items| && n <= |keys|
    ensures DistinctKeys(Grouped(keys, tags, items, n))
    ensures forall i :: 0 <= i < |Grouped(keys, tags, items, n)| ==>
              exists j :: 0 <= j < n && keys[j] == Grouped(keys, tags, items, n)[i].key
                          && tags[j] == Grouped(keys, tags, items, n)[i].tag
  {
    if n != 0 {
      var before, groups := Grouped(keys, tags, items, n - 1), Grouped(keys, tags, items, n);
      GroupedKeys(keys, tags, items, n - 1);
      AddToEffect(before, keys[n - 1], tags[n - 1], items[n - 1]);
      forall i | 0 <= i < |groups|
        ensures exists j :: 0 <= j < n && keys[j] == groups[i].key && tags[j] == groups[i].tag
      {
        if i < |before| {
          var j :| 0 <= j < n - 1 && keys[j] == before[i].key && tags[j] == before[i].tag;
        } else {
          assert keys[n - 1] == groups[i].key && tags[n - 1] == groups[i].tag;
        }
      }
    }
  }

  /** A group for every key in use. */
  lemma {:induction false} GroupedCovers<K, V, T>(keys: seq<K>, tags: seq<V>, items: seq<T>, n: nat, j: nat)
    requires |keys| == |tags| == |items| && j < n <= |keys|
    ensures HasGroup(Grouped(keys, tags, items, n), keys[j])
  {
    var before, groups := Grouped(keys, tags, items, n - 1), Grouped(keys, tags, items, n);
    GroupedKeys(keys, tags, items, n - 1);
    AddToEffect(before, keys[n - 1], tags[n - 1], items[n - 1]);
    if j < n - 1 {
      GroupedCovers(keys, tags, items, n - 1, j);
      var i :| 0 <= i < |before| && before[i].key == keys[j];
      assert groups[i].key == keys[j];
    }
  }

  /** Each group holds the items of its key, in their order. */
  lemma {:induction false} GroupedSelects<K, V, T>(keys: seq<K>, tags: seq<V>, items: seq<T>, n: nat, i: nat)
    requires |keys| == |tags| == |items| && n <= |keys| && i < |Grouped(keys, tags, items, n)|
    ensures Grouped(keys, tags, items, n)[i].items == Select(keys, items, Grouped(keys, tags, items, n)[i].key, n)
  {
    var before := Grouped(keys, tags, items, n - 1);
    GroupedKeys(keys, tags, items, n - 1);
    AddToEffect(before, keys[n - 1], tags[n - 1], items[n - 1]);
    if i < |before| {
      GroupedSelects(keys, tags, items, n - 1, i);
    } else {
      forall j | 0 <= j < n - 1
        ensures keys[j] != keys[n - 1]
      {
        GroupedCovers(keys, tags, items, n - 1, j);
      }
      NothingSelected(keys, items, keys[n - 1], n - 1);
    }
  }

  lemma {:induction false} NothingSelected<K, T>(keys: seq<K>, items: seq<T>, key: K, n: nat)
    requires |keys| == |items| && n <= |keys|
    requires forall j :: 0 <= j < n ==> keys[j] != key
    ensures Select(keys, items, key, n) == []
  {
    if n != 0 {
      NothingSelected(keys, items, key, n - 1);
    }
  }
}
