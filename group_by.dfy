/**
 * `group_by(items, key)`: a dictionary from each key to the list of items
 * with that key. Its body in the repository is a stub; what is modelled is
 * the contract of its documentation (src/utils/group_by.py:4-26) and of the
 * documented example there. Python dictionaries remember insertion order,
 * and the SAT encoder iterates `group_by(...).values()`, so besides the
 * dictionary itself the model gives the keys in insertion order
 * (`KeyOrder`) and the values in that order (`Groups`).
 */
module GroupBy {

  /** The reference definition of one group: the items with key `k`, in input order. */
  function Filter<K(==,!new), V>(items: seq<V>, key: V -> K, k: K): (r: seq<V>)
    ensures |r| <= |items|
    ensures forall i :: 0 <= i < |r| ==> key(r[i]) == k
    ensures r == [] <==> forall i :: 0 <= i < |items| ==> key(items[i]) != k
  {
    if |items| == 0 then []
    else
      var last := items[|items| - 1];
      Filter(items[..|items| - 1], key, k) + (if key(last) == k then [last] else [])
  }

  /** The dictionary `group_by` returns, built by appending each item to its key's list. */
  function GroupBy<K(==,!new), V>(items: seq<V>, key: V -> K): (groups: map<K, seq<V>>)
    ensures forall k :: k in groups <==> exists i :: 0 <= i < |items| && key(items[i]) == k
    ensures forall k :: k in groups ==> groups[k] == Filter(items, key, k)
  {
    if |items| == 0 then map[]
    else
      var init := items[..|items| - 1];
      var last := items[|items| - 1];
      var groups := GroupBy(init, key);
      var k := key(last);
      assert forall i :: 0 <= i < |init| ==> init[i] == items[i];
      assert k !in groups ==> Filter(init, key, k) == [];
      groups[k := (if k in groups then groups[k] else []) + [last]]
  }

  /** The dictionary's keys in insertion order, that is, in order of first occurrence. */
  function KeyOrder<K(==,!new), V>(items: seq<V>, key: V -> K): (keys: seq<K>)
    ensures forall i, j :: 0 <= i < j < |keys| ==> keys[i] != keys[j]
    ensures forall k :: k in keys <==> k in GroupBy(items, key)
  {
    if |items| == 0 then []
    else
      var keys := KeyOrder(items[..|items| - 1], key);
      var k := key(items[|items| - 1]);
      if k in keys then keys else keys + [k]
  }

  /** `group_by(items, key).values()`: the groups in key insertion order. */
  function Groups<K(==,!new), V>(items: seq<V>, key: V -> K): (gs: seq<seq<V>>)
    ensures |gs| == |KeyOrder(items, key)|
    ensures forall i :: 0 <= i < |gs| ==> gs[i] == Filter(items, key, KeyOrder(items, key)[i])
  {
    var groups := GroupBy(items, key);
    var keys := KeyOrder(items, key);
    seq(|keys|, i requires 0 <= i < |keys| => groups[keys[i]])
  }

  /** An item belongs to the group of key `k` exactly when it is an item with that key. */
  lemma {:induction false} FilterMembership<K(!new), V>(items: seq<V>, key: V -> K, k: K, x: V)
    ensures x in Filter(items, key, k) <==> x in items && key(x) == k
  {
    if |items| > 0 {
      var init, last := items[..|items| - 1], items[|items| - 1];
      assert items == init + [last];
      FilterMembership(init, key, k, x);
    }
  }

  /** Every item lies in exactly one group: the one its key names. */
  lemma ItemInItsGroupOnly<K(!new), V>(items: seq<V>, key: V -> K, x: V)
    requires x in items
    ensures key(x) in GroupBy(items, key) && x in GroupBy(items, key)[key(x)]
    ensures forall k :: k in GroupBy(items, key) && x in GroupBy(items, key)[k] ==> k == key(x)
  {
    var i :| 0 <= i < |items| && items[i] == x;
    FilterMembership(items, key, key(x), x);
  }

  /** No group is empty. */
  lemma GroupsNonEmpty<K(!new), V>(items: seq<V>, key: V -> K, k: K)
    requires k in GroupBy(items, key)
    ensures |GroupBy(items, key)[k]| > 0
  {
    var i :| 0 <= i < |items| && key(items[i]) == k;
    FilterNonEmpty(items, key, i);
  }

  lemma {:induction false} FilterNonEmpty<K(!new), V>(items: seq<V>, key: V -> K, i: nat)
    requires i < |items|
    ensures |Filter(items, key, key(items[i]))| > 0
  {
    if i < |items| - 1 {
      var init := items[..|items| - 1];
      assert init[i] == items[i];
      FilterNonEmpty(init, key, i);
    }
  }

  /**
   * Grouping keeps input order: the group of a concatenation is the group of
   * the first part followed by the group of the second.
   */
  lemma {:induction false} FilterConcat<K(!new), V>(a: seq<V>, b: seq<V>, key: V -> K, k: K)
    ensures Filter(a + b, key, k) == Filter(a, key, k) + Filter(b, key, k)
  {
    if |b| > 0 {
      var binit, last := b[..|b| - 1], b[|b| - 1];
      assert (a + b)[..|a + b| - 1] == a + binit;
      FilterConcat(a, binit, key, k);
    } else {
      assert a + b == a;
    }
  }

  function SumLengths<V>(gs: seq<seq<V>>): nat
  {
    if |gs| == 0 then 0 else SumLengths(gs[..|gs| - 1]) + |gs[|gs| - 1]|
  }

  /** The group sizes add up to the number of items. */
  lemma {:induction false} SumOfGroupSizes<K(!new), V>(items: seq<V>, key: V -> K)
    ensures SumLengths(Groups(items, key)) == |items|
  {
    if |items| > 0 {
      var init, last := items[..|items| - 1], items[|items| - 1];
      SumOfGroupSizes(init, key);
      var gs0, gs := Groups(init, key), Groups(items, key);
      var ks0, k := KeyOrder(init, key), key(last);
      if k in ks0 {
        var idx :| 0 <= idx < |ks0| && ks0[idx] == k;
        GroupsSnocOld(items, key, idx);
        SumLengthsAppendAt(gs0, idx, last);
      } else {
        GroupsSnocNew(items, key);
        assert gs[..|gs| - 1] == gs0;
      }
    }
  }

  /** Adding an item whose key was already present extends that key's group. */
  lemma GroupsSnocOld<K(!new), V>(items: seq<V>, key: V -> K, idx: nat)
    requires |items| > 0
    requires idx < |KeyOrder(items[..|items| - 1], key)|
    requires KeyOrder(items[..|items| - 1], key)[idx] == key(items[|items| - 1])
    ensures var gs0 := Groups(items[..|items| - 1], key);
      Groups(items, key) == gs0[idx := gs0[idx] + [items[|items| - 1]]]
  {
    var init := items[..|items| - 1];
    assert KeyOrder(items, key) == KeyOrder(init, key);
  }

  /** Adding an item with a new key appends a one-item group. */
  lemma GroupsSnocNew<K(!new), V>(items: seq<V>, key: V -> K)
    requires |items| > 0
    requires key(items[|items| - 1]) !in KeyOrder(items[..|items| - 1], key)
    ensures Groups(items, key) == Groups(items[..|items| - 1], key) + [[items[|items| - 1]]]
  {
    var init, last := items[..|items| - 1], items[|items| - 1];
    var ks0, k := KeyOrder(init, key), key(last);
    var gs, gs0 := Groups(items, key), Groups(init, key);
    assert KeyOrder(items, key) == ks0 + [k];
    forall i | 0 <= i < |ks0| ensures gs[i] == gs0[i] {
      assert KeyOrder(items, key)[i] == ks0[i] != k;
      assert Filter(items, key, ks0[i]) == Filter(init, key, ks0[i]);
    }
    assert Filter(init, key, k) == [];
    assert gs[|ks0|] == Filter(items, key, k) == [last];
    assert |gs| == |gs0| + 1;
    assert gs == gs0 + [[last]];
  }

  lemma {:induction false} SumLengthsAppendAt<V>(gs: seq<seq<V>>, idx: nat, x: V)
    requires idx < |gs|
    ensures SumLengths(gs[idx := gs[idx] + [x]]) == SumLengths(gs) + 1
  {
    var gs' := gs[idx := gs[idx] + [x]];
    if idx < |gs| - 1 {
      assert gs'[..|gs'| - 1] == gs[..|gs| - 1][idx := gs[idx] + [x]];
      SumLengthsAppendAt(gs[..|gs| - 1], idx, x);
    } else {
      assert gs'[..|gs'| - 1] == gs[..|gs| - 1];
    }
  }
}
