/**
  What a Python dict built by successive assignments `d[keys[0]] = ...`,
  `d[keys[1]] = ...`, ... looks like afterwards: each key is kept once, in
  the position of its first assignment (insertion order), and holds the
  value of its last assignment.
 */
module Dicts {

  predicate Distinct<K(==, !new)>(s: seq<K>) {
    forall i, j :: 0 <= i < j < |s| ==> s[i] != s[j]
  }

  /** The prefix of length `i + 1` is the prefix of length `i` and one more element. */
  lemma PrefixSnoc<T>(s: seq<T>, i: nat)
    requires i < |s|
    ensures s[..i + 1] == s[..i] + [s[i]]
  {
  }

  /** The position of the first `k` in `s`. */
  function FirstIndex<K(==, !new)>(s: seq<K>, k: K): (i: nat)
    requires k in s
    ensures i < |s| && s[i] == k
    ensures forall j :: 0 <= j < i ==> s[j] != k
  {
    if s[0] == k then 0 else 1 + FirstIndex(s[1..], k)
  }

  /** The position of the last `k` in `s`. */
  function LastIndex<K(==, !new)>(s: seq<K>, k: K): (i: nat)
    requires k in s
    ensures i < |s| && s[i] == k
    ensures forall j :: i < j < |s| ==> s[j] != k
  {
    if s[|s| - 1] == k then |s| - 1
    else
      assert s == s[..|s| - 1] + [s[|s| - 1]];
      LastIndex(s[..|s| - 1], k)
  }

  /** The iteration order of the dict after assigning to `keys` in turn. */
  function InsertionOrder<K(==, !new)>(keys: seq<K>): (order: seq<K>)
    ensures Distinct(order)
    ensures forall k :: k in order <==> k in keys
  {
    if keys == [] then []
    else
      var prev := InsertionOrder(keys[..|keys| - 1]);
      var k := keys[|keys| - 1];
      assert keys == keys[..|keys| - 1] + [k];
      if k in prev then prev else prev + [k]
  }

  /**
    `list(d.values())` for the dict built by `d[keys[i]] = values[i]` for
    each `i` in turn: one value per distinct key, in insertion order, each
    the value of the key's last assignment.
   */
  function LastValues<K(==, !new), V>(keys: seq<K>, values: seq<V>): (r: seq<V>)
    requires |keys| == |values|
  {
    var order := InsertionOrder(keys);
    seq(|order|, i requires 0 <= i < |order| => values[LastIndex(keys, order[i])])
  }

  /** Every element of `order` is in `keys`, and they are ordered by first position in `keys`. */
  predicate OrderedByFirstIndex<K(==, !new)>(keys: seq<K>, order: seq<K>) {
    (forall i :: 0 <= i < |order| ==> order[i] in keys) &&
    forall i, j :: 0 <= i < j < |order| && order[i] in keys && order[j] in keys ==>
      FirstIndex(keys, order[i]) < FirstIndex(keys, order[j])
  }

  /** Keys come out of the dict ordered by where each was first assigned. */
  lemma {:induction false} InsertionOrderByFirstIndex<K(!new)>(keys: seq<K>)
    ensures OrderedByFirstIndex(keys, InsertionOrder(keys))
  {
    if keys != [] {
      var init := keys[..|keys| - 1];
      var k := keys[|keys| - 1];
      var prev := InsertionOrder(init);
      InsertionOrderByFirstIndex(init);
      assert keys == init + [k];
      var order := if k in prev then prev else prev + [k];
      assert InsertionOrder(keys) == order;
      forall i, j | 0 <= i < j < |order|
        ensures FirstIndex(keys, order[i]) < FirstIndex(keys, order[j])
      {
        assert order[i] == prev[i] && prev[i] in init;
        FirstIndexOfPrefix(init, [k], prev[i]);
        if j < |prev| {
          assert order[j] == prev[j] && prev[j] in init;
          FirstIndexOfPrefix(init, [k], prev[j]);
        } else {
          assert order[j] == k && k !in init;
          assert FirstIndex(keys, k) == |init|;
        }
      }
    }
  }

  lemma {:induction false} FirstIndexOfPrefix<K(!new)>(a: seq<K>, b: seq<K>, x: K)
    requires x in a
    ensures FirstIndex(a + b, x) == FirstIndex(a, x)
  {
    var i := FirstIndex(a, x);
    var j := FirstIndex(a + b, x);
    assert (a + b)[i] == x;
    assert forall m :: 0 <= m < |a| ==> (a + b)[m] == a[m];
  }

  /** Assigning to keys that are already distinct keeps them in their order. */
  lemma {:induction false} InsertionOrderOfDistinct<K(!new)>(keys: seq<K>)
    requires Distinct(keys)
    ensures InsertionOrder(keys) == keys
  {
    if keys != [] {
      var init := keys[..|keys| - 1];
      InsertionOrderOfDistinct(init);
      assert keys[|keys| - 1] !in init;
      assert keys == init + [keys[|keys| - 1]];
    }
  }

  /** In a list of distinct keys, each key's last position is its only one. */
  lemma LastIndexOfDistinct<K(!new)>(keys: seq<K>, i: nat)
    requires Distinct(keys) && i < |keys|
    ensures LastIndex(keys, keys[i]) == i
  {
  }

  /** Assigning one more key: it joins the end of the order unless already present. */
  lemma InsertionOrderSnoc<K(!new)>(keys: seq<K>, k: K)
    ensures InsertionOrder(keys + [k]) ==
      if k in InsertionOrder(keys) then InsertionOrder(keys) else InsertionOrder(keys) + [k]
  {
    assert (keys + [k])[..|keys|] == keys;
  }

  /** Assigning one more key moves that key's last assignment and no other. */
  lemma LastIndexSnoc<K(!new)>(keys: seq<K>, k: K, x: K)
    requires x in keys + [k]
    ensures LastIndex(keys + [k], x) == if x == k then |keys| else LastIndex(keys, x)
  {
    assert (keys + [k])[..|keys|] == keys;
  }

  /**
    `order` and `table` are the key order and the contents of the dict built
    by `d[keys[i]] = values[i]` for each `i` in turn.
   */
  ghost predicate DictOf<K(!new), V>(keys: seq<K>, values: seq<V>, order: seq<K>, table: map<K, V>) {
    && |keys| == |values|
    && order == InsertionOrder(keys)
    && (forall k :: k in table <==> k in order)
    && (forall k :: k in order ==> k in keys && table[k] == values[LastIndex(keys, k)])
  }

  /** The empty dict. */
  lemma DictOfEmpty<K(!new), V>()
    ensures DictOf<K, V>([], [], [], map[])
  {
  }

  /** One more assignment `d[k] = v`. */
  lemma DictOfAssign<K(!new), V>(keys: seq<K>, values: seq<V>, order: seq<K>, table: map<K, V>, k: K, v: V)
    requires DictOf(keys, values, order, table)
    ensures DictOf(keys + [k], values + [v], if k in table then order else order + [k], table[k := v])
  {
    var order' := if k in table then order else order + [k];
    AssignedOrder(keys, values, order, table, k);
    AssignedKeys(keys, values, order, table, k, v);
    assert forall x :: x in order' <==> x in order || x == k;
    forall x | x in order'
      ensures x in keys + [k] && table[k := v][x] == (values + [v])[LastIndex(keys + [k], x)]
    {
      AssignedValue(keys, values, order, table, k, v, x);
    }
  }

  /** After `d[k] = v`, `k` is at the end of the key order unless it was already a key. */
  lemma AssignedOrder<K(!new), V>(keys: seq<K>, values: seq<V>, order: seq<K>, table: map<K, V>, k: K)
    requires DictOf(keys, values, order, table)
    ensures (if k in table then order else order + [k]) == InsertionOrder(keys + [k])
  {
    InsertionOrderSnoc(keys, k);
    assert k in table <==> k in order;
  }

  /** After `d[k] = v`, the keys are those of the new key order. */
  lemma AssignedKeys<K(!new), V>(keys: seq<K>, values: seq<V>, order: seq<K>, table: map<K, V>, k: K, v: V)
    requires DictOf(keys, values, order, table)
    ensures forall x :: x in table[k := v] <==> x in order || x == k
  {
  }

  /** After `d[k] = v`, each key holds the value of its last assignment. */
  lemma AssignedValue<K(!new), V>(keys: seq<K>, values: seq<V>, order: seq<K>, table: map<K, V>, k: K, v: V, x: K)
    requires DictOf(keys, values, order, table)
    requires x == k || x in order
    ensures x in keys + [k] && table[k := v][x] == (values + [v])[LastIndex(keys + [k], x)]
  {
    LastIndexSnoc(keys, k, x);
    if x != k {
      var j := LastIndex(keys, x);
      assert (values + [v])[j] == values[j];
    }
  }

  /** `d = {}; for i in range(len(keys)): d[keys[i]] = values[i]`, with the dict's key order. */
  method AssignAll<K(==, !new), V>(keys: seq<K>, values: seq<V>) returns (table: map<K, V>, order: seq<K>)
    requires |keys| == |values|
    ensures DictOf(keys, values, order, table)
  {
    table, order := map[], [];
    DictOfEmpty<K, V>();
    for i := 0 to |keys|
      invariant DictOf(keys[..i], values[..i], order, table)
    {
      var key := keys[i];
      DictOfAssign(keys[..i], values[..i], order, table, key, values[i]);
      PrefixSnoc(keys, i);
      PrefixSnoc(values, i);
      if key !in table {
        order := order + [key];
      }
      table := table[key := values[i]];
    }
    assert keys[..|keys|] == keys && values[..|values|] == values;
  }

  /** `list(d.values())` for the dict with key order `order` and contents `table`. */
  function ValuesInOrder<K(==, !new), V>(order: seq<K>, table: map<K, V>): seq<V>
    requires forall k :: k in order ==> k in table
  {
    seq(|order|, j requires 0 <= j < |order| => table[order[j]])
  }

  /** The values of the dict built by the assignments are the last values, in insertion order. */
  lemma DictOfValues<K(!new), V>(keys: seq<K>, values: seq<V>, order: seq<K>, table: map<K, V>)
    requires DictOf(keys, values, order, table)
    ensures forall k :: k in order ==> k in table
    ensures ValuesInOrder(order, table) == LastValues(keys, values)
  {
  }

  /** `d = {}; d["A"] = 1; d["B"] = 2; d["A"] = 3` leaves `list(d.values()) == [3, 2]`. */
  lemma LastValuesExample()
    ensures LastValues(["A", "B", "A"], [1, 2, 3]) == [3, 2]
  {
    var keys := ["A", "B", "A"];
    InsertionOrderSnoc(["A"], "B");
    assert ["A", "B"] == ["A"] + ["B"];
    InsertionOrderSnoc(["A", "B"], "A");
    assert keys == ["A", "B"] + ["A"];
    assert InsertionOrder(keys) == ["A", "B"];
    assert LastIndex(keys, "A") == 2;
    assert LastIndex(keys, "B") == 1;
  }
}
