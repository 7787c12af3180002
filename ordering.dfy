/**
 * The key order that the conversion gives one mapping: the keys of the rule
 * list for the mapping's path that the mapping holds, in rule order and each
 * once, followed by the mapping's other keys in their original order.
 */
module Ordering {
  import opened Tree

  /**
   * The rule keys present in the mapping, by first occurrence in the rule
   * list; defined on the rule list from its end so that each step adds at
   * most one key at the back.
   */
  function Preferred(desired: seq<string>, keys: seq<string>): (p: seq<string>)
    ensures forall k :: k in p <==> k in desired && k in keys
    ensures Distinct(p)
  {
    if desired == [] then []
    else
      var p := Preferred(desired[..|desired| - 1], keys);
      var k := desired[|desired| - 1];
      if k in keys && k !in p then p + [k] else p
  }

  /** The mapping's keys that the rule list does not name, in their original order. */
  function Remaining(keys: seq<string>, desired: seq<string>): (r: seq<string>)
    ensures forall k :: k in r <==> k in keys && k !in desired
    ensures Distinct(keys) ==> Distinct(r)
  {
    if keys == [] then []
    else
      var r := Remaining(keys[..|keys| - 1], desired);
      var k := keys[|keys| - 1];
      assert Distinct(keys) ==> k !in keys[..|keys| - 1];
      if k in desired then r else r + [k]
  }

  /** The order in which the keys of a mapping are emitted. */
  function KeyOrder(desired: seq<string>, keys: seq<string>): (order: seq<string>)
    ensures forall k :: k in order <==> k in keys
  {
    Preferred(desired, keys) + Remaining(keys, desired)
  }

  /** The entries for the keys `ks`, in that order, with the values `entries` holds for them. */
  function Pick<V>(entries: seq<(string, V)>, ks: seq<string>): (r: seq<(string, V)>)
    requires forall k :: k in ks ==> k in Keys(entries)
  {
    seq(|ks|, i requires 0 <= i < |ks| => (ks[i], Get(entries, ks[i])))
  }

  /** A mapping's entries rearranged into the key order for the rule list `desired`. */
  function Arrange<V>(entries: seq<(string, V)>, desired: seq<string>): (r: seq<(string, V)>)
    ensures Keys(r) == KeyOrder(desired, Keys(entries))
    ensures forall i :: 0 <= i < |r| ==> r[i].0 in Keys(entries) && r[i].1 == Get(entries, r[i].0)
  {
    PickKeys(entries, KeyOrder(desired, Keys(entries)));
    Pick(entries, KeyOrder(desired, Keys(entries)))
  }

  // ---------------------------------------------------------------------------
  // Properties of the key order
  // ---------------------------------------------------------------------------

  lemma DistinctConcat(a: seq<string>, b: seq<string>)
    requires Distinct(a) && Distinct(b)
    requires forall k :: k in a ==> k !in b
    ensures Distinct(a + b)
  {
    forall i, j | 0 <= i < j < |a + b| ensures (a + b)[i] != (a + b)[j] {
      if i < |a| && |a| <= j {
        assert (a + b)[i] in a && (a + b)[j] in b;
      }
    }
  }

  /** A sequence without repetitions has as many elements as its set. */
  lemma {:induction false} DistinctCardinality(s: seq<string>)
    requires Distinct(s)
    ensures |set k | k in s| == |s|
  {
    if s != [] {
      var init := s[..|s| - 1];
      var last := s[|s| - 1];
      assert s == init + [last];
      DistinctCardinality(init);
      assert (set k | k in s) == (set k | k in init) + {last};
      assert last !in init;
    }
  }

  /**
   * Every key of the mapping is emitted exactly once and no other key is,
   * whatever the rule list holds (absent keys, repetitions).
   */
  lemma KeyOrderPermutation(desired: seq<string>, keys: seq<string>)
    requires Distinct(keys)
    ensures var order := KeyOrder(desired, keys);
      && Distinct(order)
      && |order| == |keys|
      && (forall k :: k in order <==> k in keys)
  {
    var order := KeyOrder(desired, keys);
    DistinctConcat(Preferred(desired, keys), Remaining(keys, desired));
    DistinctCardinality(order);
    DistinctCardinality(keys);
    assert (set k | k in order) == (set k | k in keys);
  }

  /** A key that the mapping does not hold is never emitted, even if the rule list names it. */
  lemma KeyOrderOmitsAbsent(desired: seq<string>, keys: seq<string>, k: string)
    requires k in desired && k !in keys
    ensures k !in KeyOrder(desired, keys)
  {
  }

  lemma PositionOfLast(s: seq<string>, k: string)
    requires k !in s
    ensures Position(s + [k], k) == |s|
  {
  }

  /** Every element of `s` occurs in `ref`, and `s` lists them in the order of their first occurrence there. */
  predicate Follows(s: seq<string>, ref: seq<string>)
  {
    forall i, j :: 0 <= i < j < |s| ==> s[i] in ref && s[j] in ref && Position(ref, s[i]) < Position(ref, s[j])
  }

  /** Extending the reference by one element, and possibly `s` by the same new element, keeps `Follows`. */
  lemma FollowsSnoc(s0: seq<string>, init: seq<string>, k: string, extend: bool)
    requires Follows(s0, init) && forall x :: x in s0 ==> x in init
    requires extend ==> k !in init
    ensures Follows(if extend then s0 + [k] else s0, init + [k])
  {
    var s := if extend then s0 + [k] else s0;
    var ref := init + [k];
    forall x | x in s0 ensures Position(ref, x) == Position(init, x) < |init| {
      PositionExtend(init, [k], x);
    }
    if extend { PositionOfLast(init, k); }
    forall i, j | 0 <= i < j < |s| ensures s[i] in ref && s[j] in ref && Position(ref, s[i]) < Position(ref, s[j]) {
      assert s[i] == s0[i] && s0[i] in s0;
      if j < |s0| {
        assert s[j] == s0[j] && s0[j] in s0;
      }
    }
  }

  /** The rule keys come in the order of their first occurrence in the rule list. */
  lemma {:induction false} PreferredFollowsRules(desired: seq<string>, keys: seq<string>)
    ensures Follows(Preferred(desired, keys), desired)
  {
    if desired != [] {
      var init := desired[..|desired| - 1];
      var k := desired[|desired| - 1];
      assert desired == init + [k];
      var p0 := Preferred(init, keys);
      PreferredFollowsRules(init, keys);
      FollowsSnoc(p0, init, k, k in keys && k !in p0);
    }
  }

  /** The keys that no rule names keep their relative order in the mapping. */
  lemma {:induction false} RemainingFollowsMapping(keys: seq<string>, desired: seq<string>)
    requires Distinct(keys)
    ensures Follows(Remaining(keys, desired), keys)
  {
    if keys != [] {
      var init := keys[..|keys| - 1];
      var k := keys[|keys| - 1];
      assert keys == init + [k];
      assert k !in init;
      RemainingFollowsMapping(init, desired);
      FollowsSnoc(Remaining(init, desired), init, k, k !in desired);
    }
  }

  /** The rule keys occupy exactly the first `|Preferred(desired, keys)|` places of the key order. */
  lemma RuleKeysFirst(desired: seq<string>, keys: seq<string>)
    ensures var order := KeyOrder(desired, keys);
      var m := |Preferred(desired, keys)|;
      forall i :: 0 <= i < |order| ==> (order[i] in desired <==> i < m)
  {
  }

  /**
   * The key order is a prefix override: first the rule keys the mapping holds,
   * by first occurrence in the rule list, then every other key in the
   * mapping's own order.
   */
  lemma KeyOrderIsPrefixOverride(desired: seq<string>, keys: seq<string>)
    requires Distinct(keys)
    ensures var order := KeyOrder(desired, keys);
      var m := |Preferred(desired, keys)|;
      && m <= |order|
      && (forall i :: 0 <= i < |order| ==> (order[i] in desired <==> i < m))
      && Follows(order[..m], desired)
      && Follows(order[m..], keys)
  {
    var p := Preferred(desired, keys);
    var order := KeyOrder(desired, keys);
    RuleKeysFirst(desired, keys);
    assert order[..|p|] == p;
    assert order[|p|..] == Remaining(keys, desired);
    PreferredFollowsRules(desired, keys);
    RemainingFollowsMapping(keys, desired);
  }

  lemma {:induction false} RemainingUnnamed(keys: seq<string>, desired: seq<string>)
    requires forall k :: k in keys ==> k !in desired
    ensures Remaining(keys, desired) == keys
  {
    if keys != [] {
      var init := keys[..|keys| - 1];
      assert keys == init + [keys[|keys| - 1]];
      RemainingUnnamed(init, desired);
    }
  }

  lemma {:induction false} RemainingAllNamed(keys: seq<string>, desired: seq<string>)
    requires forall k :: k in keys ==> k in desired
    ensures Remaining(keys, desired) == []
  {
    if keys != [] {
      RemainingAllNamed(keys[..|keys| - 1], desired);
    }
  }

  /** Without a rule list the mapping keeps its natural key order. */
  lemma KeyOrderWithoutRule(keys: seq<string>)
    ensures KeyOrder([], keys) == keys
  {
    RemainingUnnamed(keys, []);
  }

  /** The rule keys depend only on which keys the mapping holds. */
  lemma {:induction false} PreferredSameKeys(desired: seq<string>, a: seq<string>, b: seq<string>)
    requires forall k :: k in a <==> k in b
    ensures Preferred(desired, a) == Preferred(desired, b)
  {
    if desired != [] {
      PreferredSameKeys(desired[..|desired| - 1], a, b);
    }
  }

  lemma {:induction false} RemainingConcat(a: seq<string>, b: seq<string>, desired: seq<string>)
    ensures Remaining(a + b, desired) == Remaining(a, desired) + Remaining(b, desired)
  {
    if b != [] {
      var init := b[..|b| - 1];
      var k := b[|b| - 1];
      assert a + b == (a + init) + [k];
      assert (a + b)[..|a + b| - 1] == a + init;
      RemainingConcat(a, init, desired);
    } else {
      assert a + b == a;
    }
  }

  /** Ordering keys that are already in order changes nothing. */
  lemma KeyOrderIdempotent(desired: seq<string>, keys: seq<string>)
    requires Distinct(keys)
    ensures KeyOrder(desired, KeyOrder(desired, keys)) == KeyOrder(desired, keys)
  {
    var p := Preferred(desired, keys);
    var r := Remaining(keys, desired);
    var order := KeyOrder(desired, keys);
    assert order == p + r;
    assert Preferred(desired, order) == p by {
      PreferredSameKeys(desired, order, keys);
    }
    assert Remaining(p, desired) == [] by {
      RemainingAllNamed(p, desired);
    }
    assert Remaining(r, desired) == r by {
      RemainingUnnamed(r, desired);
    }
    assert Remaining(order, desired) == r by {
      RemainingConcat(p, r, desired);
    }
  }

  /**
   * One step of collecting the non-rule keys after the rule keys: `done` is
   * the order built from the first `j` keys; key `j` is added exactly when it
   * is not already there, which is exactly when no rule names it.
   */
  lemma RemainingStep(desired: seq<string>, keys: seq<string>, j: nat)
    requires Distinct(keys) && j < |keys|
    ensures var done := Preferred(desired, keys) + Remaining(keys[..j], desired);
      && Distinct(done)
      && (forall k :: k in done ==> k in keys)
      && (keys[j] in done <==> keys[j] in desired)
      && Preferred(desired, keys) + Remaining(keys[..j + 1], desired)
         == if keys[j] in done then done else done + [keys[j]]
  {
    var p := Preferred(desired, keys);
    var r := Remaining(keys[..j], desired);
    assert keys[..j + 1][..j] == keys[..j];
    assert keys[j] !in keys[..j];
    assert Distinct(keys[..j]);
    DistinctConcat(p, r);
  }

  // ---------------------------------------------------------------------------
  // Properties of the rearranged entries
  // ---------------------------------------------------------------------------

  lemma PickKeys<V>(entries: seq<(string, V)>, ks: seq<string>)
    requires forall k :: k in ks ==> k in Keys(entries)
    ensures Keys(Pick(entries, ks)) == ks
  {
  }

  lemma PickSnoc<V>(entries: seq<(string, V)>, ks: seq<string>, k: string)
    requires forall x :: x in ks ==> x in Keys(entries)
    requires k in Keys(entries)
    ensures Pick(entries, ks + [k]) == Pick(entries, ks) + [(k, Get(entries, k))]
  {
  }

  /** Picking all keys of a mapping in their own order gives the mapping back. */
  lemma PickAll<V>(entries: seq<(string, V)>)
    requires Distinct(Keys(entries))
    ensures Pick(entries, Keys(entries)) == entries
  {
  }

  /**
   * Arranging reorders the entries and changes no value: the keys come in
   * `KeyOrder`, each with the value the mapping holds for it.
   */
  lemma ArrangeReorders<V>(entries: seq<(string, V)>, desired: seq<string>)
    requires Distinct(Keys(entries))
    ensures var r := Arrange(entries, desired);
      && Keys(r) == KeyOrder(desired, Keys(entries))
      && |r| == |entries|
      && (forall i :: 0 <= i < |r| ==> r[i].1 == Get(entries, r[i].0))
      && (forall e :: e in r <==> e in entries)
  {
    var ks := Keys(entries);
    var r := Arrange(entries, desired);
    KeyOrderPermutation(desired, ks);
    PickKeys(entries, KeyOrder(desired, ks));
    forall e | e in entries ensures e in r {
      var i :| 0 <= i < |entries| && entries[i] == e;
      PositionOfDistinct(ks, i);
      assert ks[i] in Keys(r);
      var j :| 0 <= j < |r| && Keys(r)[j] == ks[i];
      assert r[j] == e;
    }
    forall e | e in r ensures e in entries {
      var j :| 0 <= j < |r| && r[j] == e;
      assert entries[Position(ks, e.0)] == e;
    }
  }

  /** After arranging, each key still maps to the value it had. */
  lemma ArrangeGet<V>(entries: seq<(string, V)>, desired: seq<string>, key: string)
    requires Distinct(Keys(entries)) && key in Keys(entries)
    ensures key in Keys(Arrange(entries, desired))
    ensures Get(Arrange(entries, desired), key) == Get(entries, key)
  {
    var r := Arrange(entries, desired);
    ArrangeReorders(entries, desired);
    var j := Position(Keys(r), key);
    assert r[j].0 == key;
  }

  /** Without a rule list the entries stay as they are. */
  lemma ArrangeWithoutRule<V>(entries: seq<(string, V)>)
    requires Distinct(Keys(entries))
    ensures Arrange(entries, []) == entries
  {
    KeyOrderWithoutRule(Keys(entries));
    PickAll(entries);
  }

  /** Entries whose keys are already in key order are left as they are. */
  lemma ArrangeOrdered<V>(entries: seq<(string, V)>, desired: seq<string>)
    requires Distinct(Keys(entries))
    requires KeyOrder(desired, Keys(entries)) == Keys(entries)
    ensures Arrange(entries, desired) == entries
  {
  }

  /** Arranging twice by the same rule list is the same as arranging once. */
  lemma ArrangeIdempotent<V>(entries: seq<(string, V)>, desired: seq<string>)
    requires Distinct(Keys(entries))
    ensures Arrange(Arrange(entries, desired), desired) == Arrange(entries, desired)
  {
    var r := Arrange(entries, desired);
    ArrangeReorders(entries, desired);
    KeyOrderPermutation(desired, Keys(entries));
    KeyOrderIdempotent(desired, Keys(entries));
    ArrangeOrdered(r, desired);
  }
}
