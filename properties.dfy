/**
 * What the conversion promises about the whole tree: which keys each output
 * mapping has and in which order, what value each key carries, what happens to
 * lists and scalars, that nothing changes without rules, and that converting
 * an already converted tree changes nothing.
 */
module Properties {
  import opened Tree
  import opened Ordering
  import opened Core

  /**
   * A converted mapping holds every input key exactly once and no other key,
   * in the key order for the rule at its path; the value under each key is
   * the conversion of the input's value for that key at the path extended by
   * the key.
   */
  lemma TransformMapping(entries: seq<(string, Node)>, rules: Rules, path: Path)
    requires Distinct(Keys(entries))
    ensures var out := Transform(Mapping(entries), rules, path);
      && out.Mapping?
      && Keys(out.entries) == KeyOrder(DesiredOrder(rules, path), Keys(entries))
      && |out.entries| == |entries|
      && Distinct(Keys(out.entries))
      && (forall k :: k in Keys(out.entries) <==> k in Keys(entries))
      && (forall i :: 0 <= i < |out.entries| ==>
            out.entries[i].0 in Keys(entries)
            && out.entries[i].1 == Transform(Get(entries, out.entries[i].0), rules, path + [out.entries[i].0]))
  {
    var values := TransformValues(entries, rules, path);
    var desired := DesiredOrder(rules, path);
    var out := Arrange(values, desired);
    ArrangeReorders(values, desired);
    KeyOrderPermutation(desired, Keys(entries));
    forall i | 0 <= i < |out| ensures out[i].1 == Transform(Get(entries, out[i].0), rules, path + [out[i].0]) {
      TransformValuesGet(entries, rules, path, out[i].0);
    }
  }

  /** Without a rule for its path, a mapping keeps its natural key order. */
  lemma NoRuleKeepsNaturalOrder(entries: seq<(string, Node)>, rules: Rules, path: Path)
    requires Distinct(Keys(entries)) && path !in rules
    ensures Transform(Mapping(entries), rules, path).Mapping?
    ensures Keys(Transform(Mapping(entries), rules, path).entries) == Keys(entries)
  {
    TransformMapping(entries, rules, path);
    KeyOrderWithoutRule(Keys(entries));
  }

  /**
   * A list becomes a list of the same length whose element `i` is element `i`
   * converted at the list's own path.
   */
  lemma TransformList(items: seq<Node>, rules: Rules, path: Path)
    ensures var out := Transform(Sequence(items), rules, path);
      && out.Sequence?
      && |out.items| == |items|
      && forall i :: 0 <= i < |items| ==> out.items[i] == Transform(items[i], rules, path)
  {
  }

  /** Every mapping element of a list is ordered by the one rule for the list's path. */
  lemma ListElementsShareRule(items: seq<Node>, rules: Rules, path: Path, i: nat)
    requires i < |items| && items[i].Mapping?
    ensures var out := Transform(Sequence(items), rules, path);
      && out.Sequence? && i < |out.items| && out.items[i].Mapping?
      && Keys(out.items[i].entries) == KeyOrder(DesiredOrder(rules, path), Keys(items[i].entries))
  {
  }

  /** Scalars are returned unchanged. */
  lemma TransformScalar(a: Atom, rules: Rules, path: Path)
    ensures Transform(Scalar(a), rules, path) == Scalar(a)
  {
  }

  /**
   * `b` is `a` up to the order of mapping keys: the same kinds of node, the
   * same keys, list lengths and scalars, throughout.
   */
  ghost predicate SameShape(a: Node, b: Node)
    decreases a
  {
    match a
    case Mapping(ea) =>
      && b.Mapping?
      && |b.entries| == |ea|
      && (forall k :: k in Keys(b.entries) <==> k in Keys(ea))
      && forall i :: 0 <= i < |ea| ==> ea[i].0 in Keys(b.entries) && SameShape(ea[i].1, Get(b.entries, ea[i].0))
    case Sequence(ia) =>
      && b.Sequence?
      && |b.items| == |ia|
      && forall i :: 0 <= i < |ia| ==> SameShape(ia[i], b.items[i])
    case Scalar(_) => b == a
  }

  /** The output tree has the input's shape: only the order of mapping keys may differ. */
  lemma {:induction false} TransformSameShape(n: Node, rules: Rules, path: Path)
    requires WellFormed(n)
    ensures SameShape(n, Transform(n, rules, path))
    decreases n
  {
    match n
    case Mapping(entries) =>
      var values := TransformValues(entries, rules, path);
      var desired := DesiredOrder(rules, path);
      var out := Transform(n, rules, path).entries;
      TransformMapping(entries, rules, path);
      forall i | 0 <= i < |entries|
        ensures entries[i].0 in Keys(out) && SameShape(entries[i].1, Get(out, entries[i].0))
      {
        var k := entries[i].0;
        assert Keys(entries)[i] == k;
        PositionOfDistinct(Keys(entries), i);
        ArrangeGet(values, desired, k);
        TransformValuesGet(entries, rules, path, k);
        TransformSameShape(entries[i].1, rules, path + [k]);
      }
    case Sequence(items) =>
      forall i | 0 <= i < |items| ensures SameShape(items[i], Transform(n, rules, path).items[i]) {
        TransformSameShape(items[i], rules, path);
      }
    case Scalar(_) =>
  }

  /** The output is again a tree whose mappings have distinct keys. */
  lemma {:induction false} TransformKeepsWellFormed(n: Node, rules: Rules, path: Path)
    requires WellFormed(n)
    ensures WellFormed(Transform(n, rules, path))
    decreases n
  {
    match n
    case Mapping(entries) =>
      var out := Transform(n, rules, path).entries;
      TransformMapping(entries, rules, path);
      forall i | 0 <= i < |out| ensures WellFormed(out[i].1) {
        var k := out[i].0;
        var j := Position(Keys(entries), k);
        TransformKeepsWellFormed(entries[j].1, rules, path + [k]);
      }
    case Sequence(items) =>
      forall i | 0 <= i < |items| ensures WellFormed(Transform(n, rules, path).items[i]) {
        TransformKeepsWellFormed(items[i], rules, path);
      }
    case Scalar(_) =>
  }

  /** With an empty rule table the output equals the input: same shape, keys, order and scalars. */
  lemma {:induction false} EmptyRulesIdentity(n: Node, path: Path)
    requires WellFormed(n)
    ensures Transform(n, map[], path) == n
    decreases n
  {
    match n
    case Mapping(entries) =>
      var values := TransformValues(entries, map[], path);
      forall i | 0 <= i < |entries| ensures values[i] == entries[i] {
        EmptyRulesIdentity(entries[i].1, path + [entries[i].0]);
      }
      assert values == entries;
      ArrangeWithoutRule(entries);
    case Sequence(items) =>
      var out := Transform(n, map[], path).items;
      forall i | 0 <= i < |items| ensures out[i] == items[i] {
        EmptyRulesIdentity(items[i], path);
      }
      assert out == items;
    case Scalar(_) =>
  }

  /**
   * The constructor without a rule table, or with an empty one, keeps the
   * input tree as it is.
   */
  lemma ConstructWithoutRules(rawData: Node, keyOrdering: Option<Rules>)
    requires WellFormed(rawData)
    requires keyOrdering.None? || keyOrdering.value == map[]
    ensures Transform(rawData, EffectiveRules(keyOrdering), []) == rawData
  {
    EmptyRulesIdentity(rawData, []);
  }

  /** Converting the output again with the same rule table yields the identical tree. */
  lemma {:induction false} TransformIdempotent(n: Node, rules: Rules, path: Path)
    requires WellFormed(n)
    ensures Transform(Transform(n, rules, path), rules, path) == Transform(n, rules, path)
    decreases n
  {
    match n
    case Mapping(entries) =>
      var values := TransformValues(entries, rules, path);
      var desired := DesiredOrder(rules, path);
      var out := Arrange(values, desired);
      TransformMapping(entries, rules, path);
      var again := TransformValues(out, rules, path);
      forall i | 0 <= i < |out| ensures again[i] == out[i] {
        var k := out[i].0;
        var j := Position(Keys(entries), k);
        TransformIdempotent(entries[j].1, rules, path + [k]);
      }
      assert again == out;
      ArrangeIdempotent(values, desired);
    case Sequence(items) =>
      var out := Transform(n, rules, path).items;
      var again := Transform(Transform(n, rules, path), rules, path).items;
      forall i | 0 <= i < |items| ensures again[i] == out[i] {
        TransformIdempotent(items[i], rules, path);
      }
      assert again == out;
    case Scalar(_) =>
  }

  /**
   * An instance: with the rule ["kind", "apiVersion"], a mapping with keys
   * apiVersion, kind, extra is emitted as kind, apiVersion, extra.
   */
  lemma KeyOrderExample()
    ensures KeyOrder(["kind", "apiVersion"], ["apiVersion", "kind", "extra"]) == ["kind", "apiVersion", "extra"]
  {
    ExampleRuleKeys();
    ExampleOtherKeys();
  }

  lemma ExampleRuleKeys()
    ensures Preferred(["kind", "apiVersion"], ["apiVersion", "kind", "extra"]) == ["kind", "apiVersion"]
  {
  }

  lemma ExampleOtherKeys()
    ensures Remaining(["apiVersion", "kind", "extra"], ["kind", "apiVersion"]) == ["extra"]
  {
    var d := ["kind", "apiVersion"];
    var keys := ["apiVersion", "kind", "extra"];
    assert "extra" !in d && "apiVersion" in d && "kind" in d;
    assert keys[..1] == ["apiVersion"] && keys[..1][..0] == [];
    assert Remaining(keys[..1], d) == [];
    assert keys[..2][..1] == keys[..1] && keys[..2][1] == "kind";
    assert Remaining(keys[..2], d) == [];
    assert keys[..3][..2] == keys[..2] && keys[..3] == keys;
  }
}
