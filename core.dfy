/**
 * The OrderedYAML class of orderedYAML/core.py: its constructor converts the
 * raw data into an ordered tree once, applying the key-ordering rules.
 *
 * `Transform` is the conversion as a function of the input tree, the rule
 * table and the path; the static method `ToOrderedCommentedMap` performs it
 * the way the source does, filling each ordered mapping with two loops, and
 * is proved to compute `Transform`; each of its helper methods is proved to
 * compute its part of it.
 */
module Core {
  import opened Tree
  import opened Ordering

  /** A path of mapping keys from the root; list positions are not part of it. */
  type Path = seq<string>

  /** The rule table: the preferred key order for the mapping at each path. */
  type Rules = map<Path, seq<string>>

  /** `key_orders.get(path, [])`. */
  function DesiredOrder(rules: Rules, path: Path): (desired: seq<string>)
    ensures path in rules ==> desired == rules[path]
    ensures path !in rules ==> desired == []
  {
    if path in rules then rules[path] else []
  }

  /** `key_ordering or {}`: an absent or empty table both mean "no rules". */
  function EffectiveRules(keyOrdering: Option<Rules>): (rules: Rules)
    ensures keyOrdering.None? ==> rules == map[]
    ensures keyOrdering.Some? ==> rules == keyOrdering.value
  {
    if keyOrdering.None? || keyOrdering.value == map[] then map[] else keyOrdering.value
  }

  /**
   * The ordered tree for `n` at `path`: every mapping's values are converted
   * at the path extended by their key and its entries arranged by the rule
   * for `path`; every list element is converted at the list's own path;
   * scalars are kept.
   */
  function Transform(n: Node, rules: Rules, path: Path): (r: Node)
    ensures r.Mapping? <==> n.Mapping?
    ensures r.Sequence? <==> n.Sequence?
    ensures n.Mapping? ==> forall k :: k in Keys(r.entries) <==> k in Keys(n.entries)
    ensures n.Sequence? ==> |r.items| == |n.items|
    ensures n.Scalar? ==> r == n
    decreases n, 1
  {
    match n
    case Mapping(entries) =>
      Mapping(Arrange(TransformValues(entries, rules, path), DesiredOrder(rules, path)))
    case Sequence(items) =>
      Sequence(seq(|items|, i requires 0 <= i < |items| => Transform(items[i], rules, path)))
    case Scalar(_) => n
  }

  /** A mapping's entries, each value converted at the path extended by its key. */
  function TransformValues(entries: seq<(string, Node)>, rules: Rules, path: Path): (r: seq<(string, Node)>)
    ensures Keys(r) == Keys(entries)
    decreases Mapping(entries), 0
  {
    seq(|entries|, i requires 0 <= i < |entries| =>
      (entries[i].0, Transform(entries[i].1, rules, path + [entries[i].0])))
  }

  /** The converted value under a key is the conversion of the value the input holds under it. */
  lemma TransformValuesGet(entries: seq<(string, Node)>, rules: Rules, path: Path, key: string)
    requires key in Keys(entries)
    ensures key in Keys(TransformValues(entries, rules, path))
    ensures Get(TransformValues(entries, rules, path), key) == Transform(Get(entries, key), rules, path + [key])
  {
  }

  /**
   * One `cm[key] = ...` step of the filling loops: assigning the converted
   * value of `key` to the entries picked so far for the keys `done` gives the
   * entries picked for `done` extended by `key` (unchanged if it is there).
   */
  lemma FillStep(entries: seq<(string, Node)>, rules: Rules, path: Path, done: seq<string>, key: string, v: Node)
    requires Distinct(done) && forall k :: k in done ==> k in Keys(entries)
    requires key in Keys(entries) && v == Transform(Get(entries, key), rules, path + [key])
    ensures var values := TransformValues(entries, rules, path);
      && Keys(Pick(values, done)) == done
      && Assign(Pick(values, done), key, v)
         == Pick(values, if key in done then done else done + [key])
  {
    var values := TransformValues(entries, rules, path);
    TransformValuesGet(entries, rules, path, key);
    var cm := Pick(values, done);
    PickKeys(values, done);
    if key in done {
      var i := Position(done, key);
      assert cm[i] == (key, v);
      assert Assign(cm, key, v) == cm;
    } else {
      PickSnoc(values, done, key);
    }
  }

  class OrderedYAML {
    /** The ordered tree, ready to be emitted. */
    var data: Node

    /** Converts `rawData` with the given rule table (none: no rules) at the root path. */
    constructor (rawData: Node, keyOrdering: Option<Rules>)
      requires WellFormed(rawData)
      ensures data == Transform(rawData, EffectiveRules(keyOrdering), [])
    {
      var ordered := ToOrderedCommentedMap(rawData, EffectiveRules(keyOrdering), []);
      data := ordered;
    }

    /** The recursive conversion (orderedYAML/core.py:45-75): a mapping, a list or a scalar. */
    static method ToOrderedCommentedMap(data: Node, keyOrders: Rules, path: Path) returns (r: Node)
      requires WellFormed(data)
      ensures r == Transform(data, keyOrders, path)
      decreases data, 2
    {
      match data {
        case Mapping(entries) =>
          var cm := OrderedMapping(entries, keyOrders, path);
          r := Mapping(cm);
        case Sequence(items) =>
          var out: seq<Node> := [];
          for j := 0 to |items|
            invariant |out| == j
            invariant forall i :: 0 <= i < j ==> out[i] == Transform(items[i], keyOrders, path)
          {
            var t := ToOrderedCommentedMap(items[j], keyOrders, path);
            out := out + [t];
          }
          r := Sequence(out);
        case Scalar(_) =>
          r := data;
      }
    }

    /**
     * The mapping branch: a fresh ordered mapping filled first with the rule
     * keys the mapping holds, in rule order, then with its other keys in
     * their original order, each value converted at the extended path.
     */
    static method OrderedMapping(entries: seq<(string, Node)>, keyOrders: Rules, path: Path)
      returns (cm: seq<(string, Node)>)
      requires WellFormed(Mapping(entries))
      ensures cm == Arrange(TransformValues(entries, keyOrders, path), DesiredOrder(keyOrders, path))
      decreases Mapping(entries), 1
    {
      var desiredOrder := DesiredOrder(keyOrders, path);
      cm := FillRuleKeys(entries, keyOrders, path, desiredOrder);
      cm := FillOtherKeys(entries, keyOrders, path, desiredOrder, cm);
    }

    /** The first loop: each rule key that the mapping holds, in rule order. */
    static method FillRuleKeys(entries: seq<(string, Node)>, keyOrders: Rules, path: Path, desiredOrder: seq<string>)
      returns (cm: seq<(string, Node)>)
      requires WellFormed(Mapping(entries))
      ensures cm == Pick(TransformValues(entries, keyOrders, path), Preferred(desiredOrder, Keys(entries)))
      decreases Mapping(entries), 0
    {
      ghost var keys := Keys(entries);
      ghost var values := TransformValues(entries, keyOrders, path);
      cm := [];
      for j := 0 to |desiredOrder|
        invariant cm == Pick(values, Preferred(desiredOrder[..j], keys))
      {
        var key := desiredOrder[j];
        ghost var done := Preferred(desiredOrder[..j], keys);
        assert desiredOrder[..j + 1][..j] == desiredOrder[..j];
        if key in Keys(entries) {
          var v := ToOrderedCommentedMap(entries[Position(Keys(entries), key)].1, keyOrders, path + [key]);
          FillStep(entries, keyOrders, path, done, key, v);
          cm := Assign(cm, key, v);
        }
      }
      assert desiredOrder[..|desiredOrder|] == desiredOrder;
    }

    /** The second loop: every key of the mapping not yet assigned, in the mapping's order. */
    static method FillOtherKeys(entries: seq<(string, Node)>, keyOrders: Rules, path: Path, desiredOrder: seq<string>,
                                cm0: seq<(string, Node)>)
      returns (cm: seq<(string, Node)>)
      requires WellFormed(Mapping(entries))
      requires cm0 == Pick(TransformValues(entries, keyOrders, path), Preferred(desiredOrder, Keys(entries)))
      ensures cm == Arrange(TransformValues(entries, keyOrders, path), desiredOrder)
      decreases Mapping(entries), 0
    {
      ghost var keys := Keys(entries);
      ghost var values := TransformValues(entries, keyOrders, path);
      ghost var done := Preferred(desiredOrder, keys);
      cm := cm0;
      for j := 0 to |entries|
        invariant done == Preferred(desiredOrder, keys) + Remaining(keys[..j], desiredOrder)
        invariant forall k :: k in done ==> k in Keys(values)
        invariant cm == Pick(values, done)
      {
        var key := entries[j].0;
        RemainingStep(desiredOrder, keys, j);
        PickKeys(values, done);
        if key !in Keys(cm) {
          var v := ToOrderedCommentedMap(entries[Position(Keys(entries), key)].1, keyOrders, path + [key]);
          FillStep(entries, keyOrders, path, done, key, v);
          cm := Assign(cm, key, v);
          done := done + [key];
        }
      }
      assert keys[..|entries|] == keys;
    }
  }
}
