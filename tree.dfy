/**
 * The data that an OrderedYAML object converts: nested mappings, lists and
 * scalars, and the ordered mapping (ruamel.yaml's CommentedMap) that the
 * conversion builds.
 *
 * A mapping is a sequence of (key, value) entries in insertion order. Python
 * dictionaries never hold a key twice; `WellFormed` states that invariant for
 * every mapping of a tree.
 */
module Tree {

  datatype Option<+T> = None | Some(value: T)

  /** The scalars the source passes through untouched (floats are not modelled). */
  datatype Atom = Str(s: string) | Int(i: int) | Bool(b: bool) | Null

  datatype Node =
    | Mapping(entries: seq<(string, Node)>)
    | Sequence(items: seq<Node>)
    | Scalar(atom: Atom)

  /** The keys of a mapping, in insertion order. */
  function Keys<V>(entries: seq<(string, V)>): (ks: seq<string>)
    ensures |ks| == |entries|
  {
    seq(|entries|, i requires 0 <= i < |entries| => entries[i].0)
  }

  predicate Distinct(s: seq<string>)
  {
    forall i, j :: 0 <= i < j < |s| ==> s[i] != s[j]
  }

  /** Every mapping in the tree has distinct keys, as a Python dict does. */
  predicate WellFormed(n: Node)
  {
    match n
    case Mapping(entries) =>
      Distinct(Keys(entries)) && forall i :: 0 <= i < |entries| ==> WellFormed(entries[i].1)
    case Sequence(items) => forall i :: 0 <= i < |items| ==> WellFormed(items[i])
    case Scalar(_) => true
  }

  /** Index of the first occurrence of `x` in `s`. */
  function Position(s: seq<string>, x: string): (i: nat)
    requires x in s
    ensures i < |s| && s[i] == x && x !in s[..i]
  {
    if s[0] == x then 0 else 1 + Position(s[1..], x)
  }

  /** In a sequence without repetitions, an element's position is its index. */
  lemma PositionOfDistinct(s: seq<string>, i: int)
    requires Distinct(s) && 0 <= i < |s|
    ensures Position(s, s[i]) == i
  {
  }

  /** `d[key]` on a mapping: the value stored under `key`. */
  function Get<V>(entries: seq<(string, V)>, key: string): (v: V)
    requires key in Keys(entries)
    ensures (key, v) in entries
  {
    entries[Position(Keys(entries), key)].1
  }

  /**
   * `cm[key] = value` on an ordered mapping: a new key is appended at the end,
   * an existing key keeps its position and gets the new value.
   */
  function Assign<V>(entries: seq<(string, V)>, key: string, value: V): (r: seq<(string, V)>)
    ensures (key, value) in r
    ensures key in Keys(entries) ==> |r| == |entries| && Keys(r) == Keys(entries)
    ensures key !in Keys(entries) ==> r == entries + [(key, value)]
  {
    if key in Keys(entries) then
      var i := Position(Keys(entries), key);
      assert entries[i := (key, value)][i] == (key, value);
      entries[i := (key, value)]
    else entries + [(key, value)]
  }

  /** What assignment does to an ordered mapping's keys and lookups. */
  lemma AssignSemantics<V>(entries: seq<(string, V)>, key: string, value: V)
    ensures key in Keys(entries) ==> Keys(Assign(entries, key, value)) == Keys(entries)
    ensures key !in Keys(entries) ==> Keys(Assign(entries, key, value)) == Keys(entries) + [key]
    ensures key in Keys(Assign(entries, key, value)) && Get(Assign(entries, key, value), key) == value
    ensures forall k :: k in Keys(entries) && k != key ==>
      k in Keys(Assign(entries, key, value)) && Get(Assign(entries, key, value), k) == Get(entries, k)
  {
    var r := Assign(entries, key, value);
    var ks := Keys(entries);
    if key in ks {
      assert Keys(r) == ks;
    } else {
      assert Keys(r) == ks + [key];
      assert Keys(r)[..|ks|] == ks;
    }
    forall k | k in ks && k != key
      ensures k in Keys(r) && Get(r, k) == Get(entries, k)
    {
      if key !in ks {
        assert Keys(r)[..|ks|] == ks;
        PositionExtend(ks, [key], k);
      }
    }
  }

  /** Appending never moves the first occurrence of an element already present. */
  lemma PositionExtend(s: seq<string>, t: seq<string>, x: string)
    requires x in s
    ensures x in s + t && Position(s + t, x) == Position(s, x)
  {
    if s[0] != x {
      assert (s + t)[1..] == s[1..] + t;
      PositionExtend(s[1..], t, x);
    }
  }
}
