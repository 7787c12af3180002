# orderedYAML key ordering, modelled in Dafny

orderedYAML turns nested Python data (dicts, lists and scalars) into an
ordered tree that ruamel.yaml then emits as block-style YAML. The caller may
pass a rule table that maps a path of dict keys (a tuple of strings, `()` for
the root) to a preferred key list. The conversion, `OrderedYAML._to_ordered_commented_map`
in `orderedYAML/core.py`, works recursively:

- a dict becomes a fresh ordered mapping (a `CommentedMap`). It is filled
  first with the keys of the rule list for the dict's path that the dict
  holds, in rule order, and then with the dict's other keys in their original
  order. Each value is converted at the path extended by its key;
- a list becomes a list of the converted elements, each converted at the
  list's own path (no index is added to the path);
- anything else is returned unchanged.

The constructor applies the conversion to the raw data at the root path, with
`key_ordering or {}` as the table.

## Files

- `tree.dfy` (module `Tree`): the data. `Node` is `Mapping(entries)`,
  `Sequence(items)` or `Scalar(atom)`. A mapping is its sequence of
  `(key, value)` entries in insertion order. `WellFormed` says that no mapping
  of a tree holds a key twice, as no Python dict does. `Get` is `d[key]`.
  `Assign` is `cm[key] = value` on an ordered mapping: an existing key keeps
  its place, a new key goes to the end.
- `ordering.dfy` (module `Ordering`): the key order of one mapping.
  `Preferred` gives the rule keys the mapping holds, in rule order and each
  once. `Remaining` gives the mapping's other keys in their order.
  `KeyOrder` is the two together. `Arrange` puts a mapping's entries into that
  order. The lemmas prove that the order is a permutation of the keys, that it
  is a prefix override, and that it is idempotent.
- `core.dfy` (module `Core`): the rule table and the `OrderedYAML` class.
  `Transform` is the conversion as a function. The static method
  `ToOrderedCommentedMap` is the conversion as the source performs it: its
  mapping branch (`OrderedMapping`) fills a local ordered mapping with the two
  loops of the source (`FillRuleKeys`, `FillOtherKeys`) through `Assign`, and
  each method is proved to compute its part of `Transform`. The constructor stores the
  result in the field `data`.
- `properties.dfy` (module `Properties`): properties of the whole tree.

Paths are `seq<string>` and the rule table is `map<seq<string>, seq<string>>`.
A rule table that is absent is `None`. `EffectiveRules` models `key_ordering or {}`,
so an absent table and an empty table both mean "no rules".

## Scope

Rules are looked up by exact path only: the rule for a mapping is the entry of
the table under the mapping's own path, or no rule when the table has none.
Paths hold dict keys only, so list elements are converted at the list's own
path. Values that are neither dicts nor lists are returned unchanged.

## Model

| member | source | states |
|---|---|---|
| Tree.AssignSemantics | orderedYAML/core.py:65 | `cm[key] = value` on the ordered mapping: an existing key keeps its place, a new key is appended at the end, the key then maps to `value`, and every other key keeps its value |
| Tree.Get | orderedYAML/core.py:65-68 | `data[key]` yields a value that the mapping stores under `key` |
| Tree.Assign | orderedYAML/core.py:65-68 | `cm[key] = value` leaves `(key, value)` in the mapping; an existing key keeps the key sequence (and so its place) unchanged, a new key is appended at the end |
| Ordering.Preferred | orderedYAML/core.py:63-65 | the first loop emits exactly the rule keys the mapping holds, each once, even if the rule list repeats a key or names absent keys |
| Ordering.Remaining | orderedYAML/core.py:66-68 | the second loop emits exactly the mapping's keys that the rule list does not name, each once |
| Ordering.Arrange | orderedYAML/core.py:59-69 | the arranged entries have their keys in `KeyOrder` and each key carries the value the mapping holds for it |
| Ordering.KeyOrder | orderedYAML/core.py:61-68 | a key is emitted if and only if the mapping holds it |
| Ordering.KeyOrderPermutation | orderedYAML/core.py:63-68 | every key of the mapping appears exactly once in the output order, no key is added, and the length is unchanged |
| Ordering.KeyOrderOmitsAbsent | orderedYAML/core.py:64 | a key the rule list names but the mapping lacks is never emitted |
| Ordering.PreferredFollowsRules | orderedYAML/core.py:63-65 | the rule keys come in the order of their first occurrence in the rule list |
| Ordering.RemainingFollowsMapping | orderedYAML/core.py:66-68 | the other keys keep their relative order from the input mapping |
| Ordering.RuleKeysFirst | orderedYAML/core.py:63-68 | the keys the rule list names fill exactly the first places of the output order, all the other keys come after them |
| Ordering.KeyOrderIsPrefixOverride | orderedYAML/core.py:61-68 | the output order is the rule list filtered to the present keys and deduplicated by first occurrence, followed by the remaining keys in their original order |
| Ordering.KeyOrderWithoutRule | orderedYAML/core.py:61 | with no rule (the empty default list) the mapping keeps its natural key order |
| Ordering.KeyOrderIdempotent | orderedYAML/core.py:61-68 | ordering keys that are already in output order leaves them unchanged |
| Ordering.RemainingStep | orderedYAML/core.py:66-67 | in the second loop, `key not in cm` holds exactly when the rule list does not name the key, and each such key is added at the end |
| Ordering.ArrangeReorders | orderedYAML/core.py:60-69 | the filled mapping has the keys in output order, as many entries as the input, each key with the value computed for it, and exactly the entries it was built from |
| Ordering.ArrangeGet | orderedYAML/core.py:65 | reordering keeps the value stored under each key |
| Ordering.ArrangeWithoutRule | orderedYAML/core.py:61 | without a rule a mapping's entries keep their order |
| Ordering.ArrangeIdempotent | orderedYAML/core.py:59-69 | rearranging an already arranged mapping by the same rule changes nothing |
| Core.DesiredOrder | orderedYAML/core.py:61 | `key_orders.get(path, [])`: the rule for the path when the table has one, the empty list otherwise |
| Core.EffectiveRules | orderedYAML/core.py:43 | `key_ordering or {}`: no table gives the empty table, a given table is used as it is |
| Core.Transform | orderedYAML/core.py:45-75 | the conversion keeps the kind of every node: a mapping stays a mapping with the same key set, a list a list of the same length, and a scalar is returned as it is |
| Core.TransformValues | orderedYAML/core.py:65 | converting the values of a mapping keeps its keys in place |
| Core.TransformValuesGet | orderedYAML/core.py:68 | the converted value for a key is the conversion of the input's value for that key at the path extended by the key |
| Core.FillStep | orderedYAML/core.py:65 | one assignment of a converted value adds its key at the end, or leaves the mapping unchanged when the key is already there |
| Core.OrderedYAML.constructor | orderedYAML/core.py:25-43 | `data` is the conversion of the raw data at the root path with `key_ordering or {}` |
| Core.OrderedYAML.ToOrderedCommentedMap | orderedYAML/core.py:45-75 | the recursive method computes exactly `Transform` for mappings, lists and scalars |
| Core.OrderedYAML.OrderedMapping | orderedYAML/core.py:59-69 | the ordered mapping built by the two loops is the input's converted entries arranged by the rule for the path |
| Core.OrderedYAML.FillRuleKeys | orderedYAML/core.py:63-65 | after the first loop the mapping holds the rule keys present in the input, by first occurrence in the rule list, with their converted values |
| Core.OrderedYAML.FillOtherKeys | orderedYAML/core.py:66-68 | after the second loop the remaining input keys follow in original order, completing the output order |
| Properties.TransformMapping | orderedYAML/core.py:59-69 | a converted mapping holds every input key exactly once and no other key, in `KeyOrder` for its path's rule, and the value under each key is the input's value converted at the path extended by that key |
| Properties.NoRuleKeepsNaturalOrder | orderedYAML/core.py:61-68 | a mapping whose path has no rule keeps its natural key order |
| Properties.TransformList | orderedYAML/core.py:71-72 | a list becomes a list of the same length whose element `i` is input element `i` converted at the list's own path |
| Properties.ListElementsShareRule | orderedYAML/core.py:72 | every mapping element of a list is ordered by the one rule for the list's path |
| Properties.TransformScalar | orderedYAML/core.py:74-75 | scalars are returned unchanged |
| Properties.TransformSameShape | orderedYAML/core.py:59-75 | the output tree has the input's shape throughout: the same kinds of node, the same key sets, the same list lengths and the same scalars |
| Properties.TransformKeepsWellFormed | orderedYAML/core.py:59-69 | no mapping of the output holds a key twice |
| Properties.EmptyRulesIdentity | orderedYAML/core.py:59-75 | with an empty rule table the output equals the input in shape, keys, order and scalars |
| Properties.ConstructWithoutRules | orderedYAML/core.py:43 | with no rule table, or an empty one, the constructor keeps the raw data as it is |
| Properties.TransformIdempotent | orderedYAML/core.py:59-75 | converting the output again with the same rule table yields the identical tree |
| Properties.KeyOrderExample | orderedYAML/core.py:61-68 | with rule `["kind", "apiVersion"]`, keys `apiVersion, kind, extra` are emitted as `kind, apiVersion, extra` |

## Left out

- `dump` and `dumps` (orderedYAML/core.py:77-95) write the tree through ruamel.yaml's emitter to a stream or a string buffer: output through a foreign library.
- The `YAML()` object and its settings (orderedYAML/core.py:39-41: block style, indentation widths) are emitter formatting owned by ruamel.yaml; the field `_yaml` is not modelled.
- `CommentedMap` itself is modelled only as an ordered sequence of entries with the assignment rule of `Tree.Assign`; its comment and formatting data are not modelled.
- Scalars are strings, integers, booleans and `None`. Floats and all other values that are neither dicts nor lists (tuples, for one) pass through the same way and are not modelled separately.
- Dict keys and rule keys are strings, as the source's type hints say; non-string dict keys are not modelled.
- Properties.TransformScalar: states equality of values, not that Python returns the very same object.
- Cyclic data (a dict or list that contains itself, as `a = {}; a['k'] = a` or a YAML alias loop builds) and nesting deeper than Python's recursion limit (about 1000 levels by default) are not modelled: `Node` is an inductive datatype that cannot hold a cycle, and `Transform` and `ToOrderedCommentedMap` return a result at every depth, whereas the source's self-call in orderedYAML/core.py:65, 68 and 72 raises RecursionError on both.
- Every method requires `WellFormed`, that no mapping holds a key twice; Python dicts guarantee this, so no caller can violate it.
