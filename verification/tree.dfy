/**
  The value a YAML parser hands to the merger: a tree whose inner nodes are
  mappings (Python `dict`) or sequences (Python `list`) and whose leaves are
  scalars. Keys are strings; a scalar's payload plays no part in merging.
 */
module Tree {

  /** The conventional Some/None wrapper, used for lookups and for a merge
      that raises in the script. */
  datatype Option<+T> = None | Some(value: T)

  /** Leaf payloads. Floats, timestamps, binary values and any other
      tagged scalar are kept as their tag and literal text: merging never
      looks inside a scalar. */
  datatype Atom = Str(s: string) | Int(i: int) | Bool(b: bool) | Tagged(tag: string, literal: string) | Null

  /** A parsed YAML value: exactly one of mapping, sequence or scalar. */
  datatype Node =
    | Map(entries: map<string, Node>)
    | List(items: seq<Node>)
    | Scalar(atom: Atom)

  /** `dict.get`: the entry at `k`, if any. */
  function Get(m: map<string, Node>, k: string): (r: Option<Node>)
    ensures r.Some? <==> k in m
    ensures r.Some? ==> r.value == m[k]
  {
    if k in m then Some(m[k]) else None
  }

  /** The items of a sequence entry; an absent entry counts as the empty
      sequence `[]` (and so does anything else, which callers rule out). */
  function Items(e: Option<Node>): seq<Node>
  {
    if e.Some? && e.value.List? then e.value.items else []
  }

  /** The node found by following the keys of `path` from `n`, descending
      only through mappings. The empty path names `n` itself. */
  function AtNode(n: Node, path: seq<string>): Option<Node>
    decreases |path|
  {
    if path == [] then Some(n)
    else if n.Map? && path[0] in n.entries then AtNode(n.entries[path[0]], path[1..])
    else None
  }

  /** The node at `path` inside the mapping `m`. */
  function At(m: map<string, Node>, path: seq<string>): Option<Node>
  {
    AtNode(Map(m), path)
  }

  /** One step down a non-empty path. */
  lemma AtCons(m: map<string, Node>, path: seq<string>)
    requires |path| > 0
    ensures At(m, path) == if path[0] in m then AtNode(m[path[0]], path[1..]) else None
  {
  }

  /** A non-empty path below a node exists only below a mapping. */
  lemma AtNodeCons(n: Node, path: seq<string>)
    requires |path| > 0
    ensures AtNode(n, path) == if n.Map? then At(n.entries, path) else None
  {
  }

  /** True iff merging the source mapping `m` writes to the node at `path` or
      to one of its ancestors: the walk along `path` through `m` ends at a
      present key whose value is not descended into further (the last key,
      or a sequence or scalar met before it). When this is false, the merge
      only passes by `path` through mappings, or not at all. */
  predicate Reaches(m: map<string, Node>, path: seq<string>)
    decreases |path|
  {
    && |path| > 0
    && path[0] in m
    && (|path| == 1 || !m[path[0]].Map? || Reaches(m[path[0]].entries, path[1..]))
  }

  /** True iff no sequence occurs anywhere in the mapping `m`. */
  predicate NoLists(m: map<string, Node>)
    decreases Map(m)
  {
    forall k | k in m :: !m[k].List? && (m[k].Map? ==> NoLists(m[k].entries))
  }

  /** Appending nothing leaves a sequence as it is. */
  lemma AppendNothing<T>(xs: seq<T>)
    ensures xs + [] == xs
  {
  }

  /** Concatenation associates. */
  lemma AppendAssociates<T>(xs: seq<T>, ys: seq<T>, zs: seq<T>)
    ensures (xs + ys) + zs == xs + (ys + zs)
  {
  }
}
