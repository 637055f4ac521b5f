/**
  The deep merge of one source mapping into a destination mapping
  (`merge(source, destination)` of yaml-merge.py).

  The script mutates `destination` key by key and raises (aborting the
  whole run) when an existing entry has the wrong type. Here the merge is a
  total function returning `None` for those failures. Each source key only
  ever touches `destination[key]`, so the outcome does not depend on the
  order in which the source's keys are visited; `MergeInto` replays the
  script's key-by-key loop in an arbitrary order and is proved to agree.
 */
module DeepMerge {
  import opened Tree

  /** The new entry for one key: `value` is the source's value there and
      `existing` the destination's entry, if any (`setdefault` keeps an
      existing entry whatever its type).
      - mapping: merged recursively into the existing mapping, or into `{}`
        when absent; an existing non-mapping survives an empty source
        mapping and makes a non-empty one fail;
      - sequence: appended to the existing sequence, or to `[]` when absent;
        any other existing entry makes `extend` fail;
      - scalar (including null): overwrites.
      It fails exactly when the value and the existing entry are
      incompatible at some depth. */
  function MergeEntry(value: Node, existing: Option<Node>): (r: Option<Node>)
    ensures r.Some? <==> EntryCompatible(value, existing)
    decreases value, 2
  {
    match value
    case Map(src) =>
      if existing.None? then
        match Merge(src, map[])
        case Some(m) => Some(Map(m))
        case None => None
      else if existing.value.Map? then
        match Merge(src, existing.value.entries)
        case Some(m) => Some(Map(m))
        case None => None
      else if src == map[] then existing
      else None
    case List(xs) =>
      if existing.None? then Some(List(xs))
      else if existing.value.List? then Some(List(existing.value.items + xs))
      else None
    case Scalar(_) => Some(value)
  }

  /** `merge(source, dest)`: `None` when some key's entry fails, otherwise
      the destination with every source key's entry replaced by its merge.
      A merge succeeds exactly when the two mappings are compatible: no
      sequence lands on a non-sequence and no non-empty mapping lands on a
      non-mapping, at any depth. The result has the keys of both mappings,
      and the destination's entries at keys the source lacks. */
  function Merge(source: map<string, Node>, dest: map<string, Node>): (r: Option<map<string, Node>>)
    ensures r.Some? <==> Compatible(source, dest)
    ensures r.Some? ==> r.value.Keys == source.Keys + dest.Keys
    ensures r.Some? ==> forall k | k in dest && k !in source :: r.value[k] == dest[k]
    decreases Map(source), 1
  {
    if forall k | k in source :: MergeEntry(source[k], Get(dest, k)).Some? then
      Some(map k | k in source.Keys + dest.Keys :: MergedAt(source, dest, k))
    else None
  }

  /** The merged entry at `k`, for a key of either mapping whose merge
      succeeds. */
  function MergedAt(source: map<string, Node>, dest: map<string, Node>, k: string): Node
    requires k in source ==> MergeEntry(source[k], Get(dest, k)).Some?
    requires k in source || k in dest
    decreases Map(source), 0
  {
    if k in source then MergeEntry(source[k], Get(dest, k)).value else dest[k]
  }

  /** The loop of `merge` in yaml-merge.py: visit the source keys one at a
      time, in whatever order the dictionary yields them, and update the
      destination in place; the first failing key aborts. */
  method MergeInto(source: map<string, Node>, dest: map<string, Node>) returns (r: Option<map<string, Node>>)
    ensures r == Merge(source, dest)
  {
    var d := dest;
    var todo := source.Keys;
    MergeEmptySource(dest);
    assert source - todo == map[];
    while todo != {}
      invariant todo <= source.Keys
      invariant Merge(source - todo, dest) == Some(d)
      decreases |todo|
    {
      var k :| k in todo;
      var entry := MergeEntry(source[k], Get(d, k));
      if entry.None? {
        MergeStepFails(source, dest, todo, d, k);
        return None;
      }
      MergeStep(source, dest, todo, d, k, entry.value);
      d := d[k := entry.value];
      todo := todo - {k};
    }
    assert source - todo == source;
    return Some(d);
  }

  /** One more key merged into `d`, the merge of the keys already done. */
  lemma MergeStep(source: map<string, Node>, dest: map<string, Node>, todo: set<string>,
                  d: map<string, Node>, k: string, entry: Node)
    requires todo <= source.Keys && k in todo
    requires Merge(source - todo, dest) == Some(d)
    requires MergeEntry(source[k], Get(d, k)) == Some(entry)
    ensures Merge(source - (todo - {k}), dest) == Some(d[k := entry])
  {
    var done, done' := source - todo, source - (todo - {k});
    assert Get(d, k) == Get(dest, k);
    forall j | j in done'
      ensures MergeEntry(done'[j], Get(dest, j)).Some?
    {
      if j != k { assert j in done; }
    }
    var d' := d[k := entry];
    forall j | j in d'
      ensures d'[j] == if j in done' then MergeEntry(done'[j], Get(dest, j)).value else dest[j]
    {
      if j != k { assert d[j] == MergedAt(done, dest, j); }
    }
    MergeEqual(done', dest, d');
  }

  /** A failing key makes the whole merge fail, whichever keys came before. */
  lemma MergeStepFails(source: map<string, Node>, dest: map<string, Node>, todo: set<string>,
                       d: map<string, Node>, k: string)
    requires todo <= source.Keys && k in todo
    requires Merge(source - todo, dest) == Some(d)
    requires MergeEntry(source[k], Get(d, k)).None?
    ensures Merge(source, dest) == None
  {
    assert Get(d, k) == Get(dest, k);
  }

  /** Extensionality for a successful merge: a mapping with the merged keys
      and the merged entries is the result. */
  lemma MergeEqual(source: map<string, Node>, dest: map<string, Node>, d: map<string, Node>)
    requires forall k | k in source :: MergeEntry(source[k], Get(dest, k)).Some?
    requires d.Keys == source.Keys + dest.Keys
    requires forall k | k in d ::
               d[k] == if k in source then MergeEntry(source[k], Get(dest, k)).value else dest[k]
    ensures Merge(source, dest) == Some(d)
  {
    var r := map k | k in source.Keys + dest.Keys :: MergedAt(source, dest, k);
    assert Merge(source, dest) == Some(r);
    forall k | k in r ensures r[k] == d[k] {
      assert r[k] == MergedAt(source, dest, k);
    }
    assert r == d;
  }

  /** Independent description of when a merge succeeds: at every key the
      source reaches, the existing entry has a type the operation accepts. */
  predicate Compatible(source: map<string, Node>, dest: map<string, Node>)
    decreases Map(source), 0
  {
    forall k | k in source :: EntryCompatible(source[k], Get(dest, k))
  }

  predicate EntryCompatible(value: Node, existing: Option<Node>)
    decreases value, 1
  {
    match value
    case Map(src) =>
      || existing.None?
      || (existing.value.Map? && Compatible(src, existing.value.entries))
      || (!existing.value.Map? && src == map[])
    case List(_) => existing.None? || existing.value.List?
    case Scalar(_) => true
  }

  /** Merging into an empty mapping reproduces the source and never fails. */
  lemma {:induction false} MergeIntoEmpty(source: map<string, Node>)
    ensures Merge(source, map[]) == Some(source)
    decreases Map(source)
  {
    forall k | k in source
      ensures MergeEntry(source[k], None) == Some(source[k])
    {
      if source[k].Map? {
        MergeIntoEmpty(source[k].entries);
      }
    }
    MergeEqual(source, map[], source);
  }

  /** Merging an empty source leaves the destination unchanged. */
  lemma MergeEmptySource(dest: map<string, Node>)
    ensures Merge(map[], dest) == Some(dest)
  {
    MergeEqual(map[], dest, dest);
  }

  /** The merged entry at any key: the merged source entry where the source
      has the key, the destination's own entry elsewhere. */
  lemma MergeAtKey(source: map<string, Node>, dest: map<string, Node>, k: string)
    requires Merge(source, dest).Some?
    ensures Get(Merge(source, dest).value, k) ==
              if k in source then MergeEntry(source[k], Get(dest, k)) else Get(dest, k)
  {
  }

  /** A scalar source entry, null included, replaces whatever the
      destination holds there: it never makes the merge fail, and the
      merged entry is the scalar. */
  lemma ScalarOverwrites(source: map<string, Node>, dest: map<string, Node>, k: string)
    requires k in source && source[k].Scalar?
    ensures Merge(source, dest).Some? <==> Merge(source - {k}, dest).Some?
    ensures Merge(source, dest).Some? ==> Merge(source, dest).value[k] == source[k]
  {
    var rest := source - {k};
    if Merge(rest, dest).Some? {
      assert forall j | j in source :: MergeEntry(source[j], Get(dest, j)).Some? by {
        forall j | j in source ensures MergeEntry(source[j], Get(dest, j)).Some? {
          if j != k { assert j in rest; }
        }
      }
    }
  }

  /** A sequence source entry is appended to the existing sequence (an
      absent entry counting as `[]`), without deduplication or reordering;
      any other existing entry, null included, makes the merge fail. */
  lemma ListAppends(source: map<string, Node>, dest: map<string, Node>, k: string)
    requires k in source && source[k].List?
    ensures k in dest && !dest[k].List? ==> Merge(source, dest) == None
    ensures Merge(source, dest).Some? ==>
              Merge(source, dest).value[k] == List(Items(Get(dest, k)) + source[k].items)
  {
  }

  /** A mapping source entry is merged recursively into the existing
      mapping, or reproduced as is when the key is absent. Over an existing
      non-mapping, an empty source mapping leaves the entry untouched and a
      non-empty one makes the merge fail. */
  lemma MappingRecurses(source: map<string, Node>, dest: map<string, Node>, k: string)
    requires k in source && source[k].Map?
    ensures k !in dest && Merge(source, dest).Some? ==>
              Merge(source, dest).value[k] == source[k]
    ensures k in dest && dest[k].Map? && Merge(source, dest).Some? ==>
              && Merge(source[k].entries, dest[k].entries).Some?
              && Merge(source, dest).value[k] == Map(Merge(source[k].entries, dest[k].entries).value)
    ensures k in dest && !dest[k].Map? && source[k].entries == map[] && Merge(source, dest).Some? ==>
              Merge(source, dest).value[k] == dest[k]
    ensures k in dest && !dest[k].Map? && source[k].entries != map[] ==>
              Merge(source, dest) == None
  {
    if k !in dest {
      MergeIntoEmpty(source[k].entries);
    } else if Merge(source, dest).Some? {
      assert MergeEntry(source[k], Get(dest, k)).Some?;
    }
  }
}
