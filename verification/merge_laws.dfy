/**
  Laws of the deep merge that follow a whole key path down the trees, and
  laws about merging the same source twice or disjoint sources.
 */
module MergeLaws {
  import opened Tree
  import opened DeepMerge

  /** A path the source does not reach is left as it was: its node (or its
      absence) in the destination is its node in the result. */
  lemma {:induction false} MergeKeepsUnreached(source: map<string, Node>, dest: map<string, Node>, path: seq<string>)
    requires Merge(source, dest).Some?
    requires |path| > 0 && !Reaches(source, path)
    ensures At(Merge(source, dest).value, path) == At(dest, path)
    decreases |path|
  {
    var k := path[0];
    MergeAtKey(source, dest, k);
    if k in source {
      var c := source[k].entries;
      var e := Get(dest, k);
      if e.None? {
        MergeKeepsUnreached(c, map[], path[1..]);
      } else if e.value.Map? {
        MergeKeepsUnreached(c, e.value.entries, path[1..]);
      }
    }
  }

  /** The scalar a source holds at a path, null included, is the result's
      node there, whatever the destination held. */
  lemma {:induction false} ScalarAtPathWins(source: map<string, Node>, dest: map<string, Node>, path: seq<string>, a: Atom)
    requires Merge(source, dest).Some?
    requires At(source, path) == Some(Scalar(a))
    ensures At(Merge(source, dest).value, path) == Some(Scalar(a))
    decreases |path|
  {
    var k := path[0];
    MergeAtKey(source, dest, k);
    AtCons(source, path);
    AtCons(dest, path);
    AtCons(Merge(source, dest).value, path);
    if |path| > 1 {
      AtNodeCons(source[k], path[1..]);
      var c := source[k].entries;
      var e := Get(dest, k);
      if e.None? {
        ScalarAtPathWins(c, map[], path[1..], a);
      } else if e.value.Map? {
        ScalarAtPathWins(c, e.value.entries, path[1..], a);
      }
    }
  }

  /** An empty mapping a source holds at a path leaves the destination's
      node there as it was, whatever its type (the recursive merge has no
      key to visit); where the destination has nothing, `{}` is created. */
  lemma {:induction false} EmptyMappingAtPathKeeps(source: map<string, Node>, dest: map<string, Node>, path: seq<string>)
    requires Merge(source, dest).Some?
    requires |path| > 0 && At(source, path) == Some(Map(map[]))
    ensures At(Merge(source, dest).value, path) ==
              if At(dest, path).Some? then At(dest, path) else Some(Map(map[]))
    decreases |path|
  {
    var k := path[0];
    MergeAtKey(source, dest, k);
    AtCons(source, path);
    AtCons(dest, path);
    AtCons(Merge(source, dest).value, path);
    var e := Get(dest, k);
    if |path| == 1 {
      if e.Some? && e.value.Map? {
        MergeEmptySource(e.value.entries);
      } else if e.None? {
        MergeEmptySource(map[]);
      }
    } else {
      AtNodeCons(source[k], path[1..]);
      var c := source[k].entries;
      if e.None? {
        MergeIntoEmpty(c);
        AtCons(map[], path[1..]);
      } else if e.value.Map? {
        AtNodeCons(e.value, path[1..]);
        EmptyMappingAtPathKeeps(c, e.value.entries, path[1..]);
      } else {
        assert false;
      }
    }
  }

  /** The sequence a source holds at a path lands after the destination's
      sequence there (an absent path counting as `[]`), in order and without
      deduplication; a successful merge implies the destination held a
      sequence or nothing there. */
  lemma {:induction false} ListAtPathAppends(source: map<string, Node>, dest: map<string, Node>, path: seq<string>, xs: seq<Node>)
    requires Merge(source, dest).Some?
    requires At(source, path) == Some(List(xs))
    ensures At(dest, path).None? || At(dest, path).value.List?
    ensures At(Merge(source, dest).value, path) == Some(List(Items(At(dest, path)) + xs))
    decreases |path|
  {
    var k := path[0];
    MergeAtKey(source, dest, k);
    AtCons(source, path);
    AtCons(dest, path);
    AtCons(Merge(source, dest).value, path);
    if |path| > 1 {
      AtNodeCons(source[k], path[1..]);
      var c := source[k].entries;
      AtCons(c, path[1..]);
      var e := Get(dest, k);
      if e.None? {
        AtCons(map[], path[1..]);
        ListAtPathAppends(c, map[], path[1..], xs);
        var rc := Merge(c, map[]).value;
        assert Merge(source, dest).value[k] == Map(rc);
        assert Items(At(map[], path[1..])) + xs == xs;
      } else if e.value.Map? {
        AtNodeCons(e.value, path[1..]);
        ListAtPathAppends(c, e.value.entries, path[1..], xs);
      } else {
        assert false;
      }
    } else {
      assert At(dest, path) == Get(dest, k);
      assert Items(None) + xs == xs;
    }
  }

  /** Once a source has merged into a destination, it merges again into the
      result: every clash would already have failed the first merge. */
  lemma {:induction false} MergeAgainSucceeds(source: map<string, Node>, dest: map<string, Node>)
    requires Merge(source, dest).Some?
    ensures Merge(source, Merge(source, dest).value).Some?
    decreases Map(source)
  {
    var r := Merge(source, dest).value;
    forall k | k in source
      ensures MergeEntry(source[k], Get(r, k)).Some?
    {
      MergeAtKey(source, dest, k);
      if source[k].Map? {
        var c := source[k].entries;
        var e := Get(dest, k);
        if e.None? {
          MergeAgainSucceeds(c, map[]);
        } else if e.value.Map? {
          MergeAgainSucceeds(c, e.value.entries);
        }
      }
    }
  }

  /** A source with no sequence at any depth is idempotent: merging it a
      second time changes nothing. */
  lemma {:induction false} MergeTwiceWithoutLists(source: map<string, Node>, dest: map<string, Node>)
    requires NoLists(source)
    requires Merge(source, dest).Some?
    ensures Merge(source, Merge(source, dest).value) == Merge(source, dest)
    decreases Map(source)
  {
    var r := Merge(source, dest).value;
    forall k | k in source
      ensures MergeEntry(source[k], Get(r, k)) == Some(r[k])
    {
      MergeAtKey(source, dest, k);
      if source[k].Map? {
        var c := source[k].entries;
        var e := Get(dest, k);
        if e.None? {
          MergeTwiceWithoutLists(c, map[]);
        } else if e.value.Map? {
          MergeTwiceWithoutLists(c, e.value.entries);
        }
      }
    }
    MergeEqual(source, r, r);
  }

  /** Merging a source twice appends each of its sequences twice: the
      sequence at a path grows by exactly the source's sequence again. */
  lemma MergeTwiceRepeatsList(source: map<string, Node>, dest: map<string, Node>, path: seq<string>, xs: seq<Node>)
    requires Merge(source, dest).Some?
    requires At(source, path) == Some(List(xs))
    ensures Merge(source, Merge(source, dest).value).Some?
    ensures At(Merge(source, Merge(source, dest).value).value, path) == Some(List(Items(At(dest, path)) + xs + xs))
  {
    var r := Merge(source, dest).value;
    MergeAgainSucceeds(source, dest);
    ListAtPathAppends(source, dest, path, xs);
    ListAtPathAppends(source, r, path, xs);
  }

  /** Sources with disjoint keys merge into each other in either order to
      the same disjoint union. */
  lemma MergeDisjoint(a: map<string, Node>, b: map<string, Node>)
    requires a.Keys !! b.Keys
    ensures Merge(a, b) == Some(a + b)
    ensures Merge(b, a) == Some(a + b)
  {
    forall k | k in a ensures MergeEntry(a[k], None) == Some(a[k]) {
      if a[k].Map? { MergeIntoEmpty(a[k].entries); }
    }
    forall k | k in b ensures MergeEntry(b[k], None) == Some(b[k]) {
      if b[k].Map? { MergeIntoEmpty(b[k].entries); }
    }
    MergeEqual(a, b, a + b);
    assert a + b == b + a;
    MergeEqual(b, a, b + a);
  }
}
