/**
  One run of the tool: the selected documents are merged, in order, into
  an accumulator that starts as `{}`; an empty final mapping is the fatal
  "No merged data" outcome.

  A document is the parser's result for one file: `None` when parsing
  raised, otherwise the parsed node. Only a mapping can be merged; any other
  document (an empty file parses to null, a top-level list, a scalar) makes
  `merge` raise and the run abort.
 */
module Run {
  import opened Tree
  import opened DeepMerge
  import opened MergeLaws
  import opened Discovery

  /** How a run ends: the argument parser's usage error when no file
      argument is given (exit status 2), an uncaught exception (exit status
      1), the "No merged data" error (exit status 1), or the merged mapping
      written out (exit status 0). */
  datatype Outcome = UsageError | Crashed | NoMergedData | Merged(data: map<string, Node>)

  function ExitStatus(o: Outcome): (s: int)
    ensures s == 0 <==> o.Merged?
    ensures s == 2 <==> o.UsageError?
    ensures s == 1 <==> o.Crashed? || o.NoMergedData?
  {
    match o
    case UsageError => 2
    case Merged(_) => 0
    case _ => 1
  }

  /** Merging one document into the accumulator: only a mapping merges,
      and then exactly when it is compatible with the accumulator, adding
      its keys to the accumulator's. */
  function Step(acc: map<string, Node>, doc: Option<Node>): (r: Option<map<string, Node>>)
    ensures r.Some? <==> doc.Some? && doc.value.Map? && Compatible(doc.value.entries, acc)
    ensures r.Some? ==> r.value.Keys == acc.Keys + doc.value.entries.Keys
  {
    if doc.Some? && doc.value.Map? then Merge(doc.value.entries, acc) else None
  }

  /** Merging the documents in order into `acc`, stopping at the first
      failure. */
  function FoldFrom(acc: map<string, Node>, docs: seq<Option<Node>>): (r: Option<map<string, Node>>)
    ensures r.Some? ==> acc.Keys <= r.value.Keys
    ensures docs == [] ==> r == Some(acc)
    decreases |docs|
  {
    if docs == [] then Some(acc)
    else
      match Step(acc, docs[0])
      case None => None
      case Some(next) => FoldFrom(next, docs[1..])
  }

  /** A successful fold got past its first document. */
  lemma FoldFromCons(acc: map<string, Node>, docs: seq<Option<Node>>)
    requires docs != [] && FoldFrom(acc, docs).Some?
    ensures Step(acc, docs[0]).Some?
    ensures FoldFrom(acc, docs) == FoldFrom(Step(acc, docs[0]).value, docs[1..])
  {
  }

  /** Folding a single document is one merge step. */
  lemma FoldFromSingle(acc: map<string, Node>, doc: Option<Node>)
    ensures FoldFrom(acc, [doc]) == Step(acc, doc)
  {
    assert [doc][1..] == [];
  }

  /** The merge of all documents from `{}`: it succeeds only when every
      document is a mapping. */
  function Fold(docs: seq<Option<Node>>): (r: Option<map<string, Node>>)
    ensures r.Some? ==> forall i | 0 <= i < |docs| :: docs[i].Some? && docs[i].value.Map?
  {
    var r := FoldFrom(map[], docs);
    if r.Some? then FoldKeepsKeys(map[], docs); r else r
  }

  /** The outcome of merging `docs`: a crash exactly when some merge
      fails, and otherwise the merged mapping, which is written out only
      when it is not empty. */
  function RunDocuments(docs: seq<Option<Node>>): (o: Outcome)
    ensures !o.UsageError?
    ensures o.Crashed? <==> Fold(docs).None?
    ensures o.Merged? ==> o.data != map[] && Fold(docs) == Some(o.data)
    ensures o.NoMergedData? ==> Fold(docs) == Some(map[])
  {
    match Fold(docs)
    case None => Crashed
    case Some(data) => if data == map[] then NoMergedData else Merged(data)
  }

  /** True iff `doc` is a mapping that reaches `path` when merged. */
  predicate ReachesDoc(doc: Option<Node>, path: seq<string>)
  {
    doc.Some? && doc.value.Map? && Reaches(doc.value.entries, path)
  }

  /** The items of the sequence `doc` holds at `path`, if any. */
  function ListAt(doc: Option<Node>, path: seq<string>): seq<Node>
  {
    if doc.Some? && doc.value.Map? then Items(At(doc.value.entries, path)) else []
  }

  /** The sequences the documents hold at `path`, concatenated in order. */
  function Collected(docs: seq<Option<Node>>, path: seq<string>): seq<Node>
    decreases |docs|
  {
    if docs == [] then [] else ListAt(docs[0], path) + Collected(docs[1..], path)
  }

  /** Folding splits at any point: the second part continues from what the
      first part produced, and a failure in the first part is final. */
  lemma {:induction false} FoldAppend(acc: map<string, Node>, a: seq<Option<Node>>, b: seq<Option<Node>>)
    ensures FoldFrom(acc, a + b) ==
              match FoldFrom(acc, a)
              case None => None
              case Some(mid) => FoldFrom(mid, b)
    decreases |a|
  {
    if a == [] {
      assert a + b == b;
    } else {
      assert (a + b)[0] == a[0];
      assert (a + b)[1..] == a[1..] + b;
      match Step(acc, a[0])
      case None =>
      case Some(next) => FoldAppend(next, a[1..], b);
    }
  }

  /** A successful fold merged mappings only, and lost no key: every key of
      the accumulator and of every document is in the result. */
  lemma {:induction false} FoldKeepsKeys(acc: map<string, Node>, docs: seq<Option<Node>>)
    requires FoldFrom(acc, docs).Some?
    ensures acc.Keys <= FoldFrom(acc, docs).value.Keys
    ensures forall i | 0 <= i < |docs| ::
              && docs[i].Some? && docs[i].value.Map?
              && docs[i].value.entries.Keys <= FoldFrom(acc, docs).value.Keys
    decreases |docs|
  {
    if docs != [] {
      var next := Step(acc, docs[0]).value;
      FoldKeepsKeys(next, docs[1..]);
      forall i | 1 <= i < |docs|
        ensures docs[i].Some? && docs[i].value.Map?
        ensures docs[i].value.entries.Keys <= FoldFrom(acc, docs).value.Keys
      {
        assert docs[i] == docs[1..][i - 1];
      }
    }
  }

  /** Any document that is not a mapping (unparsable, empty, a top-level
      list or scalar) makes the run crash. */
  lemma NonMappingCrashes(docs: seq<Option<Node>>, i: int)
    requires 0 <= i < |docs|
    requires !(docs[i].Some? && docs[i].value.Map?)
    ensures RunDocuments(docs) == Crashed
  {
    if Fold(docs).Some? {
      FoldKeepsKeys(map[], docs);
    }
  }

  /** Folding documents that are all the empty mapping changes nothing. */
  lemma {:induction false} FoldEmptyDocuments(acc: map<string, Node>, docs: seq<Option<Node>>)
    requires forall i | 0 <= i < |docs| :: docs[i] == Some(Map(map[]))
    ensures FoldFrom(acc, docs) == Some(acc)
    decreases |docs|
  {
    if docs != [] {
      MergeEmptySource(acc);
      FoldEmptyDocuments(acc, docs[1..]);
    }
  }

  /** A run ends with "No merged data" exactly when every merged document
      is the empty mapping, in particular when no document was selected. */
  lemma NoMergedDataIff(docs: seq<Option<Node>>)
    ensures RunDocuments(docs) == NoMergedData <==> forall i | 0 <= i < |docs| :: docs[i] == Some(Map(map[]))
  {
    if forall i | 0 <= i < |docs| :: docs[i] == Some(Map(map[])) {
      FoldEmptyDocuments(map[], docs);
    }
    if RunDocuments(docs) == NoMergedData {
      FoldKeepsKeys(map[], docs);
      forall i | 0 <= i < |docs| ensures docs[i] == Some(Map(map[])) {
        assert docs[i].value.entries.Keys == {};
      }
    }
  }

  /** A path no document reaches keeps the accumulator's node. */
  lemma {:induction false} FoldKeepsUnreached(acc: map<string, Node>, docs: seq<Option<Node>>, path: seq<string>)
    requires FoldFrom(acc, docs).Some?
    requires |path| > 0
    requires forall j | 0 <= j < |docs| :: !ReachesDoc(docs[j], path)
    ensures At(FoldFrom(acc, docs).value, path) == At(acc, path)
    decreases |docs|
  {
    if docs != [] {
      var next := Step(acc, docs[0]).value;
      MergeKeepsUnreached(docs[0].value.entries, acc, path);
      FoldKeepsUnreached(next, docs[1..], path);
    }
  }

  /** True iff `doc` leaves the node at `path` in place: it does not reach
      `path`, or it holds exactly `{}` there. */
  predicate KeepsNodeAt(doc: Option<Node>, path: seq<string>)
  {
    !ReachesDoc(doc, path) || At(doc.value.entries, path) == Some(Map(map[]))
  }

  /** A node the accumulator holds at a path survives documents that leave
      it in place. */
  lemma {:induction false} FoldKeepsNode(acc: map<string, Node>, docs: seq<Option<Node>>, path: seq<string>)
    requires FoldFrom(acc, docs).Some?
    requires |path| > 0 && At(acc, path).Some?
    requires forall j | 0 <= j < |docs| :: KeepsNodeAt(docs[j], path)
    ensures At(FoldFrom(acc, docs).value, path) == At(acc, path)
    decreases |docs|
  {
    if docs != [] {
      var m := docs[0].value.entries;
      if Reaches(m, path) {
        EmptyMappingAtPathKeeps(m, acc, path);
      } else {
        MergeKeepsUnreached(m, acc, path);
      }
      FoldKeepsNode(Step(acc, docs[0]).value, docs[1..], path);
    }
  }

  /** The last document that writes a scalar at a path wins: when document
      `i` holds a scalar at `path` and every later document leaves `path`
      alone or holds only `{}` there, the scalar is the result's node. */
  lemma {:induction false} FoldLastScalarWins(acc: map<string, Node>, docs: seq<Option<Node>>, i: int, path: seq<string>, a: Atom)
    requires FoldFrom(acc, docs).Some?
    requires 0 <= i < |docs|
    requires docs[i].Some? && docs[i].value.Map? && At(docs[i].value.entries, path) == Some(Scalar(a))
    requires forall j | i < j < |docs| :: KeepsNodeAt(docs[j], path)
    ensures At(FoldFrom(acc, docs).value, path) == Some(Scalar(a))
    decreases |docs|
  {
    var next := Step(acc, docs[0]).value;
    if i == 0 {
      ScalarAtPathWins(docs[0].value.entries, acc, path, a);
      AtCons(docs[0].value.entries, path);
      FoldKeepsNode(next, docs[1..], path);
    } else {
      FoldLastScalarWins(next, docs[1..], i - 1, path, a);
    }
  }

  /** A path the merge has never written holds nothing: no absent path is
      read as a node by accident. */
  lemma {:induction false} UnreachedAbsent(m: map<string, Node>, path: seq<string>)
    requires |path| > 0 && !Reaches(m, path)
    ensures At(m, path) == None
    decreases |path|
  {
    AtCons(m, path);
    if path[0] in m {
      AtNodeCons(m[path[0]], path[1..]);
      UnreachedAbsent(m[path[0]].entries, path[1..]);
    }
  }

  /** An absent node or a sequence. */
  predicate ListOrAbsent(n: Option<Node>)
  {
    n.None? || n.value.List?
  }

  /** True iff `doc`, if it writes to `path` at all, writes a sequence
      exactly there. */
  predicate WritesListAt(doc: Option<Node>, path: seq<string>)
  {
    ReachesDoc(doc, path) ==> At(doc.value.entries, path).Some? && At(doc.value.entries, path).value.List?
  }

  /** One document's share of `FoldConcatenatesLists`. */
  lemma StepConcatenatesList(acc: map<string, Node>, doc: Option<Node>, path: seq<string>)
    requires Step(acc, doc).Some?
    requires |path| > 0
    requires ListOrAbsent(At(acc, path))
    requires WritesListAt(doc, path)
    ensures ListOrAbsent(At(Step(acc, doc).value, path))
    ensures Items(At(Step(acc, doc).value, path)) == Items(At(acc, path)) + ListAt(doc, path)
    ensures At(acc, path).Some? || ReachesDoc(doc, path) ==> At(Step(acc, doc).value, path).Some?
  {
    var m := doc.value.entries;
    if Reaches(m, path) {
      ListAtPathAppends(m, acc, path, At(m, path).value.items);
    } else {
      MergeKeepsUnreached(m, acc, path);
      UnreachedAbsent(m, path);
      assert Items(At(acc, path)) + [] == Items(At(acc, path));
    }
  }

  /** Sequences at the same path concatenate in document order: when every
      document reaching `path` holds a sequence there, the result holds the
      accumulator's sequence followed by all of theirs, with no
      deduplication or reordering. */
  lemma {:induction false} FoldConcatenatesLists(acc: map<string, Node>, docs: seq<Option<Node>>, path: seq<string>)
    requires FoldFrom(acc, docs).Some?
    requires |path| > 0
    requires ListOrAbsent(At(acc, path))
    requires forall j | 0 <= j < |docs| :: WritesListAt(docs[j], path)
    ensures ListOrAbsent(At(FoldFrom(acc, docs).value, path))
    ensures Items(At(FoldFrom(acc, docs).value, path)) == Items(At(acc, path)) + Collected(docs, path)
    decreases |docs|
  {
    if docs == [] {
      AppendNothing(Items(At(acc, path)));
    } else {
      FoldFromCons(acc, docs);
      var next := Step(acc, docs[0]).value;
      StepConcatenatesList(acc, docs[0], path);
      WritesListAtTail(docs, path);
      FoldConcatenatesLists(next, docs[1..], path);
      AppendAssociates(Items(At(acc, path)), ListAt(docs[0], path), Collected(docs[1..], path));
    }
  }

  /** The sequence-writing condition holds of the documents after the
      first. */
  lemma WritesListAtTail(docs: seq<Option<Node>>, path: seq<string>)
    requires docs != []
    requires forall j | 0 <= j < |docs| :: WritesListAt(docs[j], path)
    ensures forall j | 0 <= j < |docs[1..]| :: WritesListAt(docs[1..][j], path)
  {
  }

  /** Once the accumulator holds something at `path`, or some document
      writes there, the result holds something at `path`, provided every
      document reaching it holds a sequence there. */
  lemma {:induction false} FoldListPresent(acc: map<string, Node>, docs: seq<Option<Node>>, path: seq<string>, i: int)
    requires FoldFrom(acc, docs).Some?
    requires |path| > 0
    requires ListOrAbsent(At(acc, path))
    requires forall j | 0 <= j < |docs| :: WritesListAt(docs[j], path)
    requires At(acc, path).Some? || (0 <= i < |docs| && ReachesDoc(docs[i], path))
    ensures At(FoldFrom(acc, docs).value, path).Some?
    decreases |docs|
  {
    if docs != [] {
      StepConcatenatesList(acc, docs[0], path);
      FoldListPresent(Step(acc, docs[0]).value, docs[1..], path, i - 1);
    }
  }

  /** One document's share of `FoldExtendsList`. */
  lemma StepExtendsList(acc: map<string, Node>, doc: Option<Node>, path: seq<string>)
    requires Step(acc, doc).Some?
    requires |path| > 0
    requires At(acc, path).Some? && At(acc, path).value.List?
    requires WritesListAt(doc, path) || KeepsNodeAt(doc, path)
    ensures At(Step(acc, doc).value, path) == Some(List(At(acc, path).value.items + ListAt(doc, path)))
  {
    var m := doc.value.entries;
    if Reaches(m, path) && At(m, path) == Some(Map(map[])) {
      EmptyMappingAtPathKeeps(m, acc, path);
      AppendNothing(At(acc, path).value.items);
    } else {
      StepConcatenatesList(acc, doc, path);
    }
  }

  /** Once the accumulator holds a sequence at `path`, it only grows: each
      document reaching `path` with a sequence appends it, and each one
      holding `{}` there leaves the sequence as it is. */
  lemma {:induction false} FoldExtendsList(acc: map<string, Node>, docs: seq<Option<Node>>, path: seq<string>)
    requires FoldFrom(acc, docs).Some?
    requires |path| > 0
    requires At(acc, path).Some? && At(acc, path).value.List?
    requires forall j | 0 <= j < |docs| :: WritesListAt(docs[j], path) || KeepsNodeAt(docs[j], path)
    ensures At(FoldFrom(acc, docs).value, path) == Some(List(At(acc, path).value.items + Collected(docs, path)))
    decreases |docs|
  {
    if docs == [] {
      AppendNothing(At(acc, path).value.items);
    } else {
      FoldFromCons(acc, docs);
      var next := Step(acc, docs[0]).value;
      StepExtendsList(acc, docs[0], path);
      assert forall j | 0 <= j < |docs[1..]| :: docs[1..][j] == docs[j + 1];
      FoldExtendsList(next, docs[1..], path);
      AppendAssociates(At(acc, path).value.items, ListAt(docs[0], path), Collected(docs[1..], path));
    }
  }

  /** `Collected` distributes over concatenation. */
  lemma {:induction false} CollectedAppend(a: seq<Option<Node>>, b: seq<Option<Node>>, path: seq<string>)
    ensures Collected(a + b, path) == Collected(a, path) + Collected(b, path)
    decreases |a|
  {
    if a == [] {
      assert a + b == b;
    } else {
      assert (a + b)[0] == a[0];
      assert (a + b)[1..] == a[1..] + b;
      CollectedAppend(a[1..], b, path);
      AppendAssociates(ListAt(a[0], path), Collected(a[1..], path), Collected(b, path));
    }
  }

  /** The run-level form: starting from `{}`, when the first document to
      reach a path holds a sequence there and every later one holds a
      sequence or `{}` there, the result holds all those sequences
      concatenated in document order. */
  lemma RunConcatenatesLists(docs: seq<Option<Node>>, path: seq<string>, i: int)
    requires Fold(docs).Some?
    requires |path| > 0
    requires 0 <= i < |docs| && ReachesDoc(docs[i], path) && WritesListAt(docs[i], path)
    requires forall j | 0 <= j < i :: !ReachesDoc(docs[j], path)
    requires forall j | i < j < |docs| :: WritesListAt(docs[j], path) || KeepsNodeAt(docs[j], path)
    ensures At(Fold(docs).value, path) == Some(List(Collected(docs, path)))
  {
    var head, tail := docs[..i + 1], docs[i + 1..];
    assert docs == head + tail;
    FoldAppend(map[], head, tail);
    assert forall j | 0 <= j < |head| :: head[j] == docs[j];
    assert forall j | 0 <= j < |tail| :: tail[j] == docs[i + 1 + j];
    AtCons(map[], path);
    FoldConcatenatesLists(map[], head, path);
    FoldListPresent(map[], head, path, i);
    var mid := FoldFrom(map[], head).value;
    assert At(mid, path) == Some(List([] + Collected(head, path)));
    FoldExtendsList(mid, tail, path);
    CollectedAppend(head, tail, path);
    assert [] + Collected(head, path) == Collected(head, path);
  }

  /** The outcome of a run on the given arguments: the argument parser
      demands at least one file argument, and the documents the arguments
      select are merged otherwise. */
  function RunArguments(entries: seq<Entry>, extensions: seq<string>): (o: Outcome)
    ensures o.UsageError? <==> entries == []
  {
    if entries == [] then UsageError else RunDocuments(Documents(entries, extensions))
  }

  /** Merging one document through the in-place merge. */
  method MergeDocument(data: map<string, Node>, doc: Option<Node>) returns (r: Option<map<string, Node>>)
    ensures r == Step(data, doc)
    ensures r.Some? <==> doc.Some? && doc.value.Map? && Compatible(doc.value.entries, data)
  {
    if doc.Some? && doc.value.Map? {
      r := MergeInto(doc.value.entries, data);
    } else {
      r := None;
    }
  }

  /** The walk of one directory argument: every file whose name passes the
      walked test is merged, in walk order; the first failure aborts. */
  method MergeWalk(data: map<string, Node>, files: seq<WalkedFile>, walked: string -> bool)
    returns (r: Option<map<string, Node>>)
    ensures r == FoldFrom(data, Walk(files, walked))
  {
    var acc := data;
    var j := 0;
    while j < |files|
      invariant 0 <= j <= |files|
      invariant FoldFrom(data, Walk(files, walked)) == FoldFrom(acc, Walk(files[j..], walked))
    {
      assert files[j..][1..] == files[j + 1..];
      if walked(files[j].name) {
        var rest := Walk(files[j + 1..], walked);
        assert Walk(files[j..], walked) == [files[j].doc] + rest;
        assert ([files[j].doc] + rest)[1..] == rest;
        var next := MergeDocument(acc, files[j].doc);
        if next.None? {
          return None;
        }
        acc := next.value;
      } else {
        assert Walk(files[j..], walked) == Walk(files[j + 1..], walked);
      }
      j := j + 1;
    }
    return Some(acc);
  }

  /** The documents one argument contributes, merged into `data`. */
  method MergeArgument(data: map<string, Node>, entry: Entry, extensions: seq<string>)
    returns (r: Option<map<string, Node>>)
    ensures r == FoldFrom(data, SelectedBy(entry, NamedTest(extensions), WalkedTest(extensions)))
  {
    match entry
    case File(path, doc) =>
      assert NamedTest(extensions)(path) == AcceptsNamed(path, extensions);
      if AcceptsNamed(path, extensions) {
        FoldFromSingle(data, doc);
        r := MergeDocument(data, doc);
      } else {
        r := Some(data);
      }
    case Directory(files) =>
      r := MergeWalk(data, files, WalkedTest(extensions));
  }

  /** The argument loop of `main`: go through the arguments in order and
      merge every file that passes its extension test into `data`; the
      first failure aborts. */
  method MergeArguments(entries: seq<Entry>, extensions: seq<string>) returns (r: Option<map<string, Node>>)
    ensures r == Fold(Documents(entries, extensions))
  {
    var named, walked := NamedTest(extensions), WalkedTest(extensions);
    var data: map<string, Node> := map[];
    var i := 0;
    while i < |entries|
      invariant 0 <= i <= |entries|
      invariant Fold(Documents(entries, extensions)) == FoldFrom(data, DocumentsBy(entries[i..], named, walked))
    {
      assert entries[i..][1..] == entries[i + 1..];
      var selected := SelectedBy(entries[i], named, walked);
      var rest := DocumentsBy(entries[i + 1..], named, walked);
      assert DocumentsBy(entries[i..], named, walked) == selected + rest;
      FoldAppend(data, selected, rest);
      var next := MergeArgument(data, entries[i], extensions);
      if next.None? {
        return None;
      }
      data := next.value;
      i := i + 1;
    }
    return Some(data);
  }

  /** `main`: refuse an empty argument list, merge the arguments, and
      finish with the merged mapping, or with "No merged data" when it is
      empty. */
  method Execute(entries: seq<Entry>, extensions: seq<string>) returns (o: Outcome)
    ensures o == RunArguments(entries, extensions)
  {
    if entries == [] {
      return UsageError;
    }
    var merged := MergeArguments(entries, extensions);
    if merged.None? {
      return Crashed;
    }
    if merged.value == map[] {
      return NoMergedData;
    }
    return Merged(merged.value);
  }

  /** Once the documents of the first `n` arguments fail to merge, the
      whole run crashes. */
  lemma CrashIsFinal(entries: seq<Entry>, n: int, extensions: seq<string>)
    requires 0 <= n <= |entries|
    requires Fold(Documents(entries[..n], extensions)) == None
    ensures RunDocuments(Documents(entries, extensions)) == Crashed
  {
    assert entries[..n] + entries[n..] == entries;
    DocumentsAppend(entries[..n], entries[n..], NamedTest(extensions), WalkedTest(extensions));
    FoldAppend(map[], Documents(entries[..n], extensions), Documents(entries[n..], extensions));
  }

  /** Under the default extensions, a run given only file names merges
      nothing and ends with "No merged data" (with no name at all, the
      argument parser's usage error ends it first). */
  lemma NamedOnlyRunHasNoData(entries: seq<Entry>)
    requires forall i | 0 <= i < |entries| :: entries[i].File?
    ensures entries != [] ==> RunArguments(entries, DefaultExtensions) == NoMergedData
    ensures ExitStatus(RunArguments(entries, DefaultExtensions)) == if entries == [] then 2 else 1
  {
    NamedOnlyContributesNothing(entries);
  }
}
