# yaml-merge in Dafny

A model of `yaml-merge.py`, a command-line script that merges several YAML
documents into one. The script:

- takes a list of arguments;
- merges every regular file whose extension is accepted, plus every
  accepted file found by walking each other argument as a directory;
- merges them in order into an accumulator that starts as `{}`;
- prints the result, or logs "No merged data" and exits with status 1
  when the result is empty.

The model covers three parts of the script:

- **the deep merge** `merge(source, destination)`;
- **the selection of files** by extension;
- **the run**, which folds the selected documents and decides the outcome.

A parsed YAML document is a `Tree.Node`: a mapping with string keys, a
sequence, or a scalar (null included).

## Modules

- `tree.dfy` (`Tree`): the node type, `Option`, dictionary lookup, and
  paths into nested mappings.
- `deep_merge.dfy` (`DeepMerge`): `merge` as a total function that returns
  `None` where the script raises. It has an independent success
  characterisation (`Compatible`) and the per-type rules, one key at a
  time. `MergeInto` replays the script's in-place loop over the source
  keys, in an arbitrary order, and is proved equal to the function.
- `merge_laws.dfy` (`MergeLaws`): the rules lifted to arbitrary paths;
  idempotence without sequences; doubling of sequences; disjoint sources.
- `discovery.dfy` (`Discovery`): Python's `os.path.splitext` on POSIX
  paths, and the two extension tests; walks and arguments turned into the
  ordered list of documents.
- `run.dfy` (`Run`): the fold over the documents, the outcome and exit
  status, and `Execute`, the argument loop of `main`, proved equal to the
  fold.
- `scenarios.dfy` (`Scenario`): four concrete runs worked through the
  model.

## Behaviour as the code has it

How the script behaves, as modelled:

- The fold always starts from `{}`.
- A type clash is not coerced. `setdefault` keeps an existing entry
  whatever its type, so:
  - a sequence over a non-sequence (null included) makes `extend` raise;
  - a non-empty mapping over a non-mapping makes the recursive `merge`
    raise.
- An empty mapping over a non-mapping leaves the entry untouched, because
  the recursive call has no key to visit.
- Scalars, null included, always overwrite.
- With no file argument at all, the argument parser stops the run with
  its usage error (exit status 2) before anything is merged.
- Any exception aborts the run, which is modelled as the outcome `Crashed`.
  The exceptions come from:
  - a merge failure;
  - an unparsable file;
  - a document that is not a mapping (an empty file parses to null).

The two extension tests are modelled as written:

- A file named on the command line is kept when `splitext(path)[1]` is one
  of the accepted extensions. That value includes its leading dot.
- A walked file is kept when that value, with every dot removed, is one of
  them.
- So with the default extensions `yaml` and `yml`, a file named directly is
  never merged (`NamedFilesSkippedByDefault`, `NamedOnlyRunHasNoData`).

## Model

| member | source | states |
|---|---|---|
| DeepMerge.Merge | yaml-merge.py:24-35 | `merge`: it succeeds exactly when source and destination are compatible (no sequence over a non-sequence, no non-empty mapping over a non-mapping, at any depth); the result has the keys of both, and destination-only keys keep their values |
| DeepMerge.MergeEntry | yaml-merge.py:26-34 | one key's new entry: it fails exactly when the source value and the existing entry are incompatible at some depth |
| DeepMerge.MergeInto | yaml-merge.py:24-35 | the key-by-key in-place loop, visiting the source keys in any order and stopping at the first failing key, ends with exactly the merge function's result |
| DeepMerge.MergeIntoEmpty | yaml-merge.py:26-34 | merging any mapping into `{}` never fails and reproduces the source (the first document of a run is copied as is) |
| DeepMerge.MergeEmptySource | yaml-merge.py:25 | merging an empty source leaves the destination unchanged |
| DeepMerge.ScalarOverwrites | yaml-merge.py:33-34 | a scalar source entry, null included, never causes a failure and replaces whatever the destination held |
| DeepMerge.ListAppends | yaml-merge.py:30-32 | a sequence is appended after the existing sequence (absent counts as `[]`), in order and without deduplication; an existing non-sequence makes the merge fail |
| DeepMerge.MappingRecurses | yaml-merge.py:26-29 | a mapping is copied where absent and merged recursively into an existing mapping; over a non-mapping, an empty mapping keeps the entry and a non-empty one fails |
| MergeLaws.MergeKeepsUnreached | yaml-merge.py:24-35 | a path the source neither writes nor passes through a non-mapping keeps its destination node, or stays absent |
| MergeLaws.ScalarAtPathWins | yaml-merge.py:26-34 | a scalar the source holds at any depth is the result's node at that path |
| MergeLaws.EmptyMappingAtPathKeeps | yaml-merge.py:26-29 | an empty mapping the source holds at any depth leaves the destination's node there unchanged, whatever its type, and creates `{}` where there was nothing |
| MergeLaws.ListAtPathAppends | yaml-merge.py:26-32 | a sequence the source holds at any depth lands after the destination's sequence at that path, and success implies the destination held a sequence or nothing there |
| MergeLaws.MergeAgainSucceeds | yaml-merge.py:24-35 | a source that merged once merges again into the result |
| MergeLaws.MergeTwiceWithoutLists | yaml-merge.py:24-35 | without sequences, merging the same source twice equals merging it once |
| MergeLaws.MergeTwiceRepeatsList | yaml-merge.py:30-32 | merging a source twice appends each of its sequences twice |
| MergeLaws.MergeDisjoint | yaml-merge.py:24-35 | sources with disjoint keys merge, in either order, to their union |
| Discovery.SplitExt | yaml-merge.py:49 | `os.path.splitext`: root and extension concatenate back to the path; a non-empty extension is the last dot of the last component and what follows it, and the root's part of that component has a character other than a dot; the extension is empty only when every dot of the last component has only dots before it in that component |
| Discovery.RemoveDots | yaml-merge.py:59 | removing dots leaves no dot, and a dot-free string unchanged |
| Discovery.RemoveDotsChar | yaml-merge.py:59 | a single dot is removed and any other single character kept |
| Discovery.RemoveDotsAppend | yaml-merge.py:59 | removing dots distributes over concatenation, so the other characters survive in order |
| Discovery.AcceptsNamed | yaml-merge.py:49 | the test for a named file: it can pass only an accepted extension that is empty or starts with a dot |
| Discovery.AcceptsWalked | yaml-merge.py:59 | the test for a walked file: it can pass only an accepted extension without a dot |
| Discovery.DottedNameAcceptance | yaml-merge.py:49-59 | for `base.e`, where `e` has no dot or slash and the last component of `base` has a character other than a dot (exactly the case where `splitext` splits off `.e`), the walked test accepts iff `e` is listed, and the named test accepts iff `.e` is listed |
| Discovery.NamedFilesSkippedByDefault | yaml-merge.py:19-51 | under the default extensions `yaml` and `yml`, no file named on the command line passes the test |
| Discovery.WalkedNeverMatchesDotted | yaml-merge.py:59-61 | an accepted extension that contains a dot never matches a walked file |
| Discovery.Walk | yaml-merge.py:57-61 | walking a directory keeps at most one document per file |
| Discovery.WalkFilters | yaml-merge.py:57-65 | a walk whose names all fail the test contributes nothing, and one whose names all pass contributes every file's document, in walk order |
| Discovery.WalkAppend | yaml-merge.py:57-65 | the documents of consecutive runs of walked files concatenate, in walk order |
| Discovery.DocumentsAppend | yaml-merge.py:47-65 | the documents of consecutive arguments concatenate, in argument order |
| Discovery.Documents | yaml-merge.py:47-65 | the documents `main` merges, in argument order: a regular file contributes its document when the line-49 test passes, and a directory its accepted files through its walk; its contract gives at most one document per argument when all arguments are regular files, and exactly their documents in order when all pass the test (with `DocumentsAppend`, `WalkFilters` and `NamedFilesInOrder` characterising the selection) |
| Discovery.NamedFilesInOrder | yaml-merge.py:47-54 | the documents of the arguments `main` merges, when all arguments are regular files: at most one per file, and when every file passes the test, exactly their documents in argument order |
| Discovery.NamedOnlyContributesNothing | yaml-merge.py:19-51 | under the default extensions, arguments that all name regular files contribute no document |
| Run.ExitStatus | yaml-merge.py:20-75 | exit status 0 exactly when merged data is written, 2 exactly for the usage error, and 1 for a crash or "No merged data" |
| Run.Step | yaml-merge.py:54 | merging one document: it succeeds exactly when the document is a mapping compatible with the accumulator, and adds its keys |
| Run.FoldFrom | yaml-merge.py:46-65 | merging documents in order into an accumulator: no document removes a key, and with no document the accumulator is the result |
| Run.Fold | yaml-merge.py:46-65 | the run's merge from `{}`: it succeeds only when every selected document is a mapping |
| Run.RunDocuments | yaml-merge.py:67-75 | the outcome of the merged documents: a crash exactly when some merge fails, the merged mapping only when it is not empty, "No merged data" only for `{}` |
| Run.RunArguments | yaml-merge.py:20 | the usage error happens exactly when no argument is given |
| Run.FoldAppend | yaml-merge.py:46-65 | merging two batches of documents in turn is merging their concatenation, and a failure in the first batch is final |
| Run.FoldKeepsKeys | yaml-merge.py:46-65 | a successful run merged only mappings, and its result holds every key of every document |
| Run.NonMappingCrashes | yaml-merge.py:54-65 | any selected document that is unparsable, empty, a sequence or a scalar makes the run crash |
| Run.NoMergedDataIff | yaml-merge.py:67-75 | the run ends with "No merged data" iff every merged document is the empty mapping, so in particular when none was selected |
| Run.FoldKeepsUnreached | yaml-merge.py:46-65 | a path that no document writes keeps the node it had in the starting mapping |
| Run.FoldKeepsNode | yaml-merge.py:46-65 | a node the accumulator holds at a path survives documents that do not reach the path or hold only `{}` there |
| Run.FoldLastScalarWins | yaml-merge.py:46-65 | the last document writing a scalar at a path decides the result there; later documents holding only `{}` there do not change it |
| Run.FoldConcatenatesLists | yaml-merge.py:46-65 | when the accumulator holds a sequence or nothing at a path and every document reaching the path holds a sequence there, the result holds the accumulator's sequence followed by the documents' sequences, in document order |
| Run.FoldListPresent | yaml-merge.py:46-65 | under the same conditions (every document reaching the path holds a sequence there, the accumulator a sequence or nothing), the result holds a node at the path when the accumulator held one or some document reaches it |
| Run.FoldExtendsList | yaml-merge.py:26-65 | once the accumulator holds a sequence at a path, documents holding a sequence there append it and documents holding `{}` there leave it as it is, so the result is the accumulator's sequence followed by the documents' sequences |
| Run.RunConcatenatesLists | yaml-merge.py:46-65 | from `{}`, when the first document to reach a path holds a sequence there and each later one reaching it holds a sequence or `{}`, the result at the path is exactly the documents' sequences concatenated in order |
| Run.MergeDocument | yaml-merge.py:54-65 | merging one parsed document into the data is the merge step: it fails exactly when the document is not a mapping compatible with the data |
| Run.MergeWalk | yaml-merge.py:57-65 | walking one directory merges its accepted files in walk order and stops at the first failure |
| Run.MergeArgument | yaml-merge.py:47-65 | one argument merges its own documents: a named file if its extension passes, a directory through its walk |
| Run.MergeArguments | yaml-merge.py:46-65 | the argument loop of `main` ends with the fold of the selected documents, in argument order, stopping at the first failure |
| Run.Execute | yaml-merge.py:20-75 | a run ends with the usage error when there is no argument, and otherwise as the fold of the selected documents says: crashed, "No merged data", or the merged mapping |
| Run.CrashIsFinal | yaml-merge.py:46-65 | once the documents of the first arguments fail to merge, the whole run crashes |
| Run.NamedOnlyRunHasNoData | yaml-merge.py:19-75 | under the default extensions, a run whose arguments are all regular files ends with "No merged data" and exit status 1, and with no argument the usage error's status 2 |
| Scenario.OverlayExample | yaml-merge.py:24-65 | `{db: {host: h1, ports: [1]}}` then `{db: {host: h2, ports: [2]}}` merge to `{db: {host: h2, ports: [1, 2]}}` |
| Scenario.ListOverScalarCrashes | yaml-merge.py:30-32 | `{a: 1}` then `{a: [2]}` crashes the run, with exit status 1 |
| Scenario.ScalarSurvivesEmptyMapping | yaml-merge.py:28-29 | `{a: 1}` then `{a: {}}` merge to `{a: 1}` |
| Scenario.SequenceSurvivesEmptyMapping | yaml-merge.py:26-32 | `{a: [1]}`, then `{a: {}}`, then `{a: [2]}` merge to `{a: [1, 2]}` |

## Left out

- Argument parsing, `--verbose`, `--debug` and logging are left out. They do not affect what is merged. Of the parser, only the usage error for an empty file list is modelled.
- `--dry` is declared but never used by the script, so it is not modelled.
- The output sink is left out: `--output`, `yaml.dump` and printing. The model stops at the merged mapping.
- `os.path.isfile` and `os.walk` are left out. An argument is given as a regular file with its content, or as the files its walk yields, in walk order. Names are taken as the base names `os.walk` reports.
- Reading files and `yaml.load` are left out. A document is given already parsed. `None` stands for every file whose reading raises: a file the parser rejects, one that cannot be opened (a broken symbolic link that `os.walk` lists, a permission error), or one whose bytes are not valid UTF-8. Each of these raises at `open` (yaml-merge.py lines 53 and 64) or inside `yaml.load`, and the run crashes. This assumes a PyYAML release where `yaml.load(fh)` without a `Loader` argument still parses (before 6.0); on PyYAML 6 that call raises `TypeError` for every file, and every run that selects a file crashes.
- Non-string mapping keys are left out. Keys are strings.
- The contents of floats, dates and other tagged scalars are left out. Scalars are opaque, since merging never looks inside one.
- Python object identity and aliasing are left out. Between the documents and the accumulator this loses nothing, because the merge copies every container it creates.
- Recursive YAML anchors are left out. A document such as `a: &x {b: *x}` parses to a mapping that contains itself. `merge` recurses on it until Python raises `RecursionError` and the run crashes. A `Tree.Node` is a finite tree and cannot express such a document.
- The partly-updated accumulator left behind when an exception is raised is left out. The exception ends the run anyway.
- The exit status of an uncaught Python exception is taken to be 1, as CPython reports it (`Run.ExitStatus`).
