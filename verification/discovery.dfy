/**
  Which files `main` merges, and in what order.

  An argument naming a regular file is merged when its extension, taken
  WITH its leading dot, is one of the accepted extensions; a file met while
  walking a directory argument is merged when its extension WITHOUT the dot
  is. With the default extensions `yaml` and `yml` the first test never
  passes. Both tests are modelled as written.

  The file system is abstracted away: an argument is either a regular file
  with its parsed content, or a directory given as the files its walk
  yields, in walk order. A parsed content of `None` stands for a file the
  YAML parser rejects.
 */
module Discovery {
  import opened Tree

  /** The value of `--extension` when none is given. */
  const DefaultExtensions: seq<string> := ["yaml", "yml"]

  /** A file met while walking a directory: its base name and content. */
  datatype WalkedFile = WalkedFile(name: string, doc: Option<Node>)

  /** One command-line argument: a regular file, or anything else, which
      is walked as a directory (a missing path walks to nothing). */
  datatype Entry =
    | File(path: string, doc: Option<Node>)
    | Directory(files: seq<WalkedFile>)

  /** The index of the last occurrence of `c` in `s`, or -1 (`str.rfind`). */
  function LastIndexOf(s: string, c: char): (i: int)
    ensures -1 <= i < |s|
    ensures i >= 0 ==> s[i] == c
    ensures forall j | i < j < |s| :: s[j] != c
    decreases |s|
  {
    if |s| == 0 then -1
    else if s[|s| - 1] == c then |s| - 1
    else LastIndexOf(s[..|s| - 1], c)
  }

  /** `os.path.splitext` on POSIX paths: the extension is everything from
      the last dot of the last path component, provided that dot has a
      character other than a dot before it in that component (so `.bashrc`
      and `..` have no extension); the root is the rest. */
  function SplitExt(path: string): (r: (string, string))
    ensures r.0 + r.1 == path
    ensures r.1 == "" || (r.1[0] == '.' && '.' !in r.1[1..])
    ensures '/' !in r.1
    ensures r.1 != "" ==> exists i | LastIndexOf(r.0, '/') < i < |r.0| :: r.0[i] != '.'
    ensures r.1 == "" ==>
              forall j | LastIndexOf(path, '/') < j < |path| && path[j] == '.' ::
                forall i | LastIndexOf(path, '/') < i < j :: path[i] == '.'
  {
    var sep := LastIndexOf(path, '/');
    var dot := LastIndexOf(path, '.');
    if dot > sep && exists i | sep + 1 <= i < dot :: path[i] != '.' then
      LastIndexOfPrefix(path, '/', dot);
      var i :| sep + 1 <= i < dot && path[i] != '.';
      assert path[..dot][i] == path[i];
      (path[..dot], path[dot..])
    else
      (path, "")
  }

  /** Cutting a string after the last occurrence of `c` keeps that
      occurrence the last one. */
  lemma LastIndexOfPrefix(s: string, c: char, n: int)
    requires LastIndexOf(s, c) < n <= |s|
    ensures LastIndexOf(s[..n], c) == LastIndexOf(s, c)
  {
  }

  function Extension(path: string): string
  {
    SplitExt(path).1
  }

  /** `s.replace('.', '')`: `s` with every dot removed. */
  function RemoveDots(s: string): (r: string)
    ensures '.' !in r
    ensures '.' !in s ==> r == s
    ensures |r| <= |s|
  {
    if s == [] then []
    else (if s[0] == '.' then [] else [s[0]]) + RemoveDots(s[1..])
  }

  /** Removing dots works character by character: a dot disappears and
      any other character is kept. */
  lemma RemoveDotsChar(c: char)
    ensures RemoveDots([c]) == if c == '.' then [] else [c]
  {
  }

  /** Removing dots distributes over concatenation, so the characters that
      are not dots survive, in their order. */
  lemma {:induction false} RemoveDotsAppend(a: string, b: string)
    ensures RemoveDots(a + b) == RemoveDots(a) + RemoveDots(b)
    decreases |a|
  {
    if a == [] {
      assert a + b == b;
    } else {
      var head := if a[0] == '.' then [] else [a[0]];
      assert (a + b)[0] == a[0];
      assert (a + b)[1..] == a[1..] + b;
      RemoveDotsAppend(a[1..], b);
      AppendAssociates(head, RemoveDots(a[1..]), RemoveDots(b));
    }
  }

  /** The test applied to a file named on the command line. Only an
      accepted extension that is empty or starts with a dot can pass it. */
  function AcceptsNamed(path: string, extensions: seq<string>): (b: bool)
    ensures b ==> exists e | e in extensions :: e == "" || e[0] == '.'
  {
    Extension(path) in extensions
  }

  /** The test applied to a file found by walking a directory. Only an
      accepted extension without a dot can pass it. */
  function AcceptsWalked(name: string, extensions: seq<string>): (b: bool)
    ensures b ==> exists e | e in extensions :: '.' !in e
  {
    RemoveDots(Extension(name)) in extensions
  }

  /** True iff the last component of `base` has a character other than a
      dot, so that a dot appended after it starts an extension. */
  predicate HasStem(base: string)
  {
    exists i | LastIndexOf(base, '/') < i < |base| :: base[i] != '.'
  }

  /** The extension of `base.e`, for a base whose last component is not
      all dots and an extension free of dots and slashes, is `.e`. */
  lemma ExtensionOfDotted(base: string, e: string)
    requires HasStem(base)
    requires '.' !in e && '/' !in e
    ensures Extension(base + "." + e) == "." + e
  {
    var path := base + "." + e;
    var b := LastIndexOf(base, '/');
    var sep := LastIndexOf(path, '/');
    var dot := LastIndexOf(path, '.');
    assert path[|base|] == '.';
    forall j | |base| < j < |path| ensures path[j] != '.' && path[j] != '/' {
      assert path[j] == e[j - |base| - 1];
    }
    assert dot == |base|;
    assert forall j | 0 <= j < |base| :: path[j] == base[j];
    assert b >= 0 ==> path[b] == '/';
    assert sep == b;
    var i :| b < i < |base| && base[i] != '.';
    assert path[i] != '.';
    assert path[dot..] == "." + e;
  }

  /** For a file `base.e` the two tests disagree: walked, it is accepted
      iff `e` is listed; named, iff `.e` is listed. */
  lemma DottedNameAcceptance(base: string, e: string, extensions: seq<string>)
    requires HasStem(base)
    requires '.' !in e && '/' !in e
    ensures AcceptsWalked(base + "." + e, extensions) <==> e in extensions
    ensures AcceptsNamed(base + "." + e, extensions) <==> "." + e in extensions
  {
    ExtensionOfDotted(base, e);
    assert ("." + e)[1..] == e;
    assert RemoveDots("." + e) == RemoveDots(e);
  }

  /** Under the default extensions no file named on the command line is
      ever merged: its extension is empty or starts with a dot, and neither
      `yaml` nor `yml` does. */
  lemma NamedFilesSkippedByDefault(path: string)
    ensures !AcceptsNamed(path, DefaultExtensions)
  {
    var ext := Extension(path);
    assert ext == "" || ext[0] == '.';
    assert DefaultExtensions[0][0] == 'y' && DefaultExtensions[1][0] == 'y';
  }

  /** An accepted extension containing a dot never matches a walked file,
      since the walked test strips every dot first. */
  lemma WalkedNeverMatchesDotted(name: string, extensions: seq<string>)
    requires forall x | x in extensions :: '.' in x
    ensures !AcceptsWalked(name, extensions)
  {
  }

  /** The documents of the walked files whose names pass `accept`, in walk
      order. */
  function Walk(files: seq<WalkedFile>, accept: string -> bool): (r: seq<Option<Node>>)
    ensures |r| <= |files|
    decreases |files|
  {
    if files == [] then []
    else (if accept(files[0].name) then [files[0].doc] else []) + Walk(files[1..], accept)
  }

  /** Walking keeps exactly the accepted files: nothing when no name
      passes, and every file's document, in walk order, when all pass. */
  lemma {:induction false} WalkFilters(files: seq<WalkedFile>, accept: string -> bool)
    ensures (forall i | 0 <= i < |files| :: !accept(files[i].name)) ==> Walk(files, accept) == []
    ensures (forall i | 0 <= i < |files| :: accept(files[i].name)) ==>
              |Walk(files, accept)| == |files| && forall i | 0 <= i < |files| :: Walk(files, accept)[i] == files[i].doc
    decreases |files|
  {
    if files != [] {
      WalkFilters(files[1..], accept);
      assert forall i | 1 <= i < |files| :: files[1..][i - 1] == files[i];
    }
  }

  /** The documents of `entries`, in the order `main` merges them, where
      a named file is kept when its path passes `named` and a walked file
      when its name passes `walked`. */
  function DocumentsBy(entries: seq<Entry>, named: string -> bool, walked: string -> bool): seq<Option<Node>>
    decreases |entries|
  {
    if entries == [] then []
    else SelectedBy(entries[0], named, walked) + DocumentsBy(entries[1..], named, walked)
  }

  /** The documents one argument contributes. */
  function SelectedBy(entry: Entry, named: string -> bool, walked: string -> bool): seq<Option<Node>>
  {
    match entry
    case File(path, doc) => if named(path) then [doc] else []
    case Directory(files) => Walk(files, walked)
  }

  function NamedTest(extensions: seq<string>): string -> bool
  {
    path => AcceptsNamed(path, extensions)
  }

  function WalkedTest(extensions: seq<string>): string -> bool
  {
    name => AcceptsWalked(name, extensions)
  }

  /** The documents `main` merges under the accepted `extensions`. */
  function Documents(entries: seq<Entry>, extensions: seq<string>): (r: seq<Option<Node>>)
    ensures (forall i | 0 <= i < |entries| :: entries[i].File?) ==> |r| <= |entries|
    ensures (forall i | 0 <= i < |entries| :: entries[i].File? && AcceptsNamed(entries[i].path, extensions)) ==>
              |r| == |entries| && forall i | 0 <= i < |entries| :: r[i] == entries[i].doc
  {
    var named, walked := NamedTest(extensions), WalkedTest(extensions);
    if forall i | 0 <= i < |entries| :: entries[i].File? then
      NamedFilesInOrder(entries, named, walked);
      DocumentsBy(entries, named, walked)
    else
      DocumentsBy(entries, named, walked)
  }

  /** Walking is a filter: the documents of consecutive runs of files are
      the concatenation of each run's documents. */
  lemma {:induction false} WalkAppend(a: seq<WalkedFile>, b: seq<WalkedFile>, accept: string -> bool)
    ensures Walk(a + b, accept) == Walk(a, accept) + Walk(b, accept)
    decreases |a|
  {
    if a == [] {
      assert a + b == b;
    } else {
      assert (a + b)[0] == a[0];
      assert (a + b)[1..] == a[1..] + b;
      WalkAppend(a[1..], b, accept);
      var head := if accept(a[0].name) then [a[0].doc] else [];
      AppendAssociates(head, Walk(a[1..], accept), Walk(b, accept));
    }
  }

  /** The documents of a run split along its arguments. */
  lemma {:induction false} DocumentsAppend(a: seq<Entry>, b: seq<Entry>, named: string -> bool, walked: string -> bool)
    ensures DocumentsBy(a + b, named, walked) == DocumentsBy(a, named, walked) + DocumentsBy(b, named, walked)
    decreases |a|
  {
    if a == [] {
      assert a + b == b;
    } else {
      assert (a + b)[0] == a[0];
      assert (a + b)[1..] == a[1..] + b;
      DocumentsAppend(a[1..], b, named, walked);
      AppendAssociates(SelectedBy(a[0], named, walked), DocumentsBy(a[1..], named, walked), DocumentsBy(b, named, walked));
    }
  }

  /** Named files contribute one document each at most; when every
      argument is a named file that passes `named`, the documents are
      exactly theirs, in argument order. */
  lemma {:induction false} NamedFilesInOrder(entries: seq<Entry>, named: string -> bool, walked: string -> bool)
    requires forall i | 0 <= i < |entries| :: entries[i].File?
    ensures |DocumentsBy(entries, named, walked)| <= |entries|
    ensures (forall i | 0 <= i < |entries| :: named(entries[i].path)) ==>
              |DocumentsBy(entries, named, walked)| == |entries|
              && forall i | 0 <= i < |entries| :: DocumentsBy(entries, named, walked)[i] == entries[i].doc
    decreases |entries|
  {
    if entries != [] {
      var rest := DocumentsBy(entries[1..], named, walked);
      var head := SelectedBy(entries[0], named, walked);
      assert DocumentsBy(entries, named, walked) == head + rest;
      assert forall i | 1 <= i < |entries| :: entries[1..][i - 1] == entries[i];
      NamedFilesInOrder(entries[1..], named, walked);
    }
  }

  /** Under the default extensions, arguments that all name regular files
      contribute no document at all. */
  lemma {:induction false} NamedOnlyContributesNothing(entries: seq<Entry>)
    requires forall i | 0 <= i < |entries| :: entries[i].File?
    ensures Documents(entries, DefaultExtensions) == []
    decreases |entries|
  {
    if entries != [] {
      NamedOnlyContributesNothing(entries[1..]);
      NamedFilesSkippedByDefault(entries[0].path);
    }
  }
}
