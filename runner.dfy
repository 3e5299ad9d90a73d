/** The runner: it finds the Python files of a folder, fills in missing docstrings with
    the replies of the documentation service, and optionally formats the result.
    `ast.parse`, `ast.unparse` and black's `format_file_contents` are not modelled in
    their detail: they are the functions of a `Library` value. */
module Runner {
  import opened Wrappers
  import opened Syntax
  import opened Arena
  import opened TextFile
  import AutodocService
  import opened DocstringPass

  /** `black.Mode(target_versions=..., line_length=..., string_normalization=...)`. */
  datatype FormatMode = FormatMode(targetVersions: set<string>, lineLength: nat, stringNormalization: bool)

  /** The mode the runner formats with: Python 3.10, lines of up to 120 characters,
      string normalization on. */
  const RunnerMode := FormatMode({"PY310"}, 120, true)

  /** The `fast` flag passed to black: the equivalence check of the output stays on. */
  const Fast := false

  /** What black's formatter does with a text: a formatted text, or an exception
      (`NothingChanged` when the text is already formatted, `InvalidInput` when it does
      not parse). */
  datatype FormatOutcome = Formatted(text: string) | FormatRejected

  /** The foreign library calls. `parse` gives the node objects of a module (`None` when
      the text is not valid Python), `unparse` the source text of a tree, and `format`
      is `format_file_contents(src, fast, mode)`. */
  datatype Library = Library(
    parse: string -> Option<ParsedTree>,
    unparse: Node -> string,
    format: (string, bool, FormatMode) -> FormatOutcome)

  /** The exception that ends a run: the file cannot be opened, the text does not parse,
      or black refuses to format it. */
  datatype Error = FileNotFound | ParseFailed | FormatFailed

  datatype Status = Done | Failed(error: Error)

  /** The generator as the walk sees it: the service's reply for the unparsed unit. */
  function ReplyFor(service: AutodocService.Service, unparse: Node -> string): Node -> string
  {
    n => AutodocService.GenerateDocstring(service, unparse(n))
  }

  /** The text `add_docstring` leaves in a file holding `text`: `None` when the text does
      not parse; the text itself when no unit gets a docstring; otherwise the unparsed
      documented tree. */
  function Augment(lib: Library, service: AutodocService.Service, text: string): Option<string>
  {
    match lib.parse(text)
    case None => None
    case Some(a) =>
      var t0 := Tree(a, 0);
      var t1 := Document(ReplyFor(service, lib.unparse), t0);
      Some(if t1 == t0 then text else lib.unparse(t1))
  }

  /** The outcome of `process_file` on a file holding `text`, and the text it leaves. */
  function ProcessedText(lib: Library, service: AutodocService.Service, autoFormat: bool, text: string): (Status, string)
  {
    match Augment(lib, service, text)
    case None => (Failed(ParseFailed), text)
    case Some(out) =>
      if !autoFormat then (Done, out)
      else
        match lib.format(out, Fast, RunnerMode)
        case Formatted(f) => (Done, f)
        case FormatRejected => (Failed(FormatFailed), out)
  }

  /** `process_file(path)` on the files `files`. */
  function ProcessOne(lib: Library, service: AutodocService.Service, autoFormat: bool,
                      files: map<string, string>, path: string): (Status, map<string, string>)
  {
    if path !in files then (Failed(FileNotFound), files)
    else
      var (s, text) := ProcessedText(lib, service, autoFormat, files[path]);
      (s, files[path := text])
  }

  /** `process_file` on each path in turn; the first exception ends the run. */
  function RunFiles(lib: Library, service: AutodocService.Service, autoFormat: bool,
                    files: map<string, string>, paths: seq<string>): (Status, map<string, string>)
    decreases |paths|
  {
    if paths == [] then (Done, files)
    else
      var (s, files') := ProcessOne(lib, service, autoFormat, files, paths[0]);
      if s.Failed? then (s, files') else RunFiles(lib, service, autoFormat, files', paths[1..])
  }

  /** `name.endswith(".py")`. */
  predicate EndsWithPy(name: string)
  {
    |name| >= 3 && name[|name| - 3..] == ".py"
  }

  /** `os.path.join(root, name)` on POSIX: an absolute name replaces the root; otherwise a
      separator is put between them unless the root is empty or already ends in one. */
  function Join(root: string, name: string): string
  {
    if |name| > 0 && name[0] == '/' then name
    else if root == "" || root[|root| - 1] == '/' then root + name
    else root + "/" + name
  }

  /** One directory of `os.walk`: its path and the names of the files in it. */
  datatype WalkEntry = WalkEntry(root: string, files: seq<string>)

  /** The paths a directory contributes: its Python files, in listing order. */
  function Targets(root: string, names: seq<string>): seq<string>
  {
    if names == [] then []
    else (if EndsWithPy(names[0]) then [Join(root, names[0])] else []) + Targets(root, names[1..])
  }

  /** The paths `run_for_folder` processes, directory by directory. */
  function FolderTargets(walk: seq<WalkEntry>): seq<string>
  {
    if walk == [] then [] else Targets(walk[0].root, walk[0].files) + FolderTargets(walk[1..])
  }

  /** `endswith(".py")` holds exactly for the names made of some stem followed by ".py". */
  lemma EndsWithPyIff(name: string)
    ensures EndsWithPy(name) <==> exists stem :: name == stem + ".py"
  {
    if EndsWithPy(name) {
      assert name == name[..|name| - 3] + ".py";
    }
    forall stem | name == stem + ".py" ensures EndsWithPy(name) {
      assert name[|name| - 3..] == ".py";
    }
  }

  /** The joined path ends in the name. An absolute name is the whole path; a relative
      one comes after the root, at most one separator in between, and, when the root is
      not empty, right after a separator. */
  lemma JoinParts(root: string, name: string)
    ensures var p := Join(root, name); |name| <= |p| && p[|p| - |name|..] == name
    ensures |name| > 0 && name[0] == '/' ==> Join(root, name) == name
    ensures !(|name| > 0 && name[0] == '/') ==>
      var p := Join(root, name);
      root <= p && |p| <= |root| + 1 + |name| && (root != "" ==> p[|p| - |name| - 1] == '/')
  {
    var p := Join(root, name);
    if !(|name| > 0 && name[0] == '/') {
      if root == "" || root[|root| - 1] == '/' {
        assert p == root + name;
      } else {
        assert p == root + "/" + name;
        assert p[..|root|] == root;
      }
    }
  }

  /** Joining a directory in front of a name does not change whether it is a Python file. */
  lemma JoinKeepsSuffix(root: string, name: string)
    ensures EndsWithPy(Join(root, name)) <==> EndsWithPy(name)
  {
    var j := Join(root, name);
    if j != name {
      var pre := j[..|j| - |name|];
      assert j == pre + name;
      assert |pre| > 0 && pre[|pre| - 1] == '/';
      if |name| >= 3 {
        assert j[|j| - 3..] == name[|name| - 3..];
      } else if |j| >= 3 {
        assert j[|j| - 3..][2 - |name|] == '/';
      }
    }
  }

  /** The targets from the `j`-th name on: that name's path if it is a Python file,
      then the targets after it. */
  lemma TargetsStep(root: string, names: seq<string>, j: nat)
    requires j < |names|
    ensures Targets(root, names[j..])
         == (if EndsWithPy(names[j]) then [Join(root, names[j])] else []) + Targets(root, names[j + 1..])
  {
    assert names[j..][1..] == names[j + 1..];
  }

  /** The targets from the `i`-th directory on: that directory's, then the later ones. */
  lemma FolderTargetsStep(walk: seq<WalkEntry>, i: nat)
    requires i < |walk|
    ensures FolderTargets(walk[i..]) == Targets(walk[i].root, walk[i].files) + FolderTargets(walk[i + 1..])
  {
    assert walk[i..][1..] == walk[i + 1..];
  }

  /** A run over `[p] + rest` processes `p` and, unless that fails, runs over `rest`. */
  lemma RunFilesCons(lib: Library, service: AutodocService.Service, autoFormat: bool,
                     files: map<string, string>, p: string, rest: seq<string>)
    ensures var first := ProcessOne(lib, service, autoFormat, files, p);
      RunFiles(lib, service, autoFormat, files, [p] + rest)
        == if first.0.Failed? then first else RunFiles(lib, service, autoFormat, first.1, rest)
  {
    assert ([p] + rest)[0] == p && ([p] + rest)[1..] == rest;
  }

  /** A directory contributes exactly its names ending in ".py", joined to its path. */
  lemma {:induction false} TargetsExactly(root: string, names: seq<string>)
    ensures forall p :: p in Targets(root, names) <==>
      exists n :: n in names && EndsWithPy(n) && p == Join(root, n)
    ensures forall p :: p in Targets(root, names) ==> EndsWithPy(p)
  {
    if names != [] {
      TargetsExactly(root, names[1..]);
      JoinKeepsSuffix(root, names[0]);
      forall p | exists n :: n in names && EndsWithPy(n) && p == Join(root, n)
        ensures p in Targets(root, names)
      {
        var n :| n in names && EndsWithPy(n) && p == Join(root, n);
        if n != names[0] {
          assert n in names[1..];
        }
      }
    }
  }

  /** The folder run processes exactly the names ending in ".py" of every directory, and
      only Python files. */
  lemma {:induction false} FolderTargetsExactly(walk: seq<WalkEntry>)
    ensures forall p :: p in FolderTargets(walk) <==>
      exists i, n :: 0 <= i < |walk| && n in walk[i].files && EndsWithPy(n) && p == Join(walk[i].root, n)
    ensures forall p :: p in FolderTargets(walk) ==> EndsWithPy(p)
  {
    if walk != [] {
      FolderTargetsExactly(walk[1..]);
      TargetsExactly(walk[0].root, walk[0].files);
      forall p | exists i, n :: 0 <= i < |walk| && n in walk[i].files && EndsWithPy(n) && p == Join(walk[i].root, n)
        ensures p in FolderTargets(walk)
      {
        var i, n :| 0 <= i < |walk| && n in walk[i].files && EndsWithPy(n) && p == Join(walk[i].root, n);
        if i > 0 {
          assert walk[1..][i - 1] == walk[i];
        }
      }
      forall p | p in FolderTargets(walk)
        ensures exists i, n :: 0 <= i < |walk| && n in walk[i].files && EndsWithPy(n) && p == Join(walk[i].root, n)
      {
        if p !in Targets(walk[0].root, walk[0].files) {
          var i, n :| 0 <= i < |walk[1..]| && n in walk[1..][i].files && EndsWithPy(n) && p == Join(walk[1..][i].root, n);
          assert walk[i + 1] == walk[1..][i];
        }
      }
    }
  }

  /** `add_docstring` fails exactly when the text does not parse. Otherwise the file keeps
      its text when no unit gets a docstring, and holds the unparsed documented tree when
      one does. */
  lemma AugmentOutcome(lib: Library, service: AutodocService.Service, text: string)
    ensures Augment(lib, service, text).None? <==> lib.parse(text).None?
    ensures lib.parse(text).Some? ==>
      var reply := ReplyFor(service, lib.unparse);
      var t0 := Tree(lib.parse(text).value, 0);
      Augment(lib, service, text).value
        == if Count(InsertsBy(reply), t0) == 0 then text else lib.unparse(Document(reply, t0))
  {
    if lib.parse(text).Some? {
      DocumentUnchangedIff(ReplyFor(service, lib.unparse), Tree(lib.parse(text).value, 0));
    }
  }

  /** The outcome of processing one text: a parse failure leaves the text as it was; a
      format failure happens only with automatic formatting on and leaves the documented
      text; a missing file is never the outcome here; and without automatic formatting a
      success leaves the documented text. */
  lemma ProcessedTextOutcome(lib: Library, service: AutodocService.Service, autoFormat: bool, text: string)
    ensures var r := ProcessedText(lib, service, autoFormat, text);
      && (r.0 == Failed(ParseFailed) <==> lib.parse(text).None?)
      && (r.0 == Failed(ParseFailed) ==> r.1 == text)
      && (r.0 == Failed(FormatFailed) <==>
            (autoFormat && lib.parse(text).Some?
             && lib.format(Augment(lib, service, text).value, Fast, RunnerMode).FormatRejected?))
      && (r.0 == Failed(FormatFailed) ==> Augment(lib, service, text) == Some(r.1))
      && (r.0.Done? && !autoFormat ==> Augment(lib, service, text) == Some(r.1))
      && r.0 != Failed(FileNotFound)
  {
    AugmentOutcome(lib, service, text);
  }

  /** `process_file` on a path: a missing path is reported and changes nothing; otherwise
      only that path's text changes, to the text processing leaves. */
  lemma ProcessOneFrame(lib: Library, service: AutodocService.Service, autoFormat: bool,
                        files: map<string, string>, path: string)
    ensures var r := ProcessOne(lib, service, autoFormat, files, path);
      && r.1.Keys == files.Keys
      && (forall p :: p in files && p != path ==> r.1[p] == files[p])
      && (r.0 == Failed(FileNotFound) <==> path !in files)
      && (path !in files ==> r.1 == files)
      && (path in files ==> r.0 == ProcessedText(lib, service, autoFormat, files[path]).0
                            && r.1[path] == ProcessedText(lib, service, autoFormat, files[path]).1)
  {
    if path in files {
      ProcessedTextOutcome(lib, service, autoFormat, files[path]);
    }
  }

  /** A run changes only the files it is given, and never adds or removes a file. */
  lemma {:induction false} RunFilesFrame(lib: Library, service: AutodocService.Service, autoFormat: bool,
                                         files: map<string, string>, paths: seq<string>)
    ensures RunFiles(lib, service, autoFormat, files, paths).1.Keys == files.Keys
    ensures forall p :: p in files && p !in paths ==> RunFiles(lib, service, autoFormat, files, paths).1[p] == files[p]
    decreases |paths|
  {
    if paths != [] {
      var (s, files') := ProcessOne(lib, service, autoFormat, files, paths[0]);
      if s.Done? {
        RunFilesFrame(lib, service, autoFormat, files', paths[1..]);
        forall p | p in files && p !in paths
          ensures RunFiles(lib, service, autoFormat, files, paths).1[p] == files[p]
        {
          assert p !in paths[1..];
        }
      }
    }
  }

  /** A run over two lists of paths is the run over the first followed, unless it failed,
      by the run over the second from the files it left. */
  lemma {:induction false} RunFilesAppend(lib: Library, service: AutodocService.Service, autoFormat: bool,
                                          files: map<string, string>, ps: seq<string>, qs: seq<string>)
    ensures var first := RunFiles(lib, service, autoFormat, files, ps);
      RunFiles(lib, service, autoFormat, files, ps + qs)
        == if first.0.Failed? then first else RunFiles(lib, service, autoFormat, first.1, qs)
    decreases |ps|
  {
    if ps == [] {
      assert ps + qs == qs;
    } else {
      assert (ps + qs)[0] == ps[0] && (ps + qs)[1..] == ps[1..] + qs;
      var (s, files') := ProcessOne(lib, service, autoFormat, files, ps[0]);
      if s.Done? {
        RunFilesAppend(lib, service, autoFormat, files', ps[1..], qs);
      }
    }
  }

  /** A folder run leaves every file that is not a Python file exactly as it was. */
  lemma NonPythonFilesUntouched(lib: Library, service: AutodocService.Service, autoFormat: bool,
                                files: map<string, string>, walk: seq<WalkEntry>, p: string)
    requires p in files && !EndsWithPy(p)
    ensures p in RunFiles(lib, service, autoFormat, files, FolderTargets(walk)).1
    ensures RunFiles(lib, service, autoFormat, files, FolderTargets(walk)).1[p] == files[p]
  {
    FolderTargetsExactly(walk);
    RunFilesFrame(lib, service, autoFormat, files, FolderTargets(walk));
  }

  /** Without automatic formatting the formatter plays no part: the outcome is that of the
      docstring pass alone, whatever black would do. */
  lemma FormatterUnusedWithoutAutoFormat(lib: Library, lib': Library, service: AutodocService.Service, text: string)
    requires lib'.parse == lib.parse && lib'.unparse == lib.unparse
    ensures ProcessedText(lib, service, false, text) == ProcessedText(lib', service, false, text)
    ensures ProcessedText(lib, service, false, text).1 == match Augment(lib, service, text)
      case None => text
      case Some(out) => out
  {
  }

  /** Running the runner again on a file it has just documented leaves the file as it
      is, provided the parser reads back the tree it unparsed and no reply was blank
      (a blank reply is inserted, yet leaves its unit undocumented for the next run). */
  lemma SecondRunKeepsText(lib: Library, service: AutodocService.Service, text: string)
    requires lib.parse(text).Some?
    requires Count(DeclinedBy(ReplyFor(service, lib.unparse)), Tree(lib.parse(text).value, 0)) == 0
    requires var out := Augment(lib, service, text).value;
      lib.parse(out).Some?
      && Tree(lib.parse(out).value, 0) == Document(ReplyFor(service, lib.unparse), Tree(lib.parse(text).value, 0))
    ensures Augment(lib, service, Augment(lib, service, text).value) == Augment(lib, service, text)
  {
    var reply := ReplyFor(service, lib.unparse);
    var t0 := Tree(lib.parse(text).value, 0);
    SecondRunIsNoOp(reply, reply, t0);
  }

  /** The inner loop of `run_for_folder` after the first `j` names of `entry`, on files
      `files0` at its start: the files are `files` and `processed` the paths done, and what
      is left of the directory's run from here ends as the whole run would. */
  ghost predicate DirectoryAt(lib: Library, service: AutodocService.Service, autoFormat: bool,
                              files0: map<string, string>, entry: WalkEntry, j: nat,
                              files: map<string, string>, processed: seq<string>)
  {
    && j <= |entry.files|
    && RunFiles(lib, service, autoFormat, files0, Targets(entry.root, entry.files))
       == RunFiles(lib, service, autoFormat, files, Targets(entry.root, entry.files[j..]))
    && processed + Targets(entry.root, entry.files[j..]) == Targets(entry.root, entry.files)
  }

  /** A name that is not a Python file is passed over. */
  lemma DirectorySkip(lib: Library, service: AutodocService.Service, autoFormat: bool,
                      files0: map<string, string>, entry: WalkEntry, j: nat,
                      files: map<string, string>, processed: seq<string>)
    requires DirectoryAt(lib, service, autoFormat, files0, entry, j, files, processed) == true
    requires j < |entry.files| && !EndsWithPy(entry.files[j])
    ensures DirectoryAt(lib, service, autoFormat, files0, entry, j + 1, files, processed) == true
  {
    TargetsStep(entry.root, entry.files, j);
    assert Targets(entry.root, entry.files[j..]) == Targets(entry.root, entry.files[j + 1..]);
  }

  /** A Python file is processed: the run goes on from the files it leaves, or ends with
      its failure. */
  lemma DirectoryStep(lib: Library, service: AutodocService.Service, autoFormat: bool,
                      files0: map<string, string>, entry: WalkEntry, j: nat,
                      files: map<string, string>, processed: seq<string>,
                      status: Status, files': map<string, string>)
    requires DirectoryAt(lib, service, autoFormat, files0, entry, j, files, processed) == true
    requires j < |entry.files| && EndsWithPy(entry.files[j])
    requires (status, files') == ProcessOne(lib, service, autoFormat, files, Join(entry.root, entry.files[j]))
    ensures var processed' := processed + [Join(entry.root, entry.files[j])];
      && (status.Done? ==> DirectoryAt(lib, service, autoFormat, files0, entry, j + 1, files', processed') == true)
      && (status.Failed? ==>
            (status, files') == RunFiles(lib, service, autoFormat, files0, Targets(entry.root, entry.files))
            && processed' <= Targets(entry.root, entry.files))
  {
    var path := Join(entry.root, entry.files[j]);
    var rest := Targets(entry.root, entry.files[j + 1..]);
    TargetsStep(entry.root, entry.files, j);
    RunFilesCons(lib, service, autoFormat, files, path, rest);
    ConsStep(processed, path, rest, Targets(entry.root, entry.files));
  }

  /** Moving the head of what is left to the paths done keeps their concatenation. */
  lemma ConsStep(p: seq<string>, x: string, rest: seq<string>, whole: seq<string>)
    requires p + ([x] + rest) == whole
    ensures (p + [x]) + rest == whole && p + [x] <= whole
  {
    assert (p + [x]) + rest == p + ([x] + rest);
  }

  /** Once every name is passed, the directory's run is complete. */
  lemma DirectoryEnd(lib: Library, service: AutodocService.Service, autoFormat: bool,
                     files0: map<string, string>, entry: WalkEntry, j: nat,
                     files: map<string, string>, processed: seq<string>)
    requires DirectoryAt(lib, service, autoFormat, files0, entry, j, files, processed) == true
    requires j >= |entry.files|
    ensures (Done, files) == RunFiles(lib, service, autoFormat, files0, Targets(entry.root, entry.files))
    ensures processed == Targets(entry.root, entry.files)
  {
    assert entry.files[j..] == [];
  }

  /** The outer loop of `run_for_folder` after the first `i` directories of `walk`. */
  ghost predicate FolderAt(lib: Library, service: AutodocService.Service, autoFormat: bool,
                           files0: map<string, string>, walk: seq<WalkEntry>, i: nat,
                           files: map<string, string>, processed: seq<string>)
  {
    && i <= |walk|
    && RunFiles(lib, service, autoFormat, files0, FolderTargets(walk))
       == RunFiles(lib, service, autoFormat, files, FolderTargets(walk[i..]))
    && processed + FolderTargets(walk[i..]) == FolderTargets(walk)
  }

  /** A directory is run: the folder's run goes on from the files it leaves, or ends with
      its failure. */
  lemma FolderStep(lib: Library, service: AutodocService.Service, autoFormat: bool,
                   files0: map<string, string>, walk: seq<WalkEntry>, i: nat,
                   files: map<string, string>, processed: seq<string>,
                   status: Status, files': map<string, string>, done: seq<string>)
    requires FolderAt(lib, service, autoFormat, files0, walk, i, files, processed) == true && i < |walk|
    requires (status, files') == RunFiles(lib, service, autoFormat, files, Targets(walk[i].root, walk[i].files))
    requires done <= Targets(walk[i].root, walk[i].files)
    requires status.Done? ==> done == Targets(walk[i].root, walk[i].files)
    ensures status.Done? ==> FolderAt(lib, service, autoFormat, files0, walk, i + 1, files', processed + done) == true
    ensures status.Failed? ==>
      (status, files') == RunFiles(lib, service, autoFormat, files0, FolderTargets(walk))
      && processed + done <= FolderTargets(walk)
  {
    var here, later := Targets(walk[i].root, walk[i].files), FolderTargets(walk[i + 1..]);
    FolderTargetsStep(walk, i);
    RunFilesAppend(lib, service, autoFormat, files, here, later);
    PrefixStep(processed, done, here, later);
  }

  /** After `p`, a prefix `d` of `h` is a prefix of the whole, and all of `h` leaves `l`. */
  lemma PrefixStep(p: seq<string>, d: seq<string>, h: seq<string>, l: seq<string>)
    requires d <= h
    ensures p + d <= p + (h + l)
    ensures d == h ==> (p + d) + l == p + (h + l)
  {
    assert h == d + h[|d|..];
    assert p + (h + l) == (p + d) + (h[|d|..] + l);
  }

  /** Once every directory is run, the folder's run is complete. */
  lemma FolderEnd(lib: Library, service: AutodocService.Service, autoFormat: bool,
                  files0: map<string, string>, walk: seq<WalkEntry>, i: nat,
                  files: map<string, string>, processed: seq<string>)
    requires FolderAt(lib, service, autoFormat, files0, walk, i, files, processed) == true
    requires i >= |walk|
    ensures (Done, files) == RunFiles(lib, service, autoFormat, files0, FolderTargets(walk))
    ensures processed == FolderTargets(walk)
  {
    assert walk[i..] == [];
  }

  /** Every string literal the runner adds to a tree is a cleaned reply: it holds no
      double quote and no back-tick, so it cannot close the literal it is put in. */
  lemma InsertedLiteralsHaveNoDelimiters(lib: Library, service: AutodocService.Service, a: ParsedTree)
    ensures var t0 := Tree(a, 0);
      forall s :: s in Literals(Document(ReplyFor(service, lib.unparse), t0)) ==>
        s in Literals(t0) || AutodocService.NoDelimiters(s)
  {
    var reply := ReplyFor(service, lib.unparse);
    forall u ensures AutodocService.NoDelimiters(reply(u)) {
      assert reply(u) == AutodocService.GenerateDocstring(service, lib.unparse(u));
    }
    NewLiteralsAreReplies(reply, AutodocService.NoDelimiters, Tree(a, 0));
  }

  class Runner {
    const service: AutodocService.Service
    const autoFormat: bool
    const lib: Library

    constructor (service: AutodocService.Service, autoFormat: bool, lib: Library)
      ensures this.service == service && this.autoFormat == autoFormat && this.lib == lib
    {
      this.service := service;
      this.autoFormat := autoFormat;
      this.lib := lib;
    }

    /** `add_docstring(file)`: parse the text from the current position, walk the node
        objects breadth first, and give every unit without a docstring the non-empty
        reply of the service as statement 0, rewriting the whole file after each
        insertion. `examined` lists the units met by the walk and `sent` those whose
        source went to the service. */
    method AddDocstring(file: FileBuffer) returns (ok: bool, ghost examined: seq<nat>, ghost sent: seq<nat>)
      requires file.Valid()
      modifies file
      ensures file.Valid()
      ensures ok <==> lib.parse(old(file.content[file.pos..])).Some?
      ensures !ok ==> file.content == old(file.content)
      ensures ok ==>
        var a0 := lib.parse(old(file.content[file.pos..])).value;
        var t0 := Tree(a0, 0);
        var t1 := Document(ReplyFor(service, lib.unparse), t0);
        && file.content == (if t1 == t0 then old(file.content) else lib.unparse(t1))
        && (forall i :: i in examined <==> i in Reach(a0, 0) && i < |a0| && IsUnitCell(a0[i]))
        && (forall k, l :: 0 <= k < l < |examined| ==> examined[k] != examined[l])
        && (forall i :: i in sent <==> i in examined && i < |a0| && !HasDocstring(Tree(a0, i)))
        && (forall k, l :: 0 <= k < l < |sent| ==> sent[k] != sent[l])
        && (sent == [] <==> Pending(t0) == 0)
    {
      var src := file.Read();
      var parsed := lib.parse(src);
      examined, sent := [], [];
      if parsed.None? {
        return false, examined, sent;
      }
      ghost var a0 := parsed.value;
      ghost var reply := ReplyFor(service, lib.unparse);
      ghost var done: set<nat> := {};
      ghost var wrote := false;
      var tree := new SyntaxTree(parsed.value);
      var todo := [0];
      ProgressStart(a0, reply, lib.unparse, file.content);
      while todo != []
        invariant file.Valid()
        invariant Progress(a0, reply, lib.unparse, old(file.content),
                           PassState(tree.cells, todo, done, examined, sent, wrote, file.content, file.pos)) == true
        decreases Weight(a0, todo)
      {
        var u := todo[0];
        ghost var s := PassState(tree.cells, todo, done, examined, sent, wrote, file.content, file.pos);
        ProgressHead(a0, reply, lib.unparse, old(file.content), s);
        todo := todo[1..] + Kids(tree.cells[u]);
        var v := Visit(tree, file, u, a0);
        ProgressStep(a0, reply, lib.unparse, old(file.content), s, v, tree.cells, file.content, file.pos);
        if v.isUnit {
          examined := examined + [u];
        }
        if v.asked {
          sent := sent + [u];
        }
        wrote := wrote || v.inserted;
        done := done + {u};
      }
      ProgressEnd(a0, reply, lib.unparse, old(file.content),
                  PassState(tree.cells, todo, done, examined, sent, wrote, file.content, file.pos));
      file.Truncate();
      ok := true;
    }

    /** One pass of the loop body of `add_docstring` for node `u`, whose subtree is still
        as parsed: a unit without a docstring is sent to the service and, when the reply is
        non-empty, gets it as statement 0, after which the whole tree is written over the
        file from its start. */
    method Visit(tree: SyntaxTree, file: FileBuffer, u: nat, ghost a0: ParsedTree) returns (v: VisitResult)
      requires Ordered(tree.cells) && u < |a0| <= |tree.cells| && file.Valid()
      requires tree.cells[u] == a0[u] && Tree(tree.cells, u) == Tree(a0, u)
      modifies tree, file
      ensures file.Valid()
      ensures VisitOutcome(a0, u, ReplyFor(service, lib.unparse), lib.unparse,
                           old(tree.cells), old(file.content), old(file.pos), v, tree.cells, file.content, file.pos)
    {
      v := VisitResult(false, false, false);
      if IsUnitCell(tree.cells[u]) {
        var unit := Tree(tree.cells, u);
        v := v.(isUnit := true);
        if !HasDocstring(unit) {
          v := v.(asked := true);
          var docstring := AutodocService.GenerateDocstring(service, lib.unparse(unit));
          assert docstring == ReplyFor(service, lib.unparse)(Tree(a0, u));
          if docstring != "" {
            v := v.(inserted := true);
            tree.InsertFirst(u, docstring);
            var text := lib.unparse(Tree(tree.cells, 0));
            file.Rewind();
            ghost var before := file.content;
            file.Write(text);
            RewriteFromStart(before, text);
          }
        }
      }
    }

    /** `format_file(file)`: black's output replaces the whole file; when black raises,
        the file is left as it was. */
    method FormatFile(file: FileBuffer) returns (ok: bool)
      requires file.Valid()
      modifies file
      ensures file.Valid()
      ensures var outcome := lib.format(old(file.content), Fast, RunnerMode);
        ok == outcome.Formatted? && file.content == if ok then outcome.text else old(file.content)
    {
      file.Rewind();
      var contents := file.Read();
      var outcome := lib.format(contents, Fast, RunnerMode);
      if outcome.FormatRejected? {
        return false;
      }
      file.Rewind();
      ghost var before := file.content;
      file.Write(outcome.text);
      RewriteFromStart(before, outcome.text);
      file.Truncate();
      ok := true;
    }

    /** `process_file(path)`: open the file, add the docstrings and, with automatic
        formatting on, format it. `formatted` tells whether black was called. */
    method ProcessFile(fs: FileSystem, path: string) returns (status: Status, ghost formatted: bool)
      modifies fs
      ensures (status, fs.files) == ProcessOne(lib, service, autoFormat, old(fs.files), path)
      ensures formatted <==> path in old(fs.files) && autoFormat && Augment(lib, service, old(fs.files)[path]).Some?
    {
      formatted := false;
      if path !in fs.files {
        return Failed(FileNotFound), formatted;
      }
      var file := new FileBuffer.Open(fs.files[path]);
      assert file.content[file.pos..] == fs.files[path];
      ghost var examined, sent;
      var ok;
      ok, examined, sent := AddDocstring(file);
      status := if ok then Done else Failed(ParseFailed);
      if ok && autoFormat {
        formatted := true;
        var formattedOk := FormatFile(file);
        if !formattedOk {
          status := Failed(FormatFailed);
        }
      }
      fs.files := fs.files[path := file.content];
    }

    /** `run_for_file(path)`: only a path ending in ".py" is processed. */
    method RunForFile(fs: FileSystem, path: string) returns (status: Status)
      modifies fs
      ensures EndsWithPy(path) ==> (status, fs.files) == ProcessOne(lib, service, autoFormat, old(fs.files), path)
      ensures !EndsWithPy(path) ==> status == Done && fs.files == old(fs.files)
    {
      status := Done;
      if EndsWithPy(path) {
        ghost var formatted;
        status, formatted := ProcessFile(fs, path);
      }
    }

    /** `run_for_folder`: every Python file of every directory of the walk, in order; the
        first exception ends the run. `processed` lists the paths handed to
        `process_file`. */
    method RunForFolder(fs: FileSystem, walk: seq<WalkEntry>) returns (status: Status, ghost processed: seq<string>)
      modifies fs
      ensures (status, fs.files) == RunFiles(lib, service, autoFormat, old(fs.files), FolderTargets(walk))
      ensures processed <= FolderTargets(walk)
      ensures status.Done? ==> processed == FolderTargets(walk)
    {
      status, processed := Done, [];
      var i := 0;
      while i < |walk|
        invariant status.Done?
        invariant FolderAt(lib, service, autoFormat, old(fs.files), walk, i, fs.files, processed) == true
      {
        ghost var before := fs.files;
        ghost var done;
        status, done := RunForDirectory(fs, walk[i]);
        FolderStep(lib, service, autoFormat, old(fs.files), walk, i, before, processed, status, fs.files, done);
        processed := processed + done;
        if status.Failed? {
          return;
        }
        i := i + 1;
      }
      FolderEnd(lib, service, autoFormat, old(fs.files), walk, i, fs.files, processed);
    }

    /** The inner loop of `run_for_folder`: the Python files of one directory, in listing
        order, as `RunFiles` describes; the run stops at the first failure. */
    method RunForDirectory(fs: FileSystem, entry: WalkEntry) returns (status: Status, ghost processed: seq<string>)
      modifies fs
      ensures (status, fs.files) == RunFiles(lib, service, autoFormat, old(fs.files), Targets(entry.root, entry.files))
      ensures processed <= Targets(entry.root, entry.files)
      ensures status.Done? ==> processed == Targets(entry.root, entry.files)
    {
      status, processed := Done, [];
      var j := 0;
      assert entry.files[0..] == entry.files;
      while j < |entry.files|
        invariant status.Done?
        invariant DirectoryAt(lib, service, autoFormat, old(fs.files), entry, j, fs.files, processed) == true
      {
        var name := entry.files[j];
        if EndsWithPy(name) {
          var path := Join(entry.root, name);
          ghost var before := fs.files;
          ghost var formatted;
          status, formatted := ProcessFile(fs, path);
          DirectoryStep(lib, service, autoFormat, old(fs.files), entry, j, before, processed, status, fs.files);
          processed := processed + [path];
          if status.Failed? {
            return;
          }
        } else {
          DirectorySkip(lib, service, autoFormat, old(fs.files), entry, j, fs.files, processed);
        }
        j := j + 1;
      }
      DirectoryEnd(lib, service, autoFormat, old(fs.files), entry, j, fs.files, processed);
    }
  }
}
