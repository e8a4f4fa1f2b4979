/**
  * The commands of autogpt/commands/file_operations.py on a workspace that
  * changes in place. A `FileStore` holds the settings and the files and
  * directories of the filesystem; each command updates them step by step
  * as the source does and is proved to end in the state, with the message,
  * that the transition functions of `Operations` and `Search` and the
  * chunking of `Chunker` and `Ingest` prescribe.
  */
module FileOperations {
  import opened Wrappers
  import opened Paths
  import opened OperationLog
  import opened Workspace
  import opened Operations
  import opened Search
  import opened Chunker
  import opened Ingest

  /** The paths a list holds. */
  function Elements(s: seq<string>): set<string>
  {
    set p | p in s
  }

  /** What `search_files` reports for the files among `ks`. */
  function FoundAmong(cfg: Config, fs: Fs, sd: FileKey, ks: set<FileKey>): set<string>
  {
    set k | k in ks && Listed(fs, sd, k) :: RelPath(k, cfg.rootDirs)
  }

  /** Visiting one more file adds its path to the list exactly when it is listed. */
  lemma FoundStep(cfg: Config, fs: Fs, sd: FileKey, visited: set<FileKey>, k: FileKey, found: seq<string>)
    requires Elements(found) == FoundAmong(cfg, fs, sd, visited)
    ensures Listed(fs, sd, k) ==>
      Elements(found + [RelPath(k, cfg.rootDirs)]) == FoundAmong(cfg, fs, sd, visited + {k})
    ensures !Listed(fs, sd, k) ==> Elements(found) == FoundAmong(cfg, fs, sd, visited + {k})
  {
    FoundAmongAdd(cfg, fs, sd, visited, k);
    ElementsSnoc(found, RelPath(k, cfg.rootDirs));
  }

  lemma FoundAmongAdd(cfg: Config, fs: Fs, sd: FileKey, visited: set<FileKey>, k: FileKey)
    ensures Listed(fs, sd, k) ==>
      FoundAmong(cfg, fs, sd, visited + {k}) == FoundAmong(cfg, fs, sd, visited) + {RelPath(k, cfg.rootDirs)}
    ensures !Listed(fs, sd, k) ==> FoundAmong(cfg, fs, sd, visited + {k}) == FoundAmong(cfg, fs, sd, visited)
  {
  }

  /** The files among `ks` that `search_files` keeps. */
  function ListedAmong(fs: Fs, sd: FileKey, ks: set<FileKey>): set<FileKey>
  {
    set k | k in ks && Listed(fs, sd, k)
  }

  /** Visiting a new file adds one to the count of kept files exactly when it is listed. */
  lemma ListedAmongAdd(fs: Fs, sd: FileKey, visited: set<FileKey>, k: FileKey)
    requires k !in visited
    ensures Listed(fs, sd, k) ==> |ListedAmong(fs, sd, visited + {k})| == |ListedAmong(fs, sd, visited)| + 1
    ensures !Listed(fs, sd, k) ==> ListedAmong(fs, sd, visited + {k}) == ListedAmong(fs, sd, visited)
  {
    if Listed(fs, sd, k) {
      assert ListedAmong(fs, sd, visited + {k}) == ListedAmong(fs, sd, visited) + {k};
    }
  }

  lemma ElementsSnoc(s: seq<string>, p: string)
    ensures Elements(s + [p]) == Elements(s) + {p}
  {
    assert forall q :: q in s + [p] <==> q in s || q == p;
  }

  class FileStore {
    /** The components of `WORKING_DIRECTORY`. */
    const rootDirs: seq<string>
    /** `CFG.working_directory_restricted`. */
    const restricted: bool
    var files: map<FileKey, string>
    var dirs: set<FileKey>

    function Settings(): Config
    {
      Config(rootDirs, restricted)
    }

    function State(): Fs
      reads this
    {
      Fs(files, dirs)
    }

    /** The working directory exists and the tree is well formed. */
    predicate Valid()
      reads this
    {
      Workspace.Valid(Settings(), State())
    }

    /**
      * Lines 9-13, run when the module is imported: the working directory
      * is created, with any missing parent, unless something exists there.
      */
    constructor (root: seq<string>, restrict: bool, files0: map<FileKey, string>, dirs0: set<FileKey>)
      requires AllNames(root) && WellFormed(Fs(files0, dirs0))
      requires root !in files0 && EnsureDir(Fs(files0, dirs0), root).Success?
      ensures Settings() == Config(root, restrict)
      ensures State() == EnsureDir(Fs(files0, dirs0), root).value
      ensures Valid()
    {
      rootDirs := root;
      restricted := restrict;
      files := files0;
      dirs := dirs0;
      new;
      EnsureDirShape(Fs(files0, dirs0), root);
      if !(root in dirs0 || root in files0) {
        dirs := dirs + Lineage(root);
      }
    }

    /**
      * `read_file`: the file opened in text mode and read whole. The class
      * form of `Workspace.ReadFile`, run on the store's fields.
      */
    method ReadFile(filename: string) returns (content: string)
      ensures content == Workspace.ReadFile(Settings(), State(), filename)
    {
      var r := Resolve(Settings(), filename);
      if r.Failure? {
        return ErrorText(r.error);
      }
      var e := OpenError(State(), r.value, false);
      if e.Some? {
        return ErrorText(e.value);
      }
      content := TextModeRead(files[r.value]);
    }

    /**
      * `check_duplicate_operation`: reads the log and looks for the entry in
      * it. The class form of `Workspace.CheckDuplicate`.
      */
    method CheckDuplicateOperation(operation: string, filename: string) returns (found: bool)
      ensures found == CheckDuplicate(Settings(), State(), operation, filename)
    {
      var logContent := ReadFile(LogFile);
      var logEntry := Entry(operation, filename);
      found := Occurs(logEntry, logContent);
    }

    /** `open(safe_join(WORKING_DIRECTORY, filename), "a").write(text)`, with the error it raises. */
    method AppendText(filename: string, text: string) returns (err: Option<IoError>)
      modifies this
      ensures err.None? <==> RawAppend(Settings(), old(State()), filename, text).Success?
      ensures err.None? ==> State() == RawAppend(Settings(), old(State()), filename, text).value
      ensures err.Some? ==> State() == old(State()) && err.value == RawAppend(Settings(), old(State()), filename, text).error
    {
      var r := Resolve(Settings(), filename);
      if r.Failure? {
        return Some(r.error);
      }
      var k := r.value;
      err := OpenError(State(), k, true);
      if err.None? {
        files := files[k := Contents(State(), k) + text];
      }
    }

    /**
      * `log_operation`: creates `LOG_FILE_PATH` with the header when nothing
      * is there and appends the entry to `LOG_FILE`, ignoring a failure of
      * that append as `append_to_file` does.
      */
    method LogOperation(operation: string, filename: string) returns (err: Option<IoError>)
      modifies this
      ensures err.None? <==> LogStep(Settings(), old(State()), operation, filename).Success?
      ensures err.None? ==> State() == LogStep(Settings(), old(State()), operation, filename).value
      ensures err.Some? ==> State() == old(State()) && err.value == LogStep(Settings(), old(State()), operation, filename).error
      ensures old(Valid()) ==> err.None? && Valid()
    {
      ghost var fs0 := State();
      var logEntry := Entry(operation, filename);
      var lk := LogPathKey(Settings());
      err := None;
      if !(lk in files || lk in dirs) {
        err := OpenError(State(), lk, true);
        if err.None? {
          files := files[lk := LogHeader];
        }
      }
      if err.None? {
        assert State() == CreateLog(Settings(), fs0).value;
        var ignored := AppendText(LogFile, logEntry);
      }
      if old(Valid()) {
        ValidLog(Settings(), fs0, operation, filename);
      }
    }

    /** `write_to_file`. */
    method WriteToFile(filename: string, text: string) returns (message: string)
      modifies this
      ensures Outcome(State(), message) == WriteStep(Settings(), old(State()), filename, text)
      ensures old(Valid()) ==> Valid()
    {
      ghost var fs0 := State();
      var duplicate := CheckDuplicateOperation("write", filename);
      if duplicate {
        message := WriteDuplicate;
      } else {
        var r := Resolve(Settings(), filename);
        if r.Failure? {
          message := ErrorText(r.error);
        } else {
          var k := r.value;
          var directory := ParentKey(k);
          var madeDirs := true;
          if !(directory in dirs || directory in files) {
            if ParentError(State(), directory, 0) == Some(NotADirectory) {
              madeDirs := false;
            } else {
              dirs := dirs + Lineage(directory);
            }
          }
          if !madeDirs {
            message := ErrorText(NotADirectory);
          } else {
            assert State() == EnsureDir(fs0, directory).value;
            var e := OpenError(State(), k, true);
            if e.Some? {
              message := ErrorText(e.value);
            } else {
              files := files[k := text];
              var logError := LogOperation("write", filename);
              message := if logError.Some? then ErrorText(logError.value) else WriteOk;
            }
          }
        }
      }
      if old(Valid()) {
        ValidWrite(Settings(), fs0, filename, text);
      }
    }

    /** `append_to_file`. */
    method AppendToFile(filename: string, text: string) returns (message: string)
      modifies this
      ensures Outcome(State(), message) == AppendStep(Settings(), old(State()), filename, text)
      ensures old(Valid()) ==> Valid()
    {
      ghost var fs0 := State();
      var e := AppendText(filename, text);
      if e.Some? {
        message := ErrorText(e.value);
      } else {
        var logError := LogOperation("append", filename);
        message := if logError.Some? then ErrorText(logError.value) else AppendOk;
      }
      if old(Valid()) {
        ValidAppend(Settings(), fs0, filename, text);
      }
    }

    /** `delete_file`. */
    method DeleteFile(filename: string) returns (message: string)
      modifies this
      ensures Outcome(State(), message) == DeleteStep(Settings(), old(State()), filename)
      ensures old(Valid()) ==> Valid()
    {
      ghost var fs0 := State();
      var duplicate := CheckDuplicateOperation("delete", filename);
      if duplicate {
        message := DeleteDuplicate;
      } else {
        var r := Resolve(Settings(), filename);
        if r.Failure? {
          message := ErrorText(r.error);
        } else {
          var k := r.value;
          var e := OpenError(State(), k, false);
          if e.Some? {
            message := ErrorText(e.value);
          } else {
            files := files - {k};
            var logError := LogOperation("delete", filename);
            message := if logError.Some? then ErrorText(logError.value) else DeleteOk;
          }
        }
      }
      if old(Valid()) {
        ValidDelete(Settings(), fs0, filename);
      }
    }

    /** Lines 231-236: every file visited once, the listed ones kept. */
    method Collect(sd: FileKey) returns (foundFiles: seq<string>)
      ensures Elements(foundFiles) == Found(Settings(), State(), sd)
      ensures |foundFiles| == |ListedFiles(State(), sd)|
    {
      var fs := State();
      foundFiles := [];
      var todo := files.Keys;
      ghost var visited: set<FileKey> := {};
      while todo != {}
        invariant todo + visited == fs.files.Keys && todo !! visited
        invariant Elements(foundFiles) == FoundAmong(Settings(), fs, sd, visited)
        invariant |foundFiles| == |ListedAmong(fs, sd, visited)|
        decreases |todo|
      {
        var k :| k in todo;
        FoundStep(Settings(), fs, sd, visited, k, foundFiles);
        ListedAmongAdd(fs, sd, visited, k);
        if Listed(fs, sd, k) {
          foundFiles := foundFiles + [RelPath(k, rootDirs)];
        }
        todo := todo - {k};
        visited := visited + {k};
      }
      assert FoundAmong(Settings(), fs, sd, visited) == Found(Settings(), fs, sd);
      assert ListedAmong(fs, sd, visited) == ListedFiles(fs, sd);
    }

    /**
      * `search_files`: visits every file of the workspace once and keeps
      * those below the search directory with a visible name, as paths
      * relative to the working directory, one entry per kept file and so
      * no path twice. The
      * escape error of `safe_join` propagates.
      */
    method SearchFiles(directory: string) returns (r: Result<seq<string>, IoError>)
      ensures r.Failure? <==> SearchResult(Settings(), State(), directory).Failure?
      ensures r.Failure? ==> r.error == SearchResult(Settings(), State(), directory).error
      ensures r.Success? ==> Elements(r.value) == SearchResult(Settings(), State(), directory).value
      ensures r.Success? ==> |r.value| == |ListedFiles(State(), SearchDirectory(Settings(), directory).value)|
      ensures r.Success? && Valid() ==> forall i :: 0 <= i < |r.value| ==> !StartsWithDot(BaseName(r.value[i]))
      ensures r.Success? && Valid() ==> |r.value| == |SearchResult(Settings(), State(), directory).value|
    {
      var sdr := SearchDirectory(Settings(), directory);
      if sdr.Failure? {
        return Failure(sdr.error);
      }
      var foundFiles := Collect(sdr.value);
      r := Success(foundFiles);
      if Valid() {
        SearchSkipsDotFiles(Settings(), State(), directory);
        FoundCount(Settings(), State(), sdr.value);
      }
    }

    /**
      * `ingest_file` with the foreign memory as the sequence of what was
      * added to it: every chunk of the file's text, read as `read_file`
      * reads it, is added in order with its label.
      */
    method IngestFile(filename: string, memory: seq<string>, maxLength: int := 4000, overlap: int := 200) returns (memory': seq<string>)
      requires Splittable(|Workspace.ReadFile(Settings(), State(), filename)|, maxLength, overlap)
      ensures memory' == memory + Labels(filename, Chunks(Workspace.ReadFile(Settings(), State(), filename), maxLength, overlap))
    {
      var content := ReadFile(filename);
      var chunks := SplitFile(content, maxLength, overlap);
      var numChunks := |chunks|;
      memory' := memory;
      for i := 0 to numChunks
        invariant memory' == memory + Labels(filename, chunks)[..i]
      {
        var memoryToAdd := Label(filename, i + 1, numChunks, chunks[i]);
        assert Labels(filename, chunks)[..i + 1] == Labels(filename, chunks)[..i] + [memoryToAdd];
        memory' := memory' + [memoryToAdd];
      }
      assert Labels(filename, chunks)[..numChunks] == Labels(filename, chunks);
    }
  }
}
