/**
  * The state-changing commands of autogpt/commands/file_operations.py as
  * transitions of the abstract filesystem: `log_operation` (35-49),
  * `write_to_file` (150-172), `append_to_file` (175-192) and `delete_file`
  * (195-212). Each returns the new state and the message the command
  * returns.
  *
  * The log write is one direct append of the entry: in the source,
  * `log_operation` calls `append_to_file`, which calls `log_operation`
  * again, until Python's recursion limit stops the chain.
  */
module Operations {
  import opened Wrappers
  import opened Paths
  import opened OperationLog
  import opened Workspace

  const WriteOk := "File written to successfully."
  const WriteDuplicate := "Error: File has already been updated."
  const AppendOk := "Text appended successfully."
  const DeleteOk := "File deleted successfully."
  const DeleteDuplicate := "Error: File has already been deleted."

  /** The state after a command and the message it returns. */
  datatype Outcome = Outcome(fs: Fs, message: string)

  /** `os.path.dirname` on the node of a normalised path. */
  function ParentKey(k: FileKey): FileKey
  {
    if k == [] then [] else k[..|k| - 1]
  }

  /** All prefixes of `d`: the directories `os.makedirs(d)` leaves in place. */
  function Lineage(d: FileKey): set<FileKey>
  {
    set j | 0 <= j <= |d| :: d[..j]
  }

  /**
    * Lines 164-166: `os.makedirs(directory)` unless the directory already
    * exists. `makedirs` creates every missing directory on the way and
    * fails with "not a directory" when a file stands on it.
    */
  function EnsureDir(fs: Fs, d: FileKey): Result<Fs, IoError>
  {
    if d in fs.dirs || d in fs.files then Success(fs)
    else if ParentError(fs, d, 0) == Some(NotADirectory) then Failure(NotADirectory)
    else Success(fs.(dirs := fs.dirs + Lineage(d)))
  }

  /** `open(safe_join(WORKING_DIRECTORY, filename), "a")` followed by `f.write(text)`. */
  function RawAppend(cfg: Config, fs: Fs, filename: string, text: string): Result<Fs, IoError>
  {
    match Resolve(cfg, filename)
    case Failure(e) => Failure(e)
    case Success(k) =>
      match OpenError(fs, k, true)
      case Some(e) => Failure(e)
      case None => Success(fs.(files := fs.files[k := Contents(fs, k) + text]))
  }

  /**
    * Lines 44-47: when nothing exists at `LOG_FILE_PATH`, it is created
    * holding the header. Only this `open` can raise out of `log_operation`.
    */
  function CreateLog(cfg: Config, fs: Fs): Result<Fs, IoError>
  {
    var lk := LogPathKey(cfg);
    if lk in fs.files || lk in fs.dirs then Success(fs)
    else match OpenError(fs, lk, true)
      case Some(e) => Failure(e)
      case None => Success(fs.(files := fs.files[lk := LogHeader]))
  }

  /**
    * Line 49: the entry is appended to `LOG_FILE`; `append_to_file`
    * swallows any error, so a failed append leaves the state as it was.
    */
  function AppendEntry(cfg: Config, fs: Fs, entry: string): Fs
  {
    match RawAppend(cfg, fs, LogFile, entry)
    case Success(fs1) => fs1
    case Failure(_) => fs
  }

  /** `log_operation`. */
  function LogStep(cfg: Config, fs: Fs, operation: string, filename: string): Result<Fs, IoError>
  {
    match CreateLog(cfg, fs)
    case Failure(e) => Failure(e)
    case Success(fs1) => Success(AppendEntry(cfg, fs1, Entry(operation, filename)))
  }

  /** `write_to_file`. */
  function WriteStep(cfg: Config, fs: Fs, filename: string, text: string): Outcome
  {
    if CheckDuplicate(cfg, fs, "write", filename) then Outcome(fs, WriteDuplicate)
    else match Resolve(cfg, filename)
      case Failure(e) => Outcome(fs, ErrorText(e))
      case Success(k) =>
        match EnsureDir(fs, ParentKey(k))
        case Failure(e) => Outcome(fs, ErrorText(e))
        case Success(fs1) =>
          match OpenError(fs1, k, true)
          case Some(e) => Outcome(fs1, ErrorText(e))
          case None =>
            var fs2 := fs1.(files := fs1.files[k := text]);
            match LogStep(cfg, fs2, "write", filename)
            case Failure(e) => Outcome(fs2, ErrorText(e))
            case Success(fs3) => Outcome(fs3, WriteOk)
  }

  /** `append_to_file`: no duplicate check. */
  function AppendStep(cfg: Config, fs: Fs, filename: string, text: string): Outcome
  {
    match RawAppend(cfg, fs, filename, text)
    case Failure(e) => Outcome(fs, ErrorText(e))
    case Success(fs1) =>
      match LogStep(cfg, fs1, "append", filename)
      case Failure(e) => Outcome(fs1, ErrorText(e))
      case Success(fs2) => Outcome(fs2, AppendOk)
  }

  /** `delete_file`. */
  function DeleteStep(cfg: Config, fs: Fs, filename: string): Outcome
  {
    if CheckDuplicate(cfg, fs, "delete", filename) then Outcome(fs, DeleteDuplicate)
    else match Resolve(cfg, filename)
      case Failure(e) => Outcome(fs, ErrorText(e))
      case Success(k) =>
        match OpenError(fs, k, false)
        case Some(e) => Outcome(fs, ErrorText(e))
        case None =>
          var fs1 := fs.(files := fs.files - {k});
          match LogStep(cfg, fs1, "delete", filename)
          case Failure(e) => Outcome(fs1, ErrorText(e))
          case Success(fs2) => Outcome(fs2, DeleteOk)
  }

  // ---------------------------------------------------------------------------
  // The invariant is kept
  // ---------------------------------------------------------------------------

  /** A file written where `open` succeeds keeps the state valid. */
  lemma ValidPut(cfg: Config, fs: Fs, k: FileKey, v: string)
    requires Valid(cfg, fs) && OpenError(fs, k, true) == None && AllNames(k)
    ensures Valid(cfg, fs.(files := fs.files[k := v]))
  {
    assert cfg.rootDirs[..0] == [];
    assert k[..|k| - 1] in fs.dirs;
  }

  /** Removing a file keeps the state valid. */
  lemma ValidRemove(cfg: Config, fs: Fs, k: FileKey)
    requires Valid(cfg, fs)
    ensures Valid(cfg, fs.(files := fs.files - {k}))
  {
  }

  /** Creating missing directories keeps the state valid. */
  lemma ValidEnsureDir(cfg: Config, fs: Fs, d: FileKey)
    requires Valid(cfg, fs) && EnsureDir(fs, d).Success?
    ensures Valid(cfg, EnsureDir(fs, d).value)
    ensures EnsureDir(fs, d).value.files == fs.files
    ensures fs.dirs <= EnsureDir(fs, d).value.dirs
  {
    EnsureDirShape(fs, d);
  }

  /**
    * `makedirs` keeps any tree well formed, touches no file, and leaves the
    * directory in place unless a file stands there.
    */
  lemma EnsureDirShape(fs: Fs, d: FileKey)
    requires WellFormed(fs) && EnsureDir(fs, d).Success?
    ensures WellFormed(EnsureDir(fs, d).value)
    ensures EnsureDir(fs, d).value.files == fs.files
    ensures fs.dirs <= EnsureDir(fs, d).value.dirs
    ensures d in fs.files || d in EnsureDir(fs, d).value.dirs
    ensures d !in fs.files ==> EnsureDir(fs, d).value.dirs == fs.dirs + Lineage(d)
  {
    if d in fs.dirs {
      forall e | e in Lineage(d)
        ensures e in fs.dirs
      {
        var j :| 0 <= j <= |d| && e == d[..j];
      }
    } else if d !in fs.files {
      ParentErrorNoFile(fs, d);
      var nd := fs.dirs + Lineage(d);
      forall e, j | e in nd && 0 <= j <= |e|
        ensures e[..j] in nd
      {
        if e in Lineage(d) {
          var i :| 0 <= i <= |d| && e == d[..i];
          assert e[..j] == d[..j];
        }
      }
      forall i | 0 <= i <= |d|
        ensures d[..i] !in fs.files
      {
        if i == |d| {
          assert d[..i] == d;
        }
      }
      assert d == d[..|d|] && d in Lineage(d);
    }
  }

  /**
    * On a valid state the header step succeeds, keeps the state valid and
    * the directories, and touches no node except `LOG_FILE_PATH`, which then
    * holds its old text or the header.
    */
  lemma CreateLogFacts(cfg: Config, fs: Fs)
    requires Valid(cfg, fs)
    ensures CreateLog(cfg, fs).Success?
    ensures var fs1 := CreateLog(cfg, fs).value;
      && Valid(cfg, fs1)
      && fs1.dirs == fs.dirs
      && (forall n :: n != LogPathKey(cfg) ==> Untouched(fs, fs1, n))
      && (LogPathKey(cfg) !in fs.dirs ==>
            LogPathKey(cfg) in fs1.files && fs1.files[LogPathKey(cfg)] == Contents(fs, LogPathKey(cfg)) + (if LogPathKey(cfg) in fs.files then "" else LogHeader))
  {
    var lk := LogPathKey(cfg);
    if !(lk in fs.files || lk in fs.dirs) {
      RootOpensBelow(cfg, fs);
      assert IsName(LogFile);
      ValidPut(cfg, fs, lk, LogHeader);
    }
  }

  /**
    * Appending the entry keeps the state valid and the directories, and
    * touches only the node `LOG_FILE` resolves to; when that node can be
    * appended to, it ends with the entry.
    */
  lemma AppendEntryFacts(cfg: Config, fs: Fs, entry: string)
    requires Valid(cfg, fs)
    ensures var fs1 := AppendEntry(cfg, fs, entry);
      && Valid(cfg, fs1)
      && fs1.dirs == fs.dirs
      && (forall n :: !(Resolve(cfg, LogFile) == Success(n)) ==> Untouched(fs, fs1, n))
      && (LogHealthy(cfg, fs) ==>
            var k := Resolve(cfg, LogFile).value;
            k in fs1.files && fs1.files[k] == Contents(fs, k) + entry)
  {
    var ra := RawAppend(cfg, fs, LogFile, entry);
    if ra.Success? {
      var k := Resolve(cfg, LogFile).value;
      ValidPut(cfg, fs, k, Contents(fs, k) + entry);
    }
  }

  /** The log step keeps the state valid and never fails on a valid state. */
  lemma ValidLog(cfg: Config, fs: Fs, operation: string, filename: string)
    requires Valid(cfg, fs)
    ensures LogStep(cfg, fs, operation, filename).Success?
    ensures Valid(cfg, LogStep(cfg, fs, operation, filename).value)
    ensures LogStep(cfg, fs, operation, filename).value.dirs == fs.dirs
  {
    CreateLogFacts(cfg, fs);
    AppendEntryFacts(cfg, CreateLog(cfg, fs).value, Entry(operation, filename));
  }

  /** The lookup of `LOG_FILE_PATH` passes: every proper prefix lies on the way to the working directory. */
  lemma RootOpensBelow(cfg: Config, fs: Fs)
    requires Valid(cfg, fs)
    ensures ParentError(fs, LogPathKey(cfg), 0) == None
    ensures LogPathKey(cfg) !in fs.dirs ==> OpenError(fs, LogPathKey(cfg), true) == None
  {
    var lk := LogPathKey(cfg);
    forall i | 0 <= i < |lk|
      ensures lk[..i] in fs.dirs
    {
      assert lk[..i] == cfg.rootDirs[..i];
    }
    ParentErrorNone(fs, lk, 0);
  }

  /** Every command keeps the state valid. */
  lemma ValidWrite(cfg: Config, fs: Fs, filename: string, text: string)
    requires Valid(cfg, fs)
    ensures Valid(cfg, WriteStep(cfg, fs, filename, text).fs)
  {
    if !CheckDuplicate(cfg, fs, "write", filename) && Resolve(cfg, filename).Success? {
      var k := Resolve(cfg, filename).value;
      var ed := EnsureDir(fs, ParentKey(k));
      if ed.Success? {
        ValidEnsureDir(cfg, fs, ParentKey(k));
        var fs1 := ed.value;
        if OpenError(fs1, k, true) == None {
          ValidPut(cfg, fs1, k, text);
          ValidLog(cfg, fs1.(files := fs1.files[k := text]), "write", filename);
        }
      }
    }
  }

  lemma ValidAppend(cfg: Config, fs: Fs, filename: string, text: string)
    requires Valid(cfg, fs)
    ensures Valid(cfg, AppendStep(cfg, fs, filename, text).fs)
  {
    var ra := RawAppend(cfg, fs, filename, text);
    if ra.Success? {
      var k := Resolve(cfg, filename).value;
      ValidPut(cfg, fs, k, Contents(fs, k) + text);
      ValidLog(cfg, ra.value, "append", filename);
    }
  }

  lemma ValidDelete(cfg: Config, fs: Fs, filename: string)
    requires Valid(cfg, fs)
    ensures Valid(cfg, DeleteStep(cfg, fs, filename).fs)
  {
    if !CheckDuplicate(cfg, fs, "delete", filename) && Resolve(cfg, filename).Success? {
      var k := Resolve(cfg, filename).value;
      if OpenError(fs, k, false) == None {
        ValidLog(cfg, fs.(files := fs.files - {k}), "delete", filename);
      }
    }
  }

  // ---------------------------------------------------------------------------
  // What the commands do
  // ---------------------------------------------------------------------------

  /** The place the log is appended to is a file or can become one. */
  predicate LogHealthy(cfg: Config, fs: Fs)
  {
    Resolve(cfg, LogFile).Success? && OpenError(fs, Resolve(cfg, LogFile).value, true) == None
  }

  /** Node `n` holds the same thing in both states. */
  predicate Untouched(a: Fs, b: Fs, n: FileKey)
  {
    (n in a.files <==> n in b.files) && (n in a.files ==> a.files[n] == b.files[n])
  }

  /**
    * The text stored at `LOG_FILE_PATH` in `fs'` is the one in `fs` (the
    * header when there was none) followed by the entry.
    */
  predicate LogAppended(cfg: Config, fs: Fs, fs': Fs, operation: string, filename: string)
  {
    var lk := LogPathKey(cfg);
    lk in fs'.files && fs'.files[lk] == Contents(fs, lk) + (if lk in fs.files then "" else LogHeader) + Entry(operation, filename)
  }

  /**
    * `log_operation` changes only the log: it keeps the directories and
    * every other file. When the log can be appended to, the entry is
    * found when the log is read afterwards (unless a carriage return in
    * it is read as a line break) and, with the restriction on, the stored
    * log text grows by exactly the entry (after the header on first use).
    */
  lemma LogRecords(cfg: Config, fs: Fs, operation: string, filename: string)
    requires Valid(cfg, fs)
    ensures LogStep(cfg, fs, operation, filename).Success?
    ensures var fs' := LogStep(cfg, fs, operation, filename).value;
      && fs'.dirs == fs.dirs
      && (forall n :: !IsLogKey(cfg, n) ==> Untouched(fs, fs', n))
      && ('\r' !in operation && '\r' !in filename && LogHealthy(cfg, fs) ==> CheckDuplicate(cfg, fs', operation, filename))
      && (LogHealthy(cfg, fs) && cfg.restricted ==> LogAppended(cfg, fs, fs', operation, filename))
  {
    CreateLogFacts(cfg, fs);
    var fs1 := CreateLog(cfg, fs).value;
    var e := Entry(operation, filename);
    AppendEntryFacts(cfg, fs1, e);
    var fs' := AppendEntry(cfg, fs1, e);
    forall n | !IsLogKey(cfg, n)
      ensures Untouched(fs, fs', n)
    {
      assert Untouched(fs, fs1, n) && Untouched(fs1, fs', n);
    }
    if LogHealthy(cfg, fs) {
      var k := Resolve(cfg, LogFile).value;
      assert LogHealthy(cfg, fs1);
      if '\r' !in operation && '\r' !in filename {
        ReadExisting(cfg, fs', LogFile, k);
        EntryReadBack(Contents(fs1, k), operation, filename);
      }
      if cfg.restricted {
        RestrictedLogKey(cfg);
      }
    }
  }

  /**
    * What `write_to_file` needs of its target: it is not a directory and no
    * directory on its way is a file (missing ones are created).
    */
  predicate Writable(fs: Fs, k: FileKey)
  {
    k !in fs.dirs && forall i :: 0 <= i < |k| ==> k[..i] !in fs.files
  }

  /** Creating the directory and opening the file for writing succeed exactly on a writable target. */
  lemma WriteOpens(cfg: Config, fs: Fs, k: FileKey)
    requires Valid(cfg, fs)
    ensures (EnsureDir(fs, ParentKey(k)).Success? && OpenError(EnsureDir(fs, ParentKey(k)).value, k, true) == None)
      <==> Writable(fs, k)
  {
    assert cfg.rootDirs[..0] == [];
    var d := ParentKey(k);
    var ed := EnsureDir(fs, d);
    if ed.Success? {
      ValidEnsureDir(cfg, fs, d);
    }
    if k != [] {
      assert d == k[..|k| - 1];
      forall i | 0 <= i <= |d|
        ensures d[..i] == k[..i]
      {
      }
      if Writable(fs, k) {
        ParentErrorNoFile(fs, d);
        assert ed.Success?;
        var fs1 := ed.value;
        forall i | 0 <= i < |k|
          ensures k[..i] in fs1.dirs
        {
          assert k[..i] == d[..i];
          if d in fs.dirs {
            assert d[..i] in fs.dirs;
          } else {
            assert d[..i] in Lineage(d);
          }
        }
        assert k !in Lineage(d);
      }
    }
  }

  /** No error text reads like a refusal of a logged command. */
  lemma ErrorsAreNotRefusals()
    ensures forall e :: ErrorText(e) != WriteDuplicate && ErrorText(e) != DeleteDuplicate
  {
    assert WriteDuplicate[7] == 'F' && DeleteDuplicate[7] == 'F';
    forall e: IoError
      ensures ErrorText(e)[7] != 'F'
    {
      assert ErrorText(e)[7] == Reason(e)[0];
      assert OutsideMessage[0] == 'A';
    }
  }

  /** The operation names the commands log hold no carriage return. */
  lemma PlainOperations()
    ensures '\r' !in "write" && '\r' !in "append" && '\r' !in "delete"
  {
  }

  /** `write_to_file` answers with the refusal exactly when the write is logged. */
  lemma WriteRefusal(cfg: Config, fs: Fs, filename: string, text: string)
    ensures WriteStep(cfg, fs, filename, text).message == WriteDuplicate <==> CheckDuplicate(cfg, fs, "write", filename)
  {
    if !CheckDuplicate(cfg, fs, "write", filename) {
      ErrorsAreNotRefusals();
      var m := WriteStep(cfg, fs, filename, text).message;
      match Resolve(cfg, filename)
      case Failure(e) =>
        assert m == ErrorText(e);
      case Success(k) =>
        match EnsureDir(fs, ParentKey(k))
        case Failure(e) =>
          assert m == ErrorText(e);
        case Success(fs1) =>
          match OpenError(fs1, k, true)
          case Some(e) =>
            assert m == ErrorText(e);
          case None =>
            match LogStep(cfg, fs1.(files := fs1.files[k := text]), "write", filename)
            case Failure(e) =>
              assert m == ErrorText(e);
            case Success(_) =>
              assert m == WriteOk && WriteOk[0] == 'F' && WriteDuplicate[0] == 'E';
    }
  }

  /** Failures of `write_to_file`: what they require and that they leave every file as it was. */
  lemma WriteFailure(cfg: Config, fs: Fs, filename: string, text: string)
    requires Valid(cfg, fs)
    ensures var o := WriteStep(cfg, fs, filename, text);
      && (CheckDuplicate(cfg, fs, "write", filename) ==> o == Outcome(fs, WriteDuplicate))
      && (o.message == WriteDuplicate ==> CheckDuplicate(cfg, fs, "write", filename))
      && (o.message == WriteOk ==>
            !CheckDuplicate(cfg, fs, "write", filename) && Resolve(cfg, filename).Success? && Writable(fs, Resolve(cfg, filename).value))
      && (o.message != WriteOk ==> o.fs.files == fs.files)
  {
    assert WriteOk[0] == 'F' && WriteDuplicate[0] == 'E';
    WriteRefusal(cfg, fs, filename, text);
    if !CheckDuplicate(cfg, fs, "write", filename) && Resolve(cfg, filename).Success? {
      var k := Resolve(cfg, filename).value;
      WriteOpens(cfg, fs, k);
      var ed := EnsureDir(fs, ParentKey(k));
      if ed.Success? {
        ValidEnsureDir(cfg, fs, ParentKey(k));
        var fs1 := ed.value;
        if OpenError(fs1, k, true) == None {
          ValidPut(cfg, fs1, k, text);
          ValidLog(cfg, fs1.(files := fs1.files[k := text]), "write", filename);
        }
      }
    }
  }

  /**
    * The log step after a command that changed only node `k`: the
    * directories stay, nothing but `k` and the log differs from `fs`, a
    * node `k` that is not the log keeps what the command left there, and
    * the entry is logged. With the restriction on and `LOG_FILE_PATH` not
    * a directory, the stored log grows by exactly the entry.
    */
  lemma CommandLogged(cfg: Config, fs: Fs, fs2: Fs, k: FileKey, operation: string, filename: string)
    requires Valid(cfg, fs2)
    requires forall n :: n != k ==> Untouched(fs, fs2, n)
    ensures LogStep(cfg, fs2, operation, filename).Success?
    ensures var fs' := LogStep(cfg, fs2, operation, filename).value;
      && fs'.dirs == fs2.dirs
      && (forall n :: n != k && !IsLogKey(cfg, n) ==> Untouched(fs, fs', n))
      && (!IsLogKey(cfg, k) ==> Untouched(fs2, fs', k))
      && ('\r' !in operation && '\r' !in filename && LogHealthy(cfg, fs') ==> CheckDuplicate(cfg, fs', operation, filename))
      && (cfg.restricted && k != LogPathKey(cfg) && LogPathKey(cfg) !in fs2.dirs ==> LogAppended(cfg, fs, fs', operation, filename))
  {
    LogRecords(cfg, fs2, operation, filename);
    var fs' := LogStep(cfg, fs2, operation, filename).value;
    forall n | n != k && !IsLogKey(cfg, n)
      ensures Untouched(fs, fs', n)
    {
      assert Untouched(fs, fs2, n) && Untouched(fs2, fs', n);
    }
    if LogHealthy(cfg, fs') {
      assert LogHealthy(cfg, fs2);
    }
    if cfg.restricted && k != LogPathKey(cfg) && LogPathKey(cfg) !in fs2.dirs {
      RestrictedLogKey(cfg);
      RootOpensBelow(cfg, fs2);
      assert Untouched(fs, fs2, LogPathKey(cfg));
    }
  }

  /** The steps of a successful write before the log: directories made, the file written, nothing else touched. */
  lemma WriteBeforeLog(cfg: Config, fs: Fs, filename: string, text: string) returns (k: FileKey, fs2: Fs)
    requires Valid(cfg, fs)
    requires !CheckDuplicate(cfg, fs, "write", filename) && Resolve(cfg, filename).Success?
    requires Writable(fs, Resolve(cfg, filename).value)
    ensures k == Resolve(cfg, filename).value
    ensures Valid(cfg, fs2) && fs2.dirs == fs.dirs + Lineage(ParentKey(k))
    ensures k in fs2.files && fs2.files[k] == text
    ensures forall n :: n != k ==> Untouched(fs, fs2, n)
    ensures LogStep(cfg, fs2, "write", filename).Success?
    ensures WriteStep(cfg, fs, filename, text) == Outcome(LogStep(cfg, fs2, "write", filename).value, WriteOk)
  {
    k := Resolve(cfg, filename).value;
    WriteOpens(cfg, fs, k);
    ValidEnsureDir(cfg, fs, ParentKey(k));
    assert cfg.rootDirs[..0] == [];
    assert k != [] && ParentKey(k) == k[..|k| - 1];
    EnsureDirShape(fs, ParentKey(k));
    var fs1 := EnsureDir(fs, ParentKey(k)).value;
    ValidPut(cfg, fs1, k, text);
    fs2 := fs1.(files := fs1.files[k := text]);
    forall n | n != k
      ensures Untouched(fs, fs2, n)
    {
      UntouchedPut(fs1, k, text, n);
    }
    ValidLog(cfg, fs2, "write", filename);
  }

  /**
    * A successful `write_to_file`: the directories on the way exist, the
    * file holds the text, no other file but the log changes, and the write
    * is logged: with the restriction on, the stored log grows by the
    * entry, and the write counts as done when the log is next read.
    */
  lemma WriteSuccess(cfg: Config, fs: Fs, filename: string, text: string)
    requires Valid(cfg, fs)
    requires !CheckDuplicate(cfg, fs, "write", filename) && Resolve(cfg, filename).Success?
    requires Writable(fs, Resolve(cfg, filename).value)
    ensures var o := WriteStep(cfg, fs, filename, text);
      var k := Resolve(cfg, filename).value;
      && o.message == WriteOk
      && o.fs.dirs == fs.dirs + Lineage(ParentKey(k))
      && (!IsLogKey(cfg, k) ==> k in o.fs.files && o.fs.files[k] == text)
      && (forall n :: n != k && !IsLogKey(cfg, n) ==> Untouched(fs, o.fs, n))
      && ('\r' !in filename && LogHealthy(cfg, o.fs) ==> CheckDuplicate(cfg, o.fs, "write", filename))
      && (cfg.restricted && !IsLogKey(cfg, k) && LogPathKey(cfg) !in o.fs.dirs ==> LogAppended(cfg, fs, o.fs, "write", filename))
  {
    PlainOperations();
    var k, fs2 := WriteBeforeLog(cfg, fs, filename, text);
    CommandLogged(cfg, fs, fs2, k, "write", filename);
  }

  /**
    * `write_to_file`: a logged write is refused and changes nothing; a
    * write succeeds exactly when it is not logged, the path stays inside
    * the working directory and the target is writable; any failure leaves
    * every file as it was (directories made on the way stay). A success
    * creates the directories on the way, leaves the file holding exactly
    * the text, changes no other file but the log, adds the entry to the
    * log and (for a name without a carriage return) makes the write count
    * as done.
    */
  lemma WriteOutcome(cfg: Config, fs: Fs, filename: string, text: string)
    requires Valid(cfg, fs)
    ensures var o := WriteStep(cfg, fs, filename, text);
      && (CheckDuplicate(cfg, fs, "write", filename) ==> o == Outcome(fs, WriteDuplicate))
      && (o.message == WriteDuplicate ==> CheckDuplicate(cfg, fs, "write", filename))
      && (o.message == WriteOk <==>
            !CheckDuplicate(cfg, fs, "write", filename) && Resolve(cfg, filename).Success? && Writable(fs, Resolve(cfg, filename).value))
      && (o.message != WriteOk ==> o.fs.files == fs.files)
      && (o.message == WriteOk ==>
            var k := Resolve(cfg, filename).value;
            && o.fs.dirs == fs.dirs + Lineage(ParentKey(k))
            && (!IsLogKey(cfg, k) ==> k in o.fs.files && o.fs.files[k] == text)
            && (forall n :: n != k && !IsLogKey(cfg, n) ==> Untouched(fs, o.fs, n))
            && ('\r' !in filename && LogHealthy(cfg, o.fs) ==> CheckDuplicate(cfg, o.fs, "write", filename))
            && (cfg.restricted && !IsLogKey(cfg, k) && LogPathKey(cfg) !in o.fs.dirs ==> LogAppended(cfg, fs, o.fs, "write", filename)))
  {
    WriteFailure(cfg, fs, filename, text);
    if !CheckDuplicate(cfg, fs, "write", filename) && Resolve(cfg, filename).Success? && Writable(fs, Resolve(cfg, filename).value) {
      WriteSuccess(cfg, fs, filename, text);
    }
  }

  /**
    * After a successful write, the same write is refused as a duplicate
    * and changes nothing, exactly when the file name holds no carriage
    * return (the log is read in text mode, which turns `"\r"` into `"\n"`).
    */
  lemma WriteTwice(cfg: Config, fs: Fs, filename: string, text: string, again: string)
    requires Valid(cfg, fs)
    requires WriteStep(cfg, fs, filename, text).message == WriteOk
    requires LogHealthy(cfg, WriteStep(cfg, fs, filename, text).fs)
    ensures var fs' := WriteStep(cfg, fs, filename, text).fs;
      WriteStep(cfg, fs', filename, again) == Outcome(fs', WriteDuplicate) <==> '\r' !in filename
  {
    WriteOutcome(cfg, fs, filename, text);
    ValidWrite(cfg, fs, filename, text);
    var fs' := WriteStep(cfg, fs, filename, text).fs;
    WriteOutcome(cfg, fs', filename, again);
    if '\r' in filename {
      CarriageReturnNeverDuplicate(cfg, fs', "write", filename);
    }
  }

  /**
    * Reading a file back after writing it gives the text written as text
    * mode reads it: the text itself exactly when it holds no carriage return.
    */
  lemma ReadAfterWrite(cfg: Config, fs: Fs, filename: string, text: string)
    requires Valid(cfg, fs)
    requires WriteStep(cfg, fs, filename, text).message == WriteOk
    requires !IsLogKey(cfg, Resolve(cfg, filename).value)
    ensures ReadFile(cfg, WriteStep(cfg, fs, filename, text).fs, filename) == TextModeRead(text)
    ensures ReadFile(cfg, WriteStep(cfg, fs, filename, text).fs, filename) == text <==> '\r' !in text
  {
    WriteOutcome(cfg, fs, filename, text);
    ValidWrite(cfg, fs, filename, text);
    ReadExisting(cfg, WriteStep(cfg, fs, filename, text).fs, filename, Resolve(cfg, filename).value);
  }

  // ---------------------------------------------------------------------------
  // append_to_file
  // ---------------------------------------------------------------------------

  /** What `open(..., "a")` needs: the target is not a directory and its directory exists. */
  predicate Appendable(fs: Fs, k: FileKey)
  {
    k != [] && k !in fs.dirs && k[..|k| - 1] in fs.dirs
  }

  lemma AppendOpens(cfg: Config, fs: Fs, k: FileKey)
    requires Valid(cfg, fs)
    ensures OpenError(fs, k, true) == None <==> Appendable(fs, k)
  {
    assert cfg.rootDirs[..0] == [];
    if Appendable(fs, k) {
      var d := k[..|k| - 1];
      forall i | 0 <= i < |k|
        ensures k[..i] in fs.dirs
      {
        assert k[..i] == d[..i];
      }
    }
  }

  /** Failures of `append_to_file`: what they require, and that they change nothing at all. */
  lemma AppendFailure(cfg: Config, fs: Fs, filename: string, text: string)
    requires Valid(cfg, fs)
    ensures var o := AppendStep(cfg, fs, filename, text);
      && (o.message == AppendOk ==> Resolve(cfg, filename).Success? && Appendable(fs, Resolve(cfg, filename).value))
      && (o.message != AppendOk ==> o.fs == fs)
  {
    assert AppendOk[0] == 'T';
    var ra := RawAppend(cfg, fs, filename, text);
    if Resolve(cfg, filename).Success? {
      AppendOpens(cfg, fs, Resolve(cfg, filename).value);
    }
    if ra.Success? {
      var k := Resolve(cfg, filename).value;
      ValidPut(cfg, fs, k, Contents(fs, k) + text);
      ValidLog(cfg, ra.value, "append", filename);
    }
  }

  /** The step of a successful append before the log: the text added to the file, nothing else touched. */
  lemma AppendBeforeLog(cfg: Config, fs: Fs, filename: string, text: string) returns (k: FileKey, fs1: Fs)
    requires Valid(cfg, fs)
    requires Resolve(cfg, filename).Success? && Appendable(fs, Resolve(cfg, filename).value)
    ensures k == Resolve(cfg, filename).value
    ensures Valid(cfg, fs1) && fs1.dirs == fs.dirs
    ensures k in fs1.files && fs1.files[k] == Contents(fs, k) + text
    ensures forall n :: n != k ==> Untouched(fs, fs1, n)
    ensures LogStep(cfg, fs1, "append", filename).Success?
    ensures AppendStep(cfg, fs, filename, text) == Outcome(LogStep(cfg, fs1, "append", filename).value, AppendOk)
  {
    k := Resolve(cfg, filename).value;
    AppendOpens(cfg, fs, k);
    ValidPut(cfg, fs, k, Contents(fs, k) + text);
    fs1 := fs.(files := fs.files[k := Contents(fs, k) + text]);
    forall n | n != k
      ensures Untouched(fs, fs1, n)
    {
      UntouchedPut(fs, k, Contents(fs, k) + text, n);
    }
    ValidLog(cfg, fs1, "append", filename);
  }

  /**
    * A successful `append_to_file`: the file holds its old text (none if it
    * was new) followed by the appended text, no other file but the log
    * changes, and the append is logged as a write is.
    */
  lemma AppendSuccess(cfg: Config, fs: Fs, filename: string, text: string)
    requires Valid(cfg, fs)
    requires Resolve(cfg, filename).Success? && Appendable(fs, Resolve(cfg, filename).value)
    ensures var o := AppendStep(cfg, fs, filename, text);
      var k := Resolve(cfg, filename).value;
      && o.message == AppendOk
      && o.fs.dirs == fs.dirs
      && (!IsLogKey(cfg, k) ==> k in o.fs.files && o.fs.files[k] == Contents(fs, k) + text)
      && (forall n :: n != k && !IsLogKey(cfg, n) ==> Untouched(fs, o.fs, n))
      && ('\r' !in filename && LogHealthy(cfg, o.fs) ==> CheckDuplicate(cfg, o.fs, "append", filename))
      && (cfg.restricted && !IsLogKey(cfg, k) && LogPathKey(cfg) !in fs.dirs ==> LogAppended(cfg, fs, o.fs, "append", filename))
  {
    PlainOperations();
    var k, fs1 := AppendBeforeLog(cfg, fs, filename, text);
    CommandLogged(cfg, fs, fs1, k, "append", filename);
  }

  /**
    * `append_to_file` never consults the log: it succeeds exactly when the
    * path stays inside the working directory and the target can be opened
    * for appending (in particular, its directory already exists); a
    * failure changes nothing.
    */
  lemma AppendOutcome(cfg: Config, fs: Fs, filename: string, text: string)
    requires Valid(cfg, fs)
    ensures var o := AppendStep(cfg, fs, filename, text);
      && (o.message == AppendOk <==> Resolve(cfg, filename).Success? && Appendable(fs, Resolve(cfg, filename).value))
      && (o.message != AppendOk ==> o.fs == fs)
  {
    AppendFailure(cfg, fs, filename, text);
    if Resolve(cfg, filename).Success? && Appendable(fs, Resolve(cfg, filename).value) {
      AppendSuccess(cfg, fs, filename, text);
    }
  }

  /** Appending twice is never refused: both texts end up in the file, in order. */
  lemma AppendTwice(cfg: Config, fs: Fs, filename: string, text: string, more: string)
    requires Valid(cfg, fs)
    requires AppendStep(cfg, fs, filename, text).message == AppendOk
    requires !IsLogKey(cfg, Resolve(cfg, filename).value)
    ensures var fs1 := AppendStep(cfg, fs, filename, text).fs;
      var o := AppendStep(cfg, fs1, filename, more);
      var k := Resolve(cfg, filename).value;
      && o.message == AppendOk
      && k in o.fs.files && o.fs.files[k] == Contents(fs, k) + text + more
  {
    AppendFailure(cfg, fs, filename, text);
    AppendSuccess(cfg, fs, filename, text);
    ValidAppend(cfg, fs, filename, text);
    var fs1 := AppendStep(cfg, fs, filename, text).fs;
    var k := Resolve(cfg, filename).value;
    assert Appendable(fs1, k);
    AppendSuccess(cfg, fs1, filename, more);
  }

  // ---------------------------------------------------------------------------
  // delete_file
  // ---------------------------------------------------------------------------

  /** `delete_file` answers with the refusal exactly when the delete is logged. */
  lemma DeleteRefusal(cfg: Config, fs: Fs, filename: string)
    ensures DeleteStep(cfg, fs, filename).message == DeleteDuplicate <==> CheckDuplicate(cfg, fs, "delete", filename)
  {
    if !CheckDuplicate(cfg, fs, "delete", filename) {
      ErrorsAreNotRefusals();
      var m := DeleteStep(cfg, fs, filename).message;
      match Resolve(cfg, filename)
      case Failure(e) =>
        assert m == ErrorText(e);
      case Success(k) =>
        match OpenError(fs, k, false)
        case Some(e) =>
          assert m == ErrorText(e);
        case None =>
          match LogStep(cfg, fs.(files := fs.files - {k}), "delete", filename)
          case Failure(e) =>
            assert m == ErrorText(e);
          case Success(_) =>
            assert m == DeleteOk && DeleteOk[0] == 'F' && DeleteDuplicate[0] == 'E';
    }
  }

  /** Failures of `delete_file`: what they require, and that they change nothing at all. */
  lemma DeleteFailure(cfg: Config, fs: Fs, filename: string)
    requires Valid(cfg, fs)
    ensures var o := DeleteStep(cfg, fs, filename);
      && (CheckDuplicate(cfg, fs, "delete", filename) ==> o == Outcome(fs, DeleteDuplicate))
      && (o.message == DeleteDuplicate ==> CheckDuplicate(cfg, fs, "delete", filename))
      && (o.message == DeleteOk ==>
            !CheckDuplicate(cfg, fs, "delete", filename) && Resolve(cfg, filename).Success? && Resolve(cfg, filename).value in fs.files)
      && (o.message != DeleteOk ==> o.fs == fs)
  {
    assert DeleteOk[0] == 'F' && DeleteDuplicate[0] == 'E';
    DeleteRefusal(cfg, fs, filename);
    if !CheckDuplicate(cfg, fs, "delete", filename) && Resolve(cfg, filename).Success? {
      var k := Resolve(cfg, filename).value;
      if OpenError(fs, k, false) == None {
        ValidLog(cfg, fs.(files := fs.files - {k}), "delete", filename);
      }
    }
  }

  /** The step of a successful delete before the log: the file removed, nothing else touched. */
  lemma DeleteBeforeLog(cfg: Config, fs: Fs, filename: string) returns (k: FileKey, fs1: Fs)
    requires Valid(cfg, fs)
    requires !CheckDuplicate(cfg, fs, "delete", filename) && Resolve(cfg, filename).Success?
    requires Resolve(cfg, filename).value in fs.files
    ensures k == Resolve(cfg, filename).value
    ensures Valid(cfg, fs1) && fs1.dirs == fs.dirs && k !in fs1.files
    ensures forall n :: n != k ==> Untouched(fs, fs1, n)
    ensures LogStep(cfg, fs1, "delete", filename).Success?
    ensures DeleteStep(cfg, fs, filename) == Outcome(LogStep(cfg, fs1, "delete", filename).value, DeleteOk)
  {
    k := Resolve(cfg, filename).value;
    ValidFileOpens(cfg, fs, k);
    fs1 := fs.(files := fs.files - {k});
    ValidRemove(cfg, fs, k);
    forall n | n != k
      ensures Untouched(fs, fs1, n)
    {
      UntouchedRemove(fs, k, n);
    }
    ValidLog(cfg, fs1, "delete", filename);
  }

  /**
    * A successful `delete_file`: the file is gone, no other file but the
    * log changes, and the delete is logged as a write is.
    */
  lemma DeleteSuccess(cfg: Config, fs: Fs, filename: string)
    requires Valid(cfg, fs)
    requires !CheckDuplicate(cfg, fs, "delete", filename) && Resolve(cfg, filename).Success?
    requires Resolve(cfg, filename).value in fs.files
    ensures var o := DeleteStep(cfg, fs, filename);
      var k := Resolve(cfg, filename).value;
      && o.message == DeleteOk
      && o.fs.dirs == fs.dirs
      && (!IsLogKey(cfg, k) ==> k !in o.fs.files)
      && (forall n :: n != k && !IsLogKey(cfg, n) ==> Untouched(fs, o.fs, n))
      && ('\r' !in filename && LogHealthy(cfg, o.fs) ==> CheckDuplicate(cfg, o.fs, "delete", filename))
      && (cfg.restricted && !IsLogKey(cfg, k) && LogPathKey(cfg) !in fs.dirs ==> LogAppended(cfg, fs, o.fs, "delete", filename))
  {
    PlainOperations();
    var k, fs1 := DeleteBeforeLog(cfg, fs, filename);
    CommandLogged(cfg, fs, fs1, k, "delete", filename);
  }

  /** Writing file `k` leaves every other node as it was. */
  lemma UntouchedPut(fs: Fs, k: FileKey, v: string, n: FileKey)
    requires n != k
    ensures Untouched(fs, fs.(files := fs.files[k := v]), n)
  {
  }

  /** Removing file `k` leaves every other node as it was. */
  lemma UntouchedRemove(fs: Fs, k: FileKey, n: FileKey)
    requires n != k
    ensures Untouched(fs, fs.(files := fs.files - {k}), n)
  {
  }

  /**
    * `delete_file`: a logged delete is refused; a delete succeeds exactly
    * when it is not logged, the path stays inside the working directory
    * and names an existing file; a failure changes nothing.
    */
  lemma DeleteOutcome(cfg: Config, fs: Fs, filename: string)
    requires Valid(cfg, fs)
    ensures var o := DeleteStep(cfg, fs, filename);
      && (CheckDuplicate(cfg, fs, "delete", filename) ==> o == Outcome(fs, DeleteDuplicate))
      && (o.message == DeleteDuplicate ==> CheckDuplicate(cfg, fs, "delete", filename))
      && (o.message == DeleteOk <==>
            !CheckDuplicate(cfg, fs, "delete", filename) && Resolve(cfg, filename).Success? && Resolve(cfg, filename).value in fs.files)
      && (o.message != DeleteOk ==> o.fs == fs)
  {
    DeleteFailure(cfg, fs, filename);
    if !CheckDuplicate(cfg, fs, "delete", filename) && Resolve(cfg, filename).Success? && Resolve(cfg, filename).value in fs.files {
      DeleteSuccess(cfg, fs, filename);
    }
  }

  /**
    * After a successful delete, the same delete is refused as a duplicate
    * and changes nothing, exactly when the file name holds no carriage return.
    */
  lemma DeleteTwice(cfg: Config, fs: Fs, filename: string)
    requires Valid(cfg, fs)
    requires DeleteStep(cfg, fs, filename).message == DeleteOk
    requires LogHealthy(cfg, DeleteStep(cfg, fs, filename).fs)
    ensures var fs' := DeleteStep(cfg, fs, filename).fs;
      DeleteStep(cfg, fs', filename) == Outcome(fs', DeleteDuplicate) <==> '\r' !in filename
  {
    DeleteFailure(cfg, fs, filename);
    DeleteSuccess(cfg, fs, filename);
    ValidDelete(cfg, fs, filename);
    var fs' := DeleteStep(cfg, fs, filename).fs;
    DeleteFailure(cfg, fs', filename);
    if '\r' in filename {
      CarriageReturnNeverDuplicate(cfg, fs', "delete", filename);
    }
  }
}
