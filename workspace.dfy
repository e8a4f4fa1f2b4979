/**
  * The abstract filesystem that the file commands act on
  * (autogpt/commands/file_operations.py:8-17, 98-113): nodes are named by
  * their path components from `/`, a node is a directory or a text file,
  * and the operation log is an ordinary file in the workspace directory.
  */
module Workspace {
  import opened Wrappers
  import opened Paths
  import opened OperationLog

  /** A node of the filesystem: the components of its normalised absolute path (`[]` is `/`). */
  type FileKey = seq<string>

  /** Directories, and text files with their contents. */
  datatype Fs = Fs(files: map<FileKey, string>, dirs: set<FileKey>)

  /**
    * The process-wide settings: the working directory (by its components,
    * as `os.getcwd()` gives it plus `auto_gpt_workspace`) and whether paths
    * are held inside it.
    */
  datatype Config = Config(rootDirs: seq<string>, restricted: bool)

  /** `WORKING_DIRECTORY` as a string. */
  function Root(cfg: Config): string
  {
    "/" + Intercalate(cfg.rootDirs)
  }

  const LogFile := "file_logger.txt"
  const LogHeader := "File Operation Logger "

  /** The causes of the exceptions the commands catch and report. */
  datatype IoError = PathEscape | NotFound | IsADirectory | NotADirectory

  /** `str(e)` for each cause. */
  function Reason(e: IoError): (s: string)
    ensures '\n' !in s
  {
    match e
    case PathEscape => OutsideMessage
    case NotFound => "[Errno 2] " + "No such " + "file or " + "directory"
    case IsADirectory => "[Errno 21] " + "Is a " + "directory"
    case NotADirectory => "[Errno 20] " + "Not a " + "directory"
  }

  /** `f"Error: {str(e)}"`, without the file name Python appends to OS errors. */
  function ErrorText(e: IoError): (t: string)
    ensures |t| >= 7 && t[..7] == "Error: " && t[0] == 'E'
    ensures '\n' !in t
  {
    var t := "Error: " + Reason(e);
    assert t[..7] == "Error: ";
    t
  }

  /**
    * What a running system looks like: the working directory exists, the
    * directories are closed under taking prefixes (so `/` exists), and
    * every file sits in an existing directory, is not itself one, and is
    * named by plain names (as every normalised absolute path is).
    */
  predicate Valid(cfg: Config, fs: Fs)
  {
    && AllNames(cfg.rootDirs)
    && cfg.rootDirs in fs.dirs
    && WellFormed(fs)
  }

  /** The shape of any filesystem tree, whether or not the working directory exists yet. */
  predicate WellFormed(fs: Fs)
  {
    && (forall d, j :: d in fs.dirs && 0 <= j <= |d| ==> d[..j] in fs.dirs)
    && (forall k :: k in fs.files ==> k != [] && k !in fs.dirs && k[..|k| - 1] in fs.dirs && AllNames(k))
  }

  /** The node `safe_join(WORKING_DIRECTORY, filename)` names, or the escape error. */
  function Resolve(cfg: Config, filename: string): (r: Result<FileKey, IoError>)
    ensures r.Failure? <==> SafeJoin(cfg.restricted, Root(cfg), [filename]).Failure?
    ensures r.Failure? ==> r.error == PathEscape
    ensures r.Success? ==> r.value == Key(SafeJoin(cfg.restricted, Root(cfg), [filename]).value)
    ensures r.Success? ==> AllNames(r.value)
  {
    JoinAbsolute(Root(cfg), [filename]);
    JoinAbsolute("/", [filename]);
    KeyOfNormPath(Join(Root(cfg), [filename]));
    KeyOfNormPath(Join("/", [filename]));
    match SafeJoin(cfg.restricted, Root(cfg), [filename])
    case Success(p) => Success(Key(p))
    case Failure(_) => Failure(PathEscape)
  }

  /** `LOG_FILE_PATH`: the log inside the working directory, as tested by `os.path.exists`. */
  function LogPathKey(cfg: Config): FileKey
  {
    cfg.rootDirs + [LogFile]
  }

  /** Either place the log text is written to or read from. */
  predicate IsLogKey(cfg: Config, k: FileKey)
  {
    k == LogPathKey(cfg) || Resolve(cfg, LogFile) == Success(k)
  }

  /**
    * The path lookup of `open` and `os.remove`: walking down from
    * component `j`, the first proper prefix of `k` that is not a directory
    * makes the call fail.
    */
  function ParentError(fs: Fs, k: FileKey, j: nat): (r: Option<IoError>)
    ensures r == None || r == Some(NotFound) || r == Some(NotADirectory)
    decreases |k| - j
  {
    if j >= |k| then None
    else if k[..j] in fs.dirs then ParentError(fs, k, j + 1)
    else if k[..j] in fs.files then Some(NotADirectory)
    else Some(NotFound)
  }

  /** The lookup succeeds exactly when every proper prefix from `j` on is a directory. */
  lemma {:induction false} ParentErrorNone(fs: Fs, k: FileKey, j: nat)
    ensures ParentError(fs, k, j) == None <==> forall i :: j <= i < |k| ==> k[..i] in fs.dirs
    decreases |k| - j
  {
    if j < |k| {
      ParentErrorNone(fs, k, j + 1);
    }
  }

  /** In a valid state the lookup reports a file on the way as "not a directory". */
  lemma {:induction false} ParentErrorFile(fs: Fs, k: FileKey, j: nat, i: nat)
    requires WellFormed(fs)
    requires j <= i < |k| && k[..i] in fs.files
    ensures ParentError(fs, k, j) == Some(NotADirectory)
    decreases i - j
  {
    if j < i {
      var p := k[..i];
      assert p[..|p| - 1] in fs.dirs;
      assert p[..|p| - 1][..j] == k[..j];
      ParentErrorFile(fs, k, j + 1, i);
    }
  }

  /** In a valid state the lookup fails only on a file or a missing directory, never past a file. */
  lemma ParentErrorNoFile(fs: Fs, k: FileKey)
    requires WellFormed(fs)
    ensures ParentError(fs, k, 0) != Some(NotADirectory) <==> forall i :: 0 <= i < |k| ==> k[..i] !in fs.files
  {
    if exists i :: 0 <= i < |k| && k[..i] in fs.files {
      var i :| 0 <= i < |k| && k[..i] in fs.files;
      ParentErrorFile(fs, k, 0, i);
    } else {
      NoFileOnWay(fs, k, 0);
    }
  }

  lemma {:induction false} NoFileOnWay(fs: Fs, k: FileKey, j: nat)
    requires forall i :: 0 <= i < |k| ==> k[..i] !in fs.files
    ensures ParentError(fs, k, j) != Some(NotADirectory)
    decreases |k| - j
  {
    if j < |k| {
      NoFileOnWay(fs, k, j + 1);
    }
  }

  /**
    * How `open` (for reading when `create` is false, for writing or
    * appending when it is true) and `os.remove` fail on node `k`.
    */
  function OpenError(fs: Fs, k: FileKey, create: bool): (r: Option<IoError>)
    ensures r == None <==>
      && (forall i :: 0 <= i < |k| ==> k[..i] in fs.dirs)
      && k !in fs.dirs
      && (create || k in fs.files)
  {
    ParentErrorNone(fs, k, 0);
    var pe := ParentError(fs, k, 0);
    if pe.Some? then pe
    else if k in fs.dirs then Some(IsADirectory)
    else if create || k in fs.files then None
    else Some(NotFound)
  }

  /** The text of an existing file, or nothing for a file about to be created. */
  function Contents(fs: Fs, k: FileKey): string
  {
    if k in fs.files then fs.files[k] else ""
  }

  /**
    * What `f.read()` on a file opened in text mode returns for the stored
    * text: universal newlines turn each `"\r\n"` and each lone `"\r"` into
    * `"\n"`. Writing in text mode stores `"\r"` unchanged on POSIX.
    */
  function TextModeRead(s: string): (t: string)
    ensures '\r' !in t
    decreases |s|
  {
    if s == [] then []
    else if s[0] == '\r' && |s| > 1 && s[1] == '\n' then "\n" + TextModeRead(s[2..])
    else if s[0] == '\r' then "\n" + TextModeRead(s[1..])
    else [s[0]] + TextModeRead(s[1..])
  }

  /** Text is read back unchanged exactly when it holds no carriage return. */
  lemma {:induction false} TextModeReadFixed(s: string)
    ensures TextModeRead(s) == s <==> '\r' !in s
    decreases |s|
  {
    if s != [] && s[0] != '\r' {
      TextModeReadFixed(s[1..]);
      assert s == [s[0]] + s[1..];
    }
  }

  /**
    * Text without a carriage return that was appended last is read back
    * last, whatever precedes it: a `"\r"` ending the earlier text either
    * becomes a line break of its own or merges with the `"\n"` the
    * appended text starts with.
    */
  lemma {:induction false} TextModeReadEnds(a: string, e: string) returns (p: string)
    requires '\r' !in e
    ensures TextModeRead(a + e) == p + e
    decreases |a|
  {
    if a == [] {
      assert a + e == e;
      TextModeReadFixed(e);
      p := [];
    } else if a == "\r" && e != [] && e[0] == '\n' {
      CarriageReturnMerges(e);
      p := [];
    } else {
      var n := if a[0] == '\r' && |a| > 1 && a[1] == '\n' then 2 else 1;
      var h := if a[0] == '\r' then "\n" else [a[0]];
      TextModeReadHead(a, e, n, h);
      var q := TextModeReadEnds(a[n..], e);
      p := h + q;
    }
  }

  /** A `"\r"` followed by text that starts with a line break is read as that text. */
  lemma CarriageReturnMerges(e: string)
    requires '\r' !in e && e != [] && e[0] == '\n'
    ensures TextModeRead("\r" + e) == e
  {
    assert ("\r" + e)[2..] == e[1..];
    TextModeReadFixed(e[1..]);
    assert e == "\n" + e[1..];
  }

  /** How reading `a + e` starts when the head of `a` is read on its own. */
  lemma TextModeReadHead(a: string, e: string, n: nat, h: string)
    requires a != [] && !(a == "\r" && e != [] && e[0] == '\n')
    requires n == (if a[0] == '\r' && |a| > 1 && a[1] == '\n' then 2 else 1)
    requires h == (if a[0] == '\r' then "\n" else [a[0]])
    ensures n <= |a| && TextModeRead(a + e) == h + TextModeRead(a[n..] + e)
  {
    var s := a + e;
    assert s[0] == a[0];
    DropFromConcat(a, e, n);
    if a[0] != '\r' {
      ReadPlainHead(s);
    } else if |a| > 1 && a[1] == '\n' {
      assert s[1] == '\n';
      ReadLineEndHead(s);
    } else {
      assert |a| > 1 ==> s[1] == a[1];
      assert |a| == 1 ==> a == "\r";
      assert |a| == 1 && |s| > 1 ==> s[1] == e[0];
      ReadCarriageReturnHead(s);
    }
  }

  /** Dropping a head of `a` from `a + e` leaves the rest of `a`, then `e`. */
  lemma DropFromConcat(a: string, e: string, n: nat)
    requires n <= |a|
    ensures (a + e)[n..] == a[n..] + e
  {
  }

  /** A `"\r\n"` at the head is read as one line break. */
  lemma ReadLineEndHead(s: string)
    requires |s| > 1 && s[0] == '\r' && s[1] == '\n'
    ensures TextModeRead(s) == "\n" + TextModeRead(s[2..])
  {
  }

  /** A lone `"\r"` at the head is read as a line break. */
  lemma ReadCarriageReturnHead(s: string)
    requires s != [] && s[0] == '\r' && !(|s| > 1 && s[1] == '\n')
    ensures TextModeRead(s) == "\n" + TextModeRead(s[1..])
  {
  }

  /** Any other character at the head is read as itself. */
  lemma ReadPlainHead(s: string)
    requires s != [] && s[0] != '\r'
    ensures TextModeRead(s) == [s[0]] + TextModeRead(s[1..])
  {
  }

  /** An entry without a carriage return appended to a log is found when the log is read. */
  lemma EntryReadBack(log: string, operation: string, filename: string)
    requires '\r' !in operation && '\r' !in filename
    ensures Occurs(Entry(operation, filename), TextModeRead(log + Entry(operation, filename)))
  {
    var e := Entry(operation, filename);
    var p := TextModeReadEnds(log, e);
    OccursAtEnd(e, p);
  }

  /** `read_file`: the contents of the file as text mode reads them, or the error text of what went wrong. */
  function ReadFile(cfg: Config, fs: Fs, filename: string): (r: string)
    ensures !(Resolve(cfg, filename).Success? && Resolve(cfg, filename).value in fs.files) ==>
      |r| >= 7 && r[..7] == "Error: " && '\n' !in r
    ensures '\n' !in r || '\r' !in r
  {
    match Resolve(cfg, filename)
    case Failure(e) => ErrorText(e)
    case Success(k) =>
      match OpenError(fs, k, false)
      case Some(e) => ErrorText(e)
      case None => TextModeRead(fs.files[k])
  }

  /** In a valid state every file lies in existing directories, so `open` finds it. */
  lemma ValidFileOpens(cfg: Config, fs: Fs, k: FileKey)
    requires Valid(cfg, fs) && k in fs.files
    ensures OpenError(fs, k, false) == None && OpenError(fs, k, true) == None
  {
    var p := k[..|k| - 1];
    forall i | 0 <= i < |k|
      ensures k[..i] in fs.dirs
    {
      assert p[..i] == k[..i];
    }
  }

  /**
    * Reading a file that exists gives its contents as text mode reads them:
    * exactly the stored text when it holds no carriage return.
    */
  lemma ReadExisting(cfg: Config, fs: Fs, filename: string, k: FileKey)
    requires Valid(cfg, fs) && Resolve(cfg, filename) == Success(k) && k in fs.files
    ensures ReadFile(cfg, fs, filename) == TextModeRead(fs.files[k])
    ensures ReadFile(cfg, fs, filename) == fs.files[k] <==> '\r' !in fs.files[k]
  {
    ValidFileOpens(cfg, fs, k);
    TextModeReadFixed(fs.files[k]);
  }

  /** `check_duplicate_operation`: the entry for `operation` on `filename` is somewhere in the log. */
  predicate CheckDuplicate(cfg: Config, fs: Fs, operation: string, filename: string)
  {
    Occurs(Entry(operation, filename), ReadFile(cfg, fs, LogFile))
  }

  /**
    * With no log to read (the read fails), no operation counts as done:
    * the error text has no line break and every entry ends in one.
    */
  lemma MissingLogNoDuplicate(cfg: Config, fs: Fs, operation: string, filename: string)
    requires !(Resolve(cfg, LogFile).Success? && Resolve(cfg, LogFile).value in fs.files)
    ensures !CheckDuplicate(cfg, fs, operation, filename)
  {
    NoEntryWithoutNewline(operation, filename, ReadFile(cfg, fs, LogFile));
  }

  /**
    * No operation on a file name with a carriage return ever counts as
    * done: the log is read in text mode, which leaves no `"\r"` in it.
    */
  lemma CarriageReturnNeverDuplicate(cfg: Config, fs: Fs, operation: string, filename: string)
    requires '\r' in filename
    ensures !CheckDuplicate(cfg, fs, operation, filename)
  {
    NoEntryWithCarriageReturn(operation, filename, ReadFile(cfg, fs, LogFile));
  }

  /** With the restriction on, the log is written and read at `LOG_FILE_PATH`. */
  lemma RestrictedLogKey(cfg: Config)
    requires cfg.restricted && AllNames(cfg.rootDirs)
    ensures Resolve(cfg, LogFile) == Success(LogPathKey(cfg))
  {
    assert IsName(LogFile);
    assert Intercalate([LogFile]) == LogFile;
    SafeJoinNames(cfg.rootDirs, [LogFile]);
  }

  /**
    * Without the restriction the log is written and read at
    * `/file_logger.txt`, while `log_operation` tests and creates
    * `LOG_FILE_PATH` inside the working directory.
    */
  lemma UnrestrictedLogKey(cfg: Config)
    requires !cfg.restricted
    ensures Resolve(cfg, LogFile) == Success([LogFile])
  {
    assert IsName(LogFile);
    assert Intercalate([LogFile]) == LogFile;
    SafeJoinNames([], [LogFile]);
    assert "/" + Intercalate([]) == "/";
    assert [] + [LogFile] == [LogFile];
    assert SafeJoin(true, "/", [LogFile]) == Success("/" + Intercalate([LogFile]));
    assert SafeJoin(false, Root(cfg), [LogFile]).value == NormPath(Join("/", [LogFile]));
  }
}
