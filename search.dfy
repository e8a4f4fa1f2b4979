/**
  * `search_files` (autogpt/commands/file_operations.py:215-238) as a
  * function of the filesystem: every file below the search directory whose
  * name does not start with a dot, reported relative to the working
  * directory. The order in which `os.walk` visits them is not modelled, so
  * the result is a set.
  */
module Search {
  import opened Wrappers
  import opened Paths
  import opened Workspace

  /** Lines 226-229: `""` and `"/"` mean the working directory; anything else goes through `safe_join`. */
  function SearchDirectory(cfg: Config, directory: string): Result<FileKey, IoError>
  {
    if directory == "" || directory == "/" then Success(cfg.rootDirs) else Resolve(cfg, directory)
  }

  /**
    * With the restriction on, `safe_join` refuses `"/"`: joining it discards
    * the working directory, and `"/"` does not start with the path of a
    * named directory. So `search_files("/")` reaches the workspace only
    * through the special case of line 226.
    */
  lemma RestrictedRootEscapes(cfg: Config)
    requires cfg.restricted && cfg.rootDirs != [] && AllNames(cfg.rootDirs)
    ensures Resolve(cfg, "/").Failure?
  {
    assert Join(Root(cfg), ["/"]) == "/";
    assert NormPath("/") == "/";
    assert IsName(cfg.rootDirs[0]);
    IntercalateHead(cfg.rootDirs);
  }

  /** With the restriction off, `"/"` names the filesystem root rather than the workspace. */
  lemma UnrestrictedRootIsTop(cfg: Config)
    requires !cfg.restricted
    ensures Resolve(cfg, "/") == Success([])
  {
    assert Join("/", ["/"]) == "/";
    assert NormPath("/") == "/";
  }

  /** Lines 226-229: `search_files("")` and `search_files("/")` both search the working directory. */
  lemma WorkspaceAliases(cfg: Config, fs: Fs)
    ensures SearchResult(cfg, fs, "") == SearchResult(cfg, fs, "/")
    ensures SearchResult(cfg, fs, "/") == Success(Found(cfg, fs, cfg.rootDirs))
  {
  }

  /** Line 233: the names skipped. */
  predicate StartsWithDot(name: string)
  {
    |name| > 0 && name[0] == '.'
  }

  /** `k` is reached by `os.walk(sd)` and kept: a file strictly below `sd` with a visible name. */
  predicate Listed(fs: Fs, sd: FileKey, k: FileKey)
  {
    k in fs.files && |sd| < |k| && k[..|sd|] == sd && !StartsWithDot(k[|k| - 1])
  }

  /** The files `os.walk(sd)` reaches and keeps. */
  function ListedFiles(fs: Fs, sd: FileKey): set<FileKey>
  {
    set k | k in fs.files && Listed(fs, sd, k)
  }

  /** The paths `search_files` returns for the node `sd`, relative to the working directory. */
  function Found(cfg: Config, fs: Fs, sd: FileKey): set<string>
  {
    set k | k in fs.files && Listed(fs, sd, k) :: RelPath(k, cfg.rootDirs)
  }

  /** `search_files`: the set of paths found, or the escape error that `safe_join` raises uncaught. */
  function SearchResult(cfg: Config, fs: Fs, directory: string): Result<set<string>, IoError>
  {
    match SearchDirectory(cfg, directory)
    case Failure(e) => Failure(e)
    case Success(sd) => Success(Found(cfg, fs, sd))
  }

  /** A file never lies on the way to the working directory, which is a directory. */
  lemma FileNotAboveRoot(cfg: Config, fs: Fs, k: FileKey)
    requires Valid(cfg, fs) && k in fs.files
    ensures !(k <= cfg.rootDirs)
  {
    if |k| <= |cfg.rootDirs| {
      assert cfg.rootDirs[..|k|] in fs.dirs;
      assert cfg.rootDirs[..|k|] != k;
    }
  }

  /**
    * No path `search_files` returns ends in a name that starts with a dot:
    * the last entry of every returned path is the name of a listed file.
    */
  lemma SearchSkipsDotFiles(cfg: Config, fs: Fs, directory: string)
    requires Valid(cfg, fs) && SearchResult(cfg, fs, directory).Success?
    ensures forall r :: r in SearchResult(cfg, fs, directory).value ==> !StartsWithDot(BaseName(r))
  {
    var sd := SearchDirectory(cfg, directory).value;
    forall r | r in Found(cfg, fs, sd)
      ensures !StartsWithDot(BaseName(r))
    {
      var k :| k in fs.files && Listed(fs, sd, k) && r == RelPath(k, cfg.rootDirs);
      FileNotAboveRoot(cfg, fs, k);
      assert IsName(k[|k| - 1]);
      RelPathBaseName(k, cfg.rootDirs);
    }
  }

  /** With the restriction on, a relative path of plain names resolves to those names below the working directory. */
  lemma ResolveBelowRoot(cfg: Config, ts: seq<string>)
    requires cfg.restricted && AllNames(cfg.rootDirs) && AllNames(ts) && ts != []
    ensures Resolve(cfg, Intercalate(ts)) == Success(cfg.rootDirs + ts)
  {
    SafeJoinNames(cfg.rootDirs, ts);
  }

  /** With the restriction on, the path of a node below the working directory, relative to it, resolves back to the node. */
  lemma ResolveRelPath(cfg: Config, k: FileKey)
    requires cfg.restricted && AllNames(cfg.rootDirs) && AllNames(k)
    requires |cfg.rootDirs| < |k| && k[..|cfg.rootDirs|] == cfg.rootDirs
    ensures Resolve(cfg, RelPath(k, cfg.rootDirs)) == Success(k)
  {
    var n := |cfg.rootDirs|;
    RelPathBelow(k, cfg.rootDirs);
    NamesBelow(k, n);
    ResolveBelowRoot(cfg, k[n..]);
    assert k == k[..n] + k[n..];
  }

  /**
    * No path is reported twice: `search_files` returns one path per listed
    * file, as `os.walk` visits each file once.
    */
  lemma FoundCount(cfg: Config, fs: Fs, sd: FileKey)
    requires WellFormed(fs)
    ensures |Found(cfg, fs, sd)| == |ListedFiles(fs, sd)|
  {
    var ks := ListedFiles(fs, sd);
    RelPathsCount(ks, cfg.rootDirs);
    assert Found(cfg, fs, sd) == set k | k in ks :: RelPath(k, cfg.rootDirs);
  }

  /** Relative paths from one start tell keys of plain names apart, so there are as many paths as keys. */
  lemma {:induction false} RelPathsCount(ks: set<FileKey>, start: FileKey)
    requires forall k :: k in ks ==> AllNames(k)
    ensures |set k | k in ks :: RelPath(k, start)| == |ks|
    decreases |ks|
  {
    if ks != {} {
      var k :| k in ks;
      var rest := ks - {k};
      RelPathsCount(rest, start);
      var others := set k' | k' in rest :: RelPath(k', start);
      forall k' | k' in rest
        ensures RelPath(k', start) != RelPath(k, start)
      {
        if RelPath(k', start) == RelPath(k, start) {
          RelPathInjective(k', k, start);
        }
      }
      assert (set k' | k' in ks :: RelPath(k', start)) == others + {RelPath(k, start)};
    }
  }

  /** The entries of a path of plain names past its first `n` are plain names. */
  lemma NamesBelow(k: FileKey, n: nat)
    requires AllNames(k) && n <= |k|
    ensures AllNames(k[n..])
  {
    forall i | 0 <= i < |k| - n
      ensures IsName(k[n..][i])
    {
      assert k[n..][i] == k[n + i];
    }
  }

  /**
    * With the restriction on, a file below the working directory is
    * reported as the path that `read_file` resolves back to that file, so
    * reading it gives the file's contents (as text mode reads them).
    */
  lemma ListedReadsBack(cfg: Config, fs: Fs, k: FileKey)
    requires cfg.restricted && Valid(cfg, fs) && k in fs.files
    requires |cfg.rootDirs| < |k| && k[..|cfg.rootDirs|] == cfg.rootDirs
    ensures Resolve(cfg, RelPath(k, cfg.rootDirs)) == Success(k)
    ensures ReadFile(cfg, fs, RelPath(k, cfg.rootDirs)) == TextModeRead(fs.files[k])
  {
    assert AllNames(k);
    ResolveRelPath(cfg, k);
    ReadExisting(cfg, fs, RelPath(k, cfg.rootDirs), k);
  }

  /**
    * With the restriction on, `search_files("")` and `search_files("/")`
    * return the same paths, and each one reads back as the contents of a
    * visible file of the workspace (as text mode reads them).
    */
  lemma WorkspaceSearchReadsBack(cfg: Config, fs: Fs, r: string)
    requires cfg.restricted && Valid(cfg, fs)
    requires r in SearchResult(cfg, fs, "").value
    ensures SearchResult(cfg, fs, "/") == SearchResult(cfg, fs, "")
    ensures exists k :: Listed(fs, cfg.rootDirs, k) && ReadFile(cfg, fs, r) == TextModeRead(fs.files[k])
  {
    var k :| k in fs.files && Listed(fs, cfg.rootDirs, k) && r == RelPath(k, cfg.rootDirs);
    ListedReadsBack(cfg, fs, k);
  }
}
