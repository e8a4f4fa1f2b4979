# AutoGPT file commands, modelled in Dafny

This project models the file layer of the AutoGPT agent,
`autogpt/commands/file_operations.py`. The agent reads, writes, appends to and
deletes text files in its workspace directory and searches that directory.
It chunks a file into labelled pieces for its memory. It keeps an operation
log, `file_logger.txt`, and refuses to write or delete a file a second time
once the log records it.

The model has these modules:

- `Paths` (`paths.dfy`): the path computation behind `safe_join`. This is
  POSIX `os.path.join`, `os.path.normpath` and `os.path.commonprefix`, plus the
  `relpath` and `basename` that `search_files` uses. Everything here is pure.
- `Workspace` (`workspace.dfy`): the filesystem.
  - A node is named by the components of its normalised absolute path.
  - `Fs` holds the directories and the text files with their contents.
  - `Config` holds the working directory and the restriction flag.
  - It also holds how `open` fails, `read_file`, and `check_duplicate_operation`.
- `OperationLog` (`oplog.dfy`): log entries `"<op>: <filename>\n"` and the
  substring test the duplicate guard performs.
- `Operations` (`operations.dfy`): `log_operation`, `write_to_file`,
  `append_to_file` and `delete_file` as transitions of `Fs`. Each transition
  returns the new state and the message the command returns. The module also
  holds the lemmas about what each command does.
- `Search` (`search.dfy`): what `search_files` returns, as a function of the
  filesystem.
- `Chunker` (`chunker.dfy`): `split_file`.
  - `Chunks` is a reference definition that names chunk `i` directly.
  - The method `SplitFile` runs the source's `while` loop and is proved equal
    to `Chunks`.
- `Ingest` (`ingest.dfy`): the labels `ingest_file` gives each chunk, with `str`
  of a number written out as decimal digits.
- `FileOperations` (`filestore.dfy`): the class `FileStore`.
  - It holds the workspace's files and directories as fields that its
    methods update in place, as the source's commands do.
  - Every method is proved to end in the state, with the message, that the
    transition functions prescribe.
  - `old(Valid()) ==> Valid()` is kept by every command.

Points where the model follows the code over its documentation:
- A chunk is up to `maxLength + overlap` characters long, not `maxLength`.
  Neighbouring full chunks therefore share `2 * overlap` characters. For 4500
  characters with the ingestion defaults, the chunks are `[0, 4200)` and
  `[3800, 4500)` (`Chunker.IngestDefaultsExample`).
- The guard of `safe_join` compares characters, not path components. From a
  workspace `/ws`, the path `../` followed by names is accepted exactly when
  `ws` is a string prefix of those names joined with `/`. So `../ws2/x` is
  accepted and resolves to `/ws2/x`, outside the workspace
  (`Paths.ParentThenName`). The model keeps this as written.
- `read_file` opens the file in text mode, so universal newlines turn each
  `"\r\n"` and each lone `"\r"` into `"\n"` (`Workspace.TextModeRead`). Writes
  store `"\r"` unchanged. As a result:
  - a text written with a carriage return does not read back unchanged
    (`Operations.ReadAfterWrite`);
  - the log is read the same way, so no operation on a file name that holds
    `"\r"` ever counts as done (`Workspace.CarriageReturnNeverDuplicate`);
  - such a write or delete is therefore never refused as a duplicate
    (`Operations.WriteTwice`, `Operations.DeleteTwice`).
- With the restriction off, `search_files` still reports paths relative to
  the working directory (line 235), but `read_file` resolves a relative path
  against `/`. Those paths then do not read back, which is why
  `Search.ListedReadsBack` assumes the restriction is on.
- The log is an ordinary file of the workspace.
  - `log_operation` tests and creates it at `LOG_FILE_PATH`.
  - It appends to it, and `read_file` reads it, through `safe_join(WORKING_DIRECTORY, "file_logger.txt")`.
  - With the restriction on, these are the same file (`Workspace.RestrictedLogKey`).
  - With it off, the appends and reads go to `/file_logger.txt`, while the
    header goes to the workspace (`Workspace.UnrestrictedLogKey`).
  - Commands aimed at `file_logger.txt` itself reach the log, so the lemmas
    exclude the log's nodes where it matters (`Workspace.IsLogKey`).
- Error messages are `"Error: "` followed by the exception text. Python adds
  the file name to the text of an OS error; the model leaves it out.

## Model

| member | source | states |
|---|---|---|
| Paths.Split | autogpt/commands/file_operations.py:63 | splitting at `/` gives at least one piece, no piece holds a slash, and joining the pieces with `/` gives the string back |
| Paths.Join | autogpt/commands/file_operations.py:63 | `os.path.join`; specified by `JoinAbsolute` and `JoinNames` |
| Paths.JoinAbsolute | autogpt/commands/file_operations.py:63 | `os.path.join` onto an absolute path stays absolute |
| Paths.NormPath | autogpt/commands/file_operations.py:63 | `os.path.normpath`; specified by `NormPathAbsoluteShape`, `NormPathIdempotent` and `KeyOfNormPath` below |
| Paths.NormPathAbsoluteShape | autogpt/commands/file_operations.py:63 | a normalised absolute path is its one or two leading slashes followed by plain names (no empty, `.` or `..` component) |
| Paths.NormPathIdempotent | autogpt/commands/file_operations.py:63 | normalising an absolute path twice gives the same as normalising it once |
| Paths.CommonPrefix | autogpt/commands/file_operations.py:64 | `commonprefix` is a prefix of both arguments and stops at the first difference or at the end of one |
| Paths.CommonPrefixIsFirst | autogpt/commands/file_operations.py:64 | the guard `commonprefix([base, p]) != base` fails exactly when `base` is a prefix of `p` |
| Paths.SafeJoin | autogpt/commands/file_operations.py:52-68 | restricted: succeeds iff `base` is a string prefix of the normalised join, and then returns that normalised path; otherwise fails with the ValueError text. Unrestricted: always succeeds with a normal absolute path |
| Paths.SafeJoinIgnoresBase | autogpt/commands/file_operations.py:66-67 | with the restriction off the result is the same whatever `base` is |
| Paths.SafeJoinNames | autogpt/commands/file_operations.py:62-65 | a relative path of plain names under the workspace resolves to the workspace followed by those names |
| Paths.ParentThenName | autogpt/commands/file_operations.py:64-65 | from `/w`, the path `../` followed by names `ts` is accepted iff `w` is a string prefix of `ts` joined by `/`, and then resolves to `/` followed by that path; the result is `/w` or lies below it exactly when the first name is `w`, so any other first name leaves the workspace |
| Paths.WithinFirstName | autogpt/commands/file_operations.py:63-66 | a path spelled by names is `w` or lies below `w` exactly when its first name is `w` |
| Paths.KeyOfNormPath | autogpt/commands/file_operations.py:63-67 | the node a normalised absolute path names is its component list after normalisation, all plain names |
| Paths.RelPath | autogpt/commands/file_operations.py:235 | `os.path.relpath` on nodes; specified by `RelPathBelow` and `RelPathBaseName` below |
| Paths.RelPathBelow | autogpt/commands/file_operations.py:235 | the path of a node below a directory, relative to it, is the remaining components joined by `/` |
| Paths.RelPathInjective | autogpt/commands/file_operations.py:235 | different paths of plain names have different relative paths from the same start |
| Paths.BaseName | autogpt/commands/file_operations.py:235 | `os.path.basename`: the result holds no slash and is a suffix of the path; `BaseNameIntercalate` below gives its value on joined names |
| Paths.BaseNameIntercalate | autogpt/commands/file_operations.py:233-235 | the base name of a joined path of names is its last name |
| Paths.RelPathBaseName | autogpt/commands/file_operations.py:233-235 | the base name of the relative path `search_files` reports is the file's own name |
| Workspace.Resolve | autogpt/commands/file_operations.py:108 | the node `safe_join(WORKING_DIRECTORY, filename)` names: fails, with the escape error, exactly when `safe_join` raises; otherwise the node's components are plain names |
| Workspace.ErrorText | autogpt/commands/file_operations.py:112-113 | every error message starts with `Error: ` and holds no line break |
| Workspace.ParentErrorNone | autogpt/commands/file_operations.py:109 | path lookup passes exactly when every proper prefix is a directory |
| Workspace.ParentErrorNoFile | autogpt/commands/file_operations.py:109 | in a well-formed tree, lookup reports "not a directory" exactly when a file lies on the way |
| Workspace.OpenError | autogpt/commands/file_operations.py:109 | `open` succeeds exactly when every proper prefix is a directory, the target is not a directory, and (for reading) the file exists |
| Workspace.ReadFile | autogpt/commands/file_operations.py:98-113 | unless the path resolves to an existing file, the result is an `Error: ` text without line breaks; any result lacks either line breaks or carriage returns |
| Workspace.TextModeRead | autogpt/commands/file_operations.py:109-110 | reading in text mode leaves no carriage return in the text |
| Workspace.TextModeReadFixed | autogpt/commands/file_operations.py:109-110 | text is read back unchanged exactly when it holds no carriage return |
| Workspace.TextModeReadEnds | autogpt/commands/file_operations.py:109-110 | text without carriage returns appended last is read back last, whatever came before |
| Workspace.EntryReadBack | autogpt/commands/file_operations.py:30-49 | an entry without carriage returns appended to a log is found when the log is read |
| Workspace.ReadExisting | autogpt/commands/file_operations.py:107-111 | in a valid state, reading a file that exists gives its contents as text mode reads them, which equal the stored text exactly when it holds no carriage return |
| Workspace.CheckDuplicate | autogpt/commands/file_operations.py:20-32 | `check_duplicate_operation`; specified by `MissingLogNoDuplicate`, `CarriageReturnNeverDuplicate` and `Operations.LogRecords` |
| Workspace.MissingLogNoDuplicate | autogpt/commands/file_operations.py:30-32 | when the log cannot be read, no operation counts as already done |
| Workspace.CarriageReturnNeverDuplicate | autogpt/commands/file_operations.py:30-32 | no operation on a file name holding a carriage return ever counts as done |
| Workspace.RestrictedLogKey | autogpt/commands/file_operations.py:15-49 | with the restriction on, `LOG_FILE` resolves to `LOG_FILE_PATH` |
| Workspace.UnrestrictedLogKey | autogpt/commands/file_operations.py:30-67 | with the restriction off, `LOG_FILE` resolves to `/file_logger.txt` |
| OperationLog.Entry | autogpt/commands/file_operations.py:31-42 | an entry is non-empty and ends in a line break |
| OperationLog.OccursIff | autogpt/commands/file_operations.py:32 | `needle in hay` holds exactly when the needle is found at some offset |
| OperationLog.OccursExtend | autogpt/commands/file_operations.py:32 | an entry found in the log is still found after more text is appended |
| OperationLog.OccursAtEnd | autogpt/commands/file_operations.py:32-49 | an entry just appended is found in the log |
| OperationLog.NoEntryWithoutNewline | autogpt/commands/file_operations.py:30-32 | no entry occurs in a text without line breaks |
| OperationLog.OccursChars | autogpt/commands/file_operations.py:32 | every character of a text found in the log is a character of the log |
| OperationLog.NoEntryWithCarriageReturn | autogpt/commands/file_operations.py:30-32 | a text lacking line breaks or carriage returns holds no entry for a name with a carriage return |
| Operations.EnsureDir | autogpt/commands/file_operations.py:164-166 | `os.makedirs(directory)` unless the path already exists (lines 165-166), on the tree; specified by `EnsureDirShape` and `WriteOpens` |
| Operations.RawAppend | autogpt/commands/file_operations.py:186-188 | the `open(..., "a")` and `write` of `append_to_file`; specified by `AppendOpens` and `AppendBeforeLog` |
| Operations.EnsureDirShape | autogpt/commands/file_operations.py:164-166 | `makedirs` keeps the tree well formed, changes no file, only adds directories, and leaves the directory in place unless a file stands there; with no file there it adds exactly the directory and its missing ancestors |
| Operations.LogStep | autogpt/commands/file_operations.py:35-49 | `log_operation`; specified by `CreateLogFacts`, `AppendEntryFacts`, `ValidLog`, `LogRecords` and `CommandLogged` |
| Operations.CreateLogFacts | autogpt/commands/file_operations.py:44-47 | in a valid state creating the log succeeds, keeps the state valid and the directories, touches only `LOG_FILE_PATH`, which then holds its old text or the header |
| Operations.AppendEntryFacts | autogpt/commands/file_operations.py:49 | the entry append keeps the state valid and the directories, touches only the node `LOG_FILE` resolves to, which then ends in the entry whenever it can be opened |
| Operations.ValidLog | autogpt/commands/file_operations.py:35-49 | `log_operation` never fails on a valid state, keeps it valid and keeps the directories |
| Operations.LogRecords | autogpt/commands/file_operations.py:35-49 | `log_operation` changes no node but the log; when the log can be opened, an operation and file name without carriage returns then count as done; with the restriction on, the stored log text grows by exactly the entry (after the header on first use) |
| Operations.CommandLogged | autogpt/commands/file_operations.py:35-49 | the log step after a command that changed one node keeps the directories and every other node, and logs the entry as `LogRecords` says |
| Operations.WriteStep | autogpt/commands/file_operations.py:150-172 | `write_to_file`; specified by `WriteOutcome`, `WriteRefusal`, `WriteTwice`, `ReadAfterWrite` and `ValidWrite` |
| Operations.ValidWrite | autogpt/commands/file_operations.py:150-172 | `write_to_file` keeps the state valid |
| Operations.WriteOpens | autogpt/commands/file_operations.py:164-167 | creating the directory and opening for writing both succeed exactly when the target is not a directory and no file lies on its way |
| Operations.ErrorsAreNotRefusals | autogpt/commands/file_operations.py:161-212 | no error text equals either duplicate refusal |
| Operations.WriteRefusal | autogpt/commands/file_operations.py:160-172 | `write_to_file` answers with the refusal exactly when the write is logged |
| Operations.WriteOutcome | autogpt/commands/file_operations.py:150-172 | a write is refused with the duplicate error exactly when it is logged, and then changes nothing; a write succeeds iff it is not logged, the path stays inside and the target is writable; a failure changes no file; a success creates exactly the missing directories on the way, leaves the file holding exactly the text, changes no other file but the log, with the restriction on, a target other than the log and no directory at the log path appends exactly the entry to the stored log, and for a name without a carriage return makes the write count as done |
| Operations.WriteFailure | autogpt/commands/file_operations.py:160-172 | the failure half of `WriteOutcome` |
| Operations.WriteSuccess | autogpt/commands/file_operations.py:162-170 | the success half of `WriteOutcome`: directories, file contents, the frame, the stored log text and the duplicate entry |
| Operations.WriteBeforeLog | autogpt/commands/file_operations.py:163-168 | before the log step, a successful write has created exactly the missing directories and written the file, touching no other file |
| Operations.WriteTwice | autogpt/commands/file_operations.py:160-169 | after a successful write with a working log, the same write is refused as a duplicate and changes nothing exactly when the file name holds no carriage return |
| Operations.ReadAfterWrite | autogpt/commands/file_operations.py:107-168 | reading a file after a successful write gives the text as text mode reads it, which is the text itself exactly when it holds no carriage return |
| Operations.AppendStep | autogpt/commands/file_operations.py:175-192 | `append_to_file`; specified by `AppendOutcome`, `AppendTwice` and `ValidAppend` |
| Operations.ValidAppend | autogpt/commands/file_operations.py:175-192 | `append_to_file` keeps the state valid |
| Operations.AppendOpens | autogpt/commands/file_operations.py:187 | opening for appending succeeds exactly when the target is not a directory and its directory exists |
| Operations.AppendOutcome | autogpt/commands/file_operations.py:175-192 | with no duplicate check, appending succeeds iff the path stays inside and the target can be opened; a failure changes nothing |
| Operations.AppendFailure | autogpt/commands/file_operations.py:185-192 | the failure half of `AppendOutcome` |
| Operations.AppendSuccess | autogpt/commands/file_operations.py:185-190 | a successful append leaves the old text followed by the new text, keeps the directories, changes no other file but the log, with the restriction on, a target other than the log and no directory at the log path appends exactly the entry to the stored log, and for a name without a carriage return makes the append count as done |
| Operations.AppendBeforeLog | autogpt/commands/file_operations.py:186-188 | before the log step, a successful append has added the text to the file, touching no other node |
| Operations.AppendTwice | autogpt/commands/file_operations.py:185-190 | appending twice is never refused, and the file ends with both texts in order |
| Operations.DeleteStep | autogpt/commands/file_operations.py:195-212 | `delete_file`; specified by `DeleteOutcome`, `DeleteRefusal`, `DeleteTwice` and `ValidDelete` |
| Operations.ValidDelete | autogpt/commands/file_operations.py:195-212 | `delete_file` keeps the state valid |
| Operations.DeleteOutcome | autogpt/commands/file_operations.py:195-212 | a delete is refused with the duplicate error exactly when it is logged; a delete succeeds iff it is not logged, the path stays inside and names an existing file; a failure changes nothing |
| Operations.DeleteFailure | autogpt/commands/file_operations.py:204-212 | the failure half of `DeleteOutcome` |
| Operations.DeleteRefusal | autogpt/commands/file_operations.py:204-212 | `delete_file` answers with the refusal exactly when the delete is logged |
| Operations.DeleteSuccess | autogpt/commands/file_operations.py:206-210 | a successful delete removes the file, keeps the directories, changes no other file but the log, with the restriction on, a target other than the log and no directory at the log path appends exactly the entry to the stored log, and for a name without a carriage return makes the delete count as done |
| Operations.DeleteBeforeLog | autogpt/commands/file_operations.py:206-208 | before the log step, a successful delete has removed the file, touching no other node |
| Operations.DeleteTwice | autogpt/commands/file_operations.py:204-209 | after a successful delete with a working log, the same delete is refused as a duplicate and changes nothing exactly when the file name holds no carriage return |
| Search.RestrictedRootEscapes | autogpt/commands/file_operations.py:226-229 | with the restriction on, `safe_join` refuses `"/"`, so `search_files("/")` reaches the workspace only through the special case |
| Search.UnrestrictedRootIsTop | autogpt/commands/file_operations.py:226-229 | with the restriction off, `"/"` names the filesystem root, not the workspace |
| Search.WorkspaceAliases | autogpt/commands/file_operations.py:226-229 | `search_files("")` and `search_files("/")` agree and find the files below the working directory |
| Search.SearchResult | autogpt/commands/file_operations.py:215-238 | `search_files`; specified by `WorkspaceAliases`, `SearchSkipsDotFiles`, `ListedReadsBack` and `WorkspaceSearchReadsBack` |
| Search.FileNotAboveRoot | autogpt/commands/file_operations.py:9-13 | in a valid state no file lies on the way to the working directory |
| Search.SearchSkipsDotFiles | autogpt/commands/file_operations.py:231-236 | no returned path ends in a name that starts with a dot |
| Search.ResolveRelPath | autogpt/commands/file_operations.py:108-235 | with the restriction on, a node's path relative to the working directory resolves back to that node |
| Search.FoundCount | autogpt/commands/file_operations.py:231-236 | `search_files` reports as many paths as there are listed files, so no path twice |
| Search.ListedReadsBack | autogpt/commands/file_operations.py:107-235 | with the restriction on, a reported path resolves back to its file, and reading it gives that file's contents as text mode reads them |
| Search.WorkspaceSearchReadsBack | autogpt/commands/file_operations.py:226-236 | `search_files("")` and `search_files("/")` agree, and each returned path reads back as the contents, as text mode reads them, of a visible file |
| Chunker.Chunks | autogpt/commands/file_operations.py:85-95 | the chunks `split_file` yields, chunk `i` named directly; specified by `ChunkShape`, `ChunkCountIsCeiling`, `ChunksCover` and `ConcatRoundTrip` |
| Chunker.CountBound | autogpt/commands/file_operations.py:88 | a window starts inside the content exactly when its index is below the chunk count |
| Chunker.SplitFile | autogpt/commands/file_operations.py:71-95 | for all `Splittable` arguments (the defaults are `maxLength = 4000` and `overlap = 0`), the loop emits exactly the chunks of the reference definition, in order |
| Chunker.ChunkCountIsCeiling | autogpt/commands/file_operations.py:86-95 | there are no chunks exactly when the content is empty; otherwise the count is `ceil(len / (maxLength - overlap))` |
| Chunker.ChunkShape | autogpt/commands/file_operations.py:89-93 | chunk `i` is the slice starting at `i * (maxLength - overlap)`, at most `maxLength + overlap` long, full length unless clamped, and non-empty when the window is |
| Chunker.LastChunkReachesEnd | autogpt/commands/file_operations.py:90-95 | with a non-negative overlap the last chunk ends at the end of the content |
| Chunker.ChunksCover | autogpt/commands/file_operations.py:88-95 | with a non-negative overlap every position of the content lies in some chunk |
| Chunker.NeighboursOverlap | autogpt/commands/file_operations.py:89-95 | what a chunk holds past the stride starts the next chunk; a full chunk shares `2 * overlap` characters with the next |
| Chunker.ConcatPrefix | autogpt/commands/file_operations.py:88-95 | without overlap, the first `k` chunks concatenate to the first `k * maxLength` characters, clamped |
| Chunker.ConcatRoundTrip | autogpt/commands/file_operations.py:88-95 | without overlap, the chunks concatenate back to the content |
| Chunker.IngestDefaultsExample | autogpt/commands/file_operations.py:117-134 | 4500 characters with the ingestion defaults give exactly `[0, 4200)` and `[3800, 4500)` |
| Ingest.Decimal | autogpt/commands/file_operations.py:140 | `str(n)` is a non-empty string of digits with no leading zero |
| Ingest.DecimalRoundTrip | autogpt/commands/file_operations.py:140 | the digits written denote the number again |
| Ingest.DecimalInjective | autogpt/commands/file_operations.py:140 | different part numbers are written differently |
| Ingest.Labels | autogpt/commands/file_operations.py:136-143 | the texts `ingest_file` adds to memory; specified by `LabelParts` and `LabelsCarryContent` |
| Ingest.LabelParts | autogpt/commands/file_operations.py:139-141 | a label starts with the file name line, and past the header it is exactly the chunk |
| Ingest.LabelsCarryContent | autogpt/commands/file_operations.py:134-143 | without overlap, the chunks cut back out of the labels concatenate to the file's text |
| FileOperations.FileStore.constructor | autogpt/commands/file_operations.py:9-13 | the working directory is created with its missing parents unless it exists, and the store starts valid |
| FileOperations.FileStore.ReadFile | autogpt/commands/file_operations.py:98-113 | returns what `Workspace.ReadFile` gives on the current state, the file's text as text mode reads it or the error text |
| FileOperations.FileStore.CheckDuplicateOperation | autogpt/commands/file_operations.py:20-32 | returns whether the entry occurs in the log text as read by `read_file` |
| FileOperations.FileStore.AppendText | autogpt/commands/file_operations.py:186-188 | the append succeeds or fails as the transition prescribes; on failure nothing changes |
| FileOperations.FileStore.LogOperation | autogpt/commands/file_operations.py:35-49 | ends in `log_operation`'s transition, with nothing changed on failure; on a valid state it never fails and keeps the state valid |
| FileOperations.FileStore.WriteToFile | autogpt/commands/file_operations.py:150-172 | ends in the state and message of `write_to_file`'s transition and keeps the state valid |
| FileOperations.FileStore.AppendToFile | autogpt/commands/file_operations.py:175-192 | ends in the state and message of `append_to_file`'s transition and keeps the state valid |
| FileOperations.FileStore.DeleteFile | autogpt/commands/file_operations.py:195-212 | ends in the state and message of `delete_file`'s transition and keeps the state valid |
| FileOperations.FileStore.Collect | autogpt/commands/file_operations.py:231-236 | the loop over all files collects exactly the paths of the listed files, one entry per listed file |
| FileOperations.FileStore.SearchFiles | autogpt/commands/file_operations.py:215-238 | fails exactly when `safe_join` raises; otherwise returns exactly the paths `search_files` finds, one entry per listed file; when the state is valid none of them ends in a dot name and no path is reported twice |
| FileOperations.FileStore.IngestFile | autogpt/commands/file_operations.py:116-147 | with the defaults `maxLength = 4000` and `overlap = 200`, adds to the memory, in order, the label of every chunk of the file's text as `read_file` gives it |

## Left out

- `autogpts/autogpt/autogpt/commands/execute_code_flow.py` is not part of this
  model: it runs generated code with `exec` and awaits foreign callables.
- Real I/O: `open`, `os.makedirs`, `os.remove` and `os.walk` act on the
  abstract `Fs`. Text encodings are not modelled, so the `UnicodeDecodeError`
  that `read_file` reports for a binary file is not modelled either.
- The `Config()` singleton and `os.getcwd()` (lines 6-9). The working
  directory and the restriction flag are the fields `rootDirs` and
  `restricted` of the store, and a `Config` value in the functions.
- FileOperations.FileStore.constructor: it requires that no file stands
  where the working directory belongs and that `makedirs` can create it. In
  the source a file there is left in place. Every `open` of a path below the
  working directory then fails with "not a directory", and `search_files("")`
  returns an empty list. Paths outside the workspace, reached with the
  restriction off, still work. The model does not cover that state.
- The mutual recursion between `log_operation` and `append_to_file` (lines
  49 and 189). It runs until Python's recursion limit raises, and line 191
  swallows that error. The model writes the entry once, as one direct append
  whose failure is ignored. The nested "append" entries the recursion writes
  before it stops are not modelled.
- The order of `search_files`' results. `os.walk` visits in an order fixed
  by the OS, so `SearchResult` is a set. `SearchFiles` returns a list whose
  set of elements is that set.
- A `safe_join` escape in `search_files` (line 229) raises out of the
  command. The model returns it as a `Failure`.
- The `print` calls and the catch-all `except` of `ingest_file` (lines
  129-147). The foreign `memory.add` is modelled as the sequence of strings
  added to it.
- FileOperations.FileStore.IngestFile and Chunker.SplitFile require
  `Splittable`. For non-empty content the source loops forever when
  `overlap >= maxLength`, and `maxLength + overlap < 0` gives Python's
  negative-index slices; neither case is modelled.
- Python's `int` is unbounded, like Dafny's, so no width is modelled.
- Corner cases of `os.path.normpath`: a path with exactly two leading slashes
  keeps them (`Paths.Initial`). `Paths.Key` drops empty components, so with
  the restriction off `//ws/x` names the same node as `/ws/x`, as it does on
  Linux. Platform separators and drive letters are
  not modelled.
- `os.path.dirname` is modelled on nodes (`Operations.ParentKey`) rather than
  on path strings.
- OS error texts are `[Errno n] ...` without the file name Python appends.
  The type of any other exception is not modelled.
- Workspace.OpenError: only three causes are modelled: a missing file or
  directory (ENOENT), a file on the way (ENOTDIR) and a directory as the
  target (EISDIR). Three more are not: `PermissionError` (EACCES, or EROFS on a
  read-only filesystem), a name longer than 255 bytes (ENAMETOOLONG), and the
  `ValueError` "embedded null byte" for a name holding `"\0"`. The source can
  raise these at lines 46, 109, 167, 187 and 208, and `IsName` admits such
  names.
- Operations.ValidLog: it says `log_operation` never fails on a valid state.
  In the source the header `open` at line 46 can also raise `PermissionError`.
- Operations.WriteOutcome: its "succeeds iff" and "a failure changes no file"
  hold only for the causes `OpenError` models. In the source a
  `PermissionError` from the header `open` at line 46 reaches the `except` at
  lines 171-172 after lines 167-168 have written the file.
- Operations.WriteFailure: the same gap as `WriteOutcome`, for its failure half.
- Operations.WriteOpens: exact only for the causes `OpenError` models.
- Operations.AppendOutcome: its "succeeds iff" holds only for the causes
  `OpenError` models (the `open` at line 187 can also be denied).
- Operations.AppendOpens: exact only for the causes `OpenError` models.
- Operations.DeleteOutcome: its "succeeds iff" holds only for the causes
  `OpenError` models (`os.remove` at line 208 can also be denied).
