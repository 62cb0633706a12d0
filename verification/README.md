# git_in_ruby object store, modelled in Dafny

This project models the core of a small Git implementation written in Ruby.
That core is a content-addressed store of commits, trees and blobs, kept in
three back ends: loose files, memory and a relational database. The model
covers:

- **The loose-object codec**: the `"<type> <size>\0<data>"` frame, tree
  records `"<mode> <name>\0<20-byte hash>"`, and the commit header rows.
- **The hash utilities**: hexadecimal and binary hashes, and
  `standardized_sha1`.
- **The object model**: `find_or_initialize_by_sha1`, `load` and its size
  check, `validate`, the mode table, and tree entries.
- **Commits**: parents, the breadth-first ancestor walk, change lists
  between a commit and its parents, and `clone_into` another repository.
- **The memory and database back ends**: idempotent object creation,
  branches, and the detached HEAD.
- **The `check_current_branch.rb` checker**.
- **The two cached enumerators** in `lib/my_enum_for.rb` and `lib/my_enum.rb`.
- **`remember`** (memoize.rb).

Ruby's behaviour is written out explicitly. That includes:

- `split` dropping trailing empty fields;
- `nil.x` raising NoMethodError;
- `File.join(nil)` raising TypeError;
- `to_i` reading a leading run of digits;
- the lazy `.+?` of a regular expression under `/m`.

Every raise is a `Failure` of `Results.Result`.

Parameters stand in for what the model cannot compute:

- the SHA1 digest of a string;
- a record's JSON or Base64 text;
- the hash that an earlier clone gave an object.

In the file-system back end compression is transparent: the back end
inflates every object it reads, so a loose-object file is modelled as holding
the uncompressed frame. The relational back end deflates a blob's data when
it stores it and never inflates it; that is modelled as written (see
Findings).
Ruby's stack depth is a `fuel` argument, and running out of fuel is
StackLevelTooDeep.

## Model

| member | source | states |
|---|---|---|
| Sha1Util.HexStringSha1 | sha1_util.rb:10-12 | every byte becomes two lower-case hex digits, high nibble first, whose value is that byte |
| Sha1Util.ByteArraySha1 | sha1_util.rb:14-16 | the first 40 hex digits, read in pairs, give 20 bytes, each the value of its pair |
| Sha1Util.ByteArrayOfHexString | sha1_util.rb:10-16 | reading back the hex form of 20 bytes gives those bytes |
| Sha1Util.HexStringOfByteArray | sha1_util.rb:10-16 | printing the bytes of a 40-digit lower-case hash gives the hash back |
| Sha1Util.StandardizedSha1 | sha1_util.rb:2-8 | succeeds exactly for sizes 20 and 40; 40 characters come back unchanged; 20 bytes become a hex hash that `byte_array_sha1` inverts; any other size raises with the size in the message |
| Sha1Util.StandardizedSha1Idempotent | sha1_util.rb:2-8 | standardising a standardised hash changes nothing |
| StringExtensions.DashesToUnderscores | lib/string_extensions.rb:7 | each dash becomes an underscore and every other character stays |
| StringExtensions.Downcase | lib/string_extensions.rb:8 | each character is lowered in place |
| StringExtensions.Underscore | lib/string_extensions.rb:2-10 | the result has no upper-case letter and no dash |
| StringExtensions.UnderscoreIdempotent | lib/string_extensions.rb:2-10 | `underscore` of an underscored string changes nothing |
| StringExtensions.CamelCase | lib/string_extensions.rb:12-15 | an underscore-free string with a capital comes back unchanged; any other result holds no underscore |
| StringExtensions.UnderscoreOfCapitalized | lib/string_extensions.rb:2-10 | a name made of capitalised words becomes those words, lower case, joined by "_" |
| StringExtensions.CamelCaseOfJoined | lib/string_extensions.rb:12-15 | `camel_case` of lower-case words joined by "_" capitalises and concatenates them, undoing `underscore` |
| StringExtensions.IsSha1 | lib/string_extensions.rb:33-35 | true exactly for 40 hex digits of either case, optionally followed by one final newline (`\Z`) |
| Memoize.Call | memoize.rb:8-18 | a stored key answers from the store without running the original; otherwise the original's result is returned and stored on success; a raise stores nothing; no other entry changes |
| Memoize.SecondCallIsRemembered | memoize.rb:11-12 | a repeated call after a successful one returns the same result without running the original |
| Memoize.CallIsTransparent | memoize.rb:8-18 | a store that agrees with the original stays in agreement, and the wrapped call returns what the original returns |
| Memoize.FalsyResultsAreRemembered | memoize.rb:11 | nil and false are stored and returned like any other result, because the test is `has_key?` |
| Memoize.SeparateStores | memoize.rb:4-11 | a call that differs in method name, receiver or arguments runs the original |
| Memoize.FailureIsNotRemembered | memoize.rb:16 | after a raising call the next identical call runs the original again |
| Modes.ValidModes | models/git_object.rb:7-14 | the six modes of VALID_MODES, each mapped to its class |
| Modes.ClassForMode | models/git_object.rb:7-14 | a mode has a class exactly when it is in VALID_MODES, and that class is never Commit |
| Modes.ModeOf | models/git_object.rb:7-14 | every class except Commit has a mode, and VALID_MODES maps that mode back to the class |
| Modes.UnderscoreOfClassName | models/git_object.rb:20 | `name.underscore` of every class is its type symbol |
| Modes.CamelCaseOfTypeSymbol | models/git_object.rb:20 | `camel_case` of every type symbol gives the class name back |
| Modes.ValidModesByTypeContents | models/git_object.rb:19-21 | the reversed table maps exactly the six blob and tree type symbols to their modes |
| Modes.ValidModesByType | models/git_object.rb:19-21 | every mode of VALID_MODES is found under its class's type symbol, and every entry of the reversed table is such a pair |
| Modes.ModeForType | models/git_object.rb:23-25 | a mode found is one whose class has the type symbol asked for; nil exactly when no mode's class has it |
| Modes.ModeForTypeOfClass | models/git_object.rb:23-25 | `mode_for_type(kind.name.underscore)` is the mode VALID_MODES gives the kind, and nil for a commit |
| Modes.ModeTableRoundTrip | models/git_object.rb:19-25 | every mode maps back to itself through its class's type symbol |
| Modes.ModeForTypeIsValid | models/git_object.rb:23-25 | every mode that `mode_for_type` returns is in VALID_MODES |
| ObjectData.DataSize | models/git_object.rb:92 | a string's size is its byte count, a row list's its length and a commit tuple's five; nil has no size and raises NoMethodError |
| FileSystemRepository.HeaderMatchFrom | models/file_system_git_repository.rb:28 | finds the leftmost position where `(\w+) (\d+)` matches the header, and none exactly when it matches nowhere |
| FileSystemRepository.ParseObject | models/file_system_git_repository.rb:25-32 | raises NoMethodError exactly when the content holds no NUL; otherwise the data is everything after the first NUL |
| FileSystemRepository.HeaderOfFrame | models/file_system_git_repository.rb:83-85 | the header written by `create_git_object!` matches at its start and captures the type and the printed size |
| FileSystemRepository.ParseFrame | models/file_system_git_repository.rb:25-85 | parsing a frame gives back its type, the payload's size and the payload |
| FileSystemRepository.CreateGitObject | models/file_system_git_repository.rb:83-97 | returns the digest of the frame; the frame is stored under it unless that file exists; no other file changes; a content-addressed store stays content-addressed |
| FileSystemRepository.CreateGitObjectIdempotent | models/file_system_git_repository.rb:89-96 | creating the same object twice returns the same hash and leaves the store as the first call left it |
| FileSystemRepository.LoadObject | models/file_system_git_repository.rb:73-81 | a missing file raises MissingObjectError; in a content-addressed store a loaded object's `content_sha1` is the hash it was looked up by |
| FileSystemRepository.LoadCreatedObject | models/file_system_git_repository.rb:73-97 | loading what was just created succeeds under the returned hash and gives back the type, size and payload |
| FileSystemRepository.RecordMatch | models/file_system_git_repository.rb:61 | a match of the record regex is a well-formed record (digit mode, non-empty NUL-free name, 20 bytes) inside the data |
| FileSystemRepository.RecordMatchText | models/file_system_git_repository.rb:61 | every match covers exactly the bytes of the record it captures |
| FileSystemRepository.RecordMatchOfText | models/file_system_git_repository.rb:61 | the regex matches a well-formed record's bytes exactly where they start, capturing that record |
| FileSystemRepository.ScanRecords | models/file_system_git_repository.rb:61 | every record `scan` returns is well formed |
| FileSystemRepository.ScanRecordsTotal | models/file_system_git_repository.rb:61-68 | the scanned records' byte counts never exceed the data, and equal it only when the records tile the data |
| FileSystemRepository.ScanRecordsText | models/file_system_git_repository.rb:61 | scanning the bytes of well-formed records finds exactly those records |
| FileSystemRepository.RecordsTextLength | models/file_system_git_repository.rb:63-65 | the `mode.size + name.size + 22` sum is the length of the records' bytes |
| FileSystemRepository.ParseTreeData | models/file_system_git_repository.rb:60-71 | raises only InvalidTreeData; on success the records are well formed and their bytes are the whole payload |
| FileSystemRepository.ParseTreeDataOfRecords | models/file_system_git_repository.rb:60-71 | parsing the bytes of well-formed records gives those records back |
| FileSystemRepository.FormatTreeEntry | models/file_system_git_repository.rb:56 | an entry's record carries `mode_for_type` of its type, its name and the 20 bytes that `hex_string_sha1` maps back to its hash; a type without a mode raises NoMethodError |
| FileSystemRepository.FormatTreeRows | models/file_system_git_repository.rb:55-57 | succeeds exactly when every entry's type has a mode, with one record per entry in order; otherwise NoMethodError |
| FileSystemRepository.FormatTreeData | models/file_system_git_repository.rb:54-58 | succeeds exactly when every entry's type has a mode; otherwise NoMethodError |
| FileSystemRepository.TreeDataRoundTrip | models/file_system_git_repository.rb:54-71 | a formatted tree parses back into one record per entry: the entry's mode, its name and its hash in binary |
| FileSystemRepository.TaggedRows | models/file_system_git_repository.rb:37 | one `parent <sha1>` row per parent, in order |
| FileSystemRepository.FormatCommitData | models/file_system_git_repository.rb:34-42 | the payload is non-empty and ends with a newline |
| FileSystemRepository.LabelValue | models/file_system_git_repository.rb:130 | `row[/\A\w+ (.*)/, 1]` is present exactly when the row starts with a word and a space, and is then everything after that space |
| FileSystemRepository.HeaderRows | models/file_system_git_repository.rb:130 | the rows before the first blank row, or all rows but the last when there is no blank row; none of them is blank |
| FileSystemRepository.ReadCommitDataRow | models/file_system_git_repository.rb:113-123 | succeeds exactly when one header row carries the label, giving its value; no row raises MissingCommitDataError and several raise ExcessiveCommitDataError, each naming the label |
| FileSystemRepository.ReadCommitDataRows | models/file_system_git_repository.rb:125-131 | a value is listed exactly when some header row has the label as its first word and carries that value after it; header rows are those before the first blank row, or all but the last when there is none |
| FileSystemRepository.LabelledValuesFrom | models/file_system_git_repository.rb:130 | `find_all { ... }.map { ... }` lists a value exactly when some row whose first word is the label carries it |
| FileSystemRepository.ReadSubjectRows | models/file_system_git_repository.rb:133-139 | raises MissingCommitDataError("subject") exactly when `split` yields no blank row |
| FileSystemRepository.LastStampBelowIsLast | models/file_system_git_repository.rb:48-49 | the greedy `(.*)` stops before the last position where ` <digits> [+-]dddd` starts, and there is none exactly when no position starts one |
| FileSystemRepository.ParseSignature | models/file_system_git_repository.rb:48-49 | nil stays nil; a value gives a name and a time exactly when a time stamp occurs in it |
| FileSystemRepository.ParseCommitData | models/file_system_git_repository.rb:44-52 | the parents are every labelled parent row; the tree is the one tree row; a missing or repeated tree row is the error raised |
| FileSystemRepository.LabelledRow | models/file_system_git_repository.rb:36-39 | a written header row is labelled by its tag and by no other word, and its value reads back whole |
| FileSystemRepository.ParseStamped | models/file_system_git_repository.rb:38-49 | an author or committer value written at some time reads back as that name and that time |
| FileSystemRepository.ReadCommitDataSplit | models/file_system_git_repository.rb:125-139 | with header rows, a blank row and subject rows, labels are looked up among the header rows and the subject is the rows after the blank one, joined |
| FileSystemRepository.CommitDataRoundTrip | models/file_system_git_repository.rb:34-52 | a commit payload parses back into its tree, parents, author and committer with their times, and subject, when no header field holds a newline; a subject of several lines comes back whole, as long as it is not empty and does not end in a newline |
| FileSystemRepository.ReadCommitDataNoBlank | models/file_system_git_repository.rb:130 | with no blank row, labels are looked up among all rows but the last |
| FileSystemRepository.ParseCommitDataWithoutCommitter | models/file_system_git_repository.rb:44-52 | a payload with a tree and an author but no committer row raises MissingCommitDataError("committer") |
| FileSystemRepository.EmptySubjectLosesCommitter | models/file_system_git_repository.rb:34-52 | with an empty subject `split` drops the trailing blank rows, so parsing the payload raises MissingCommitDataError("committer") |
| MemoryRepository.Initial | models/memory_git_repository.rb:7-13 | a new repository's HEAD is `master`, with no branches and no objects |
| MemoryRepository.HeadCommitSha1 | models/memory_git_repository.rb:15-21 | nil exactly when HEAD is neither a branch nor a 40-digit hash; otherwise HEAD itself or the commit of the branch it names |
| MemoryRepository.InitialHasNoHeadCommit | models/memory_git_repository.rb:7-21 | a new repository has no head commit |
| MemoryRepository.BranchShadowsDetachedHead | models/memory_git_repository.rb:16-19 | a HEAD that names a branch gives that branch's commit, even when it also reads as a hash |
| MemoryRepository.PayloadSize | models/memory_git_repository.rb:84 | `data && data.size` is nil exactly for nil data, and otherwise the payload's size |
| MemoryRepository.CreateGitObject | models/memory_git_repository.rb:83-90 | returns the digest of `[type, size, data]`; that array is stored under it unless something is there already; no other object, branch or HEAD changes |
| MemoryRepository.CreateGitObjectIdempotent | models/memory_git_repository.rb:87 | creating the same object twice returns the same hash and leaves the repository as the first call left it |
| MemoryRepository.ParseObject | models/memory_git_repository.rb:23-25 | the type, size and data are the stored array's three elements, which rebuild the array exactly |
| MemoryRepository.LoadObject | models/memory_git_repository.rb:41-45 | fails exactly for an unknown hash, with MissingObjectError; otherwise returns the stored type, size and data with the array's digest |
| MemoryRepository.LoadCreatedObject | models/memory_git_repository.rb:41-90 | a created object loads back under the returned hash, with its type, payload and the payload's size when the hash was new |
| MemoryRepository.InitialLoadMisses | models/memory_git_repository.rb:12-42 | every load from a new repository raises MissingObjectError |
| MemoryRepository.FormatCommitData | models/memory_git_repository.rb:69-71 | the commit is a five-element tuple with one parent per parent given |
| MemoryRepository.ParseCommitData | models/memory_git_repository.rb:27-35 | the five named fields are the commit tuple's elements, which rebuild the tuple exactly |
| MemoryRepository.CommitDataRoundTrip | models/memory_git_repository.rb:27-35 | parsing a formatted commit gives back the tree, each parent in order, the author, the committer and the subject |
| MemoryRepository.FormatTreeData | models/memory_git_repository.rb:73-81 | one row per entry in order, with the entry's name, hash and `mode_for_type` of its type |
| MemoryRepository.TreeDataRoundTrip | models/memory_git_repository.rb:37-81 | the rows read back carry each entry's class's mode, which VALID_MODES maps back to that class, or nil for a commit |
| MemoryRepository.CreateBlobObject | models/memory_git_repository.rb:55-57 | nil data is stored as the empty string and any other data as given |
| MemoryRepository.CreateCommitObject | models/memory_git_repository.rb:47-49 | the returned hash is stored and every earlier object, the branches and HEAD stay; under a new hash the array is a `:commit` of size 5 holding the tree, each parent in order, the author, the committer and the subject |
| MemoryRepository.CreateTreeObject | models/memory_git_repository.rb:51-53 | the returned hash is stored and every earlier object, the branches and HEAD stay; under a new hash the array is a `:tree` whose size is the number of entries and whose rows carry each entry's `mode_for_type`, name and hash, in order |
| MemoryRepository.CreatedCommitLoadsBack | models/memory_git_repository.rb:47-49 | a created commit loads back as `:commit` of size 5 whose parsed fields are the arguments |
| MemoryRepository.CreatedTreeLoadsBack | models/memory_git_repository.rb:51-53 | a created tree loads back as `:tree` with one row per entry |
| MemoryRepository.NilBlobLoadsEmpty | models/memory_git_repository.rb:55-57 | a blob created from nil loads back as an empty string of size 0 |
| MemoryRepository.UpdateBranch | models/memory_git_repository.rb:59-61 | the branch points at the commit afterwards; objects and HEAD do not change |
| MemoryRepository.BranchNames | models/memory_git_repository.rb:63-65 | exactly the names of the branches |
| MemoryRepository.UpdateBranchFrame | models/memory_git_repository.rb:59-65 | updating a branch adds at most its name and leaves every other branch where it was |
| MemoryRepository.UpdateHeadBranch | models/memory_git_repository.rb:15-21 | moving the branch that HEAD names moves the head commit with it |
| RdbmsRepository.Sha1For | models/rdbms_git_repository.rb:102-104 | a row gives its hash; a hash is returned as given |
| RdbmsRepository.ParseObject | models/rdbms_git_repository.rb:22-26 | raises NoMethodError exactly for nil data; otherwise the type, the data and the data's size |
| RdbmsRepository.FormatCommitData | models/rdbms_git_repository.rb:28-30 | a five-element tuple with one parent per parent given |
| RdbmsRepository.ParseCommitData | models/rdbms_git_repository.rb:32-40 | the five named fields are the commit tuple's elements, which rebuild the tuple exactly |
| RdbmsRepository.CommitDataRoundTrip | models/rdbms_git_repository.rb:28-40 | parsing a formatted commit gives back the hashes of the tree and of the parents, in order, and the other fields as given |
| RdbmsRepository.CommitDataOfRowsOrHashes | models/rdbms_git_repository.rb:28-30 | naming the tree and parents by their rows or by their hashes formats the same commit |
| RdbmsRepository.FormatTreeData | models/rdbms_git_repository.rb:42-44 | one row per entry in order, each with its type's mode, its name and its object's hash |
| RdbmsRepository.TreeDataRoundTrip | models/rdbms_git_repository.rb:42-48 | the rows read back carry each entry's class's mode, its name and its object's hash |
| RdbmsRepository.CreateGitObjectAsWritten | models/rdbms_git_repository.rb:56-82 | returns the digest of `[type, data]`; TypeError exactly for a blob whose data is not a string; a new blob row hands back the deflated bytes, a new tree or commit row the pair itself; other types store nothing; existing rows do not change |
| RdbmsRepository.LoadCreatedBlobAsWritten | models/rdbms_git_repository.rb:50-82 | with a compressor that changes the bytes and a collision-free digest, a created blob loads back as its compressed bytes with their length as size, its content hash differs from the returned hash, and the rows stop being content-addressed |
| RdbmsRepository.CreateGitObject | models/rdbms_git_repository.rb:56-82 | with `to_raw` inflating: the digest of `[type, data]`; TypeError exactly for a blob whose data is not a string; a blob, tree or commit row that gives the pair back is created unless one exists; other types store nothing; existing rows do not change; content addressing is kept |
| RdbmsRepository.CreateAgreesExceptBlobs | models/rdbms_git_repository.rb:56-82 | the written and the corrected creation agree on every non-blob, and on a blob whose compression leaves its bytes unchanged |
| RdbmsRepository.CreateGitObjectIdempotent | models/rdbms_git_repository.rb:56-82 | creating the same object twice returns the same hash and changes nothing the second time |
| RdbmsRepository.LoadObjectAsWritten | models/rdbms_git_repository.rb:50-54 | an unknown hash raises NoMethodError from `nil.to_raw`, and MissingObjectError is never raised |
| RdbmsRepository.LoadMissingAsWritten | models/rdbms_git_repository.rb:51 | on an empty database every load raises NoMethodError rather than MissingObjectError |
| RdbmsRepository.LoadObject | models/rdbms_git_repository.rb:50-54 | with the nil test applied to the row: an unknown hash raises MissingObjectError; otherwise the stored type and data, the data's size and the pair's digest |
| RdbmsRepository.LoadObjectAgreesOnStoredRows | models/rdbms_git_repository.rb:50-54 | the corrected load differs from the written one only on unknown hashes |
| RdbmsRepository.LoadCreatedObject | models/rdbms_git_repository.rb:50-82 | with `to_raw` inflating, a created blob, tree or commit loads back under the returned hash with its type, data and size |
| Backends.LoadObject | models/git_repository.rb:32-37 | a load succeeds only for a stored hash, and an unknown hash raises MissingObjectError in every back end |
| Backends.ParseTreeData | models/git_repository.rb:70-72 | only a scanned file-system payload can raise, with InvalidTreeData; the other back ends hand their rows back unchanged |
| Backends.ParseCommitData | models/git_repository.rb:66-68 | only a file-system payload can raise; the other back ends hand their commit tuple back unchanged |
| Backends.HooksOf | models/git_repository.rb:28-72 | the hooks a back end gives the object model load, parse and read HEAD as that back end does, and load only stored hashes |
| Backends.HeadCommitSha1 | models/memory_git_repository.rb:15-21 | in memory, the commit of the branch HEAD names, or else HEAD itself if anything; the file-system and relational back ends give the HEAD they read |
| GitObjects.ParseData | models/git_object.rb:79-80 | only Tree and Commit parse, into rows and commit fields, and only they can raise; the blob classes keep nothing |
| GitObjects.Initialize | models/git_object.rb:34-99 | a failed load is the error raised; otherwise the instance has the class, hash and options given, the loaded type, digest and size, and the payload, dropped for a blob loaded without data; a parse failure is the error raised |
| GitObjects.SizeMismatchRaises | models/git_object.rb:92-95 | a stored size that differs from the payload's size raises InvalidSizeError |
| GitObjects.InitializeDefaults | models/git_object.rb:36-39 | without options the commit level is 1, there is no blob data, and a blob's payload is dropped |
| GitObjects.InitializeWithOwnOptions | models/git_object.rb:36-46 | loading again with the options an instance recorded gives the same instance |
| GitObjects.FindOrInitializeAsWritten | models/git_object.rb:27-29 | succeeds exactly for a cached key; anything else raises NoMethodError, and the cache does not change |
| GitObjects.AsWrittenNeverLoads | models/git_object.rb:28 | from an empty cache every lookup raises NoMethodError |
| GitObjects.FindOrInitialize | models/git_object.rb:27-29 | a cached key returns its instance and changes nothing; nil raises NoMethodError; a new success is cached under the key; no cached instance changes, and every cached instance stays what loading it gives |
| GitObjects.FindOrInitializeLoads | models/git_object.rb:28 | an uncached key is standardised, and its error or the load as the class and options asked for is the result |
| GitObjects.FirstOptionsWin | models/git_object.rb:28 | once a key is cached, every later request for it, with any class and options, returns the same instance and changes nothing |
| GitObjects.CorrectedLookupLoads | models/git_object.rb:27-29 | a loadable 40-character hash loads into an empty cache, where the lookup as written raises NoMethodError |
| GitObjects.First7 | models/git_object.rb:76 | `sha1[0..6]` is the first seven characters, or the whole of a shorter string |
| GitObjects.CheckHeader | models/git_object.rb:53-61 | passes exactly when the type is the class's base type and the hash is the content's digest; a wrong type raises InvalidTypeError first, then a wrong hash raises InvalidSha1Error with both hashes |
| GitObjects.FieldsOf | models/commit.rb:9 | a commit's fields exist exactly for a Commit whose payload parsed into commit fields |
| GitObjects.TreeOf | models/commit.rb:11-13 | the tree is looked up as a Tree with the commit's level and blob-data option; a non-commit raises NoMethodError; the cache only grows and stays consistent |
| GitObjects.ParentsFrom | models/commit.rb:15-19 | one parent per remaining hash, each cached under its hash; the cache only grows and stays consistent |
| GitObjects.ParentsOf | models/commit.rb:15-19 | one Commit per parent hash, in order, each cached under its hash; a non-commit raises NoMethodError |
| GitObjects.ParentOf | models/commit.rb:21-29 | nil without parents, the only parent, or RuntimeError "More than one parent commit found." when there are more |
| GitRepository.New | models/git_repository.rb:7-14 | a new repository caches no instance and is bare only when asked to be |
| GitRepository.NewDefaults | models/git_repository.rb:8-10 | without options a repository is not bare |
| GitRepository.FindCloned | models/git_repository.rb:82-83 | a target reports a hash as cloned exactly when it holds a clone for it, and then that clone's hash |
| GitRepository.FindClonedDefault | models/git_repository.rb:82-83 | the default reports nothing as cloned |
| GitRepository.CreateBlob | models/git_repository.rb:62-64 | forwards the data to the back end's blob creation and ignores the source hash |
| GitRepository.CreateTree | models/git_repository.rb:58-60 | forwards the entries to the back end's tree creation |
| GitRepository.CreateCommit | models/git_repository.rb:50-56 | the commit object is created and the branch points at its hash, which is returned; HEAD does not change |
| GitRepository.CreatedCommitIsHead | models/git_repository.rb:50-56 | a commit created on the branch HEAD names becomes the head commit and loads back with the arguments |
| GitRepository.HeadCommitAsWritten | models/git_repository.rb:20-22 | succeeds, with nil, exactly when there is no head hash |
| GitRepository.HeadCommit | models/git_repository.rb:20-22 | nil without a head hash; otherwise the head hash looked up as a Commit with the options given, or that lookup's error |
| GitRepository.WithBlobData | models/git_repository.rb:24-26 | the merged options load blob data and keep the commit level |
| GitRepository.HeadCommitOptions | models/git_repository.rb:20-26 | the head commit loaded for the first time carries the commit level and blob-data option given |
| Blobs.ValidateData | models/blob.rb:2-4 | a blob's data is always valid |
| Blobs.FileMode | models/blob.rb:10 | 0755, 0664 and 0644 for the executable, group-writable and plain blob classes, and nothing for any other class |
| Blobs.FileModeMatchesTreeMode | models/blob.rb:10 | each permission is the last three octal digits of the mode VALID_MODES gives the class |
| Blobs.Checkout | models/blob.rb:6-16 | a blob without its data raises "Blob cannot be checked out"; otherwise the data is written to the path with the class's permission, and a class outside the table raises TypeError |
| Blobs.DefaultCheckoutFolder | models/git_object.rb:75-77 | `checkout_files/` followed by the first seven characters of the hash |
| Blobs.CloneBlob | models/blob.rb:18-28 | a blob without its data raises "Blob cannot be cloned"; a blob already cloned gives the clone's hash and creates nothing; otherwise the target stores the data; branches and HEAD do not change |
| Blobs.ClonedBlobLoadsBack | models/blob.rb:18-28 | a cloned blob loads back from the target as a blob with the same data |
| Trees.Lookup | models/tree.rb:48 | `items[name]` finds something exactly when the name is among the items |
| Trees.Merge | models/tree.rb:9 | merging a name keeps the order of the names and appends a new one; the name then finds the new object and every other name what it found before |
| Trees.Uniq | models/tree.rb:56 | `uniq` keeps every element and no repetition |
| Trees.RowsOf | models/tree.rb:86-90 | a tree's rows exist exactly for a Tree whose payload parsed into rows |
| Trees.EntriesFrom | models/tree.rb:4-13 | succeeds only when every remaining mode is valid, and the entries then reflect the rows: their names are the rows' names without repetition, and each name maps to the instance cached for the last row of that name |
| Trees.Entries | models/tree.rb:4-13 | the entries reflect the rows as above, every mode is valid, a non-tree raises NoMethodError, and the cache only grows and stays consistent |
| Trees.EntriesOfCachedRows | models/tree.rb:4-13 | with every row's hash cached, the entries are built exactly when every mode is in VALID_MODES, and otherwise InvalidModeError is raised |
| Trees.EntriesStable | models/tree.rb:4-13 | computed again under any larger cache, the entries come out the same and nothing is loaded, so remembering `entries` changes no result |
| Trees.Validate | models/git_object.rb:53-63 | a failed header check is the result; success needs the header check to pass |
| Trees.ValidateData | models/tree.rb:15-19 | a successful `validate_data` answers true, and the cache only grows |
| Trees.ValidateEach | models/tree.rb:16-18 | validating every entry answers true when it succeeds |
| Trees.ValidateKeepsCache | models/git_object.rb:53-63 | validation keeps every cached instance what loading it gives |
| Trees.ValidateStable | models/git_object.rb:53-63 | a successful validation succeeds again under any larger cache, loading nothing |
| Trees.ValidateEachAll | models/tree.rb:16 | after the loop every entry validates |
| Trees.ValidTreeHasValidEntries | models/tree.rb:15-19 | a valid tree has entries, and each of them is valid one stack frame deeper |
| Trees.ValidCommitHasValidTree | models/commit.rb:98-100 | a valid commit has a tree, and that tree is valid one stack frame deeper |
| Trees.RevalidateIsSame | models/git_object.rb:107 | validating again gives the first answer and loads nothing, so remembering `validate` changes no result |
| Trees.Abbreviated | models/tree.rb:56 | each hash is cut to its first seven characters |
| Trees.OnlyTrees | models/tree.rb:61 | exactly the Trees among the objects |
| Trees.OtherEntries | models/tree.rb:48 | the other trees' same-named entries; with no other trees there are none and nothing is loaded |
| Trees.EntryChanges | models/tree.rb:44-70 | a skipped class adds nothing; an entry with no counterpart is created; one whose hash no counterpart has is updated, listing their abbreviated hashes once each; a tree is descended into instead; an unchanged entry adds nothing |
| Trees.ChangesBetween | models/tree.rb:43-72 | every row is a creation with no old hashes or an update listing them, of a path below the base path, with the new hash cut to seven characters; the cache only grows |
| Trees.ChangesOf | models/tree.rb:44-71 | the rows of the entries from the given one on have the same form as those of `changes_between` |
| Trees.DiffRowsNested | models/tree.rb:45 | a path below a sub-tree's joined path is below the base path too |
| Trees.Leaves | models/tree.rb:43-72 | every change listed for a tree compared with nothing is a creation of a leaf, with no earlier hashes and an abbreviated hash |
| Trees.ChangesAgainstNothing | models/tree.rb:43-72 | compared with no other tree, `changes_between` lists every compared leaf as created, in entry order, descending into sub-trees |
| Trees.EntryAgainstNothing | models/tree.rb:44-70 | with no other trees, an entry's changes are its leaves: nothing for a skipped class, the entry created for a blob, and the leaves below it for a tree |
| Trees.ChangesAgainstItself | models/tree.rb:43-72 | a tree compared with itself shows no change and loads nothing more |
| Trees.EntriesDistinct | models/tree.rb:4-13 | the names of a tree's entries are distinct |
| Trees.SpecOf | models/tree.rb:78 | a clone's entry record is the class's type symbol, the entry's name and the clone's hash |
| Trees.CloneObject | models/tree.rb:77-79 | cloning an entry's object returns a hash the target holds or reports as cloned; the target only grows and stays content-addressed |
| Trees.CloneTree | models/tree.rb:74-82 | a cloned tree's hash is stored in the target; the target only grows and stays content-addressed |
| Trees.CloneEntries | models/tree.rb:77-79 | one record per entry, in order, with its type symbol, its name and a hash the target holds |
| Trees.ClonedTreeLoadsBack | models/tree.rb:74-82 | a tree cloned into a target with no earlier clones loads back as a tree whose rows carry the entries' names in order, each with its class's mode and a hash the target stores |
| Commits.Put | models/commit.rb:198 | storing adds exactly the key, keeps keys distinct, and grows the hash only for a new key |
| Commits.Get | models/commit.rb:138 | a lookup finds a value exactly for a key the hash holds, and that value is the one stored under the key |
| Commits.PutPlaces | models/commit.rb:198 | storing under a present key replaces that pair where it stands; storing under a new key appends the pair |
| Commits.PutGet | models/commit.rb:198 | after a store the key finds the stored value and every other key what it found before |
| Commits.HasKey | models/commit.rb:203 | `has_key?` holds exactly for the keys the hash holds |
| Commits.ParentsInUniverse | models/commit.rb:15-19 | every parent hash of a cached commit belongs to the commits reachable from the stored ones |
| Commits.Schedule | models/commit.rb:201-204 | queueing the parents keeps the walk's invariant, closes the visited commit, and only appends, shrinking what is left to ask whenever something is added |
| Commits.Collect | models/commit.rb:198 | the `visited` hash holds exactly the visited commits' hashes, each once |
| Commits.CollectPairs | models/commit.rb:196-198 | each pair of the `visited` hash is a visited commit's hash with the block's result for that visit |
| Commits.CollectValues | models/commit.rb:196-198 | every value of the `visited` hash is the block's result for some visited commit |
| Commits.VisitNext | models/commit.rb:192-207 | one loop pass keeps the walk's invariant and makes progress: fewer hashes are left unasked, or as many with a shorter queue |
| Commits.VisitAncestors | models/commit.rb:181-210 | breadth first from the commit itself: the commit is visited first, no key (the raw hash an instance was looked up under) twice, every parent of a visited commit is visited, and the result records each visited hash with the block's result |
| Commits.CommitCount | models/commit.rb:102-104 | the count is the number of distinct hashes among the commit and its ancestors, all of which the walk visits |
| Commits.MaxStep | models/commit.rb:111-114 | the maximum never drops below its old count or the new one, and changes only to the new commit and count |
| Commits.MaxOfIsMax | models/commit.rb:106-117 | the result is the largest parent count among the commits and the hash of the first commit having it, or nil and -1 for no commits |
| Commits.MaxParentsCount | models/commit.rb:106-117 | `max_parents_count` is that maximum taken over every ancestor the walk visits |
| Commits.ValidateAncestors | models/commit.rb:88-96 | on success every visited ancestor validates under the cache the walk leaves, without loading anything more, and the answer is true |
| Commits.ValidateRepository | models/git_repository.rb:85-87 | without a head commit, NoMethodError; on success the head commit is cached and validates |
| CommitClone.CloneVisit | models/commit.rb:120-128 | a commit the target reports as cloned is recorded with that clone and nothing changes; otherwise it is recorded as a tree record holding the clone `Trees.CloneTree` gives its tree, a hash the target stores; the record is a commit record exactly when the target reports the commit; the target only gains objects |
| CommitClone.CloneTrace | models/commit.rb:120-128 | after the walk the target still holds every recorded hash and has only gained objects |
| CommitClone.TreeRecords | models/commit.rb:130 | exactly the records that hold a tree clone |
| CommitClone.AllCloned | models/commit.rb:137-139 | true exactly when every parent is recorded with a commit clone; a parent with no record raises NoMethodError |
| CommitClone.ParentClones | models/commit.rb:149-153 | succeeds exactly when every parent is recorded with a commit clone, listing those clones in parent order |
| CommitClone.AllClonedListsClones | models/commit.rb:137-153 | when `all?` answers true, the assertion inside the parents' `map` cannot fail |
| CommitClone.Choose | models/commit.rb:133-142 | the commit chosen is one of the scanned tree records, cached under its hash, with its parents loaded |
| CommitClone.ChosenIsTree | models/commit.rb:133-142 | with correctly cached instances, the commit chosen is one still recorded with a tree clone |
| CommitClone.CreateCommitStores | models/git_repository.rb:50-56 | `create_commit!` only adds to the target, stores the new hash and points the branch at it |
| CommitClone.CloneStep | models/commit.rb:130-160 | a pass that succeeds chose a commit whose parents are all recorded with commit clones; it creates on the branch a commit over the chosen commit's tree clone with those parent clones in parent order and the chosen commit's author, committer and subject, and replaces the chosen record by a commit record holding the new hash |
| CommitClone.TreeKeysShrink | models/commit.rb:159 | turning a tree record into a commit record removes its hash from the tree records and nothing else |
| CommitClone.CloneStepShrinks | models/commit.rb:130-160 | every successful pass leaves one tree record fewer, so the loop ends |
| CommitClone.RootClone | models/commit.rb:163-165 | succeeds exactly when the commit itself is recorded with a commit clone, and returns that clone; a missing record raises NoMethodError |
| CommitClone.NoTreesRootClone | models/commit.rb:163 | once no tree record is left, the final assertion holds |
| CommitClone.CreateCommits | models/commit.rb:130-165 | when the loop ends, every visited commit is recorded with a commit clone the target stores and the root's clone is the result; each record of a reported clone is as the walk left it, and each other record holds a commit created over the walk's tree clone whose parents are the clones recorded for its parents, in order (`Settled`) |
| CommitClone.CloneWalk | models/commit.rb:120-128 | the walk starts at the commit, visits every ancestor, and records for each a hash the target can answer |
| CommitClone.CloneInto | models/commit.rb:119-166 | on success the target only gained objects, every ancestor of the commit has a commit clone the target can answer, and the result is the commit's own clone; an ancestor the target reported keeps the reported clone, and every other ancestor's clone is a stored commit over the tree clone the walk recorded for it, with its parents' clones in parent order and its own author, committer and subject |
| CommitClone.WalkRecordsFound | models/commit.rb:120-128 | the walk records a commit clone exactly for the commits the target reports, holding the reported hash, and a tree clone for every other |
| CommitClone.StepMade | models/commit.rb:144-159 | the commit a pass creates is one still recorded with a tree clone, cached under its own hash, and the new hash names a commit over that tree clone with its parents' clones in parent order |
| CommitClone.MadeKept | models/commit.rb:130-159 | a commit created by an earlier pass keeps its description as later passes only turn tree records into commit records and the target only gains objects |
| CommitClone.BuiltStep | models/commit.rb:130-160 | each pass keeps every record against the walk's: a reported clone untouched, an unconverted record untouched, a converted one holding the commit made over the walk's tree clone |
| CommitClone.MadeLoadsBack | models/commit.rb:144-155 | in a content-addressed target with a collision-free digest, a cloned commit loads back as a commit over its tree clone, with its parents' clones in order and the source commit's author, committer and subject |
| CommitChanges.ArrayAnd | models/commit.rb:52 | `a & b` holds exactly the elements in both, each once |
| CommitChanges.InjectAnd | models/commit.rb:50-52 | nothing for no parents, the only list for one, and otherwise exactly the rows every list holds, each once |
| CommitChanges.Delete | models/commit.rb:58-59 | `delete` removes every copy of the row and keeps every other row |
| CommitChanges.AsDeletions | models/commit.rb:51 | exactly the created rows, each turned into a deletion with its hashes swapped |
| CommitChanges.Deleteds | models/commit.rb:56 | exactly the deleted rows |
| CommitChanges.FindCreated | models/commit.rb:57 | the first created row with that new hash, or none when there is no such row |
| CommitChanges.Rename | models/commit.rb:56-64 | with no created row carrying the deleted row's old hash, nothing changes; otherwise both rows go and `"old -> new"` is appended as renamed |
| CommitChanges.Renames | models/commit.rb:56-64 | the rename fold invents nothing: every row it leaves was there before or is a rename; folding over all the deleted rows leaves no deleted row beside a created row carrying its old hash |
| CommitChanges.RenameRows | models/commit.rb:57-62 | one step adds nothing but the rename; a deleted row still there afterwards found no created row, and the rows are unchanged |
| CommitChanges.Fold | models/commit.rb:53-64 | after `concat` and the rename fold every row is one of the updates, one of the deletions or a rename, and no deleted row is left beside a created row carrying its old hash |
| CommitChanges.TreesOf | models/commit.rb:46 | one tree per parent |
| CommitChanges.DeletionLists | models/commit.rb:50-52 | one deletion list per parent tree |
| CommitChanges.ParentDiffs | models/commit.rb:50 | one diff per parent tree |
| CommitChanges.DeletionListsOfDiffs | models/commit.rb:50-52 | the deletion lists exist exactly when every parent tree's diff does, and each is that diff's created rows turned into deletions |
| CommitChanges.Introduced | models/commit.rb:46-64 | no deleted row is left beside a created row carrying its old hash; the cache only grows |
| CommitChanges.IntroducedRows | models/commit.rb:46-64 | every row other than a deletion or a rename is a row of the tree's diff; a deleted row is, for every parent (of which there is one at least), the deletion of a row that parent's diff reports as created; no created row carries a deleted row's old hash |
| CommitChanges.FoldRows | models/commit.rb:50-64 | the fold keeps only the diff's rows, the deletions every list holds, and renames |
| CommitChanges.ChangesIntroducedBy | models/commit.rb:45-65 | no deleted row is left beside a created row carrying its old hash; the cache only grows |
| CommitChanges.IntroducedAsWritten | models/commit.rb:46-64 | the answer and the remembered `changes_between` array are one array afterwards |
| CommitChanges.IntroducedOnCopy | models/commit.rb:46-64 | working on a copy, the remembered array stays as it was |
| CommitChanges.SecondCallRepeatsDeletion | models/commit.rb:46-64 | with one file deleted, a second call as written answers the deletion twice; on a copy it answers it once |
| CommitChanges.SecondCallAfterRename | models/commit.rb:46-64 | with one file renamed, a second call as written answers the rename and a stray deletion; on a copy, the rename alone |
| CommitChanges.CopiedCallsAgree | models/commit.rb:46-64 | on a copy, a second call gives the first call's answer and leaves the same array remembered |
| CommitChanges.IntroducedAgainstNothing | models/commit.rb:45-65 | against no parent tree, every compared leaf under the tree is created, with no deletion and no rename |
| CommitChanges.NothingDeleted | models/commit.rb:56-64 | rows that are all creations leave the rename fold nothing to do |
| CommitChanges.IntroducedAgainstItself | models/commit.rb:45-65 | a tree compared with itself as its only parent's tree introduces nothing |
| CommitChanges.RootCommitChanges | models/commit.rb:45-65 | a root commit introduces every compared leaf of its tree as created |
| CommitChanges.SameTreeNoChanges | models/commit.rb:45-65 | a commit whose only parent has the same tree introduces no change |
| CheckCurrentBranch.ObjectPath | check_current_branch.rb:23 | `File.join` raises TypeError exactly for a hash shorter than two characters; a 40-digit hash becomes its first two digits, a slash and the other 38 |
| CheckCurrentBranch.ToI | check_current_branch.rb:32 | a run of decimal digits reads as its value |
| CheckCurrentBranch.FirstField | check_current_branch.rb:29 | the first field of `split` is the content before its first separator |
| CheckCurrentBranch.ReadGitObject | check_current_branch.rb:22-35 | nil raises NoMethodError and a missing file raises ">>> File not found"; otherwise the raw content is the file's, and the data is present exactly when it holds a NUL, being everything after the first NUL |
| CheckCurrentBranch.WordsOfPair | check_current_branch.rb:31 | `"type size".split` gives both words back |
| CheckCurrentBranch.ReadSplitsAtFirstNul | check_current_branch.rb:22-35 | a file of a non-empty NUL-free header, a NUL and data reads as the header's type and size and exactly that data |
| CheckCurrentBranch.FrameHeader | check_current_branch.rb:31-32 | the header `create_git_object!` writes names the type and the payload's size |
| CheckCurrentBranch.ReadFrame | check_current_branch.rb:22-35 | the frame `create_git_object!` writes reads back as its type, its payload's size and its payload |
| CheckCurrentBranch.ReadAgreesWithParseObject | check_current_branch.rb:29-30 | the checker's reader and `parse_object` split the content at the same NUL and agree on the data |
| CheckCurrentBranch.Sha1As40CharacterString | check_current_branch.rb:94-96 | twice as many characters as bytes, all lower-case hex digits |
| CheckCurrentBranch.Sha1As40PairsAt | check_current_branch.rb:95 | byte i becomes digits 2i and 2i+1: its high nibble, then its low one |
| CheckCurrentBranch.Sha1As40IsHexString | check_current_branch.rb:94-96 | the checker prints a hash exactly as `hex_string_sha1` does |
| CheckCurrentBranch.Sha1As40RoundTrip | check_current_branch.rb:94-96 | twenty bytes become a 40-digit hash from which `byte_array_sha1` reads the bytes back |
| CheckCurrentBranch.FindLabelled | check_current_branch.rb:49 | the first row whose first word is the tag, and no earlier one |
| CheckCurrentBranch.ReadCommitLinks | check_current_branch.rb:48-50 | raises NoMethodError exactly when no row's first word is `tree`; the parents are the second words of the `parent` rows |
| CheckCurrentBranch.NulFrom | check_current_branch.rb:75 | the first NUL at or after the position |
| CheckCurrentBranch.EntryMatch | check_current_branch.rb:75-76 | a match lies inside the data and has a digit mode and a 40-character hash |
| CheckCurrentBranch.TreeEntries | check_current_branch.rb:75-77 | every scanned entry has a digit mode and a 40-character hash |
| CheckCurrentBranch.EntryMatchOfText | check_current_branch.rb:75-76 | the checker's pattern matches a well-formed record exactly where its bytes start, ending where they end, with the hash printed in hex |
| CheckCurrentBranch.TreeEntriesText | check_current_branch.rb:75-77 | scanning the bytes of well-formed records meets each record in turn |
| CheckCurrentBranch.TreeEntriesOfFormatted | check_current_branch.rb:75-77 | the checker reads the tree `format_tree_data` writes as one entry per written entry, in order, with its mode, name and hex hash |
| CheckCurrentBranch.MarkCommit | check_current_branch.rb:59 | marking a commit whose links are checked keeps every mark a checked, closed object |
| CheckCurrentBranch.MarkTree | check_current_branch.rb:91 | marking a tree whose entries are checked keeps every mark a checked, closed object |
| CheckCurrentBranch.MarkBlob | check_current_branch.rb:114 | marking a verified blob keeps every mark a checked, closed object |
| CheckCurrentBranch.CheckBlob | check_current_branch.rb:98-115 | passes exactly for a blob already checked or one whose type, size and digest check out, and then marks it; a failure marks nothing |
| CheckCurrentBranch.CheckCommit | check_current_branch.rb:37-60 | a commit already checked returns at once; the marks only grow and stay sound, and a commit that passes is marked |
| CheckCurrentBranch.CheckParents | check_current_branch.rb:57 | every parent is marked as a checked commit when the loop passes; the marks only grow and stay sound |
| CheckCurrentBranch.CheckTree | check_current_branch.rb:62-92 | a tree already checked returns at once; the marks only grow and stay sound, and a tree that passes is marked |
| CheckCurrentBranch.CheckEntry | check_current_branch.rb:83-89 | a passing entry is accounted for by the marks; a mode other than blob, executable file or tree raises ">>> Unexpected object type" |
| CheckCurrentBranch.CheckEntries | check_current_branch.rb:83-89 | when the loop passes every entry is accounted for; the marks only grow and stay sound |
| CheckCurrentBranch.CommitChecksInOrder | check_current_branch.rb:52-54 | for a commit not yet checked, the type is checked first, then the size, then the digest, and a failing check changes no mark |
| CheckCurrentBranch.TreeChecksInOrder | check_current_branch.rb:79-81 | for a tree not yet checked, the type is checked first, then the size, then the digest, and a failing check changes no mark |
| CheckCurrentBranch.CommitChecksTreeFirst | check_current_branch.rb:56-59 | a verified commit's tree is checked first; the parents are checked only after it passes; the commit is marked only after both pass |
| CheckCurrentBranch.EntryRouting | check_current_branch.rb:84-88 | blob and executable-file modes go to `check_blob`, the tree mode to `check_tree`, and the symbolic-link mode raises |
| CheckCurrentBranch.CheckBranchTip | check_current_branch.rb:15-20 | a passing run from the branch tip leaves every marked object verified with its links marked, the tip among them |
| EnumCursor.Start | lib/my_enum_for.rb:135-143 | a new enumerator has fetched nothing, with the index before the first value |
| EnumCursor.Next | lib/my_enum_for.rb:17-30 | succeeds exactly while values remain, giving the value after the current one and moving to it, fetching it only if it is not cached; otherwise StopIteration and nothing changes |
| EnumCursor.Rewind | lib/my_enum_for.rb:75-78 | the index goes back before the first value and the cache is kept |
| EnumCursor.Nexts | lib/my_enum_for.rb:17-30 | k calls of `next` give k results |
| EnumCursor.NextsInOrder | lib/my_enum_for.rb:17-30 | while values remain, successive `next` calls give the values after the current one in order and fetch only what was not cached |
| EnumCursor.NextsFromStart | lib/my_enum_for.rb:17-30 | a new enumerator's `next` calls give every yielded value in order, and one more raises StopIteration |
| EnumCursor.RewindReplays | lib/my_enum_for.rb:75-78 | after `rewind`, `next` replays the cache without fetching |
| EnumCursor.Peek | lib/my_enum_for.rb:66-73 | `peek` gives what `next` would give, and fetches what it would fetch, without moving the index |
| EnumCursor.Exhaust | lib/my_enum_for.rb:86-88 | running `next` until StopIteration fetches every value and stops on the last; the count is how many calls succeeded |
| EnumCursor.Count | lib/my_enum_for.rb:46-64 | `count` is the number of yielded values, leaves all of them cached and restores the index |
| EnumCursor.First | lib/my_enum_for.rb:80-83 | `first` gives the first value, or raises StopIteration when there is none |
| MyEnumFor.Current | lib/my_enum_for.rb:40-44 | succeeds exactly once a value is current, with that value; before it raises InvalidEnumeratorIndex |
| MyEnumFor.Previous | lib/my_enum_for.rb:32-38 | before the first value it raises InvalidEnumeratorIndex, at the first StopIteration, and otherwise it steps back to the previous value |
| MyEnumFor.PreviousUndoesNext | lib/my_enum_for.rb:17-38 | `previous` after `next` returns to the value and index that were current |
| MyEnumFor.Last | lib/my_enum_for.rb:85-91 | the last yielded value, with everything cached; InvalidEnumeratorIndex when nothing is yielded |
| MyEnumFor.At | lib/my_enum_for.rb:93-113 | an index inside the values gives that value and becomes current; a negative index raises and changes nothing; one past the end raises InvalidEnumeratorIndex with everything cached |
| MyEnum.Current | lib/my_enum.rb:37-39 | nil exactly before the first value, otherwise the current value |
| MyEnum.Previous | lib/my_enum.rb:29-35 | StopIteration before the first value; at the first, nil and back before it; otherwise the previous value |
| MyEnum.PreviousUndoesNext | lib/my_enum.rb:13-35 | `previous` after `next` returns to the value that was current, nil before the first |
| MyEnum.NoCurrentAfterRewind | lib/my_enum.rb:37-39 | `current` is nil for a new enumerator and after `rewind` |
| MyEnum.Last | lib/my_enum.rb:75-81 | the last yielded value with everything cached, or nil when nothing is yielded |

## Left out

- File and database I/O are not modelled. This covers `File.read`/`File.write`, `Dir.entries`, `mkpath`, `File.chmod`, `puts` logging and ActiveRecord connections. Every repository is a value: the loose-object store is a map from path to text, and the database back end is a table of rows.
- The file-system `head_commit_sha1`, `update_branch!` and `branch_names` read and write files under `.git/refs`, and `run!` reads `.git/HEAD`. They are left out as file I/O. The checker's entry point takes the branch tip as an argument.
- The relational `head_commit_sha1`, `update_branch!` and `branch_names` go through ActiveRecord models that no file here defines. They are left out.
- RdbmsRepository.LoadCreatedBlobAsWritten: the digest parameter stands for `Digest::SHA1.hexdigest(raw_content.to_json)` (models/rdbms_git_repository.rb:95) and is taken as total and injective. With the json gem's generator, `to_json` raises JSON::GeneratorError on a string that is not valid UTF-8. Every stream `Zlib::Deflate.deflate` makes at its default level starts with the bytes 0x78 0x9C, and 0x9C cannot open a UTF-8 character, so the as-written load of any blob raises at models/rdbms_git_repository.rb:53 before `validate` runs. Only with an encoder that replaces invalid bytes does the load succeed with the wrong content hash the lemma states. The memory back end Base64-encodes strings before `to_json` (models/memory_git_repository.rb:93) and so has no such raise.
- RdbmsRepository.CreateGitObjectAsWritten: the digest is taken as total, so the JSON::GeneratorError that `to_json` raises at models/rdbms_git_repository.rb:58 for blob data that is not valid UTF-8 is not modelled.
- RdbmsRepository.CreateGitObject: as for the as-written version, a blob whose data is not valid UTF-8 is not modelled raising JSON::GeneratorError.
- MemoryRepository.BranchNames: it returns the branch names as a set. Ruby's `branches.keys` is an array in insertion order, and nothing in the modelled core depends on that order.
- Zlib compression is not computed. The file-system back end inflates whatever it deflated, so there it is the identity. The relational back end's `Zlib::Deflate.deflate` is a parameter of `RdbmsRepository.CreateGitObjectAsWritten`.
- ActiveRecord's own checks are not modelled: `validates_presence_of` on commit and tree-entry rows, and tree or commit rows that name objects missing from the database. A tree or commit row is taken to give back the pair it was created from.
- SHA1 digests, the JSON and Base64 encodings of database rows, and `Time.now` are not computed. They are function parameters.
- The abstract repository's `head_commit_sha1`, `load_object`, `parse_object`, `parse_commit_data`, `parse_tree_data` and `update_branch!` raise NotImplementedError, but every back end overrides them. `Backends.HooksOf` picks the load, parse and HEAD overrides.
- Only the memory back end defines `create_commit_object!`, `create_tree_object!` and `create_blob_object!`, so a clone target (`GitRepository.Target`) is a memory repository. `create_commit!`, `create_tree!`, `create_blob!` or `clone_into` into the file-system or relational back end would raise NotImplementedError, and that is not modelled.
- `branches` raises NotImplementedError in every back end and is not modelled. The file-system back end does not define `sha1_from_raw_content` and never calls it.
- `Tree#checkout!` and `Commit#checkout!` only create directories and write files, so they are left out as I/O. Only the blob's guard and its permission table are modelled, in `Blobs.Checkout`.
- `commit_count` and `==` in git_repository.rb call `ancestors_count` and `ancestors_equal?`, which no file defines. The delegating `max_parents_count` is left out with them. `Commit#commit_count` and `Commit#max_parents_count` themselves are modelled.
- The first `Commit#clone_into` (commit.rb:67-78) is shadowed by the second definition in the same class, so it can never run. Only the second one is modelled.
- Commented-out methods are not modelled.
- `head_fsck` is not modelled.
- `find_valid_encoding`, `as_utf8` and `unicode_normalize` in lib/string_extensions.rb are not modelled, because strings are sequences of characters with no encoding.
- Ruby's stack depth is modelled as `fuel`. Running out stands for SystemStackError; the actual depth limit is not modelled.
- The Fiber behind `MyEnumerator` is not modelled. The values it would yield are given up front as a finite sequence, so a method that yields forever is not covered. The public `return_value` accessor (lib/my_enum_for.rb:7, :119) holds what the wrapped method returns once the Fiber finishes. It is not modelled either, because no enumerator operation reads it.
- MyEnum: lib/my_enum.rb has no `self[index]`, so the model has none, even though its test calls one.
- MyEnumFor.Current: the code is followed where the enumerator tests expect other error names.
- GitRepository.HeadCommit: it takes `Commit.find_by_sha1`, which is not defined here, to mean `find_or_initialize_by_sha1`. `GitRepository.HeadCommitAsWritten` keeps the raise.
- Trees.CloneObject: a Commit instance reaches a tree's entries only when `find_or_initialize_by_sha1` (models/git_object.rb:28) returns an instance already cached as a Commit under the entry's hash, because `instances[sha1] ||=` keeps whatever is there. The Ruby would then run `Commit#clone_into` (models/commit.rb:119) on it rather than raise. The model raises NotImplementedError in that case instead, and does not model that call. A mode 160000 entry is a `GitSubModule` (models/git_object.rb:13), which the model clones as a blob.
- Trees.ClonedTreeLoadsBack: it assumes the digest has no collisions (`Trees.CollisionFree`), because a real SHA1 cannot be reasoned about.
- CheckCurrentBranch.CheckCommit: its messages do not include the interpolated hashes and paths. Its contract proves that the marks stay sound, but not that a sound store always passes the check.
- CheckCurrentBranch.ReadGitObject: the ">>> File not found" message does not include the path.
- FileSystemRepository.CommitDataRoundTrip: an empty subject or one ending in a newline does not survive, because `split` drops trailing empty rows. `FileSystemRepository.EmptySubjectLosesCommitter` shows what happens to the empty one.
- CheckCurrentBranch.ToI: only a run of plain digits is stated. Ruby's `_` separators in `to_i` are not modelled.
- CommitChanges.Introduced: its ensures states that no rename was missed and that the cache grows. Where each row comes from is stated by `IntroducedRows`, and whole lists by `IntroducedAgainstNothing` and `IntroducedAgainstItself`.
- CommitChanges.Introduced: `remember` (memoize.rb) is not applied to `changes_between`; each call recomputes it. The aliasing this causes in the Ruby is shown by `IntroducedAsWritten`, and the model follows the copy.
- CommitChanges.ChangesIntroducedBy: its ensures states that no rename was missed and that the cache grows. Whole lists are stated by `RootCommitChanges` and `SameTreeNoChanges`.
- Trees.ChangesBetween: its ensures states the form of every row and its path. The rows of one entry are stated by `EntryChanges`, and whole lists by `ChangesAgainstNothing` and `ChangesAgainstItself`, but the per-entry rows are not lifted to the whole list.
- CommitClone.CloneInto: what the target holds after a failed clone is not stated.
- CommitClone.CloneInto: each created commit is stated to be over the tree clone the walk recorded for it, a hash the target stores; that this hash is the clone of that commit's own tree is stated only per visit, by `CloneVisit`, and not carried through the walk.
- Commits.VisitAncestors: which raise ended a failed walk is not stated.

## Findings

| source | as written | input that shows it | evidently intended | confidence | as-written member | corrected member |
|---|---|---|---|---|---|---|
| models/git_object.rb:27-29 | `find_or_initialize_by_sha1` calls `Sha1Util.standardized_hex_string_sha1`, which sha1_util.rb does not define | any hash that is not already in `repository.instances` raises NoMethodError, so no object is ever loaded through this lookup | standardise the hash with `Sha1Util.standardized_sha1`, then build and cache the object | not executed | GitObjects.FindOrInitializeAsWritten | GitObjects.FindOrInitialize |
| models/rdbms_git_repository.rb:50-54 | `DbObject.find_by_sha1(sha1).to_raw` is evaluated before the `unless` guard | a hash with no row: `find_by_sha1` returns nil, so the load raises NoMethodError instead of MissingObjectError | raise MissingObjectError("Object not found!") when no row exists | not executed | RdbmsRepository.LoadObjectAsWritten | RdbmsRepository.LoadObject |
| models/rdbms_git_repository.rb:62-64 | a blob row stores `Zlib::Deflate.deflate(data)`, and `DbBlob#to_raw` (models/db_blob.rb) returns that column without inflating it | a blob created from any data whose deflated bytes differ from it, such as "abc": it loads back as the compressed bytes, with their length as its size and the digest of `[:blob, deflated]` as its content hash, so the load raises JSON::GeneratorError when `to_json` (models/rdbms_git_repository.rb:95) meets the non-UTF-8 deflated bytes, or, with an encoder that replaces invalid bytes, `validate` raises InvalidSha1Error | store blobs so that `to_raw` returns the original data, for example by inflating in `to_raw` as the file-system back end does on read | not executed | RdbmsRepository.CreateGitObjectAsWritten | RdbmsRepository.CreateGitObject |
| models/commit.rb:46-64 | `changes_between` is remembered (memoize.rb:11-16, models/tree.rb:92), and `concat`, `delete` and `<<` change the array it returned, so the next call with the same trees starts from the previous answer | a commit whose only change is one deleted file: the second `changes_introduced_by` answers that deletion twice; for one renamed file it answers the rename and then a stray deletion | work on a copy, `tree.changes_between(...).dup` | not executed | CommitChanges.IntroducedAsWritten | CommitChanges.IntroducedOnCopy |
