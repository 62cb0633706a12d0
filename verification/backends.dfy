/** models/git_repository.rb: the hooks every repository provides to the
    object model (`head_commit_sha1`, `load_object`, `parse_tree_data`,
    `parse_commit_data`), dispatched to the three back ends. */
module Backends {

  import opened Results
  import opened ObjectData
  import FileSystemRepository
  import MemoryRepository
  import RdbmsRepository

  /** A repository's stored objects, the digest it names them by, and what
      its `head_commit_sha1` finds. The file-system and relational heads
      come from the HEAD file and the `HEAD` reference row, which are not
      read here. */
  datatype Backend =
    | FileSystem(files: FileSystemRepository.Objects, fsDigest: string -> string, fsHead: Option<string>)
    | Memory(memory: MemoryRepository.Repository, memDigest: MemoryRepository.RawContent -> string)
    | Rdbms(rows: RdbmsRepository.Rows, dbDigest: RdbmsRepository.RawContent -> string, dbHead: Option<string>)

  /** The hashes under which something is stored. */
  function StoreKeys(b: Backend): set<string> {
    match b
    case FileSystem(files, _, _) => files.Keys
    case Memory(memory, _) => memory.objects.Keys
    case Rdbms(rows, _, _) => rows.Keys
  }

  /** `load_object`. The relational back end is taken as corrected, raising
      MissingObjectError for an unknown hash. */
  function LoadObject(b: Backend, sha1: string): (r: Result<ObjectInfo>)
    ensures r.Success? ==> sha1 in StoreKeys(b)
    ensures sha1 !in StoreKeys(b) ==> r == Failure(MissingObjectError)
  {
    match b
    case FileSystem(files, digest, _) => FileSystemRepository.LoadObject(files, digest, sha1)
    case Memory(memory, digest) => MemoryRepository.LoadObject(memory, digest, sha1)
    case Rdbms(rows, digest, _) => RdbmsRepository.LoadObject(rows, digest, sha1)
  }

  /** `head_commit_sha1`: in memory, the commit of the branch HEAD names,
      or HEAD itself read as a hash; the other back ends read it from a
      file or a row, which is a parameter here. */
  function HeadCommitSha1(b: Backend): (r: Option<string>)
    ensures b.Memory? && b.memory.head in b.memory.branches ==> r == Some(b.memory.branches[b.memory.head])
    ensures b.Memory? && b.memory.head !in b.memory.branches && r.Some? ==> r.value == b.memory.head
    ensures b.FileSystem? ==> r == b.fsHead
    ensures b.Rdbms? ==> r == b.dbHead
  {
    match b
    case FileSystem(_, _, head) => head
    case Memory(memory, _) => MemoryRepository.HeadCommitSha1(memory)
    case Rdbms(_, _, head) => head
  }

  /** `parse_tree_data(data)[:entries_info]`: the rows of a tree, or None
      when the payload is not a list of rows (a memory or relational payload
      of another shape, which the tree code cannot walk). File-system
      payloads are bytes and are scanned, which may raise InvalidTreeData. */
  function ParseTreeData(b: Backend, data: Payload): (r: Result<Option<seq<TreeRow>>>)
    ensures r.Failure? ==> b.FileSystem? && data.Bytes? && r.error == InvalidTreeData
    ensures !b.FileSystem? && data.Rows? ==> r == Success(Some(data.rows))
  {
    if b.FileSystem? then
      if data.Bytes? then
        var rows :- FileSystemRepository.ParseTreeData(data.bytes);
        Success(Some(rows))
      else Success(None)
    else if data.Rows? then Success(Some(data.rows))
    else Success(None)
  }

  /** `parse_commit_data`: the commit's fields, or None when a memory or
      relational payload is not a commit tuple. File-system payloads are
      read row by row, which may raise MissingCommitDataError or
      ExcessiveCommitDataError. */
  function ParseCommitData(b: Backend, data: Payload): (r: Result<Option<CommitData>>)
    ensures r.Failure? ==> b.FileSystem? && data.Bytes?
    ensures !b.FileSystem? && data.CommitTuple? ==> r == Success(Some(data.commit))
  {
    if b.FileSystem? then
      if data.Bytes? then
        var fields :- FileSystemRepository.ParseCommitData(data.bytes);
        Success(Some(fields))
      else Success(None)
    else if data.CommitTuple? then Success(Some(data.commit))
    else Success(None)
  }

  /** What the object model sees of a repository: the hooks it calls, and
      the hashes under which something is stored. */
  datatype Hooks = Hooks(
    load: string -> Result<ObjectInfo>,
    parseTree: Payload -> Result<Option<seq<TreeRow>>>,
    parseCommit: Payload -> Result<Option<CommitData>>,
    head: Option<string>,
    keys: set<string>)

  /** Only stored hashes load. */
  ghost predicate Bounded(h: Hooks) {
    forall sha1 :: h.load(sha1).Success? ==> sha1 in h.keys
  }

  /** The hooks of a back end. */
  function HooksOf(b: Backend): (h: Hooks)
    ensures forall sha1 :: h.load(sha1) == LoadObject(b, sha1)
    ensures forall data :: h.parseTree(data) == ParseTreeData(b, data)
    ensures forall data :: h.parseCommit(data) == ParseCommitData(b, data)
    ensures h.head == HeadCommitSha1(b) && h.keys == StoreKeys(b)
    ensures Bounded(h)
  {
    Hooks(sha1 => LoadObject(b, sha1), data => ParseTreeData(b, data), data => ParseCommitData(b, data), HeadCommitSha1(b), StoreKeys(b))
  }
}
