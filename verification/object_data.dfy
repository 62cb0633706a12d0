/** What a repository's `load_object` hands to GitObject#load
    (models/git_repository.rb:34): the declared type and size, the payload,
    and the hash of the stored content. The three back ends store payloads of
    different shapes, so the payload is a sum of those shapes. */
module ObjectData {

  import opened Results

  /** An author or committer as a commit carries it: the text given when the
      commit was created, the `[name, time]` pair a file-system parse
      produces, or nil when the parse found no time stamp. */
  datatype Signature =
    | Text(text: string)
    | Stamp(name: string, time: int)
    | Absent

  /** One row of a tree's `entries_info`: `[mode, name, sha1]`. The mode is
      nil when `mode_for_type` knew no mode for the entry's type. */
  datatype TreeRow = TreeRow(mode: Option<string>, name: string, sha1: string)

  /** One element of the `entries` handed to `create_tree!`:
      `[type symbol, name, sha1]`. */
  datatype EntrySpec = EntrySpec(objectType: string, name: string, sha1: string)

  /** The fields `parse_commit_data` returns. Tree and parent hashes are nil
      when their header row had no value after the label. */
  datatype CommitData = CommitData(
    tree: Option<string>,
    parents: seq<Option<string>>,
    author: Signature,
    committer: Signature,
    subject: string)

  /** The `data` of a loaded object: a byte string (file system, blobs of
      every back end), a list of tree rows, the five-element commit tuple,
      or nil. */
  datatype Payload =
    | Bytes(bytes: string)
    | Rows(rows: seq<TreeRow>)
    | CommitTuple(commit: CommitData)
    | NoData

  datatype ObjectInfo = ObjectInfo(objectType: Option<string>, size: Option<int>, data: Payload, contentSha1: string)

  /** `@data.respond_to?(:bytesize) ? @data.bytesize : data.size`: the byte
      size of a string, the length of an array (five for a commit tuple);
      nil has no size. */
  function DataSize(p: Payload): (r: Result<nat>)
    ensures r.Failure? <==> p.NoData?
    ensures r.Failure? ==> r.error == NoMethodError
    ensures p.Bytes? ==> r == Success(|p.bytes|)
    ensures p.Rows? ==> r == Success(|p.rows|)
    ensures p.CommitTuple? ==> r == Success(5)
  {
    match p
    case Bytes(s) => Success(|s|)
    case Rows(rows) => Success(|rows|)
    case CommitTuple(_) => Success(5)
    case NoData => Failure(NoMethodError)
  }
}
