/** models/rdbms_git_repository.rb: the format/parse half of the relational
    back end. An object is the pair `[type, data]`, hashed as a whole, and a
    stored row hands back a pair through `to_raw` (models/db_blob.rb,
    models/db_tree.rb, models/db_commit.rb). A tree or commit row gives the
    pair it was created from; a blob row holds its data deflated, and
    `DbBlob#to_raw` returns those compressed bytes as they are. Arguments
    that name objects may be database rows or plain hashes. */
module RdbmsRepository {

  import opened Results
  import opened StringExtensions
  import opened Modes
  import opened ObjectData

  /** An argument that names an object: a database row (a DbObject) or
      anything else, taken to be a hash already. */
  datatype Ref = DbObject(sha1: string) | Plain(value: string)

  /** One element of the `entries` handed to `format_tree_data`:
      `[type symbol, name, object or hash]`. */
  datatype RefEntry = RefEntry(objectType: string, name: string, target: Ref)

  /** The pair `[type, data]` hashed by `create_git_object!` and returned by
      a row's `to_raw`. */
  datatype RawContent = RawContent(objectType: string, data: Payload)

  /** The object rows, by hash, each as its `to_raw` gives it back. */
  type Rows = map<string, RawContent>

  /** `sha1_for`: a row's hash, or the argument itself. */
  function Sha1For(r: Ref): (h: string)
    ensures r.DbObject? ==> h == r.sha1
    ensures r.Plain? ==> h == r.value
  {
    match r
    case DbObject(sha1) => sha1
    case Plain(value) => value
  }

  /** `parse_object`: element 0 is the type, element 1 the data, and the
      size is the data's `size` (nil data has none and raises). */
  function ParseObject(raw: RawContent): (r: Result<(string, int, Payload)>)
    ensures r.Failure? <==> raw.data.NoData?
    ensures r.Failure? ==> r.error == NoMethodError
    ensures r.Success? ==> r.value.0 == raw.objectType && r.value.2 == raw.data
    ensures r.Success? && raw.data.Bytes? ==> r.value.1 == |raw.data.bytes|
    ensures r.Success? && raw.data.Rows? ==> r.value.1 == |raw.data.rows|
    ensures r.Success? && raw.data.CommitTuple? ==> r.value.1 == 5
  {
    var size :- DataSize(raw.data);
    Success((raw.objectType, size, raw.data))
  }

  /** `format_commit_data`: the five fields as one array, with the tree and
      the parents reduced to their hashes. */
  function FormatCommitData(tree: Ref, parents: seq<Ref>, author: string, committer: string, subject: string): (p: Payload)
    ensures p.CommitTuple? && |p.commit.parents| == |parents|
  {
    CommitTuple(CommitData(Some(Sha1For(tree)), seq(|parents|, i requires 0 <= i < |parents| => Some(Sha1For(parents[i]))),
                           Text(author), Text(committer), subject))
  }

  /** `parse_commit_data`: the five elements of a commit's array. */
  function ParseCommitData(data: Payload): (c: CommitData)
    requires data.CommitTuple?
    ensures CommitTuple(c) == data
  {
    data.commit
  }

  /** Parsing a formatted commit gives back the hashes of the tree and of
      the parents, in order, and the other fields as they were given. */
  lemma CommitDataRoundTrip(tree: Ref, parents: seq<Ref>, author: string, committer: string, subject: string)
    ensures var c := ParseCommitData(FormatCommitData(tree, parents, author, committer, subject));
            c.tree == Some(Sha1For(tree)) && |c.parents| == |parents| &&
            (forall i :: 0 <= i < |parents| ==> c.parents[i] == Some(Sha1For(parents[i]))) &&
            c.author == Text(author) && c.committer == Text(committer) && c.subject == subject
  {
  }

  /** Naming an object by its row or by its hash formats the same commit. */
  lemma CommitDataOfRowsOrHashes(tree: string, parents: seq<string>, author: string, committer: string, subject: string)
    ensures FormatCommitData(DbObject(tree), seq(|parents|, i requires 0 <= i < |parents| => DbObject(parents[i])), author, committer, subject)
         == FormatCommitData(Plain(tree), seq(|parents|, i requires 0 <= i < |parents| => Plain(parents[i])), author, committer, subject)
  {
  }

  /** One row of `format_tree_data`. */
  function FormatTreeEntry(e: RefEntry): TreeRow {
    TreeRow(ModeForType(e.objectType), e.name, Sha1For(e.target))
  }

  /** `format_tree_data`: one row per entry, in order, each with the mode of
      the entry's type and the hash of the entry's object. */
  function FormatTreeData(entries: seq<RefEntry>): (rows: seq<TreeRow>)
    ensures |rows| == |entries|
    ensures forall i :: 0 <= i < |entries| ==> rows[i] == FormatTreeEntry(entries[i])
  {
    seq(|entries|, i requires 0 <= i < |entries| => FormatTreeEntry(entries[i]))
  }

  /** `parse_tree_data`: the stored rows as they are. */
  function ParseTreeData(rows: seq<TreeRow>): (r: seq<TreeRow>) {
    rows
  }

  /** The rows read back from a formatted tree carry, for an entry whose
      type names a class, that class's mode, the entry's name and the hash
      of the entry's object. */
  lemma TreeDataRoundTrip(entries: seq<RefEntry>, classes: seq<ObjectClass>)
    requires |classes| == |entries|
    requires forall i :: 0 <= i < |entries| ==> entries[i].objectType == Underscore(ClassName(classes[i]))
    ensures var rows := ParseTreeData(FormatTreeData(entries));
            |rows| == |entries| &&
            forall i :: 0 <= i < |entries| ==> rows[i] == TreeRow(ModeOf(classes[i]), entries[i].name, Sha1For(entries[i].target))
  {
    forall i | 0 <= i < |entries|
      ensures FormatTreeEntry(entries[i]) == TreeRow(ModeOf(classes[i]), entries[i].name, Sha1For(entries[i].target))
    {
      ModeForTypeOfClass(classes[i]);
    }
  }

  /** Every stored pair sits under its own digest. */
  predicate ContentAddressed(rows: Rows, digest: RawContent -> string) {
    forall k :: k in rows ==> digest(rows[k]) == k
  }

  /** The three types `create_git_object!` knows how to store. */
  predicate IsStoredType(t: string) {
    t == "blob" || t == "tree" || t == "commit"
  }

  /** `Zlib::Deflate.deflate(data)` on a blob's data, with the compressor
      as a parameter: only a string can be compressed, and nil or an array
      raises TypeError. */
  function Deflate(deflate: string -> string, data: Payload): (r: Result<string>)
    ensures r.Success? <==> data.Bytes?
    ensures r.Failure? ==> r.error == TypeError
  {
    if data.Bytes? then Success(deflate(data.bytes)) else Failure(TypeError)
  }

  /** A digest that gives distinct pairs distinct hashes. */
  ghost predicate CollisionFree(digest: RawContent -> string) {
    forall a, b :: digest(a) == digest(b) ==> a == b
  }

  /** `create_git_object!` as written: the digest of `[type, data]`; a blob
      row holds `Zlib::Deflate.deflate(data)`, which raises TypeError for
      data that is not a string, and `DbBlob#to_raw` hands those compressed
      bytes back; a tree or commit row gives back the pair it was created
      from. A row is created under the digest unless one exists already
      (`find_or_create_by(sha1: sha1)`); any other type stores nothing. */
  function CreateGitObjectAsWritten(rows: Rows, digest: RawContent -> string, deflate: string -> string,
                                    objectType: string, data: Payload): (r: Result<(string, Rows)>)
    ensures r.Failure? <==> objectType == "blob" && !data.Bytes?
    ensures r.Failure? ==> r.error == TypeError
    ensures r.Success? ==> r.value.0 == digest(RawContent(objectType, data))
    ensures r.Success? ==> forall k :: k in rows ==> k in r.value.1 && r.value.1[k] == rows[k]
    ensures r.Success? && IsStoredType(objectType) ==> r.value.1.Keys == rows.Keys + {r.value.0}
    ensures r.Success? && !IsStoredType(objectType) ==> r.value.1 == rows
    ensures r.Success? && objectType == "blob" && r.value.0 !in rows ==>
      r.value.1[r.value.0] == RawContent("blob", Bytes(deflate(data.bytes)))
    ensures r.Success? && objectType != "blob" && IsStoredType(objectType) && r.value.0 !in rows ==>
      r.value.1[r.value.0] == RawContent(objectType, data)
  {
    var sha1 := digest(RawContent(objectType, data));
    if objectType == "blob" then
      var deflated :- Deflate(deflate, data);
      if sha1 in rows then Success((sha1, rows))
      else Success((sha1, rows[sha1 := RawContent("blob", Bytes(deflated))]))
    else if !IsStoredType(objectType) || sha1 in rows then Success((sha1, rows))
    else Success((sha1, rows[sha1 := RawContent(objectType, data)]))
  }

  /** A blob created as written loads back as its compressed bytes, with
      their length as its size, and with a content hash that is not the
      hash creation returned: the row breaks content addressing, so
      `validate` raises InvalidSha1Error for it. The digest is taken to be
      total, as with a JSON encoder that replaces bytes that are not UTF-8;
      the json gem's generator raises on the deflated bytes instead, and
      then the load itself fails. */
  lemma LoadCreatedBlobAsWritten(rows: Rows, digest: RawContent -> string, deflate: string -> string, bytes: string)
    requires CollisionFree(digest) && deflate(bytes) != bytes
    requires digest(RawContent("blob", Bytes(bytes))) !in rows
    ensures var r := CreateGitObjectAsWritten(rows, digest, deflate, "blob", Bytes(bytes));
            r.Success? &&
            var loaded := LoadObject(r.value.1, digest, r.value.0);
            loaded.Success? && loaded.value.data == Bytes(deflate(bytes)) &&
            loaded.value.size == Some(|deflate(bytes)|) && loaded.value.contentSha1 != r.value.0 &&
            !ContentAddressed(r.value.1, digest)
  {
    var r := CreateGitObjectAsWritten(rows, digest, deflate, "blob", Bytes(bytes));
    var stored := RawContent("blob", Bytes(deflate(bytes)));
    assert r.value.1[r.value.0] == stored;
    assert stored != RawContent("blob", Bytes(bytes));
  }

  /** `create_git_object!` with `DbBlob#to_raw` inflating what the row
      holds, as the file-system back end does when it reads an object: the
      compressed bytes are never seen, so every row gives back the pair it
      was created from. Data that is not a string still raises TypeError
      for a blob. */
  function CreateGitObject(rows: Rows, digest: RawContent -> string, objectType: string, data: Payload): (r: Result<(string, Rows)>)
    ensures r.Failure? <==> objectType == "blob" && !data.Bytes?
    ensures r.Failure? ==> r.error == TypeError
    ensures r.Success? ==> r.value.0 == digest(RawContent(objectType, data))
    ensures r.Success? && IsStoredType(objectType) ==> r.value.0 in r.value.1 && r.value.1.Keys == rows.Keys + {r.value.0}
    ensures r.Success? && !IsStoredType(objectType) ==> r.value.1 == rows
    ensures r.Success? ==> forall k :: k in rows ==> k in r.value.1 && r.value.1[k] == rows[k]
    ensures r.Success? && IsStoredType(objectType) && r.value.0 !in rows ==> r.value.1[r.value.0] == RawContent(objectType, data)
    ensures r.Success? && ContentAddressed(rows, digest) ==> ContentAddressed(r.value.1, digest)
  {
    var raw := RawContent(objectType, data);
    var sha1 := digest(raw);
    if objectType == "blob" && !data.Bytes? then Failure(TypeError)
    else if !IsStoredType(objectType) || sha1 in rows then Success((sha1, rows))
    else Success((sha1, rows[sha1 := raw]))
  }

  /** The two versions store trees and commits alike, and differ on a blob
      only in the bytes its row hands back. */
  lemma CreateAgreesExceptBlobs(rows: Rows, digest: RawContent -> string, deflate: string -> string, objectType: string, data: Payload)
    ensures objectType != "blob" ==>
      CreateGitObjectAsWritten(rows, digest, deflate, objectType, data) == CreateGitObject(rows, digest, objectType, data)
    ensures objectType == "blob" && data.Bytes? && deflate(data.bytes) == data.bytes ==>
      CreateGitObjectAsWritten(rows, digest, deflate, objectType, data) == CreateGitObject(rows, digest, objectType, data)
  {
  }

  /** Creating the same object twice changes nothing the second time. */
  lemma CreateGitObjectIdempotent(rows: Rows, digest: RawContent -> string, objectType: string, data: Payload)
    ensures var first := CreateGitObject(rows, digest, objectType, data);
            first.Success? ==> CreateGitObject(first.value.1, digest, objectType, data) == first
  {
  }

  /** `load_object` as written: `DbObject.find_by_sha1(sha1).to_raw` is
      evaluated before the nil test, so an unknown hash makes `nil.to_raw`
      raise NoMethodError, and the MissingObjectError branch is never taken
      (a row's `to_raw` is never nil). */
  function LoadObjectAsWritten(rows: Rows, digest: RawContent -> string, sha1: string): (r: Result<ObjectInfo>)
    ensures sha1 !in rows ==> r == Failure(NoMethodError)
    ensures r.Failure? ==> r.error != MissingObjectError
  {
    if sha1 !in rows then Failure(NoMethodError)
    else
      var raw := rows[sha1];
      var parsed :- ParseObject(raw);
      Success(ObjectInfo(Some(parsed.0), Some(parsed.1), parsed.2, digest(raw)))
  }

  /** The unknown hash reaches the missing-object branch nowhere. */
  lemma LoadMissingAsWritten(digest: RawContent -> string, sha1: string)
    ensures LoadObjectAsWritten(map[], digest, sha1) == Failure(NoMethodError)
    ensures LoadObjectAsWritten(map[], digest, sha1) != Failure(MissingObjectError)
  {
  }

  /** `load_object` as evidently intended: an unknown hash raises
      MissingObjectError; otherwise the parsed pair and its digest. */
  function LoadObject(rows: Rows, digest: RawContent -> string, sha1: string): (r: Result<ObjectInfo>)
    ensures sha1 !in rows ==> r == Failure(MissingObjectError)
    ensures sha1 in rows && rows[sha1].data.NoData? ==> r == Failure(NoMethodError)
    ensures r.Success? <==> sha1 in rows && !rows[sha1].data.NoData?
    ensures r.Success? ==> r.value.contentSha1 == digest(rows[sha1]) && r.value.objectType == Some(rows[sha1].objectType)
    ensures r.Success? ==> r.value.data == rows[sha1].data && DataSize(r.value.data).Success? && r.value.size == Some(DataSize(r.value.data).value)
  {
    if sha1 !in rows then Failure(MissingObjectError)
    else LoadObjectAsWritten(rows, digest, sha1)
  }

  /** The two versions differ only on an unknown hash. */
  lemma LoadObjectAgreesOnStoredRows(rows: Rows, digest: RawContent -> string, sha1: string)
    requires sha1 in rows
    ensures LoadObject(rows, digest, sha1) == LoadObjectAsWritten(rows, digest, sha1)
  {
  }

  /** With `to_raw` inflating, a created blob, tree or commit loads back
      under the hash creation returned; when the hash was new, with its
      type, payload and size. */
  lemma LoadCreatedObject(rows: Rows, digest: RawContent -> string, objectType: string, data: Payload)
    requires ContentAddressed(rows, digest)
    requires IsStoredType(objectType) && !data.NoData? && (objectType == "blob" ==> data.Bytes?)
    ensures var created := CreateGitObject(rows, digest, objectType, data);
            created.Success? &&
            var (sha1, after) := created.value;
            var r := LoadObject(after, digest, sha1);
            (sha1 !in rows ==>
               r.Success? && r.value.contentSha1 == sha1 &&
               r.value.objectType == Some(objectType) && r.value.data == data && DataSize(data).Success? &&
               r.value.size == Some(DataSize(data).value)) &&
            (r.Success? ==> r.value.contentSha1 == sha1)
  {
  }
}
