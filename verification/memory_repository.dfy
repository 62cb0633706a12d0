/** models/memory_git_repository.rb: a repository kept in a Ruby hash.
    An object is stored as the array `[type, size, data]` under the digest
    of that array, the payload staying structured (a commit tuple, tree rows
    or a byte string); branches map names to commit hashes and HEAD names a
    branch or holds a hash of its own. */
module MemoryRepository {

  import opened Results
  import opened StringExtensions
  import opened Modes
  import opened ObjectData

  /** The array `[type, data && data.size, data]` kept for an object. */
  datatype RawContent = RawContent(objectType: string, size: Option<int>, data: Payload)

  datatype Repository = Repository(
    branches: map<string, string>,
    head: string,
    objects: map<string, RawContent>)

  /** A new repository: HEAD names `master`, and there are no branches and
      no objects. */
  function Initial(): (r: Repository)
    ensures r.head == "master" && r.branches == map[] && r.objects == map[]
  {
    Repository(map[], "master", map[])
  }

  /** `head_commit_sha1`: HEAD itself when it is a hash that is not also a
      branch name (a detached HEAD), otherwise the commit of the branch HEAD
      names, or nil when there is no such branch. */
  function HeadCommitSha1(repo: Repository): (r: Option<string>)
    ensures r.Some? ==> r.value == repo.head || (repo.head in repo.branches && r.value == repo.branches[repo.head])
    ensures r.None? <==> repo.head !in repo.branches && !IsSha1(repo.head)
  {
    if IsSha1(repo.head) && repo.head !in repo.branches then Some(repo.head)
    else if repo.head in repo.branches then Some(repo.branches[repo.head])
    else None
  }

  /** A new repository has no head commit. */
  lemma InitialHasNoHeadCommit()
    ensures HeadCommitSha1(Initial()) == None
  {
    assert !IsSha1("master");
  }

  /** A branch name always wins over reading HEAD as a hash. */
  lemma BranchShadowsDetachedHead(repo: Repository)
    requires repo.head in repo.branches
    ensures HeadCommitSha1(repo) == Some(repo.branches[repo.head])
  {
  }

  /** `data && data.size` for the payloads the store keeps. */
  function PayloadSize(data: Payload): (r: Option<int>)
    ensures r.None? <==> data.NoData?
    ensures r.Some? ==> r.value >= 0 && DataSize(data) == Success(r.value as nat)
  {
    if data.NoData? then None else Some(DataSize(data).value)
  }

  /** The array `create_git_object!` hashes and stores. */
  function Raw(objectType: string, data: Payload): RawContent {
    RawContent(objectType, PayloadSize(data), data)
  }

  /** Every stored array sits under its own digest. */
  predicate ContentAddressed(repo: Repository, digest: RawContent -> string) {
    forall k :: k in repo.objects ==> digest(repo.objects[k]) == k
  }

  /** `create_git_object!`: the digest of the array, and the repository with
      the array stored under it unless something is already there
      (`objects[sha1] ||= raw_content`). */
  function CreateGitObject(repo: Repository, digest: RawContent -> string, objectType: string, data: Payload): (r: (string, Repository))
    ensures r.0 == digest(Raw(objectType, data))
    ensures r.0 in r.1.objects && r.1.objects.Keys == repo.objects.Keys + {r.0}
    ensures forall k :: k in repo.objects ==> r.1.objects[k] == repo.objects[k]
    ensures r.0 !in repo.objects ==> r.1.objects[r.0] == Raw(objectType, data)
    ensures r.1.branches == repo.branches && r.1.head == repo.head
    ensures ContentAddressed(repo, digest) ==> ContentAddressed(r.1, digest)
  {
    var raw := Raw(objectType, data);
    var sha1 := digest(raw);
    if sha1 in repo.objects then (sha1, repo)
    else (sha1, repo.(objects := repo.objects[sha1 := raw]))
  }

  /** Creating the same object twice changes nothing the second time. */
  lemma CreateGitObjectIdempotent(repo: Repository, digest: RawContent -> string, objectType: string, data: Payload)
    ensures var (sha1, after) := CreateGitObject(repo, digest, objectType, data);
            CreateGitObject(after, digest, objectType, data) == (sha1, after)
  {
  }

  /** `parse_object`: the three elements of the stored array, named; the
      array is rebuilt from them, so nothing is lost. */
  function ParseObject(raw: RawContent): (r: (string, Option<int>, Payload))
    ensures RawContent(r.0, r.1, r.2) == raw
  {
    (raw.objectType, raw.size, raw.data)
  }

  /** `load_object`: MissingObjectError for an unknown hash; otherwise the
      parsed array together with its digest. */
  function LoadObject(repo: Repository, digest: RawContent -> string, sha1: string): (r: Result<ObjectInfo>)
    ensures r.Failure? <==> sha1 !in repo.objects
    ensures r.Failure? ==> r.error == MissingObjectError
    ensures r.Success? ==> r.value.contentSha1 == digest(repo.objects[sha1])
    ensures r.Success? ==> r.value.objectType == Some(repo.objects[sha1].objectType)
    ensures r.Success? ==> r.value.size == repo.objects[sha1].size && r.value.data == repo.objects[sha1].data
  {
    if sha1 !in repo.objects then Failure(MissingObjectError)
    else
      var raw := repo.objects[sha1];
      var parsed := ParseObject(raw);
      Success(ObjectInfo(Some(parsed.0), parsed.1, parsed.2, digest(raw)))
  }

  /** A created object loads back under the hash creation returned; when
      the hash was new, with the type, the payload and the payload's size. */
  lemma LoadCreatedObject(repo: Repository, digest: RawContent -> string, objectType: string, data: Payload)
    requires ContentAddressed(repo, digest)
    ensures var (sha1, after) := CreateGitObject(repo, digest, objectType, data);
            var r := LoadObject(after, digest, sha1);
            r.Success? && r.value.contentSha1 == sha1 &&
            (sha1 !in repo.objects ==> r.value == ObjectInfo(Some(objectType), PayloadSize(data), data, sha1))
  {
  }

  /** A new repository holds no object, so every load raises. */
  lemma InitialLoadMisses(digest: RawContent -> string, sha1: string)
    ensures LoadObject(Initial(), digest, sha1) == Failure(MissingObjectError)
  {
  }

  // ---------------------------------------------------------------------------
  // Payloads

  /** `format_commit_data`: the five arguments as one array. The author and
      committer are kept as they were given. */
  function FormatCommitData(tree: string, parents: seq<string>, author: Signature, committer: Signature, subject: string): (p: Payload)
    ensures p.CommitTuple? && |p.commit.parents| == |parents|
  {
    CommitTuple(CommitData(Some(tree), seq(|parents|, i requires 0 <= i < |parents| => Some(parents[i])),
                           author, committer, subject))
  }

  /** `parse_commit_data`: the five elements of a commit's array. */
  function ParseCommitData(data: Payload): (c: CommitData)
    requires data.CommitTuple?
    ensures CommitTuple(c) == data
  {
    data.commit
  }

  /** Parsing a formatted commit gives back each field. */
  lemma CommitDataRoundTrip(tree: string, parents: seq<string>, author: Signature, committer: Signature, subject: string)
    ensures var c := ParseCommitData(FormatCommitData(tree, parents, author, committer, subject));
            c.tree == Some(tree) && |c.parents| == |parents| &&
            (forall i :: 0 <= i < |parents| ==> c.parents[i] == Some(parents[i])) &&
            c.author == author && c.committer == committer && c.subject == subject
  {
  }

  /** One row of `format_tree_data`: the type replaced by its mode. */
  function FormatTreeEntry(e: EntrySpec): TreeRow {
    TreeRow(ModeForType(e.objectType), e.name, e.sha1)
  }

  /** `format_tree_data`: one row per entry, in order. */
  function FormatTreeData(entries: seq<EntrySpec>): (rows: seq<TreeRow>)
    ensures |rows| == |entries|
    ensures forall i :: 0 <= i < |entries| ==> rows[i].name == entries[i].name && rows[i].sha1 == entries[i].sha1
    ensures forall i :: 0 <= i < |entries| ==> rows[i].mode == ModeForType(entries[i].objectType)
  {
    seq(|entries|, i requires 0 <= i < |entries| => FormatTreeEntry(entries[i]))
  }

  /** `parse_tree_data`: the stored rows as they are. */
  function ParseTreeData(rows: seq<TreeRow>): (r: seq<TreeRow>) {
    rows
  }

  /** The rows read back from a formatted tree carry, for every entry whose
      type names a class with a mode, the mode the mode table gives that
      class, and otherwise no mode. */
  lemma TreeDataRoundTrip(entries: seq<EntrySpec>, classes: seq<ObjectClass>)
    requires |classes| == |entries|
    requires forall i :: 0 <= i < |entries| ==> entries[i].objectType == Underscore(ClassName(classes[i]))
    ensures var rows := ParseTreeData(FormatTreeData(entries));
            forall i :: 0 <= i < |entries| ==>
              rows[i] == TreeRow(ModeOf(classes[i]), entries[i].name, entries[i].sha1) &&
              (rows[i].mode.Some? ==> ClassForMode(rows[i].mode.value) == Some(classes[i]))
  {
    var rows := FormatTreeData(entries);
    forall i | 0 <= i < |entries|
      ensures rows[i] == TreeRow(ModeOf(classes[i]), entries[i].name, entries[i].sha1)
    {
      ModeForTypeOfClass(classes[i]);
    }
  }

  // ---------------------------------------------------------------------------
  // Creating objects

  /** `create_commit_object!`: a `:commit` object holding the commit tuple. */
  function CreateCommitObject(repo: Repository, digest: RawContent -> string, tree: string, parents: seq<string>,
                              author: Signature, committer: Signature, subject: string): (r: (string, Repository))
    ensures r.0 in r.1.objects && r.1.branches == repo.branches && r.1.head == repo.head
    ensures forall k :: k in repo.objects ==> k in r.1.objects && r.1.objects[k] == repo.objects[k]
    ensures r.0 !in repo.objects ==>
      var raw := r.1.objects[r.0];
      raw.objectType == "commit" && raw.size == Some(5) && raw.data.CommitTuple? &&
      raw.data.commit.tree == Some(tree) && |raw.data.commit.parents| == |parents| &&
      (forall i :: 0 <= i < |parents| ==> raw.data.commit.parents[i] == Some(parents[i])) &&
      raw.data.commit.author == author && raw.data.commit.committer == committer && raw.data.commit.subject == subject
  {
    CreateGitObject(repo, digest, "commit", FormatCommitData(tree, parents, author, committer, subject))
  }

  /** `create_tree_object!`: a `:tree` object holding the formatted rows. */
  function CreateTreeObject(repo: Repository, digest: RawContent -> string, entries: seq<EntrySpec>): (r: (string, Repository))
    ensures r.0 in r.1.objects && r.1.branches == repo.branches && r.1.head == repo.head
    ensures forall k :: k in repo.objects ==> k in r.1.objects && r.1.objects[k] == repo.objects[k]
    ensures r.0 !in repo.objects ==>
      var raw := r.1.objects[r.0];
      raw.objectType == "tree" && raw.size == Some(|entries|) && raw.data.Rows? && |raw.data.rows| == |entries| &&
      forall i :: 0 <= i < |entries| ==>
        raw.data.rows[i] == TreeRow(ModeForType(entries[i].objectType), entries[i].name, entries[i].sha1)
  {
    CreateGitObject(repo, digest, "tree", Rows(FormatTreeData(entries)))
  }

  /** `create_blob_object!`: nil data is stored as the empty string, any
      other data as it is. */
  function CreateBlobObject(repo: Repository, digest: RawContent -> string, data: Payload): (r: (string, Repository))
    ensures data.NoData? ==> r == CreateGitObject(repo, digest, "blob", Bytes(""))
    ensures !data.NoData? ==> r == CreateGitObject(repo, digest, "blob", data)
  {
    CreateGitObject(repo, digest, "blob", if data.NoData? then Bytes("") else data)
  }

  /** A commit created in the store loads back as a `:commit` whose parsed
      data holds the arguments, and whose size is the tuple's five elements. */
  lemma CreatedCommitLoadsBack(repo: Repository, digest: RawContent -> string, tree: string, parents: seq<string>,
                               author: Signature, committer: Signature, subject: string)
    requires ContentAddressed(repo, digest)
    ensures var (sha1, after) := CreateCommitObject(repo, digest, tree, parents, author, committer, subject);
            var r := LoadObject(after, digest, sha1);
            r.Success? && r.value.contentSha1 == sha1 &&
            (sha1 !in repo.objects ==>
              r.value.objectType == Some("commit") && r.value.size == Some(5) && r.value.data.CommitTuple? &&
              ParseCommitData(r.value.data) == ParseCommitData(FormatCommitData(tree, parents, author, committer, subject)))
  {
    LoadCreatedObject(repo, digest, "commit", FormatCommitData(tree, parents, author, committer, subject));
  }

  /** A tree created in the store loads back as a `:tree` with one row per
      entry. */
  lemma CreatedTreeLoadsBack(repo: Repository, digest: RawContent -> string, entries: seq<EntrySpec>)
    requires ContentAddressed(repo, digest)
    ensures var (sha1, after) := CreateTreeObject(repo, digest, entries);
            var r := LoadObject(after, digest, sha1);
            r.Success? && r.value.contentSha1 == sha1 &&
            (sha1 !in repo.objects ==>
              r.value.objectType == Some("tree") && r.value.size == Some(|entries|) &&
              r.value.data == Rows(FormatTreeData(entries)))
  {
    LoadCreatedObject(repo, digest, "tree", Rows(FormatTreeData(entries)));
  }

  /** A blob created from nil loads back as an empty byte string of size 0. */
  lemma NilBlobLoadsEmpty(repo: Repository, digest: RawContent -> string)
    requires ContentAddressed(repo, digest)
    ensures var (sha1, after) := CreateBlobObject(repo, digest, NoData);
            sha1 !in repo.objects ==> LoadObject(after, digest, sha1) == Success(ObjectInfo(Some("blob"), Some(0), Bytes(""), sha1))
  {
    LoadCreatedObject(repo, digest, "blob", Bytes(""));
  }

  // ---------------------------------------------------------------------------
  // Branches

  /** `update_branch!`: point the branch at the commit. */
  function UpdateBranch(repo: Repository, name: string, commitSha1: string): (r: Repository)
    ensures r.objects == repo.objects && r.head == repo.head
    ensures name in r.branches && r.branches[name] == commitSha1
  {
    repo.(branches := repo.branches[name := commitSha1])
  }

  /** `branch_names`: the names of all branches. */
  function BranchNames(repo: Repository): (names: set<string>)
    ensures forall n :: n in names <==> n in repo.branches
  {
    repo.branches.Keys
  }

  /** Updating a branch adds at most its name and leaves every other branch
      where it was. */
  lemma UpdateBranchFrame(repo: Repository, name: string, commitSha1: string)
    ensures BranchNames(UpdateBranch(repo, name, commitSha1)) == BranchNames(repo) + {name}
    ensures forall n :: n in repo.branches && n != name ==> UpdateBranch(repo, name, commitSha1).branches[n] == repo.branches[n]
  {
  }

  /** Moving the branch HEAD names moves the head commit with it. */
  lemma UpdateHeadBranch(repo: Repository, commitSha1: string)
    ensures HeadCommitSha1(UpdateBranch(repo, repo.head, commitSha1)) == Some(commitSha1)
  {
  }
}
