/** models/git_repository.rb: what every repository shares. A new
    repository's settings, the `create_*!` entry points a clone writes
    through, `find_cloned_git_object`, and `head_commit`. The only back end
    that defines `create_commit_object!`, `create_tree_object!` and
    `create_blob_object!` is the memory one, so a clone target is a memory
    repository. */
module GitRepository {

  import opened Results
  import opened ObjectData
  import opened Modes
  import MemoryRepository
  import opened Backends
  import opened GitObjects

  /** `initialize(options)`: an empty instance cache and the
      `bare_repository` flag, false unless given as true. */
  datatype Settings = Settings(instances: Instances, bare: bool)

  function New(bareRepository: Option<bool>): (s: Settings)
    ensures s.instances == map[]
    ensures s.bare <==> bareRepository == Some(true)
  {
    Settings(map[], bareRepository == Some(true))
  }

  /** Without options a repository is not bare. */
  lemma NewDefaults()
    ensures New(None) == Settings(map[], false)
  {
  }

  /** A repository clones are written into: the memory store, its digest,
      and what `find_cloned_git_object` answers. No repository class
      overrides that method, whose default answers nil, so `found` is empty
      for every back end there is. */
  datatype Target = Target(repo: MemoryRepository.Repository, digest: MemoryRepository.RawContent -> string, found: map<string, string>)

  /** `find_cloned_git_object(source_sha1)`. */
  function FindCloned(t: Target, sourceSha1: string): (r: Option<string>)
    ensures r.Some? <==> sourceSha1 in t.found
    ensures r.Some? ==> r.value == t.found[sourceSha1]
  {
    if sourceSha1 in t.found then Some(t.found[sourceSha1]) else None
  }

  /** The default answers nil for every hash. */
  lemma FindClonedDefault(repo: MemoryRepository.Repository, digest: MemoryRepository.RawContent -> string, sourceSha1: string)
    ensures FindCloned(Target(repo, digest, map[]), sourceSha1) == None
  {
  }

  /** `create_blob!(data, source_sha1)`: forwards the data; the source hash
      is not used. */
  function CreateBlob(t: Target, data: Payload, sourceSha1: string): (r: (string, Target))
    ensures r.1.digest == t.digest && r.1.found == t.found
    ensures (r.0, r.1.repo) == MemoryRepository.CreateBlobObject(t.repo, t.digest, data)
  {
    var created := MemoryRepository.CreateBlobObject(t.repo, t.digest, data);
    (created.0, t.(repo := created.1))
  }

  /** `create_tree!(entries, source_sha1)`: forwards the entries. */
  function CreateTree(t: Target, entries: seq<EntrySpec>, sourceSha1: string): (r: (string, Target))
    ensures r.1.digest == t.digest && r.1.found == t.found
    ensures (r.0, r.1.repo) == MemoryRepository.CreateTreeObject(t.repo, t.digest, entries)
  {
    var created := MemoryRepository.CreateTreeObject(t.repo, t.digest, entries);
    (created.0, t.(repo := created.1))
  }

  /** `create_commit!`: create the commit object, then point the branch at
      it, and answer the commit's hash. */
  function CreateCommit(t: Target, branch: string, tree: string, parents: seq<string>, author: Signature, committer: Signature,
                        subject: string, sourceSha1: string): (r: (string, Target))
    ensures r.1.digest == t.digest && r.1.found == t.found
    ensures var created := MemoryRepository.CreateCommitObject(t.repo, t.digest, tree, parents, author, committer, subject);
            r.0 == created.0 && r.1.repo.objects == created.1.objects && r.1.repo.head == t.repo.head
    ensures r.1.repo.branches == t.repo.branches[branch := r.0]
  {
    var created := MemoryRepository.CreateCommitObject(t.repo, t.digest, tree, parents, author, committer, subject);
    (created.0, t.(repo := MemoryRepository.UpdateBranch(created.1, branch, created.0)))
  }

  /** A commit created on the branch HEAD names becomes the head commit,
      and loads back from the target as a commit holding the arguments. */
  lemma CreatedCommitIsHead(t: Target, tree: string, parents: seq<string>, author: Signature, committer: Signature,
                            subject: string, sourceSha1: string)
    requires MemoryRepository.ContentAddressed(t.repo, t.digest)
    ensures var (sha1, after) := CreateCommit(t, t.repo.head, tree, parents, author, committer, subject, sourceSha1);
            MemoryRepository.HeadCommitSha1(after.repo) == Some(sha1) &&
            MemoryRepository.LoadObject(after.repo, after.digest, sha1).Success? &&
            (sha1 !in t.repo.objects ==>
               MemoryRepository.LoadObject(after.repo, after.digest, sha1).value.data ==
               MemoryRepository.FormatCommitData(tree, parents, author, committer, subject))
  {
    MemoryRepository.CreatedCommitLoadsBack(t.repo, t.digest, tree, parents, author, committer, subject);
    var (sha1, after) := CreateCommit(t, t.repo.head, tree, parents, author, committer, subject, sourceSha1);
    MemoryRepository.UpdateHeadBranch(MemoryRepository.CreateCommitObject(t.repo, t.digest, tree, parents, author, committer, subject).1, sha1);
  }

  /** `head_commit(options)` as written: nil without a head hash; with one,
      `Commit.find_by_sha1`, which no file here defines, raises
      NoMethodError. */
  function HeadCommitAsWritten(h: Hooks): (r: Result<Option<GitObject>>)
    ensures r.Success? <==> h.head.None?
    ensures r.Success? ==> r.value.None?
  {
    if h.head.None? then Success(None) else Failure(NoMethodError)
  }

  /** `head_commit(options)`, taking `Commit.find_by_sha1` to be
      `find_or_initialize_by_sha1`: nil without a head hash, otherwise the
      head commit as a Commit with the options given. */
  function HeadCommit(h: Hooks, inst: Instances, options: Options): (r: (Result<Option<GitObject>>, Instances))
    ensures h.head.None? ==> r == (Success(None), inst)
    ensures h.head.Some? ==>
      var found := FindOrInitialize(h, inst, Commit, h.head, options);
      r.1 == found.1 && (found.0.Success? ==> r.0 == Success(Some(found.0.value))) &&
      (found.0.Failure? ==> r.0 == Failure(found.0.error))
    ensures Extends(inst, r.1)
    ensures Cached(h, inst) ==> Cached(h, r.1)
  {
    if h.head.None? then (Success(None), inst)
    else
      var found := FindOrInitialize(h, inst, Commit, h.head, options);
      if found.0.Failure? then (Failure(found.0.error), found.1) else (Success(Some(found.0.value)), found.1)
  }

  /** `head_commit_with_blob_data(options)`: the options with
      `load_blob_data: true` merged in. */
  function WithBlobData(options: Options): (o: Options)
    ensures LoadBlobDataOf(o) && CommitLevelOf(o) == CommitLevelOf(options)
  {
    options.(loadBlobData := Some(true))
  }

  /** Loaded for the first time, the head commit loaded with blob data
      keeps the payloads of the blobs under it, and without it drops them. */
  lemma HeadCommitOptions(h: Hooks, options: Options)
    requires h.head.Some? && HeadCommit(h, map[], options).0.Success?
    ensures var c := HeadCommit(h, map[], options).0.value.value;
            c.loadBlobData == LoadBlobDataOf(options) && c.commitLevel == CommitLevelOf(options)
  {
    var found := FindOrInitialize(h, map[], Commit, h.head, options);
    FindOrInitializeLoads(h, map[], Commit, h.head.value, options);
  }
}
