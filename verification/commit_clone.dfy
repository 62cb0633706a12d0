/** models/commit.rb, `clone_into(target_repository, branch)`: the history
    reachable from a commit copied into a target repository in two phases.
    The walk over the ancestors records, per commit hash, either the clone
    the target reports for it already or a clone of its tree; then, while
    tree records remain, a commit whose parents are all cloned is created
    in the target over its tree's clone and its parents' clones. */
module CommitClone {

  import opened Results
  import opened ObjectData
  import opened Modes
  import opened Sha1Util
  import opened Backends
  import opened GitObjects
  import opened GitRepository
  import MemoryRepository
  import opened Trees
  import opened Commits

  /** `:commit` or `:tree`, what a record's hash is the clone of. */
  datatype Kind = CommitRecord | TreeRecord

  /** `{ type:, sha1: }`, the value `cloned_commits_and_trees` keeps per
      source commit hash. */
  datatype Record = Record(kind: Kind, sha1: string)

  type Records = seq<(string, Record)>

  /** The target only gains objects: what it stored stays, and it keeps its
      digest and its answers to `find_cloned_git_object`. */
  ghost predicate Stores(t: Target, t2: Target) {
    t2.digest == t.digest && t2.found == t.found &&
    (forall k :: k in t.repo.objects ==> k in t2.repo.objects && t2.repo.objects[k] == t.repo.objects[k]) &&
    (MemoryRepository.ContentAddressed(t.repo, t.digest) ==> MemoryRepository.ContentAddressed(t2.repo, t2.digest))
  }

  // ---------------------------------------------------------------------------
  // Phase one: the walk

  /** The block of the walk: the clone the target reports for the commit,
      as a commit record; otherwise its tree cloned into the target, as a
      tree record. */
  function CloneVisit(h: Hooks, fuel: nat, o: GitObject, inst: Instances, t: Target): (r: (Result<Record>, Instances, Target))
    ensures FindCloned(t, o.sha1).Some? ==> r == (Success(Record(CommitRecord, t.found[o.sha1])), inst, t)
    ensures r.0.Success? ==> (r.0.value.kind == CommitRecord <==> o.sha1 in t.found)
    ensures r.0.Success? && r.0.value.kind == TreeRecord ==>
      var tree := TreeOf(h, inst, o);
      tree.0.Success? && CloneTree(h, tree.1, tree.0.value, t, fuel).0 == Success(r.0.value.sha1)
    ensures r.0.Success? && r.0.value.kind == TreeRecord ==> o.sha1 !in t.found && r.0.value.sha1 in r.2.repo.objects
    ensures r.0.Success? ==> Available(r.2, r.0.value.sha1)
    ensures Extends(inst, r.1) && (Cached(h, inst) ==> Cached(h, r.1))
    ensures Stores(t, r.2)
  {
    var found := FindCloned(t, o.sha1);
    if found.Some? then (Success(Record(CommitRecord, found.value)), inst, t)
    else
      var tree := TreeOf(h, inst, o);
      if tree.0.Failure? then (Failure(tree.0.error), tree.1, t)
      else
        var cloned := CloneTree(h, tree.1, tree.0.value, t, fuel);
        if cloned.0.Failure? then (Failure(cloned.0.error), cloned.1, cloned.2)
        else (Success(Record(TreeRecord, cloned.0.value)), cloned.1, cloned.2)
  }

  function CloneVisitor(h: Hooks, fuel: nat): (v: Visitor<Target, Record>)
    ensures forall o, i, inst, t :: v(o, i, inst, t) == CloneVisit(h, fuel, o, inst, t)
  {
    (o: GitObject, i: nat, inst: Instances, t: Target) => CloneVisit(h, fuel, o, inst, t)
  }

  lemma CloneVisitorWellBehaved(h: Hooks, fuel: nat)
    ensures WellBehaved(h, CloneVisitor(h, fuel))
  {
  }

  lemma StoresTrans(t: Target, t2: Target, t3: Target)
    requires Stores(t, t2) && Stores(t2, t3)
    ensures Stores(t, t3)
  {
  }

  /** A hash the target can answer stays answerable as it gains objects. */
  lemma StoresAvailable(t: Target, t2: Target, sha1: string)
    requires Stores(t, t2) && Available(t, sha1)
    ensures Available(t2, sha1)
  {
  }

  lemma CloneVisitStep(h: Hooks, fuel: nat, o: GitObject, k: nat, value: Record, before: (Instances, Target), after: (Instances, Target))
    requires VisitedAt(CloneVisitor(h, fuel), o, k, value, before, after)
    ensures Stores(before.1, after.1) && Available(after.1, value.sha1)
  {
    var res := CloneVisit(h, fuel, o, before.0, before.1);
    assert CloneVisitor(h, fuel)(o, k, before.0, before.1) == res;
  }

  /** Each visit of the walk only adds to the target and leaves the hash it
      records answerable. */
  lemma CloneSteps(h: Hooks, fuel: nat, order: seq<GitObjects.Parent>, values: seq<Record>, trace: seq<(Instances, Target)>)
    requires Visits(CloneVisitor(h, fuel), order, values, trace)
    ensures forall j :: 0 <= j < |order| ==> Stores(trace[j].1, trace[j + 1].1) && Available(trace[j + 1].1, values[j].sha1)
  {
    forall j | 0 <= j < |order|
      ensures Stores(trace[j].1, trace[j + 1].1) && Available(trace[j + 1].1, values[j].sha1)
    {
      VisitsAt(CloneVisitor(h, fuel), order, values, trace, j);
      CloneVisitStep(h, fuel, order[j].obj, j, values[j], trace[j], trace[j + 1]);
    }
  }

  /** After the first `k` steps the target still holds every hash recorded
      so far, and has only gained objects since the start. */
  lemma {:induction false} StoresChain(values: seq<Record>, trace: seq<(Instances, Target)>, k: nat)
    requires |trace| == |values| + 1 && k <= |values|
    requires forall j :: 0 <= j < |values| ==> Stores(trace[j].1, trace[j + 1].1) && Available(trace[j + 1].1, values[j].sha1)
    ensures Stores(trace[0].1, trace[k].1)
    ensures forall j :: 0 <= j < k ==> Available(trace[k].1, values[j].sha1)
    decreases k
  {
    if k > 0 {
      StoresChain(values, trace, k - 1);
      StoresTrans(trace[0].1, trace[k - 1].1, trace[k].1);
      forall j | 0 <= j < k - 1
        ensures Available(trace[k].1, values[j].sha1)
      {
        StoresAvailable(trace[k - 1].1, trace[k].1, values[j].sha1);
      }
    }
  }

  /** After the whole walk the target still holds every hash recorded, and
      has only gained objects since the start. */
  lemma CloneTrace(h: Hooks, fuel: nat, order: seq<GitObjects.Parent>, values: seq<Record>, trace: seq<(Instances, Target)>)
    requires Visits(CloneVisitor(h, fuel), order, values, trace)
    ensures Stores(trace[0].1, trace[|order|].1)
    ensures forall j :: 0 <= j < |order| ==> Available(trace[|order|].1, values[j].sha1)
  {
    CloneSteps(h, fuel, order, values, trace);
    StoresChain(values, trace, |values|);
  }

  /** What the walk records: for a commit the target reports, a commit
      record holding the clone it reports; for any other, a tree record. */
  ghost predicate WalkedFrom(t0: Target, walk: Records) {
    forall i :: 0 <= i < |walk| ==>
      (walk[i].1.kind == CommitRecord <==> walk[i].0 in t0.found) &&
      (walk[i].1.kind == CommitRecord ==> walk[i].1.sha1 == t0.found[walk[i].0])
  }

  lemma CloneVisitFound(h: Hooks, fuel: nat, o: GitObject, k: nat, value: Record, before: (Instances, Target), after: (Instances, Target))
    requires VisitedAt(CloneVisitor(h, fuel), o, k, value, before, after)
    ensures value.kind == CommitRecord <==> o.sha1 in before.1.found
    ensures value.kind == CommitRecord ==> value.sha1 == before.1.found[o.sha1]
  {
    var res := CloneVisit(h, fuel, o, before.0, before.1);
    assert CloneVisitor(h, fuel)(o, k, before.0, before.1) == res;
  }

  /** The records of the walk, read against the answers of the target it
      started from. */
  lemma WalkRecordsFound(h: Hooks, fuel: nat, t0: Target, order: seq<GitObjects.Parent>, values: seq<Record>,
                         trace: seq<(Instances, Target)>, records: Records)
    requires Visits(CloneVisitor(h, fuel), order, values, trace) && trace[0].1 == t0
    requires records == Collect(order, values)
    ensures WalkedFrom(t0, records)
  {
    CloneSteps(h, fuel, order, values, trace);
    forall i | 0 <= i < |records|
      ensures (records[i].1.kind == CommitRecord <==> records[i].0 in t0.found) &&
              (records[i].1.kind == CommitRecord ==> records[i].1.sha1 == t0.found[records[i].0])
    {
      CollectPairs(order, values, i);
      var j :| 0 <= j < |order| && records[i] == (order[j].obj.sha1, values[j]);
      StoresChain(values, trace, j);
      VisitsAt(CloneVisitor(h, fuel), order, values, trace, j);
      CloneVisitFound(h, fuel, order[j].obj, j, values[j], trace[j], trace[j + 1]);
    }
  }

  // ---------------------------------------------------------------------------
  // Phase two: commits over cloned trees

  /** `find_all { |_, data| data[:type] == :tree }`, in hash order. */
  function TreeRecords(records: Records): (r: Records)
    ensures forall p :: p in r <==> p in records && p.1.kind == TreeRecord
    decreases |records|
  {
    if |records| == 0 then []
    else
      assert records == [records[0]] + records[1..];
      (if records[0].1.kind == TreeRecord then [records[0]] else []) + TreeRecords(records[1..])
  }

  /** The source hashes still recorded with a tree clone. */
  ghost function TreeKeys(records: Records): set<string> {
    set p | p in records && p.1.kind == TreeRecord :: p.0
  }

  /** Every hash is the standardised form of itself. */
  ghost predicate Standard(records: Records) {
    forall k :: k in KeySet(records) ==> StandardizedSha1(k) == Success(k)
  }

  /** `parents.all? { |parent| cloned_commits_and_trees[parent.sha1][:type] == :commit }`
      from the `j`-th parent on: false at the first parent recorded with a
      tree; a parent with no record at all makes `nil[:type]` raise. */
  function AllCloned(records: Records, ps: seq<GitObjects.Parent>, j: nat): (r: Result<bool>)
    requires j <= |ps|
    ensures r == Success(true) <==>
      forall k :: j <= k < |ps| ==> Get(records, ps[k].obj.sha1).Some? && Get(records, ps[k].obj.sha1).value.kind == CommitRecord
    ensures r.Failure? ==> r.error == NoMethodError && exists k :: j <= k < |ps| && Get(records, ps[k].obj.sha1).None?
    decreases |ps| - j
  {
    if j == |ps| then Success(true)
    else
      var rec := Get(records, ps[j].obj.sha1);
      if rec.None? then Failure(NoMethodError)
      else if rec.value.kind != CommitRecord then Success(false)
      else AllCloned(records, ps, j + 1)
  }

  /** The parents' clones, `parents.map { ... cloned_commits_and_trees[parent.sha1][:sha1] }`
      from the `j`-th on, each asserted to be a commit clone. */
  function ParentClones(records: Records, ps: seq<GitObjects.Parent>, j: nat): (r: Result<seq<string>>)
    requires j <= |ps|
    ensures r.Success? <==>
      forall k :: j <= k < |ps| ==> Get(records, ps[k].obj.sha1).Some? && Get(records, ps[k].obj.sha1).value.kind == CommitRecord
    ensures r.Success? ==> |r.value| == |ps| - j
    ensures r.Success? ==> forall k :: 0 <= k < |r.value| ==> r.value[k] == Get(records, ps[j + k].obj.sha1).value.sha1
    ensures r.Failure? ==> r.error == NoMethodError || r.error == AssertionError
    decreases |ps| - j
  {
    if j == |ps| then Success([])
    else
      var rec := Get(records, ps[j].obj.sha1);
      if rec.None? then Failure(NoMethodError)
      else if rec.value.kind != CommitRecord then Failure(AssertionError)
      else
        var rest := ParentClones(records, ps, j + 1);
        if rest.Failure? then rest else Success([rec.value.sha1] + rest.value)
  }

  /** Whenever `all?` answers true the parents' clones can be listed: the
      assertion in the `map` cannot fail for the commit chosen this way. */
  lemma AllClonedListsClones(records: Records, ps: seq<GitObjects.Parent>)
    requires AllCloned(records, ps, 0) == Success(true)
    ensures ParentClones(records, ps, 0).Success?
  {
  }

  /** A correctly loaded instance carries the standard form of the hash it
      is cached under. */
  lemma CachedHash(h: Hooks, inst: Instances, key: string)
    requires Cached(h, inst) && key in inst
    ensures StandardizedSha1(key).Success? && inst[key].sha1 == StandardizedSha1(key).value
  {
  }

  /** `cloned_trees.reverse.each` from the `i`-th record down: each hash
      found (or loaded) as a Commit and its parents asked for, stopping at
      the first commit whose parents are all cloned; when none is, the
      last one looked at (the first record) is the one chosen. */
  function Choose(h: Hooks, inst: Instances, records: Records, trees: Records, i: nat): (r: (Result<(GitObject, seq<GitObjects.Parent>)>, Instances))
    requires i < |trees|
    ensures r.0.Success? ==> FieldsOf(r.0.value.0).Success? && |r.0.value.1| == |FieldsOf(r.0.value.0).value.parents|
    ensures r.0.Success? ==> exists k :: 0 <= k <= i && trees[k].0 in r.1 && r.1[trees[k].0] == r.0.value.0
    ensures r.0.Success? ==> Recorded(r.0.value.1, FieldsOf(r.0.value.0).value.parents, 0, r.1)
    ensures Extends(inst, r.1) && (Cached(h, inst) ==> Cached(h, r.1))
    decreases i
  {
    var found := FindOrInitialize(h, inst, Commit, Some(trees[i].0), NoOptions);
    if found.0.Failure? then (Failure(found.0.error), found.1)
    else
      var o := found.0.value;
      var ps := ParentsOf(h, found.1, o);
      if ps.0.Failure? then (Failure(ps.0.error), ps.1)
      else
        var cloned := AllCloned(records, ps.0.value, 0);
        if cloned.Failure? then (Failure(cloned.error), ps.1)
        else if cloned.value || i == 0 then (Success((o, ps.0.value)), ps.1)
        else Choose(h, ps.1, records, trees, i - 1)
  }

  /** With a cache of correctly loaded instances and standard hashes, the
      commit chosen is one still recorded with a tree clone. */
  lemma ChosenIsTree(h: Hooks, inst: Instances, records: Records, trees: Records, o: GitObject, ps: seq<GitObjects.Parent>, inst2: Instances)
    requires trees == TreeRecords(records) && trees != []
    requires Choose(h, inst, records, trees, |trees| - 1) == (Success((o, ps)), inst2)
    ensures Cached(h, inst) && Standard(records) ==> o.sha1 in TreeKeys(records) && o.sha1 in inst2 && inst2[o.sha1] == o
  {
    if Cached(h, inst) && Standard(records) {
      forall k | 0 <= k < |trees|
        ensures StandardizedSha1(trees[k].0) == Success(trees[k].0)
      {
        assert trees[k] in records;
        var i :| 0 <= i < |records| && records[i] == trees[k];
        assert records[i].0 in KeySet(records);
      }
      var k :| 0 <= k <= |trees| - 1 && trees[k].0 in inst2 && inst2[trees[k].0] == o;
      CachedHash(h, inst2, trees[k].0);
      assert trees[k] in records && trees[k].1.kind == TreeRecord;
    }
  }

  /** `create_commit!` only adds to the target, and the new hash is stored
      and names the branch. */
  lemma CreateCommitStores(t: Target, branch: string, tree: string, parents: seq<string>, author: Signature, committer: Signature,
                           subject: string, sourceSha1: string)
    ensures var (sha1, after) := CreateCommit(t, branch, tree, parents, author, committer, subject, sourceSha1);
            Stores(t, after) && sha1 in after.repo.objects && after.repo.branches == t.repo.branches[branch := sha1]
  {
  }

  /** The commit the reverse scan settles on, starting from the last tree
      record. */
  function Chosen(h: Hooks, inst: Instances, records: Records): (r: (Result<(GitObject, seq<GitObjects.Parent>)>, Instances))
    requires TreeRecords(records) != []
    ensures r.0.Success? ==> FieldsOf(r.0.value.0).Success?
    ensures r.0.Success? && Cached(h, inst) && Standard(records) ==>
      r.0.value.0.sha1 in TreeKeys(records) && r.0.value.0.sha1 in r.1 && r.1[r.0.value.0.sha1] == r.0.value.0
    ensures r.0.Success? ==> Recorded(r.0.value.1, FieldsOf(r.0.value.0).value.parents, 0, r.1)
    ensures Extends(inst, r.1) && (Cached(h, inst) ==> Cached(h, r.1))
  {
    var trees := TreeRecords(records);
    var r := Choose(h, inst, records, trees, |trees| - 1);
    if r.0.Failure? then r
    else
      ChosenIsTree(h, inst, records, trees, r.0.value.0, r.0.value.1, r.1);
      r
  }

  /** One pass of the `while` loop: a commit is chosen, created in the
      target on `branch` over its tree's clone and its parents' clones, and
      its record becomes a commit record holding the new hash. */
  function CloneStep(h: Hooks, inst: Instances, t: Target, records: Records, branch: string): (r: (Result<Records>, Instances, Target))
    requires TreeRecords(records) != []
    ensures Extends(inst, r.1) && (Cached(h, inst) ==> Cached(h, r.1))
    ensures Stores(t, r.2)
    ensures r.0.Success? ==>
      (Chosen(h, inst, records).0.Success? &&
       var key := Chosen(h, inst, records).0.value.0.sha1;
       branch in r.2.repo.branches &&
       var created := r.2.repo.branches[branch];
       key in KeySet(records) && created in r.2.repo.objects &&
       r.2.repo.branches == t.repo.branches[branch := created] &&
       r.0.value == Put(records, key, Record(CommitRecord, created)))
    ensures r.0.Success? ==>
      (var (o, ps) := Chosen(h, inst, records).0.value;
       var f := FieldsOf(o).value;
       Get(records, o.sha1).Some? && ParentClones(records, ps, 0).Success? && Recorded(ps, f.parents, 0, r.1) &&
       var tree := Get(records, o.sha1).value.sha1;
       var parents := ParentClones(records, ps, 0).value;
       var created := r.2.repo.branches[branch];
       created == CreateCommit(t, branch, tree, parents, f.author, f.committer, f.subject, o.sha1).0 &&
       created == t.digest(MemoryRepository.Raw("commit", MemoryRepository.FormatCommitData(tree, parents, f.author, f.committer, f.subject))))
  {
    var next := Chosen(h, inst, records);
    if next.0.Failure? then (Failure(next.0.error), next.1, t)
    else
      var (o, ps) := next.0.value;
      var own := Get(records, o.sha1);
      if own.None? then (Failure(NoMethodError), next.1, t)
      else
        var parents := ParentClones(records, ps, 0);
        if parents.Failure? then (Failure(parents.error), next.1, t)
        else
          var fields := FieldsOf(o).value;
          var created := CreateCommit(t, branch, own.value.sha1, parents.value, fields.author, fields.committer, fields.subject, o.sha1);
          CreateCommitStores(t, branch, own.value.sha1, parents.value, fields.author, fields.committer, fields.subject, o.sha1);
          (Success(Put(records, o.sha1, Record(CommitRecord, created.0))), next.1, created.1)
  }

  // ---------------------------------------------------------------------------
  // What the second phase creates

  /** A parent hash of a commit names a cached commit whose record holds a
      commit clone. */
  ghost predicate ParentCloned(key: Option<string>, inst: Instances, records: Records) {
    key.Some? && key.value in inst &&
    Get(records, inst[key.value].sha1).Some? && Get(records, inst[key.value].sha1).value.kind == CommitRecord
  }

  /** The clone recorded for a parent ("" where there is none). */
  ghost function CloneOfParent(key: Option<string>, inst: Instances, records: Records): string {
    if ParentCloned(key, inst, records) then Get(records, inst[key.value].sha1).value.sha1 else ""
  }

  /** The clones of a commit's parents, in parent order. */
  ghost function ParentCloneList(keys: seq<Option<string>>, inst: Instances, records: Records): seq<string> {
    seq(|keys|, j requires 0 <= j < |keys| => CloneOfParent(keys[j], inst, records))
  }

  /** The array of the commit cloned from `f` over `treeClone`. */
  ghost function CloneData(treeClone: string, f: CommitData, inst: Instances, records: Records): Payload {
    MemoryRepository.FormatCommitData(treeClone, ParentCloneList(f.parents, inst, records), f.author, f.committer, f.subject)
  }

  /** `clone` is a commit the target stores, created over `treeClone` with
      the clones of `o`'s parents (each recorded as a commit clone) in
      parent order, and `o`'s author, committer and subject. */
  ghost predicate Made(t: Target, clone: string, treeClone: string, o: GitObject, inst: Instances, records: Records) {
    FieldsOf(o).Success? &&
    (forall j :: 0 <= j < |FieldsOf(o).value.parents| ==> ParentCloned(FieldsOf(o).value.parents[j], inst, records)) &&
    clone in t.repo.objects &&
    clone == t.digest(MemoryRepository.Raw("commit", CloneData(treeClone, FieldsOf(o).value, inst, records)))
  }

  /** A commit made this way loads back from a content-addressed target
      with a collision-free digest as a commit over the tree clone, with
      the parents' clones in order and the source's author, committer and
      subject. */
  lemma MadeLoadsBack(t: Target, clone: string, treeClone: string, o: GitObject, inst: Instances, records: Records)
    requires Made(t, clone, treeClone, o, inst, records)
    requires MemoryRepository.ContentAddressed(t.repo, t.digest) && CollisionFree(t.digest)
    ensures var f := FieldsOf(o).value;
            var loaded := MemoryRepository.LoadObject(t.repo, t.digest, clone);
            loaded.Success? && loaded.value.contentSha1 == clone && loaded.value.objectType == Some("commit") &&
            loaded.value.data.CommitTuple? &&
            var c := MemoryRepository.ParseCommitData(loaded.value.data);
            c.tree == Some(treeClone) && |c.parents| == |f.parents| &&
            (forall j :: 0 <= j < |f.parents| ==> c.parents[j] == Some(CloneOfParent(f.parents[j], inst, records))) &&
            c.author == f.author && c.committer == f.committer && c.subject == f.subject
  {
    var raw := MemoryRepository.Raw("commit", CloneData(treeClone, FieldsOf(o).value, inst, records));
    assert t.digest(t.repo.objects[clone]) == t.digest(raw);
  }

  /** A record turned into a commit record was a tree record, so no parent
      recorded as a commit clone is affected. */
  lemma ParentClonedKept(key: Option<string>, inst: Instances, inst2: Instances, records: Records, sha1: string, rec: Record)
    requires ParentCloned(key, inst, records) && Extends(inst, inst2)
    requires Get(records, sha1).Some? && Get(records, sha1).value.kind == TreeRecord
    ensures ParentCloned(key, inst2, Put(records, sha1, rec))
    ensures CloneOfParent(key, inst2, Put(records, sha1, rec)) == CloneOfParent(key, inst, records)
  {
    PutGet(records, sha1, rec, inst[key.value].sha1);
  }

  /** A commit made earlier stays made as the target gains objects, the
      cache grows and a tree record becomes a commit record. */
  lemma MadeKept(t: Target, t2: Target, clone: string, treeClone: string, o: GitObject, inst: Instances, inst2: Instances,
                 records: Records, sha1: string, rec: Record)
    requires Made(t, clone, treeClone, o, inst, records) && Stores(t, t2) && Extends(inst, inst2)
    requires Get(records, sha1).Some? && Get(records, sha1).value.kind == TreeRecord
    ensures Made(t2, clone, treeClone, o, inst2, Put(records, sha1, rec))
  {
    var keys := FieldsOf(o).value.parents;
    var records2 := Put(records, sha1, rec);
    forall j | 0 <= j < |keys|
      ensures ParentCloned(keys[j], inst2, records2) && CloneOfParent(keys[j], inst2, records2) == CloneOfParent(keys[j], inst, records)
    {
      ParentClonedKept(keys[j], inst, inst2, records, sha1, rec);
    }
    assert ParentCloneList(keys, inst2, records2) == ParentCloneList(keys, inst, records);
  }

  /** The record of a tree key, found by `Get`. */
  lemma TreeKeyRecord(records: Records, key: string)
    requires DistinctPairs(records) && key in TreeKeys(records)
    ensures Get(records, key).Some? && Get(records, key).value.kind == TreeRecord
  {
    var p :| p in records && p.1.kind == TreeRecord && p.0 == key;
    var i :| 0 <= i < |records| && records[i] == p;
  }

  /** The listed parents' clones are the clones of the chosen commit's
      parent hashes, read in the records after the pass. */
  lemma ParentClonesListed(ps: seq<GitObjects.Parent>, keys: seq<Option<string>>, inst: Instances, records: Records, sha1: string, rec: Record)
    requires |ps| == |keys| && Recorded(ps, keys, 0, inst) && ParentClones(records, ps, 0).Success?
    requires Get(records, sha1).Some? && Get(records, sha1).value.kind == TreeRecord
    ensures forall j :: 0 <= j < |keys| ==> ParentCloned(keys[j], inst, Put(records, sha1, rec))
    ensures ParentClones(records, ps, 0).value == ParentCloneList(keys, inst, Put(records, sha1, rec))
  {
    var records2 := Put(records, sha1, rec);
    var clones := ParentClones(records, ps, 0).value;
    forall j | 0 <= j < |keys|
      ensures ParentCloned(keys[j], inst, records2) && CloneOfParent(keys[j], inst, records2) == clones[j]
    {
      assert keys[0 + j] == Some(ps[j].key);
      PutGet(records, sha1, rec, ps[j].obj.sha1);
    }
  }

  /** The commit a pass creates is made over the chosen commit's tree
      clone, and the chosen commit is cached under its own hash, which was
      a tree key. */
  lemma StepMade(h: Hooks, inst: Instances, t: Target, records: Records, branch: string)
    requires Cached(h, inst) && Standard(records) && DistinctPairs(records) && TreeRecords(records) != []
    requires CloneStep(h, inst, t, records, branch).0.Success?
    ensures var step := CloneStep(h, inst, t, records, branch);
            var o := Chosen(h, inst, records).0.value.0;
            o.sha1 in TreeKeys(records) && o.sha1 in step.1 && step.1[o.sha1] == o &&
            Get(records, o.sha1).Some? && Get(records, o.sha1).value.kind == TreeRecord &&
            Made(step.2, step.2.repo.branches[branch], Get(records, o.sha1).value.sha1, o, step.1, step.0.value)
  {
    var step := CloneStep(h, inst, t, records, branch);
    var chosen := Chosen(h, inst, records);
    var (o, ps) := chosen.0.value;
    TreeKeyRecord(records, o.sha1);
    MadeByPass(step.2, step.2.repo.branches[branch], Get(records, o.sha1).value.sha1, o, ps, step.1, records, o.sha1);
  }

  /** The commit created over `tree` with the listed parents' clones is
      made, once the chosen commit's record turns into a commit record. */
  lemma MadeByPass(t: Target, created: string, tree: string, o: GitObject, ps: seq<GitObjects.Parent>, inst: Instances,
                   records: Records, sha1: string)
    requires FieldsOf(o).Success? && |ps| == |FieldsOf(o).value.parents| && Recorded(ps, FieldsOf(o).value.parents, 0, inst)
    requires ParentClones(records, ps, 0).Success?
    requires Get(records, sha1).Some? && Get(records, sha1).value.kind == TreeRecord
    requires var f := FieldsOf(o).value;
             created in t.repo.objects &&
             created == t.digest(MemoryRepository.Raw("commit", MemoryRepository.FormatCommitData(tree, ParentClones(records, ps, 0).value, f.author, f.committer, f.subject)))
    ensures Made(t, created, tree, o, inst, Put(records, sha1, Record(CommitRecord, created)))
  {
    ParentClonesListed(ps, FieldsOf(o).value.parents, inst, records, sha1, Record(CommitRecord, created));
  }

  /** How the records stand against the walk's: the same hash in each
      place; the record of a commit the target reported, and one not yet
      converted, as the walk left it; a converted one holding a commit
      made over the walk's tree clone. */
  ghost predicate BuiltAt(w: (string, Record), cur: (string, Record), inst: Instances, t: Target, records: Records) {
    cur.0 == w.0 &&
    (w.1.kind == CommitRecord || cur.1.kind == TreeRecord ==> cur == w) &&
    (w.1.kind == TreeRecord && cur.1.kind == CommitRecord ==>
       w.0 in inst && Made(t, cur.1.sha1, w.1.sha1, inst[w.0], inst, records))
  }

  ghost predicate Built(walk: Records, inst: Instances, t: Target, records: Records) {
    |records| == |walk| &&
    forall i :: 0 <= i < |walk| ==> BuiltAt(walk[i], records[i], inst, t, records)
  }

  lemma BuiltStart(walk: Records, inst: Instances, t: Target)
    ensures Built(walk, inst, t, walk)
  {
  }

  /** A pass that succeeds keeps the records built against the walk's. */
  lemma BuiltStep(h: Hooks, walk: Records, inst: Instances, t: Target, records: Records, branch: string)
    requires Built(walk, inst, t, records)
    requires Cached(h, inst) && Standard(records) && DistinctPairs(records) && TreeRecords(records) != []
    requires CloneStep(h, inst, t, records, branch).0.Success?
    ensures var step := CloneStep(h, inst, t, records, branch);
            Built(walk, step.1, step.2, step.0.value)
  {
    var step := CloneStep(h, inst, t, records, branch);
    var o := Chosen(h, inst, records).0.value.0;
    var rec := Record(CommitRecord, step.2.repo.branches[branch]);
    StepMade(h, inst, t, records, branch);
    var i0 :| 0 <= i0 < |records| && records[i0] == (o.sha1, Get(records, o.sha1).value);
    PutPlaces(records, o.sha1, rec);
    var records2 := step.0.value;
    assert records2 == records[i0 := (o.sha1, rec)];
    forall i | 0 <= i < |walk|
      ensures BuiltAt(walk[i], records2[i], step.1, step.2, records2)
    {
      if i != i0 && walk[i].1.kind == TreeRecord && records[i].1.kind == CommitRecord {
        MadeKept(t, step.2, records[i].1.sha1, walk[i].1.sha1, inst[walk[i].0], inst, step.1, records, o.sha1, rec);
      }
    }
  }

  /** Every record of a commit recorded with a commit clone by the walk is
      as the walk left it, and every other holds a commit made over the
      walk's tree clone. */
  ghost predicate Settled(walk: Records, inst: Instances, t: Target, records: Records) {
    |records| == |walk| &&
    forall i :: 0 <= i < |walk| ==>
      (records[i].0 == walk[i].0 &&
       (walk[i].1.kind == CommitRecord ==> records[i] == walk[i]) &&
       (walk[i].1.kind == TreeRecord ==> walk[i].0 in inst && Made(t, records[i].1.sha1, walk[i].1.sha1, inst[walk[i].0], inst, records)))
  }

  /** With no tree record left, the records are settled. */
  lemma BuiltEnd(walk: Records, inst: Instances, t: Target, records: Records)
    requires Built(walk, inst, t, records)
    requires forall k :: 0 <= k < |records| ==> records[k].1.kind == CommitRecord
    ensures Settled(walk, inst, t, records)
  {
    forall i | 0 <= i < |walk|
      ensures records[i].0 == walk[i].0 && (walk[i].1.kind == CommitRecord ==> records[i] == walk[i]) &&
        (walk[i].1.kind == TreeRecord ==> walk[i].0 in inst && Made(t, records[i].1.sha1, walk[i].1.sha1, inst[walk[i].0], inst, records))
    {
      assert BuiltAt(walk[i], records[i], inst, t, records);
    }
  }

  /** Turning a tree record into a commit record takes its hash off the
      tree keys and nothing else. */
  lemma TreeKeysShrink(records: Records, key: string, rec: Record)
    requires DistinctPairs(records) && key in TreeKeys(records) && rec.kind == CommitRecord
    ensures TreeKeys(Put(records, key, rec)) == TreeKeys(records) - {key}
  {
    var p0 :| p0 in records && p0.1.kind == TreeRecord && p0.0 == key;
    var i :| 0 <= i < |records| && records[i] == p0;
    PutPlaces(records, key, rec);
    TreeKeysReplace(records, i, rec);
  }

  /** The same, for the record at a known place. */
  lemma TreeKeysReplace(records: Records, i: nat, rec: Record)
    requires DistinctPairs(records) && i < |records| && records[i].1.kind == TreeRecord && rec.kind == CommitRecord
    ensures TreeKeys(records[i := (records[i].0, rec)]) == TreeKeys(records) - {records[i].0}
  {
    var key := records[i].0;
    var after := records[i := (key, rec)];
    var kept := TreeKeys(records) - {key};
    forall k | k in TreeKeys(after)
      ensures k in kept
    {
      var p :| p in after && p.1.kind == TreeRecord && p.0 == k;
      var j :| 0 <= j < |after| && after[j] == p;
      assert j != i;
      assert records[j] == p;
    }
    forall k | k in kept
      ensures k in TreeKeys(after)
    {
      var p :| p in records && p.1.kind == TreeRecord && p.0 == k;
      var j :| 0 <= j < |records| && records[j] == p;
      assert j != i && after[j] == p;
    }
  }

  /** Every record's hash stays answerable when a record is replaced by one
      whose hash the target stores. */
  lemma PutAvailable(records: Records, key: string, rec: Record, t: Target, t2: Target)
    requires DistinctPairs(records) && Stores(t, t2) && rec.sha1 in t2.repo.objects
    requires forall k :: 0 <= k < |records| ==> Available(t, records[k].1.sha1)
    ensures forall k :: 0 <= k < |Put(records, key, rec)| ==> Available(t2, Put(records, key, rec)[k].1.sha1)
  {
    PutPlaces(records, key, rec);
    var after := Put(records, key, rec);
    forall k | 0 <= k < |after|
      ensures Available(t2, after[k].1.sha1)
    {
      if after[k] != (key, rec) {
        assert k < |records| && after[k] == records[k];
        StoresAvailable(t, t2, records[k].1.sha1);
      }
    }
  }

  /** The hashes of commits cached correctly are standard. */
  lemma HashesStandard(h: Hooks, order: seq<GitObjects.Parent>, inst: Instances, records: Records)
    requires Cached(h, inst) && InCache(order, inst) && KeySet(records) == Hashes(order)
    ensures Standard(records)
  {
    forall k | k in KeySet(records)
      ensures StandardizedSha1(k) == Success(k)
    {
      var p :| p in order && p.obj.sha1 == k;
      var i :| 0 <= i < |order| && order[i] == p;
      CachedHash(h, inst, p.key);
      StandardizedSha1Idempotent(p.key);
    }
  }

  /** `assert { cloned_commits_and_trees[sha1][:type] == :commit }`, then
      the clone recorded for the commit itself. */
  function RootClone(records: Records, sha1: string): (r: Result<string>)
    ensures r.Success? <==> Get(records, sha1).Some? && Get(records, sha1).value.kind == CommitRecord
    ensures r.Success? ==> (sha1, Record(CommitRecord, r.value)) in records
    ensures Get(records, sha1).None? ==> r == Failure(NoMethodError)
  {
    var rec := Get(records, sha1);
    if rec.None? then Failure(NoMethodError)
    else if rec.value.kind != CommitRecord then Failure(AssertionError)
    else Success(rec.value.sha1)
  }

  /** With no tree record left, the final assertion holds for every
      recorded hash. */
  lemma NoTreesRootClone(records: Records, sha1: string)
    requires TreeRecords(records) == [] && sha1 in KeySet(records)
    ensures RootClone(records, sha1).Success?
    ensures forall k :: 0 <= k < |records| ==> records[k].1.kind == CommitRecord
  {
    forall k | 0 <= k < |records|
      ensures records[k].1.kind == CommitRecord
    {
      assert records[k] in records;
      assert records[k] !in TreeRecords(records);
    }
    var rec := Get(records, sha1);
    var k :| 0 <= k < |records| && records[k] == (sha1, rec.value);
  }

  /** What holds of the records and the target throughout the second
      phase. */
  ghost predicate Cloning(h: Hooks, inst0: Instances, inst: Instances, t0: Target, t: Target, order: seq<GitObjects.Parent>, records: Records) {
    Extends(inst0, inst) && Cached(h, inst) && Stores(t0, t) &&
    DistinctPairs(records) && KeySet(records) == Hashes(order) && Standard(records) &&
    forall k :: 0 <= k < |records| ==> Available(t, records[k].1.sha1)
  }

  /** The records the walk leaves start the second phase. */
  lemma WalkStartsCloning(h: Hooks, fuel: nat, inst: Instances, t0: Target, t: Target, order: seq<GitObjects.Parent>,
                          values: seq<Record>, trace: seq<(Instances, Target)>, records: Records)
    requires Cached(h, inst) && InCache(order, inst)
    requires Visits(CloneVisitor(h, fuel), order, values, trace) && trace[0].1 == t0 && trace[|order|] == (inst, t)
    requires records == Collect(order, values)
    ensures Cloning(h, inst, inst, t0, t, order, records)
  {
    CollectValues(order, values);
    CloneTrace(h, fuel, order, values, trace);
    HashesStandard(h, order, inst, records);
    forall k | 0 <= k < |records|
      ensures Available(t, records[k].1.sha1)
    {
      var j :| 0 <= j < |values| && values[j] == records[k].1;
    }
  }

  lemma PutSameKeys(records: Records, key: string, rec: Record)
    requires key in KeySet(records)
    ensures KeySet(Put(records, key, rec)) == KeySet(records)
  {
    assert KeySet(records) + {key} == KeySet(records);
  }

  /** A pass that succeeds keeps the second phase's invariant. */
  lemma CloneStepKeeps(h: Hooks, inst0: Instances, inst: Instances, t0: Target, t: Target, order: seq<GitObjects.Parent>, records: Records, branch: string)
    requires Cloning(h, inst0, inst, t0, t, order, records) && TreeRecords(records) != []
    requires CloneStep(h, inst, t, records, branch).0.Success?
    ensures var step := CloneStep(h, inst, t, records, branch);
            Cloning(h, inst0, step.1, t0, step.2, order, step.0.value)
  {
    var step := CloneStep(h, inst, t, records, branch);
    var key := Chosen(h, inst, records).0.value.0.sha1;
    var rec := Record(CommitRecord, step.2.repo.branches[branch]);
    PutSameKeys(records, key, rec);
    PutAvailable(records, key, rec, t, step.2);
    StoresTrans(t0, t, step.2);
    ExtendsTrans(inst0, inst, step.1);
  }

  /** A pass that succeeds leaves one tree record fewer. */
  lemma CloneStepShrinks(h: Hooks, inst: Instances, t: Target, records: Records, branch: string)
    requires Cached(h, inst) && DistinctPairs(records) && Standard(records) && TreeRecords(records) != []
    requires CloneStep(h, inst, t, records, branch).0.Success?
    ensures |TreeKeys(CloneStep(h, inst, t, records, branch).0.value)| < |TreeKeys(records)|
  {
    var step := CloneStep(h, inst, t, records, branch);
    var key := Chosen(h, inst, records).0.value.0.sha1;
    TreeKeysShrink(records, key, Record(CommitRecord, step.2.repo.branches[branch]));
  }

  /** One pass of the loop, with what the second phase needs of it. */
  method ClonePass(h: Hooks, ghost walked: Instances, inst: Instances, ghost t0: Target, t: Target, ghost order: seq<GitObjects.Parent>,
                   ghost walk: Records, records: Records, branch: string)
    returns (step: Result<Records>, inst2: Instances, t2: Target)
    requires Cloning(h, walked, inst, t0, t, order, records) && TreeRecords(records) != []
    requires Built(walk, inst, t, records)
    ensures Extends(walked, inst2) && Cached(h, inst2)
    ensures step.Success? ==> Cloning(h, walked, inst2, t0, t2, order, step.value) && |TreeKeys(step.value)| < |TreeKeys(records)|
    ensures step.Success? ==> Built(walk, inst2, t2, step.value)
  {
    var r := CloneStep(h, inst, t, records, branch);
    step, inst2, t2 := r.0, r.1, r.2;
    ExtendsTrans(walked, inst, inst2);
    if step.Success? {
      CloneStepKeeps(h, walked, inst, t0, t, order, records, branch);
      CloneStepShrinks(h, inst, t, records, branch);
      BuiltStep(h, walk, inst, t, records, branch);
    }
  }

  /** The second phase: while tree records remain, a pass creates one more
      commit; then the final assertion, and the clone recorded for the
      commit itself. */
  method CreateCommits(h: Hooks, ghost walked: Instances, inst0: Instances, ghost t0: Target, t1: Target, ghost order: seq<GitObjects.Parent>,
                       records0: Records, root: GitObjects.Parent, branch: string)
    returns (r: Result<string>, inst: Instances, t: Target, ghost records: Records)
    requires Cloning(h, walked, inst0, t0, t1, order, records0) && |order| > 0 && order[0] == root
    requires Closed(order, |order|, walked)
    ensures Extends(walked, inst) && Cached(h, inst)
    ensures r.Success? ==> Stores(t0, t) && Closed(order, |order|, inst)
    ensures r.Success? ==> KeySet(records) == Hashes(order) && DistinctPairs(records)
    ensures r.Success? ==> forall k :: 0 <= k < |records| ==> records[k].1.kind == CommitRecord && Available(t, records[k].1.sha1)
    ensures r.Success? ==> Get(records, root.obj.sha1) == Some(Record(CommitRecord, r.value))
    ensures r.Success? ==> Settled(records0, inst, t, records)
  {
    inst, t := inst0, t1;
    var recs := records0;
    BuiltStart(records0, inst, t);
    while TreeRecords(recs) != []
      invariant Cloning(h, walked, inst, t0, t, order, recs)
      invariant Built(records0, inst, t, recs)
      decreases |TreeKeys(recs)|
    {
      var step;
      step, inst, t := ClonePass(h, walked, inst, t0, t, order, records0, recs, branch);
      if step.Failure? {
        return Failure(step.error), inst, t, recs;
      }
      recs := step.value;
    }
    records := recs;
    assert order[0] in order;
    NoTreesRootClone(recs, root.obj.sha1);
    BuiltEnd(records0, inst, t, recs);
    r := RootClone(recs, root.obj.sha1);
    ClosedGrows(order, order, |order|, walked, inst);
  }

  /** Settled records read against the target the walk started from. */
  lemma SettledFromWalk(t0: Target, walk: Records, inst: Instances, t: Target, records: Records)
    requires WalkedFrom(t0, walk) && Settled(walk, inst, t, records)
    ensures |records| == |walk|
    ensures forall i :: 0 <= i < |walk| ==>
      (records[i].0 == walk[i].0 &&
       (walk[i].0 in t0.found ==> records[i].1 == Record(CommitRecord, t0.found[walk[i].0])) &&
       (walk[i].0 !in t0.found ==>
          walk[i].0 in inst && Made(t, records[i].1.sha1, walk[i].1.sha1, inst[walk[i].0], inst, records)))
  {
  }

  /** The first phase of `clone_into`: the breadth-first walk from the
      root, recording each visited commit's clone or the clone of its tree. */
  method CloneWalk(h: Hooks, inst0: Instances, root: GitObjects.Parent, t0: Target, fuel: nat)
    returns (visited: Result<Records>, inst: Instances, t: Target, ghost order: seq<GitObjects.Parent>)
    requires Bounded(h) && Cached(h, inst0)
    requires root.key in inst0 && inst0[root.key] == root.obj
    ensures Extends(inst0, inst) && Cached(h, inst)
    ensures visited.Success? ==> |order| > 0 && order[0] == root && Closed(order, |order|, inst)
    ensures visited.Success? ==> Cloning(h, inst, inst, t0, t, order, visited.value) && WalkedFrom(t0, visited.value)
  {
    CloneVisitorWellBehaved(h, fuel);
    ghost var values, trace, from;
    visited, inst, t, order, values, trace, from := VisitAncestors(h, inst0, root, t0, CloneVisitor(h, fuel));
    if visited.Success? {
      WalkStartsCloning(h, fuel, inst, t0, t, order, values, trace, visited.value);
      WalkRecordsFound(h, fuel, t0, order, values, trace, visited.value);
    }
  }

  /** `clone_into(target_repository, branch)`: every commit the walk visits
      is recorded with its clone (one the target reports, or a clone of its
      tree); then commits whose parents are all cloned are created on
      `branch`, each over its tree's clone, until no tree record remains;
      the answer is the clone recorded for the commit itself. On success
      every visited hash is recorded, each with a commit the target can
      answer, and the target has only gained objects; a commit the target
      reported keeps the clone reported, and every other one's clone is a
      commit created over the walk's tree clone with its parents' clones
      in parent order. */
  method CloneInto(h: Hooks, inst0: Instances, root: GitObjects.Parent, t0: Target, branch: string, fuel: nat)
    returns (r: Result<string>, inst: Instances, t: Target, ghost order: seq<GitObjects.Parent>, ghost records: Records,
             ghost walk: Records)
    requires Bounded(h) && Cached(h, inst0)
    requires root.key in inst0 && inst0[root.key] == root.obj
    ensures Extends(inst0, inst) && Cached(h, inst)
    ensures r.Success? ==> Stores(t0, t)
    ensures r.Success? ==> |order| > 0 && order[0] == root && Closed(order, |order|, inst)
    ensures r.Success? ==> KeySet(records) == Hashes(order) && DistinctPairs(records)
    ensures r.Success? ==> forall k :: 0 <= k < |records| ==> records[k].1.kind == CommitRecord && Available(t, records[k].1.sha1)
    ensures r.Success? ==> Get(records, root.obj.sha1) == Some(Record(CommitRecord, r.value))
    ensures r.Success? ==> WalkedFrom(t0, walk) && KeySet(walk) == Hashes(order) && |records| == |walk|
    ensures r.Success? ==> forall i :: 0 <= i < |walk| ==>
      (records[i].0 == walk[i].0 &&
       (walk[i].0 in t0.found ==> records[i].1 == Record(CommitRecord, t0.found[walk[i].0])) &&
       (walk[i].0 !in t0.found ==>
          walk[i].0 in inst && Made(t, records[i].1.sha1, walk[i].1.sha1, inst[walk[i].0], inst, records)))
  {
    var visited;
    visited, inst, t, order := CloneWalk(h, inst0, root, t0, fuel);
    records, walk := [], [];
    if visited.Failure? {
      return Failure(visited.error), inst, t, order, records, walk;
    }
    walk := visited.value;
    ghost var walked := inst;
    r, inst, t, records := CreateCommits(h, walked, inst, t0, t, order, visited.value, root, branch);
    ExtendsTrans(inst0, walked, inst);
    if r.Success? {
      SettledFromWalk(t0, walk, inst, t, records);
    }
  }
}
