/** models/git_object.rb: loading an object into an instance of the class
    its caller asks for, the per-repository cache of instances
    (`repository.instances`), the header checks of `validate`, and the
    commit accessors `tree`, `parents` and `parent` (models/commit.rb:11-29)
    that the walks over trees and commits share. */
module GitObjects {

  import opened Results
  import opened ObjectData
  import opened Modes
  import opened Sha1Util
  import opened Backends

  /** The options hash: a missing key takes its default. */
  datatype Options = Options(commitLevel: Option<int>, loadBlobData: Option<bool>)

  const NoOptions: Options := Options(None, None)

  /** `{ commit_level: 1, ... }.merge(options)[:commit_level]`. */
  function CommitLevelOf(o: Options): int {
    if o.commitLevel.Some? then o.commitLevel.value else 1
  }

  /** `!!options[:load_blob_data]`, false by default. */
  function LoadBlobDataOf(o: Options): bool {
    o.loadBlobData == Some(true)
  }

  /** What `parse_data` leaves in the instance: a tree's `entries_info`, a
      commit's five fields (None when the payload has another shape), or
      nothing for the blob classes, whose `parse_data` does nothing. */
  datatype Parsed =
    | EntriesInfo(rows: Option<seq<TreeRow>>)
    | CommitFields(fields: Option<CommitData>)
    | NotParsed

  /** A loaded instance. `cls` is the class it was created as, which need
      not match the stored type: `validate` is what compares them. */
  datatype GitObject = GitObject(
    cls: ObjectClass,
    sha1: string,
    commitLevel: int,
    loadBlobData: bool,
    objectType: Option<string>,
    size: Option<int>,
    data: Payload,
    contentSha1: string,
    parsed: Parsed)

  /** The options an instance was created with. */
  function OptionsOf(o: GitObject): Options {
    Options(Some(o.commitLevel), Some(o.loadBlobData))
  }

  /** `parse_data(data)` of the class: Tree and Commit ask the repository to
      parse the payload; the blob classes keep nothing. */
  function ParseData(h: Hooks, cls: ObjectClass, data: Payload): (r: Result<Parsed>)
    ensures r.Success? && cls == Tree ==> r.value.EntriesInfo?
    ensures r.Success? && cls == Commit ==> r.value.CommitFields?
    ensures r.Failure? ==> cls == Tree || cls == Commit
  {
    match cls
    case Tree =>
      var rows :- h.parseTree(data);
      Success(EntriesInfo(rows))
    case Commit =>
      var fields :- h.parseCommit(data);
      Success(CommitFields(fields))
    case _ => Success(NotParsed)
  }

  /** Whether `load` keeps the payload: it is dropped for a `:blob` object
      loaded without `load_blob_data`. */
  predicate KeepsData(objectType: Option<string>, loadBlobData: bool) {
    !(objectType == Some("blob") && !loadBlobData)
  }

  /** `new(repository, sha1, options)`: set the options, then `load`. Load
      the object, parse a non-nil payload, compare the stored size with the
      payload's size (nil has none and raises NoMethodError), and only then
      drop the payload of a blob loaded without its data. */
  function Initialize(h: Hooks, cls: ObjectClass, sha1: string, options: Options): (r: Result<GitObject>)
    ensures h.load(sha1).Failure? ==> r == Failure(h.load(sha1).error)
    ensures r.Success? ==>
      (h.load(sha1).Success? &&
       var info := h.load(sha1).value;
       r.value.cls == cls && r.value.sha1 == sha1 &&
       r.value.commitLevel == CommitLevelOf(options) && r.value.loadBlobData == LoadBlobDataOf(options) &&
       r.value.objectType == info.objectType && r.value.contentSha1 == info.contentSha1 &&
       DataSize(info.data).Success? && r.value.size == Some(DataSize(info.data).value) &&
       r.value.data == (if KeepsData(info.objectType, LoadBlobDataOf(options)) then info.data else NoData) &&
       !info.data.NoData? && ParseData(h, cls, info.data) == Success(r.value.parsed))
    ensures h.load(sha1).Success? && !h.load(sha1).value.data.NoData? &&
            ParseData(h, cls, h.load(sha1).value.data).Failure? ==>
              r == Failure(ParseData(h, cls, h.load(sha1).value.data).error)
  {
    var info :- h.load(sha1);
    var parsed :- if info.data.NoData? then Success(NotParsed) else ParseData(h, cls, info.data);
    var dataSize :- DataSize(info.data);
    if info.size != Some(dataSize as int) then Failure(InvalidSizeError)
    else
      var loadBlobData := LoadBlobDataOf(options);
      var data := if KeepsData(info.objectType, loadBlobData) then info.data else NoData;
      Success(GitObject(cls, sha1, CommitLevelOf(options), loadBlobData,
                        info.objectType, info.size, data, info.contentSha1, parsed))
  }

  /** The size check: a parsed object whose stored size differs from its
      payload's size raises InvalidSizeError. */
  lemma SizeMismatchRaises(h: Hooks, cls: ObjectClass, sha1: string, options: Options)
    requires h.load(sha1).Success?
    requires var info := h.load(sha1).value;
             !info.data.NoData? && ParseData(h, cls, info.data).Success? &&
             info.size != Some(DataSize(info.data).value as int)
    ensures Initialize(h, cls, sha1, options) == Failure(InvalidSizeError)
  {
  }

  /** Without options an instance has commit level 1 and no blob data. */
  lemma InitializeDefaults(h: Hooks, cls: ObjectClass, sha1: string)
    requires Initialize(h, cls, sha1, NoOptions).Success?
    ensures var o := Initialize(h, cls, sha1, NoOptions).value;
            o.commitLevel == 1 && !o.loadBlobData && (o.objectType == Some("blob") ==> o.data == NoData)
  {
  }

  /** An instance depends on its options only through the two values it
      records. */
  lemma InitializeWithOwnOptions(h: Hooks, cls: ObjectClass, sha1: string, options: Options)
    requires Initialize(h, cls, sha1, options).Success?
    ensures Initialize(h, cls, sha1, OptionsOf(Initialize(h, cls, sha1, options).value)) == Initialize(h, cls, sha1, options)
  {
  }

  // ---------------------------------------------------------------------------
  // The instance cache

  /** `repository.instances`: instances by the hash they were asked for. */
  type Instances = map<string, GitObject>

  /** Every instance of `a` is still in `c`, unchanged: instances are only
      ever added. */
  predicate Extends(a: Instances, c: Instances) {
    forall k :: k in a ==> k in c && c[k] == a[k]
  }

  /** Every cached instance is what loading its key as its class with its
      options gives. */
  ghost predicate Cached(h: Hooks, inst: Instances) {
    forall k :: k in inst ==>
      StandardizedSha1(k).Success? &&
      Initialize(h, inst[k].cls, StandardizedSha1(k).value, OptionsOf(inst[k])) == Success(inst[k])
  }

  /** `find_or_initialize_by_sha1` as written: an instance already cached is
      returned; otherwise the call to `Sha1Util.standardized_hex_string_sha1`,
      which sha1_util.rb does not define, raises NoMethodError. */
  function FindOrInitializeAsWritten(inst: Instances, key: Option<string>): (r: (Result<GitObject>, Instances))
    ensures r.1 == inst
    ensures r.0.Success? <==> key.Some? && key.value in inst
    ensures r.0.Failure? ==> r.0.error == NoMethodError
  {
    if key.Some? && key.value in inst then (Success(inst[key.value]), inst) else (Failure(NoMethodError), inst)
  }

  /** As written, no instance is ever created: starting from the empty cache
      of a new repository, every lookup raises. */
  lemma AsWrittenNeverLoads(key: Option<string>)
    ensures FindOrInitializeAsWritten(map[], key) == (Failure(NoMethodError), map[])
  {
  }

  /** `find_or_initialize_by_sha1` with the helper sha1_util.rb defines,
      `standardized_sha1`: a cached instance wins whatever class and options
      are asked for now; otherwise the key is standardised (nil raises
      NoMethodError, a size other than 20 or 40 a RuntimeError), loaded as
      `cls`, and cached under the key as given. A raise caches nothing. */
  function FindOrInitialize(h: Hooks, inst: Instances, cls: ObjectClass, key: Option<string>, options: Options): (r: (Result<GitObject>, Instances))
    ensures key.Some? && key.value in inst ==> r == (Success(inst[key.value]), inst)
    ensures key.None? ==> r == (Failure(NoMethodError), inst)
    ensures r.0.Success? ==> key.Some? && key.value in r.1 && r.1[key.value] == r.0.value
    ensures r.0.Failure? ==> r.1 == inst
    ensures r.0.Success? ==> r.1.Keys == inst.Keys + {key.value}
    ensures Extends(inst, r.1)
    ensures Cached(h, inst) ==> Cached(h, r.1)
  {
    if key.None? then (Failure(NoMethodError), inst)
    else if key.value in inst then (Success(inst[key.value]), inst)
    else
      var s := StandardizedSha1(key.value);
      if s.Failure? then (Failure(s.error), inst)
      else
        var o := Initialize(h, cls, s.value, options);
        if o.Failure? then (Failure(o.error), inst)
        else
          InitializeWithOwnOptions(h, cls, s.value, options);
          (o, inst[key.value := o.value])
  }

  /** A key not yet cached is standardised and loaded as the class and
      with the options asked for. */
  lemma FindOrInitializeLoads(h: Hooks, inst: Instances, cls: ObjectClass, key: string, options: Options)
    requires key !in inst
    ensures var s := StandardizedSha1(key);
            FindOrInitialize(h, inst, cls, Some(key), options).0 ==
              (if s.Failure? then Failure(s.error) else Initialize(h, cls, s.value, options))
  {
  }

  /** The first caller's class and options win: once a key is cached, any
      later request for it returns that instance and changes nothing. */
  lemma FirstOptionsWin(h: Hooks, inst: Instances, cls: ObjectClass, key: Option<string>, options: Options,
                        cls2: ObjectClass, options2: Options)
    requires FindOrInitialize(h, inst, cls, key, options).0.Success?
    ensures var (r, after) := FindOrInitialize(h, inst, cls, key, options);
            FindOrInitialize(h, after, cls2, key, options2) == (r, after)
  {
  }

  /** The corrected lookup creates what the written one cannot: a stored
      40-character hash loads into a fresh cache, where the written lookup
      raises. */
  lemma CorrectedLookupLoads(h: Hooks, cls: ObjectClass, sha1: string, options: Options)
    requires |sha1| == 40 && Initialize(h, cls, sha1, options).Success?
    ensures FindOrInitialize(h, map[], cls, Some(sha1), options).0 == Initialize(h, cls, sha1, options)
    ensures FindOrInitializeAsWritten(map[], Some(sha1)).0 == Failure(NoMethodError)
  {
  }

  /** `sha1[0..6]`: the first seven characters, or all of a shorter
      string. */
  function First7(s: string): (r: string)
    ensures |r| == (if |s| < 7 then |s| else 7)
    ensures r == s[..|r|]
  {
    if |s| < 7 then s else s[..7]
  }

  // ---------------------------------------------------------------------------
  // validate: the header checks

  /** The first two checks of `validate`: the stored type must be the type
      of the class's base class (Blob for every blob class), then the hash
      the object was asked for must be the digest of its content. */
  function CheckHeader(o: GitObject): (r: Result<()>)
    ensures r.Success? <==> o.objectType == Some(BaseType(o.cls)) && o.sha1 == o.contentSha1
    ensures o.objectType != Some(BaseType(o.cls)) ==> r == Failure(InvalidTypeError)
    ensures o.objectType == Some(BaseType(o.cls)) && o.sha1 != o.contentSha1 ==> r == Failure(InvalidSha1Error(o.sha1, o.contentSha1))
  {
    if o.objectType != Some(BaseType(o.cls)) then Failure(InvalidTypeError)
    else if o.sha1 != o.contentSha1 then Failure(InvalidSha1Error(o.sha1, o.contentSha1))
    else Success(())
  }

  // ---------------------------------------------------------------------------
  // Commit accessors

  /** The options a commit hands to the objects it refers to, `level`
      being its own commit level or one more for parents. */
  function Inherited(c: GitObject, level: int): Options {
    Options(Some(level), Some(c.loadBlobData))
  }

  /** The five fields of a commit instance, if it has them: other classes
      do not define the commit accessors, and a payload of another shape
      gives no usable fields. */
  function FieldsOf(c: GitObject): (r: Result<CommitData>)
    ensures r.Success? <==> c.cls == Commit && c.parsed.CommitFields? && c.parsed.fields.Some?
  {
    if c.cls == Commit && c.parsed.CommitFields? && c.parsed.fields.Some? then Success(c.parsed.fields.value)
    else Failure(NoMethodError)
  }

  /** `tree`: the commit's tree, as a Tree with the commit's level and
      blob-data option. */
  function TreeOf(h: Hooks, inst: Instances, c: GitObject): (r: (Result<GitObject>, Instances))
    ensures FieldsOf(c).Failure? ==> r == (Failure(NoMethodError), inst)
    ensures FieldsOf(c).Success? ==> r == FindOrInitialize(h, inst, Tree, FieldsOf(c).value.tree, Inherited(c, c.commitLevel))
    ensures Extends(inst, r.1)
    ensures Cached(h, inst) ==> Cached(h, r.1)
  {
    var fields := FieldsOf(c);
    if fields.Failure? then (Failure(NoMethodError), inst)
    else FindOrInitialize(h, inst, Tree, fields.value.tree, Inherited(c, c.commitLevel))
  }

  /** A parent as `parents` yields it: the key it was asked for, which is
      what tells two instances apart, and the instance. */
  datatype Parent = Parent(key: string, obj: GitObject)

  /** The `j`-th parent was asked for by the `i + j`-th hash and is the
      instance cached under it. */
  predicate Recorded(ps: seq<Parent>, keys: seq<Option<string>>, i: nat, inst: Instances) {
    i + |ps| <= |keys| &&
    forall j :: 0 <= j < |ps| ==> keys[i + j] == Some(ps[j].key) && ps[j].key in inst && inst[ps[j].key] == ps[j].obj
  }

  lemma RecordedCons(p: Parent, rest: seq<Parent>, keys: seq<Option<string>>, i: nat, inst: Instances)
    requires i < |keys| && keys[i] == Some(p.key) && p.key in inst && inst[p.key] == p.obj
    requires Recorded(rest, keys, i + 1, inst)
    ensures Recorded([p] + rest, keys, i, inst)
  {
    forall j | 0 <= j < |rest| + 1
      ensures keys[i + j] == Some(([p] + rest)[j].key)
    {
      if j > 0 { assert ([p] + rest)[j] == rest[j - 1]; }
    }
  }

  /** The parents from the `i`-th hash on, each a Commit one level deeper. */
  function ParentsFrom(h: Hooks, inst: Instances, c: GitObject, keys: seq<Option<string>>, i: nat): (r: (Result<seq<Parent>>, Instances))
    requires i <= |keys|
    ensures r.0.Success? ==> |r.0.value| == |keys| - i
    ensures r.0.Success? ==> Recorded(r.0.value, keys, i, r.1)
    ensures Extends(inst, r.1)
    ensures Cached(h, inst) ==> Cached(h, r.1)
    decreases |keys| - i
  {
    if i == |keys| then (Success([]), inst)
    else
      var first := FindOrInitialize(h, inst, Commit, keys[i], Inherited(c, c.commitLevel + 1));
      if first.0.Failure? then (Failure(first.0.error), first.1)
      else
        var rest := ParentsFrom(h, first.1, c, keys, i + 1);
        if rest.0.Failure? then (Failure(rest.0.error), rest.1)
        else
          RecordedCons(Parent(keys[i].value, first.0.value), rest.0.value, keys, i, rest.1);
          (Success([Parent(keys[i].value, first.0.value)] + rest.0.value), rest.1)
  }

  /** `parents`: one Commit per parent hash, in order. */
  function ParentsOf(h: Hooks, inst: Instances, c: GitObject): (r: (Result<seq<Parent>>, Instances))
    ensures FieldsOf(c).Failure? ==> r == (Failure(NoMethodError), inst)
    ensures r.0.Success? ==> FieldsOf(c).Success? && |r.0.value| == |FieldsOf(c).value.parents|
    ensures r.0.Success? ==> Recorded(r.0.value, FieldsOf(c).value.parents, 0, r.1)
    ensures Extends(inst, r.1)
    ensures Cached(h, inst) ==> Cached(h, r.1)
  {
    var fields := FieldsOf(c);
    if fields.Failure? then (Failure(NoMethodError), inst)
    else ParentsFrom(h, inst, c, fields.value.parents, 0)
  }

  /** `parent`: nil without parents, the only parent, or a RuntimeError
      when there are more. */
  function ParentOf(h: Hooks, inst: Instances, c: GitObject): (r: (Result<Option<GitObject>>, Instances))
    ensures ParentsOf(h, inst, c).0.Failure? ==> r.0 == Failure(ParentsOf(h, inst, c).0.error)
    ensures ParentsOf(h, inst, c).0.Success? ==>
      var ps := ParentsOf(h, inst, c).0.value;
      (|ps| == 0 ==> r.0 == Success(None)) &&
      (|ps| == 1 ==> r.0 == Success(Some(ps[0].obj))) &&
      (|ps| > 1 ==> r.0 == Failure(RuntimeError("More than one parent commit found.")))
  {
    var ps := ParentsOf(h, inst, c);
    if ps.0.Failure? then (Failure(ps.0.error), ps.1)
    else if |ps.0.value| == 0 then (Success(None), ps.1)
    else if |ps.0.value| == 1 then (Success(Some(ps.0.value[0].obj)), ps.1)
    else (Failure(RuntimeError("More than one parent commit found.")), ps.1)
  }
}
