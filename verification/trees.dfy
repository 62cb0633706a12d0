/** models/tree.rb: a tree's entries, its validation, the structural diff
    `changes_between`, and `clone_into`; with `validate` of
    models/git_object.rb:53-63, whose recursion runs through trees and
    commits alike. */
module Trees {

  import opened Results
  import opened ObjectData
  import opened Modes
  import opened Backends
  import opened GitObjects
  import opened GitRepository
  import Blobs

  // ---------------------------------------------------------------------------
  // Ordered hashes keyed by name

  /** One pair of a tree's `entries` hash. */
  datatype Entry = Entry(name: string, obj: GitObject)

  /** The keys of an `entries` hash, in insertion order. `RowNames` is the
      same projection over rows; the two stay separate so that each one's
      index facts hang on a field selection the verifier can trigger on,
      rather than on an applied function parameter. */
  function Names(items: seq<Entry>): (ns: seq<string>)
    ensures |ns| == |items| && forall i :: 0 <= i < |items| ==> ns[i] == items[i].name
  {
    seq(|items|, i requires 0 <= i < |items| => items[i].name)
  }

  /** `items[name]`. */
  function Lookup(items: seq<Entry>, name: string): (r: Option<GitObject>)
    ensures r.Some? <==> name in Names(items)
    decreases |items|
  {
    if |items| == 0 then None
    else if items[0].name == name then Some(items[0].obj)
    else
      assert Names(items) == [items[0].name] + Names(items[1..]);
      Lookup(items[1..], name)
  }

  lemma NamesCons(x: Entry, s: seq<Entry>)
    ensures Names([x] + s) == [x.name] + Names(s)
    ensures ([x] + s)[0] == x && ([x] + s)[1..] == s
  {
    var l := Names([x] + s);
    var r := [x.name] + Names(s);
    forall k | 0 <= k < |l|
      ensures l[k] == r[k]
    {
      if k > 0 { assert ([x] + s)[k] == s[k - 1]; }
    }
  }

  lemma NamesTail(s: seq<Entry>)
    requires |s| > 0
    ensures Names(s) == [s[0].name] + Names(s[1..])
    ensures s == [s[0]] + s[1..]
  {
    NamesCons(s[0], s[1..]);
    assert s == [s[0]] + s[1..];
  }

  /** `items.merge name => obj`: a name already present keeps its position
      and takes the new object; a new name goes last. */
  function Merge(items: seq<Entry>, e: Entry): (r: seq<Entry>)
    ensures Names(r) == if e.name in Names(items) then Names(items) else Names(items) + [e.name]
    ensures Lookup(r, e.name) == Some(e.obj)
    ensures forall n :: n != e.name ==> Lookup(r, n) == Lookup(items, n)
    decreases |items|
  {
    if |items| == 0 then [e]
    else
      NamesTail(items);
      if items[0].name == e.name then
        NamesCons(e, items[1..]);
        [e] + items[1..]
      else
        var rest := Merge(items[1..], e);
        NamesCons(items[0], rest);
        [items[0]] + rest
  }

  /** `uniq`: the first occurrence of every element, in order. */
  function Uniq(ss: seq<string>): (r: seq<string>)
    ensures forall x :: x in r <==> x in ss
    ensures forall i, j :: 0 <= i < j < |r| ==> r[i] != r[j]
    decreases |ss|
  {
    if |ss| == 0 then []
    else
      var p := Uniq(ss[..|ss| - 1]);
      assert ss == ss[..|ss| - 1] + [ss[|ss| - 1]];
      if ss[|ss| - 1] in p then p else p + [ss[|ss| - 1]]
  }

  // ---------------------------------------------------------------------------
  // entries

  /** A row whose mode the mode table knows. */
  predicate ValidRowMode(row: TreeRow) {
    row.mode.Some? && ClassForMode(row.mode.value).Some?
  }

  /** The names of a tree's rows, in row order (see `Names`). */
  function RowNames(rows: seq<TreeRow>): (ns: seq<string>)
    ensures |ns| == |rows| && forall i :: 0 <= i < |rows| ==> ns[i] == rows[i].name
  {
    seq(|rows|, i requires 0 <= i < |rows| => rows[i].name)
  }

  /** The last row with the given name. */
  function LastNamed(rows: seq<TreeRow>, name: string): Option<TreeRow>
    decreases |rows|
  {
    if |rows| == 0 then None
    else if rows[|rows| - 1].name == name then Some(rows[|rows| - 1])
    else LastNamed(rows[..|rows| - 1], name)
  }

  /** The entries built from `rows`: one per name, in the order names first
      appear, each the instance cached under the hash of the last row with
      that name. */
  ghost predicate Reflects(items: seq<Entry>, rows: seq<TreeRow>, inst: Instances) {
    Names(items) == Uniq(RowNames(rows)) &&
    (forall n :: LastNamed(rows, n).Some? ==> LastNamed(rows, n).value.sha1 in inst) &&
    (forall n :: Lookup(items, n) == (if LastNamed(rows, n).Some? then Some(inst[LastNamed(rows, n).value.sha1]) else None))
  }

  lemma RowsPrefix(rows: seq<TreeRow>, i: nat)
    requires i < |rows|
    ensures rows[..i + 1][..i] == rows[..i] && rows[..i + 1][i] == rows[i] && |rows[..i + 1]| == i + 1
    ensures RowNames(rows[..i + 1])[..i] == RowNames(rows[..i])
  {
  }

  lemma ReflectsStep(items: seq<Entry>, rows: seq<TreeRow>, i: nat, inst: Instances, inst2: Instances, obj: GitObject)
    requires i < |rows| && Extends(inst, inst2)
    requires rows[i].sha1 in inst2 && inst2[rows[i].sha1] == obj
    ensures Reflects(items, rows[..i], inst) ==> Reflects(Merge(items, Entry(rows[i].name, obj)), rows[..i + 1], inst2)
  {
    if !Reflects(items, rows[..i], inst) { return; }
    var pre := rows[..i];
    var cur := rows[..i + 1];
    RowsPrefix(rows, i);
    forall n
      ensures LastNamed(cur, n) == if n == rows[i].name then Some(rows[i]) else LastNamed(pre, n)
    {
    }
    assert Uniq(RowNames(cur)) == if rows[i].name in Uniq(RowNames(pre)) then Uniq(RowNames(pre)) else Uniq(RowNames(pre)) + [rows[i].name];
  }

  /** The rows of a tree instance: other classes have no `entries`, and a
      payload of another shape leaves `entries_info` nil. */
  function RowsOf(t: GitObject): (r: Result<seq<TreeRow>>)
    ensures r.Success? <==> t.cls == Tree && t.parsed.EntriesInfo? && t.parsed.rows.Some?
  {
    if t.cls == Tree && t.parsed.EntriesInfo? && t.parsed.rows.Some? then Success(t.parsed.rows.value)
    else Failure(NoMethodError)
  }

  /** The entries from row `i` on, merged into `items`. */
  function EntriesFrom(h: Hooks, inst: Instances, t: GitObject, rows: seq<TreeRow>, i: nat, items: seq<Entry>): (r: (Result<seq<Entry>>, Instances))
    requires i <= |rows|
    ensures r.0.Success? ==> forall j :: i <= j < |rows| ==> ValidRowMode(rows[j])
    ensures Reflects(items, rows[..i], inst) && r.0.Success? ==> Reflects(r.0.value, rows, r.1)
    ensures Extends(inst, r.1)
    ensures Cached(h, inst) ==> Cached(h, r.1)
    decreases |rows| - i
  {
    if i == |rows| then
      assert rows[..i] == rows;
      (Success(items), inst)
    else
      var row := rows[i];
      if !ValidRowMode(row) then (Failure(InvalidModeError), inst)
      else
        var found := FindOrInitialize(h, inst, ClassForMode(row.mode.value).value, Some(row.sha1), Inherited(t, t.commitLevel));
        if found.0.Failure? then (Failure(found.0.error), found.1)
        else
          var merged := Merge(items, Entry(row.name, found.0.value));
          ReflectsStep(items, rows, i, inst, found.1, found.0.value);
          var rest := EntriesFrom(h, found.1, t, rows, i + 1, merged);
          assert Extends(inst, found.1) && Extends(found.1, rest.1);
          rest
  }

  /** `entries`: for every row, in order, the instance of the class its
      mode names, loaded with the tree's commit level and blob-data option
      and merged under the row's name; a row whose mode the table does not
      know raises InvalidModeError. */
  function Entries(h: Hooks, inst: Instances, t: GitObject): (r: (Result<seq<Entry>>, Instances))
    ensures RowsOf(t).Failure? ==> r == (Failure(NoMethodError), inst)
    ensures r.0.Success? ==> RowsOf(t).Success? && Reflects(r.0.value, RowsOf(t).value, r.1)
    ensures r.0.Success? ==> forall j :: 0 <= j < |RowsOf(t).value| ==> ValidRowMode(RowsOf(t).value[j])
    ensures Extends(inst, r.1)
    ensures Cached(h, inst) ==> Cached(h, r.1)
  {
    var rows := RowsOf(t);
    if rows.Failure? then (Failure(NoMethodError), inst)
    else
      assert Reflects([], rows.value[..0], inst);
      EntriesFrom(h, inst, t, rows.value, 0, [])
  }

  /** With every row's hash cached, the entries are built exactly when
      every mode is valid, and the failure is then InvalidModeError. */
  lemma {:induction false} EntriesFromOfCachedRows(h: Hooks, inst: Instances, t: GitObject, rows: seq<TreeRow>, i: nat, items: seq<Entry>)
    requires i <= |rows|
    requires forall j :: i <= j < |rows| ==> rows[j].sha1 in inst
    ensures var r := EntriesFrom(h, inst, t, rows, i, items);
            (r.0.Success? <==> forall j :: i <= j < |rows| ==> ValidRowMode(rows[j])) &&
            (r.0.Failure? ==> r.0.error == InvalidModeError) && r.1 == inst
    decreases |rows| - i
  {
    if i < |rows| && ValidRowMode(rows[i]) {
      EntriesFromOfCachedRows(h, inst, t, rows, i + 1, Merge(items, Entry(rows[i].name, inst[rows[i].sha1])));
    }
  }

  lemma EntriesOfCachedRows(h: Hooks, inst: Instances, t: GitObject)
    requires RowsOf(t).Success?
    requires forall j :: 0 <= j < |RowsOf(t).value| ==> RowsOf(t).value[j].sha1 in inst
    ensures var r := Entries(h, inst, t);
            (r.0.Success? <==> forall j :: 0 <= j < |RowsOf(t).value| ==> ValidRowMode(RowsOf(t).value[j])) &&
            (r.0.Failure? ==> r.0.error == InvalidModeError)
  {
    EntriesFromOfCachedRows(h, inst, t, RowsOf(t).value, 0, []);
  }

  lemma {:induction false} EntriesFromStable(h: Hooks, inst: Instances, t: GitObject, rows: seq<TreeRow>, i: nat, items: seq<Entry>, inst2: Instances)
    requires i <= |rows|
    requires EntriesFrom(h, inst, t, rows, i, items).0.Success?
    requires Extends(EntriesFrom(h, inst, t, rows, i, items).1, inst2)
    ensures EntriesFrom(h, inst2, t, rows, i, items) == (EntriesFrom(h, inst, t, rows, i, items).0, inst2)
    decreases |rows| - i
  {
    if i < |rows| {
      var row := rows[i];
      var found := FindOrInitialize(h, inst, ClassForMode(row.mode.value).value, Some(row.sha1), Inherited(t, t.commitLevel));
      EntriesFromStable(h, found.1, t, rows, i + 1, Merge(items, Entry(row.name, found.0.value)), inst2);
    }
  }

  /** Once computed, the entries come out the same under any later cache,
      loading nothing: remembering `entries` changes no result. */
  lemma EntriesStable(h: Hooks, inst: Instances, t: GitObject, inst2: Instances)
    requires Entries(h, inst, t).0.Success?
    requires Extends(Entries(h, inst, t).1, inst2)
    ensures Entries(h, inst2, t) == (Entries(h, inst, t).0, inst2)
  {
    EntriesFromStable(h, inst, t, RowsOf(t).value, 0, [], inst2);
  }

  // ---------------------------------------------------------------------------
  // validate

  /** `validate`: the type check, then the hash check, then
      `validate_data`. Every call is one Ruby stack frame deeper, and `fuel`
      is the number of frames left: running out is a SystemStackError. */
  function Validate(h: Hooks, inst: Instances, o: GitObject, fuel: nat): (r: (Result<bool>, Instances))
    ensures CheckHeader(o).Failure? ==> r == (Failure(CheckHeader(o).error), inst)
    ensures r.0.Success? ==> r.0.value && CheckHeader(o).Success? && fuel > 0
    ensures Extends(inst, r.1)
    decreases fuel, 0
  {
    var header := CheckHeader(o);
    if header.Failure? then (Failure(header.error), inst)
    else if fuel == 0 then (Failure(StackLevelTooDeep), inst)
    else ValidateData(h, inst, o, fuel - 1)
  }

  /** `validate_data` of the object's class: a tree validates every entry
      and answers true; a commit validates its tree; a blob answers true. */
  function ValidateData(h: Hooks, inst: Instances, o: GitObject, fuel: nat): (r: (Result<bool>, Instances))
    ensures r.0.Success? ==> r.0.value
    ensures Extends(inst, r.1)
    decreases fuel, 2
  {
    if o.cls == Tree then
      var es := Entries(h, inst, o);
      if es.0.Failure? then (Failure(es.0.error), es.1) else ValidateEach(h, es.1, es.0.value, 0, fuel)
    else if o.cls == Commit then
      var tree := TreeOf(h, inst, o);
      if tree.0.Failure? then (Failure(tree.0.error), tree.1) else Validate(h, tree.1, tree.0.value, fuel)
    else (Success(Blobs.ValidateData(o)), inst)
  }

  /** `entries.values.each &:validate`, then true. */
  function ValidateEach(h: Hooks, inst: Instances, es: seq<Entry>, i: nat, fuel: nat): (r: (Result<bool>, Instances))
    requires i <= |es|
    ensures r.0.Success? ==> r.0.value
    ensures Extends(inst, r.1)
    decreases fuel, 1, |es| - i
  {
    if i == |es| then (Success(true), inst)
    else
      var v := Validate(h, inst, es[i].obj, fuel);
      if v.0.Failure? then (Failure(v.0.error), v.1) else ValidateEach(h, v.1, es, i + 1, fuel)
  }

  lemma {:induction false} ValidateKeepsCache(h: Hooks, inst: Instances, o: GitObject, fuel: nat)
    requires Cached(h, inst)
    ensures Cached(h, Validate(h, inst, o, fuel).1)
    decreases fuel, 0
  {
    if CheckHeader(o).Success? && fuel > 0 {
      ValidateDataKeepsCache(h, inst, o, fuel - 1);
      assert Validate(h, inst, o, fuel) == ValidateData(h, inst, o, fuel - 1);
    } else {
      assert Validate(h, inst, o, fuel).1 == inst;
    }
  }

  lemma {:induction false} ValidateDataKeepsCache(h: Hooks, inst: Instances, o: GitObject, fuel: nat)
    requires Cached(h, inst)
    ensures Cached(h, ValidateData(h, inst, o, fuel).1)
    decreases fuel, 2
  {
    if o.cls == Tree {
      var es := Entries(h, inst, o);
      if es.0.Success? { ValidateEachKeepsCache(h, es.1, es.0.value, 0, fuel); }
    } else if o.cls == Commit {
      var tree := TreeOf(h, inst, o);
      if tree.0.Success? { ValidateKeepsCache(h, tree.1, tree.0.value, fuel); }
    }
  }

  lemma {:induction false} ValidateEachKeepsCache(h: Hooks, inst: Instances, es: seq<Entry>, i: nat, fuel: nat)
    requires i <= |es| && Cached(h, inst)
    ensures Cached(h, ValidateEach(h, inst, es, i, fuel).1)
    decreases fuel, 1, |es| - i
  {
    if i < |es| {
      var v := Validate(h, inst, es[i].obj, fuel);
      ValidateKeepsCache(h, inst, es[i].obj, fuel);
      if v.0.Success? { ValidateEachKeepsCache(h, v.1, es, i + 1, fuel); }
    }
  }

  lemma {:induction false} ValidateStable(h: Hooks, inst: Instances, o: GitObject, fuel: nat, inst2: Instances)
    requires Validate(h, inst, o, fuel).0.Success?
    requires Extends(Validate(h, inst, o, fuel).1, inst2)
    ensures Validate(h, inst2, o, fuel) == (Success(true), inst2)
    decreases fuel, 0
  {
    assert CheckHeader(o).Success? && fuel > 0;
    assert Validate(h, inst, o, fuel) == ValidateData(h, inst, o, fuel - 1);
    ValidateDataStable(h, inst, o, fuel - 1, inst2);
    assert Validate(h, inst2, o, fuel) == ValidateData(h, inst2, o, fuel - 1);
  }

  lemma {:induction false} ValidateDataStable(h: Hooks, inst: Instances, o: GitObject, fuel: nat, inst2: Instances)
    requires ValidateData(h, inst, o, fuel).0.Success?
    requires Extends(ValidateData(h, inst, o, fuel).1, inst2)
    ensures ValidateData(h, inst2, o, fuel) == (Success(true), inst2)
    decreases fuel, 2
  {
    if o.cls == Tree {
      var es := Entries(h, inst, o);
      ValidateEachStable(h, es.1, es.0.value, 0, fuel, inst2);
      EntriesStable(h, inst, o, inst2);
    } else if o.cls == Commit {
      var tree := TreeOf(h, inst, o);
      ValidateStable(h, tree.1, tree.0.value, fuel, inst2);
    }
  }

  lemma {:induction false} ValidateEachStable(h: Hooks, inst: Instances, es: seq<Entry>, i: nat, fuel: nat, inst2: Instances)
    requires i <= |es|
    requires ValidateEach(h, inst, es, i, fuel).0.Success?
    requires Extends(ValidateEach(h, inst, es, i, fuel).1, inst2)
    ensures ValidateEach(h, inst2, es, i, fuel) == (Success(true), inst2)
    decreases fuel, 1, |es| - i
  {
    if i < |es| {
      var v := Validate(h, inst, es[i].obj, fuel);
      ValidateEachStable(h, v.1, es, i + 1, fuel, inst2);
      ValidateStable(h, inst, es[i].obj, fuel, inst2);
    }
  }

  lemma {:induction false} ValidateEachAll(h: Hooks, inst: Instances, es: seq<Entry>, i: nat, fuel: nat)
    requires i <= |es|
    requires ValidateEach(h, inst, es, i, fuel).0.Success?
    ensures var after := ValidateEach(h, inst, es, i, fuel).1;
            forall j :: i <= j < |es| ==> Validate(h, after, es[j].obj, fuel) == (Success(true), after)
    decreases |es| - i
  {
    if i < |es| {
      var v := Validate(h, inst, es[i].obj, fuel);
      var after := ValidateEach(h, v.1, es, i + 1, fuel).1;
      assert ValidateEach(h, inst, es, i, fuel).1 == after;
      ValidateEachAll(h, v.1, es, i + 1, fuel);
      forall j | i <= j < |es|
        ensures Validate(h, after, es[j].obj, fuel) == (Success(true), after)
      {
        if j == i { ValidateStable(h, inst, es[i].obj, fuel, after); }
      }
    }
  }

  /** A valid tree has valid entries: each passes `validate`, one frame
      deeper, under the cache the tree's validation leaves. */
  lemma ValidTreeHasValidEntries(h: Hooks, inst: Instances, t: GitObject, fuel: nat)
    requires t.cls == Tree && Validate(h, inst, t, fuel).0.Success?
    ensures Entries(h, inst, t).0.Success?
    ensures var after := Validate(h, inst, t, fuel).1;
            var es := Entries(h, inst, t).0.value;
            forall j :: 0 <= j < |es| ==> Validate(h, after, es[j].obj, fuel - 1) == (Success(true), after)
  {
    var es := Entries(h, inst, t);
    assert Validate(h, inst, t, fuel) == ValidateData(h, inst, t, fuel - 1);
    assert ValidateData(h, inst, t, fuel - 1) == ValidateEach(h, es.1, es.0.value, 0, fuel - 1);
    ValidateEachAll(h, es.1, es.0.value, 0, fuel - 1);
  }

  /** A valid commit has a valid tree. */
  lemma ValidCommitHasValidTree(h: Hooks, inst: Instances, c: GitObject, fuel: nat)
    requires c.cls == Commit && Validate(h, inst, c, fuel).0.Success?
    ensures TreeOf(h, inst, c).0.Success?
    ensures var after := Validate(h, inst, c, fuel).1;
            Validate(h, after, TreeOf(h, inst, c).0.value, fuel - 1) == (Success(true), after)
  {
    var tree := TreeOf(h, inst, c);
    ValidateStable(h, tree.1, tree.0.value, fuel - 1, Validate(h, inst, c, fuel).1);
  }

  /** Validating again gives the first answer and loads nothing, so
      remembering `validate` per instance changes no result. */
  lemma RevalidateIsSame(h: Hooks, inst: Instances, o: GitObject, fuel: nat)
    requires Validate(h, inst, o, fuel).0.Success?
    ensures var first := Validate(h, inst, o, fuel);
            Validate(h, first.1, o, fuel) == first
  {
    ValidateStable(h, inst, o, fuel, Validate(h, inst, o, fuel).1);
  }

  // ---------------------------------------------------------------------------
  // changes_between

  datatype Action = Created | Updated | Deleted | Renamed

  /** One side of a change's hashes: a single abbreviated hash, or a list
      of them (empty for the old side of a creation). */
  datatype HashPart = One(sha1: string) | Many(sha1s: seq<string>)

  /** `[path, action, [old, new]]`. */
  datatype Change = Change(path: string, action: Action, before: HashPart, after: HashPart)

  /** The classes `changes_between` compares; symbolic links and
      submodules are skipped. */
  predicate Compared(cls: ObjectClass) {
    cls == Tree || cls == Blob || cls == ExecutableFile || cls == GroupWritableFile
  }

  /** A row `changes_between` reports: a creation, with no old hash, or an
      update, with the old hashes listed; the new side is one hash
      abbreviated to at most seven characters. */
  predicate Diffed(c: Change) {
    ((c.action == Created && c.before == Many([])) || (c.action == Updated && c.before.Many?)) &&
    c.after.One? && |c.after.sha1| <= 7
  }

  /** A path below the base path, when there is one. */
  predicate Under(base: Option<string>, path: string) {
    base.None? || (|base.value| < |path| && path[..|base.value| + 1] == base.value + "/")
  }

  /** Every row is a creation or an update below the base path. */
  predicate DiffRows(cs: seq<Change>, base: Option<string>) {
    forall c :: c in cs ==> Diffed(c) && Under(base, c.path)
  }

  lemma DiffRowsAppend(a: seq<Change>, b: seq<Change>, base: Option<string>)
    requires DiffRows(a, base) && DiffRows(b, base)
    ensures DiffRows(a + b, base)
  {
  }

  /** A path below a sub-tree's path is below the base path too. */
  lemma DiffRowsNested(cs: seq<Change>, base: Option<string>, name: string)
    requires DiffRows(cs, Some(PathOf(base, name)))
    ensures DiffRows(cs, base)
  {
    if base.Some? {
      var sub := base.value + "/" + name;
      forall c | c in cs
        ensures Under(base, c.path)
      {
        assert c.path[..|sub| + 1] == sub + "/";
        assert c.path[..|base.value| + 1] == (sub + "/")[..|base.value| + 1];
      }
    }
  }

  /** `base_path ? File.join(base_path, name) : name`. */
  function PathOf(base: Option<string>, name: string): string {
    if base.Some? then base.value + "/" + name else name
  }

  /** The hashes of some objects, in order. */
  function Sha1s(os: seq<GitObject>): (r: seq<string>)
    ensures |r| == |os| && forall i :: 0 <= i < |os| ==> r[i] == os[i].sha1
  {
    seq(|os|, i requires 0 <= i < |os| => os[i].sha1)
  }

  /** `map { |e| e.sha1[0..6] }`. */
  function Abbreviated(os: seq<GitObject>): (r: seq<string>)
    ensures |r| == |os| && forall i :: 0 <= i < |os| ==> r[i] == First7(os[i].sha1)
  {
    seq(|os|, i requires 0 <= i < |os| => First7(os[i].sha1))
  }

  /** `find_all { |e| Tree === e }`. */
  function OnlyTrees(os: seq<GitObject>): (r: seq<GitObject>)
    ensures forall o :: o in r <==> o in os && o.cls == Tree
    decreases |os|
  {
    if |os| == 0 then []
    else (if os[0].cls == Tree then [os[0]] else []) + OnlyTrees(os[1..])
  }

  /** `other_trees.map { |tree| tree.entries[name] }.compact`, from the
      `i`-th tree on. */
  function OtherEntries(h: Hooks, inst: Instances, others: seq<GitObject>, name: string, i: nat): (r: (Result<seq<GitObject>>, Instances))
    requires i <= |others|
    ensures Extends(inst, r.1)
    ensures i == |others| ==> r == (Success([]), inst)
    decreases |others| - i
  {
    if i == |others| then (Success([]), inst)
    else
      var es := Entries(h, inst, others[i]);
      if es.0.Failure? then (Failure(es.0.error), es.1)
      else
        var rest := OtherEntries(h, es.1, others, name, i + 1);
        if rest.0.Failure? then (Failure(rest.0.error), rest.1)
        else
          var found := Lookup(es.0.value, name);
          (Success((if found.Some? then [found.value] else []) + rest.0.value), rest.1)
  }

  /** `changes_between(other_trees, base_path)`: for every compared entry
      of the tree, in entry order, the changes against the same-named
      entries of the other trees. */
  function ChangesBetween(h: Hooks, inst: Instances, t: GitObject, others: seq<GitObject>, base: Option<string>, fuel: nat): (r: (Result<seq<Change>>, Instances))
    ensures Extends(inst, r.1)
    ensures r.0.Success? ==> DiffRows(r.0.value, base)
    decreases fuel, 2
  {
    var es := Entries(h, inst, t);
    if es.0.Failure? then (Failure(es.0.error), es.1)
    else ChangesOf(h, es.1, es.0.value, 0, others, base, fuel)
  }

  /** The changes of the entries from the `i`-th on, in order. */
  function ChangesOf(h: Hooks, inst: Instances, es: seq<Entry>, i: nat, others: seq<GitObject>, base: Option<string>, fuel: nat): (r: (Result<seq<Change>>, Instances))
    requires i <= |es|
    ensures Extends(inst, r.1)
    ensures r.0.Success? ==> DiffRows(r.0.value, base)
    decreases fuel, 1, |es| - i
  {
    if i == |es| then (Success([]), inst)
    else
      var first := EntryChanges(h, inst, es[i], others, base, fuel);
      if first.0.Failure? then (Failure(first.0.error), first.1)
      else
        var rest := ChangesOf(h, first.1, es, i + 1, others, base, fuel);
        if rest.0.Failure? then (Failure(rest.0.error), rest.1)
        else
          DiffRowsAppend(first.0.value, rest.0.value, base);
          (Success(first.0.value + rest.0.value), rest.1)
  }

  /** The changes one entry contributes. A skipped class contributes none.
      Without same-named entries elsewhere the entry is created; when none
      of them has its hash it is updated, listing their abbreviated hashes
      once each; otherwise it is unchanged and not descended into. A
      created or updated tree is not reported itself: its own entries are
      compared with the same-named entries that are trees. Descending is
      one stack frame deeper. */
  function EntryChanges(h: Hooks, inst: Instances, e: Entry, others: seq<GitObject>, base: Option<string>, fuel: nat): (r: (Result<seq<Change>>, Instances))
    ensures !Compared(e.obj.cls) ==> r == (Success([]), inst)
    ensures Compared(e.obj.cls) ==>
      var oe := OtherEntries(h, inst, others, e.name, 0);
      (oe.0.Failure? ==> r == (Failure(oe.0.error), oe.1)) &&
      (oe.0.Success? && e.obj.sha1 in Sha1s(oe.0.value) ==> r == (Success([]), oe.1)) &&
      (oe.0.Success? && e.obj.sha1 !in Sha1s(oe.0.value) && e.obj.cls != Tree ==>
         r == (Success([if oe.0.value == [] then Change(PathOf(base, e.name), Created, Many([]), One(First7(e.obj.sha1)))
                        else Change(PathOf(base, e.name), Updated, Many(Uniq(Abbreviated(oe.0.value))), One(First7(e.obj.sha1)))]), oe.1)) &&
      (oe.0.Success? && e.obj.sha1 !in Sha1s(oe.0.value) && e.obj.cls == Tree && fuel > 0 ==>
         r == ChangesBetween(h, oe.1, e.obj, OnlyTrees(oe.0.value), Some(PathOf(base, e.name)), fuel - 1))
    ensures Extends(inst, r.1)
    ensures r.0.Success? ==> DiffRows(r.0.value, base)
    decreases fuel, 0
  {
    if !Compared(e.obj.cls) then (Success([]), inst)
    else
      var oe := OtherEntries(h, inst, others, e.name, 0);
      if oe.0.Failure? then (Failure(oe.0.error), oe.1)
      else
        var path := PathOf(base, e.name);
        var olds := oe.0.value;
        if e.obj.sha1 in Sha1s(olds) then (Success([]), oe.1)
        else if e.obj.cls == Tree then
          if fuel == 0 then (Failure(StackLevelTooDeep), oe.1)
          else
            var sub := ChangesBetween(h, oe.1, e.obj, OnlyTrees(olds), Some(path), fuel - 1);
            if sub.0.Success? then DiffRowsNested(sub.0.value, base, e.name); sub else sub
        else if olds == [] then (Success([Change(path, Created, Many([]), One(First7(e.obj.sha1)))]), oe.1)
        else (Success([Change(path, Updated, Many(Uniq(Abbreviated(olds))), One(First7(e.obj.sha1)))]), oe.1)
  }

  /** Reference for a tree compared with nothing: every compared leaf
      under it, descending through sub-trees, as created, with its path. */
  function Leaves(h: Hooks, inst: Instances, t: GitObject, base: Option<string>, fuel: nat): (r: (Result<seq<Change>>, Instances))
    ensures r.0.Success? ==> forall c :: c in r.0.value ==> c.action == Created && c.before == Many([]) && c.after.One? && |c.after.sha1| <= 7
    decreases fuel, 2
  {
    var es := Entries(h, inst, t);
    if es.0.Failure? then (Failure(es.0.error), es.1)
    else LeavesOf(h, es.1, es.0.value, 0, base, fuel)
  }

  function LeavesOf(h: Hooks, inst: Instances, es: seq<Entry>, i: nat, base: Option<string>, fuel: nat): (r: (Result<seq<Change>>, Instances))
    requires i <= |es|
    ensures r.0.Success? ==> forall c :: c in r.0.value ==> c.action == Created && c.before == Many([]) && c.after.One? && |c.after.sha1| <= 7
    decreases fuel, 1, |es| - i
  {
    if i == |es| then (Success([]), inst)
    else
      var first := LeafOf(h, inst, es[i], base, fuel);
      if first.0.Failure? then first
      else
        var rest := LeavesOf(h, first.1, es, i + 1, base, fuel);
        if rest.0.Failure? then rest else (Success(first.0.value + rest.0.value), rest.1)
  }

  /** The leaves one entry contributes: none for a skipped class, the entry
      itself for a blob, and the leaves below it for a tree. */
  function LeafOf(h: Hooks, inst: Instances, e: Entry, base: Option<string>, fuel: nat): (r: (Result<seq<Change>>, Instances))
    ensures r.0.Success? ==> forall c :: c in r.0.value ==> c.action == Created && c.before == Many([]) && c.after.One? && |c.after.sha1| <= 7
    decreases fuel, 0
  {
    if !Compared(e.obj.cls) then (Success([]), inst)
    else if e.obj.cls != Tree then (Success([Change(PathOf(base, e.name), Created, Many([]), One(First7(e.obj.sha1)))]), inst)
    else if fuel == 0 then (Failure(StackLevelTooDeep), inst)
    else Leaves(h, inst, e.obj, Some(PathOf(base, e.name)), fuel - 1)
  }

  lemma {:induction false} ChangesAgainstNothing(h: Hooks, inst: Instances, t: GitObject, base: Option<string>, fuel: nat)
    ensures ChangesBetween(h, inst, t, [], base, fuel) == Leaves(h, inst, t, base, fuel)
    decreases fuel, 2
  {
    var es := Entries(h, inst, t);
    if es.0.Success? { ChangesOfNothing(h, es.1, es.0.value, 0, base, fuel); }
  }

  lemma {:induction false} ChangesOfNothing(h: Hooks, inst: Instances, es: seq<Entry>, i: nat, base: Option<string>, fuel: nat)
    requires i <= |es|
    ensures ChangesOf(h, inst, es, i, [], base, fuel) == LeavesOf(h, inst, es, i, base, fuel)
    decreases fuel, 1, |es| - i
  {
    if i < |es| {
      EntryAgainstNothing(h, inst, es[i], base, fuel);
      var first := EntryChanges(h, inst, es[i], [], base, fuel);
      if first.0.Success? { ChangesOfNothing(h, first.1, es, i + 1, base, fuel); }
    }
  }

  lemma {:induction false} EntryAgainstNothing(h: Hooks, inst: Instances, e: Entry, base: Option<string>, fuel: nat)
    ensures EntryChanges(h, inst, e, [], base, fuel) == LeafOf(h, inst, e, base, fuel)
    decreases fuel, 0
  {
    assert OtherEntries(h, inst, [], e.name, 0) == (Success([]), inst);
    assert Sha1s([]) == [];
    assert OnlyTrees([]) == [];
    if Compared(e.obj.cls) && e.obj.cls == Tree && fuel > 0 {
      ChangesAgainstNothing(h, inst, e.obj, Some(PathOf(base, e.name)), fuel - 1);
    }
  }

  /** Names that are pairwise distinct, as those of `entries` are. */
  predicate DistinctNames(items: seq<Entry>) {
    forall a, b :: 0 <= a < b < |items| ==> items[a].name != items[b].name
  }

  /** With distinct names, looking up an item's name finds that item. */
  lemma {:induction false} LookupAt(items: seq<Entry>, i: nat)
    requires i < |items| && DistinctNames(items)
    ensures Lookup(items, items[i].name) == Some(items[i].obj)
    decreases |items|
  {
    if i > 0 {
      assert items[0].name != items[i].name;
      NamesTail(items);
      assert items[1..][i - 1] == items[i];
      LookupAt(items[1..], i - 1);
    }
  }

  /** The names of a tree's entries are distinct. */
  lemma EntriesDistinct(h: Hooks, inst: Instances, t: GitObject)
    requires Entries(h, inst, t).0.Success?
    ensures DistinctNames(Entries(h, inst, t).0.value)
  {
    var items := Entries(h, inst, t).0.value;
    assert Names(items) == Uniq(RowNames(RowsOf(t).value));
    forall a, b | 0 <= a < b < |items|
      ensures items[a].name != items[b].name
    {
      assert Names(items)[a] == items[a].name && Names(items)[b] == items[b].name;
    }
  }

  /** A tree compared with itself shows no change: every entry finds its
      own hash among the same-named entries. */
  lemma ChangesAgainstItself(h: Hooks, inst: Instances, t: GitObject, base: Option<string>, fuel: nat)
    requires Entries(h, inst, t).0.Success?
    ensures ChangesBetween(h, inst, t, [t], base, fuel) == (Success([]), Entries(h, inst, t).1)
  {
    var es := Entries(h, inst, t);
    EntriesDistinct(h, inst, t);
    EntriesStable(h, inst, t, es.1);
    ChangesOfItself(h, t, es.0.value, es.1, 0, base, fuel);
  }

  lemma {:induction false} ChangesOfItself(h: Hooks, t: GitObject, es: seq<Entry>, inst: Instances, i: nat, base: Option<string>, fuel: nat)
    requires Entries(h, inst, t) == (Success(es), inst)
    requires DistinctNames(es) && i <= |es|
    ensures ChangesOf(h, inst, es, i, [t], base, fuel) == (Success([]), inst)
    decreases |es| - i
  {
    if i < |es| {
      EntryAgainstItself(h, t, es, inst, i, base, fuel);
      ChangesOfItself(h, t, es, inst, i + 1, base, fuel);
      NoChangesStep(h, inst, es, i, [t], base, fuel);
    }
  }

  /** An entry without changes followed by entries without changes. */
  lemma NoChangesStep(h: Hooks, inst: Instances, es: seq<Entry>, i: nat, others: seq<GitObject>, base: Option<string>, fuel: nat)
    requires i < |es|
    requires EntryChanges(h, inst, es[i], others, base, fuel) == (Success([]), inst)
    requires ChangesOf(h, inst, es, i + 1, others, base, fuel) == (Success([]), inst)
    ensures ChangesOf(h, inst, es, i, others, base, fuel) == (Success([]), inst)
  {
    var none: seq<Change> := [];
    assert none + none == none;
  }

  lemma EntryAgainstItself(h: Hooks, t: GitObject, es: seq<Entry>, inst: Instances, i: nat, base: Option<string>, fuel: nat)
    requires Entries(h, inst, t) == (Success(es), inst)
    requires DistinctNames(es) && i < |es|
    ensures EntryChanges(h, inst, es[i], [t], base, fuel) == (Success([]), inst)
  {
    var e := es[i];
    assert OtherEntries(h, inst, [t], e.name, 1) == (Success([]), inst);
    assert [t][0] == t;
    assert [e.obj] + [] == [e.obj];
    LookupAt(es, i);
    assert OtherEntries(h, inst, [t], e.name, 0) == (Success([e.obj]), inst);
    assert Sha1s([e.obj]) == [e.obj.sha1];
  }

  // ---------------------------------------------------------------------------
  // clone_into

  /** The target only grows: same digest, same cloned-object answers, same
      branches and head, and every object it held is still there unchanged. */
  ghost predicate Grows(t: Target, t2: Target) {
    t2.digest == t.digest && t2.found == t.found &&
    t2.repo.branches == t.repo.branches && t2.repo.head == t.repo.head &&
    (forall k :: k in t.repo.objects ==> k in t2.repo.objects && t2.repo.objects[k] == t.repo.objects[k])
  }

  /** A hash a clone may answer: one the target stores, or one it reports
      as cloned already. */
  predicate Available(t: Target, sha1: string) {
    sha1 in t.repo.objects || sha1 in t.found.Values
  }

  /** What the tree entries of a clone record for one entry: the entry's
      class as a type symbol (`class.name.underscore.to_sym`, which
      `Modes.UnderscoreOfClassName` shows is `TypeSymbol`), its name, and the
      hash its clone answered. */
  function SpecOf(e: Entry, cloned: string): (r: EntrySpec)
    ensures r.objectType == TypeSymbol(e.obj.cls) && r.name == e.name && r.sha1 == cloned
  {
    EntrySpec(TypeSymbol(e.obj.cls), e.name, cloned)
  }

  /** `clone_into(target_repository)` of a tree entry's object. Blobs and
      their subclasses clone as blobs; a sub-tree clones one stack frame
      deeper. */
  function CloneObject(h: Hooks, inst: Instances, o: GitObject, t: Target, fuel: nat): (r: (Result<string>, Instances, Target))
    ensures Extends(inst, r.1) && Grows(t, r.2)
    ensures Cached(h, inst) ==> Cached(h, r.1)
    ensures MemoryRepository.ContentAddressed(t.repo, t.digest) ==> MemoryRepository.ContentAddressed(r.2.repo, r.2.digest)
    ensures r.0.Success? ==> Available(r.2, r.0.value)
    ensures r.0.Success? && t.found == map[] ==> r.0.value in r.2.repo.objects
    decreases fuel, 0
  {
    if o.cls == Commit then (Failure(NotImplementedError), inst, t)
    else if o.cls == Tree then
      if fuel == 0 then (Failure(StackLevelTooDeep), inst, t)
      else CloneTree(h, inst, o, t, fuel - 1)
    else
      var cloned := Blobs.CloneBlob(o, t);
      (cloned.0, inst, cloned.1)
  }

  /** `clone_into(target_repository)`: every entry cloned in entry order,
      then a tree of the clones created in the target, its own hash passed
      as the source. */
  function CloneTree(h: Hooks, inst: Instances, tr: GitObject, t: Target, fuel: nat): (r: (Result<string>, Instances, Target))
    ensures Extends(inst, r.1) && Grows(t, r.2)
    ensures Cached(h, inst) ==> Cached(h, r.1)
    ensures MemoryRepository.ContentAddressed(t.repo, t.digest) ==> MemoryRepository.ContentAddressed(r.2.repo, r.2.digest)
    ensures r.0.Success? ==> r.0.value in r.2.repo.objects
    decreases fuel, 2
  {
    var es := Entries(h, inst, tr);
    if es.0.Failure? then (Failure(es.0.error), es.1, t)
    else
      var specs := CloneEntries(h, es.1, es.0.value, 0, t, fuel);
      if specs.0.Failure? then (Failure(specs.0.error), specs.1, specs.2)
      else
        var created := CreateTree(specs.2, specs.0.value, tr.sha1);
        (Success(created.0), specs.1, created.1)
  }

  /** Growth composes. */
  lemma GrowsTrans(t: Target, t2: Target, t3: Target)
    requires Grows(t, t2) && Grows(t2, t3)
    ensures Grows(t, t3)
  {
  }

  /** `specs` records the entries from the `i`-th on: one record per entry,
      in order, with its type symbol and name and a hash the target can
      answer (one it stores, when it reports nothing as cloned). */
  ghost predicate Records(specs: seq<EntrySpec>, es: seq<Entry>, i: nat, t: Target) {
    i <= |es| && |specs| == |es| - i &&
    forall k :: 0 <= k < |specs| ==>
      specs[k].objectType == TypeSymbol(es[i + k].obj.cls) && specs[k].name == es[i + k].name &&
      Available(t, specs[k].sha1) && (t.found == map[] ==> specs[k].sha1 in t.repo.objects)
  }

  lemma RecordsCons(spec: EntrySpec, specs: seq<EntrySpec>, es: seq<Entry>, i: nat, t1: Target, t: Target)
    requires i < |es| && Records(specs, es, i + 1, t) && Grows(t1, t)
    requires spec.objectType == TypeSymbol(es[i].obj.cls) && spec.name == es[i].name && Available(t1, spec.sha1)
    requires t1.found == map[] ==> spec.sha1 in t1.repo.objects
    ensures Records([spec] + specs, es, i, t)
  {
    var all := [spec] + specs;
    forall k | 0 <= k < |all|
      ensures all[k].objectType == TypeSymbol(es[i + k].obj.cls) && all[k].name == es[i + k].name &&
              Available(t, all[k].sha1) && (t.found == map[] ==> all[k].sha1 in t.repo.objects)
    {
      if k > 0 {
        assert all[k] == specs[k - 1];
        assert i + k == (i + 1) + (k - 1);
      }
    }
  }

  /** The clones of the entries from the `i`-th on, one tree-entry record
      per entry, in order. */
  function CloneEntries(h: Hooks, inst: Instances, es: seq<Entry>, i: nat, t: Target, fuel: nat): (r: (Result<seq<EntrySpec>>, Instances, Target))
    requires i <= |es|
    ensures Extends(inst, r.1) && Grows(t, r.2)
    ensures Cached(h, inst) ==> Cached(h, r.1)
    ensures MemoryRepository.ContentAddressed(t.repo, t.digest) ==> MemoryRepository.ContentAddressed(r.2.repo, r.2.digest)
    ensures r.0.Success? ==> Records(r.0.value, es, i, r.2)
    decreases fuel, 1, |es| - i
  {
    if i == |es| then (Success([]), inst, t)
    else
      var first := CloneObject(h, inst, es[i].obj, t, fuel);
      if first.0.Failure? then (Failure(first.0.error), first.1, first.2)
      else
        var rest := CloneEntries(h, first.1, es, i + 1, first.2, fuel);
        GrowsTrans(t, first.2, rest.2);
        if rest.0.Failure? then (Failure(rest.0.error), rest.1, rest.2)
        else
          RecordsCons(SpecOf(es[i], first.0.value), rest.0.value, es, i, first.2, rest.2);
          (Success([SpecOf(es[i], first.0.value)] + rest.0.value), rest.1, rest.2)
  }

  /** No two stored arrays share a digest, as SHA1 is taken to promise. */
  ghost predicate CollisionFree(digest: MemoryRepository.RawContent -> string) {
    forall a, b :: digest(a) == digest(b) ==> a == b
  }

  /** A tree created from records of some entries loads back as a tree with
      one row per entry, carrying its name, the mode of its class and a
      stored hash. */
  lemma CreatedTreeOfRecords(specs: seq<EntrySpec>, es: seq<Entry>, t: Target, sourceSha1: string)
    requires Records(specs, es, 0, t) && t.found == map[]
    requires MemoryRepository.ContentAddressed(t.repo, t.digest) && CollisionFree(t.digest)
    ensures var created := CreateTree(t, specs, sourceSha1);
            var loaded := MemoryRepository.LoadObject(created.1.repo, created.1.digest, created.0);
            loaded.Success? && loaded.value.contentSha1 == created.0 &&
            loaded.value.objectType == Some("tree") && loaded.value.data.Rows? &&
            var rows := loaded.value.data.rows;
            |rows| == |es| &&
            forall k :: 0 <= k < |rows| ==>
              rows[k].name == es[k].name && rows[k].mode == ModeOf(es[k].obj.cls) &&
              rows[k].sha1 in created.1.repo.objects
  {
    var created := CreateTree(t, specs, sourceSha1);
    var raw := MemoryRepository.Raw("tree", Rows(MemoryRepository.FormatTreeData(specs)));
    assert created.0 == t.digest(raw);
    assert created.1.repo.objects[created.0] == raw by {
      if created.0 in t.repo.objects {
        assert t.digest(t.repo.objects[created.0]) == t.digest(raw);
      }
    }
    var rows := MemoryRepository.FormatTreeData(specs);
    forall k | 0 <= k < |rows|
      ensures rows[k].name == es[k].name && rows[k].mode == ModeOf(es[k].obj.cls) &&
              rows[k].sha1 in created.1.repo.objects
    {
      assert specs[k].objectType == TypeSymbol(es[0 + k].obj.cls);
      UnderscoreOfClassName(es[k].obj.cls);
      ModeForTypeOfClass(es[k].obj.cls);
    }
  }

  /** A tree cloned into a target that reports nothing as cloned loads back
      from the target as a tree whose rows carry the source entries' names
      in order, each with the mode the table gives the entry's class and a
      hash the target stores. */
  lemma ClonedTreeLoadsBack(h: Hooks, inst: Instances, tr: GitObject, t: Target, fuel: nat)
    requires t.found == map[] && MemoryRepository.ContentAddressed(t.repo, t.digest) && CollisionFree(t.digest)
    requires CloneTree(h, inst, tr, t, fuel).0.Success?
    ensures var c := CloneTree(h, inst, tr, t, fuel);
            var es := Entries(h, inst, tr).0;
            var loaded := MemoryRepository.LoadObject(c.2.repo, c.2.digest, c.0.value);
            es.Success? && loaded.Success? && loaded.value.contentSha1 == c.0.value &&
            loaded.value.objectType == Some("tree") && loaded.value.data.Rows? &&
            var rows := loaded.value.data.rows;
            |rows| == |es.value| &&
            forall k :: 0 <= k < |rows| ==>
              rows[k].name == es.value[k].name && rows[k].mode == ModeOf(es.value[k].obj.cls) &&
              rows[k].sha1 in c.2.repo.objects
  {
    var c := CloneTree(h, inst, tr, t, fuel);
    var es := Entries(h, inst, tr);
    if es.0.Success? {
      var specs := CloneEntries(h, es.1, es.0.value, 0, t, fuel);
      if specs.0.Success? {
        var created := CreateTree(specs.2, specs.0.value, tr.sha1);
        assert c == (Success(created.0), specs.1, created.1);
        CreatedTreeOfRecords(specs.0.value, es.0.value, specs.2, tr.sha1);
      }
    }
  }
}
