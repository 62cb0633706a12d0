/** models/commit.rb, `changes_introduced_by`: what a commit changes with
    respect to its parents: the creations and updates of its tree against
    its parents' trees, the deletions every parent agrees on, and renames
    found by matching a deleted hash with a created one. */
module CommitChanges {

  import opened Results
  import opened Backends
  import opened GitObjects
  import opened Trees

  // ---------------------------------------------------------------------------
  // Ruby array operations on change rows

  /** `a & b`: the elements of `a` that `b` also holds, each once, in the
      order of their first occurrence in `a`. */
  function ArrayAnd(a: seq<Change>, b: seq<Change>): (r: seq<Change>)
    ensures forall x :: x in r <==> x in a && x in b
    ensures forall i, j :: 0 <= i < j < |r| ==> r[i] != r[j]
    decreases |a|
  {
    if |a| == 0 then []
    else
      var n := |a| - 1;
      var p := ArrayAnd(a[..n], b);
      assert a == a[..n] + [a[n]];
      if a[n] in b && a[n] !in p then p + [a[n]] else p
  }

  /** `inject(:&)` from `acc`, over the lists from the `i`-th on. */
  function AndFrom(acc: seq<Change>, ls: seq<seq<Change>>, i: nat): (r: seq<Change>)
    requires i <= |ls|
    ensures i == |ls| ==> r == acc
    ensures forall x :: x in r <==> x in acc && forall j :: i <= j < |ls| ==> x in ls[j]
    ensures i < |ls| ==> forall a, b :: 0 <= a < b < |r| ==> r[a] != r[b]
    decreases |ls| - i
  {
    if i == |ls| then acc else AndFrom(ArrayAnd(acc, ls[i]), ls, i + 1)
  }

  /** `inject(:&) || []`: nothing for no lists, the only list as it is,
      and otherwise the rows every list holds, each once. */
  function InjectAnd(ls: seq<seq<Change>>): (r: seq<Change>)
    ensures |ls| == 0 ==> r == []
    ensures |ls| == 1 ==> r == ls[0]
    ensures |ls| > 0 ==> forall x :: x in r <==> forall j :: 0 <= j < |ls| ==> x in ls[j]
    ensures |ls| > 1 ==> forall a, b :: 0 <= a < b < |r| ==> r[a] != r[b]
  {
    if |ls| == 0 then [] else AndFrom(ls[0], ls, 1)
  }

  /** `changes.delete(x)`: every row equal to `x` goes, the others stay in
      order. */
  function Delete(xs: seq<Change>, x: Change): (r: seq<Change>)
    ensures forall y :: y in r <==> y in xs && y != x
    ensures multiset(r) == multiset(xs)[x := 0]
    decreases |xs|
  {
    if |xs| == 0 then []
    else
      assert xs == [xs[0]] + xs[1..];
      (if xs[0] == x then [] else [xs[0]]) + Delete(xs[1..], x)
  }

  // ---------------------------------------------------------------------------
  // Deletions

  /** `[name, :deleted, sha1s.reverse]` for a created row
      `[name, :created, [[], sha1]]`. */
  function Deletion(c: Change): Change {
    Change(c.path, Deleted, c.after, c.before)
  }

  /** `find_all { |(_, action, _)| action == :created }` turned into
      deletions, in order. */
  function AsDeletions(cs: seq<Change>): (r: seq<Change>)
    ensures forall c :: c in cs && c.action == Created ==> Deletion(c) in r
    ensures forall d :: d in r ==> exists c :: c in cs && c.action == Created && d == Deletion(c)
    decreases |cs|
  {
    if |cs| == 0 then []
    else
      assert cs == [cs[0]] + cs[1..];
      (if cs[0].action == Created then [Deletion(cs[0])] else []) + AsDeletions(cs[1..])
  }

  /** `find_all { |(_, action, _)| action == :deleted }`. */
  function Deleteds(cs: seq<Change>): (r: seq<Change>)
    ensures forall d :: d in r <==> d in cs && d.action == Deleted
    decreases |cs|
  {
    if |cs| == 0 then []
    else
      assert cs == [cs[0]] + cs[1..];
      (if cs[0].action == Deleted then [cs[0]] else []) + Deleteds(cs[1..])
  }

  // ---------------------------------------------------------------------------
  // Renames

  /** `changes.find { |(_, action, (_, created_sha1))| action == :created &&
      created_sha1 == sha1 }`: the first created row with that new hash. */
  function FindCreated(changes: seq<Change>, sha1: HashPart): (r: Option<Change>)
    ensures r.Some? ==> exists i :: 0 <= i < |changes| && changes[i] == r.value && r.value.action == Created && r.value.after == sha1 &&
                                    forall j :: 0 <= j < i ==> !(changes[j].action == Created && changes[j].after == sha1)
    ensures r.None? ==> forall c :: c in changes ==> !(c.action == Created && c.after == sha1)
    decreases |changes|
  {
    if |changes| == 0 then None
    else if changes[0].action == Created && changes[0].after == sha1 then Some(changes[0])
    else
      var rest := FindCreated(changes[1..], sha1);
      if rest.Some? then
        var i :| 0 <= i < |changes[1..]| && changes[1..][i] == rest.value && rest.value.action == Created && rest.value.after == sha1 &&
                 forall j :: 0 <= j < i ==> !(changes[1..][j].action == Created && changes[1..][j].after == sha1);
        assert changes[i + 1] == rest.value;
        assert forall j :: 1 <= j < i + 1 ==> changes[j] == changes[1..][j - 1];
        rest
      else
        assert forall c :: c in changes ==> c == changes[0] || c in changes[1..];
        rest
  }

  /** One step of the rename fold: when a created row carries the deleted
      row's old hash, both go (every copy of each) and
      `["old -> new", :renamed, [old, new]]` is appended. */
  function Rename(changes: seq<Change>, d: Change): (r: seq<Change>)
    ensures FindCreated(changes, d.before).None? ==> r == changes
    ensures FindCreated(changes, d.before).Some? ==>
      var c := FindCreated(changes, d.before).value;
      |r| > 0 && r[|r| - 1] == Change(d.path + " -> " + c.path, Renamed, d.before, c.after) &&
      (forall y :: y in r[..|r| - 1] <==> y in changes && y != c && y != d)
  {
    var c := FindCreated(changes, d.before);
    if c.None? then changes
    else
      var kept := Delete(Delete(changes, c.value), d);
      var r := kept + [Change(d.path + " -> " + c.value.path, Renamed, d.before, c.value.after)];
      assert r[..|r| - 1] == kept;
      r
  }

  /** The rename fold, `inject(changes) { ... }`, over the deleted rows from
      the `i`-th on. It invents nothing: every row it leaves was there
      before, or is a rename. Over the deleted rows of the list, it leaves
      no deleted row with a created row carrying its old hash: each
      deleted row either found its created row, and both went, or found
      none, and none can appear later since the fold only removes rows
      and adds renames. */
  function Renames(changes: seq<Change>, ds: seq<Change>, i: nat): (r: seq<Change>)
    requires i <= |ds|
    ensures forall y :: y in r ==> y in changes || y.action == Renamed
    ensures Settling(changes, ds, i) ==>
      forall d, c :: d in r && d.action == Deleted && c in r && c.action == Created ==> c.after != d.before
    decreases |ds| - i
  {
    if i == |ds| then
      SettledRows(changes, ds);
      changes
    else
      RenameRows(changes, ds[i]);
      RenameSettles(changes, ds, i);
      Renames(Rename(changes, ds[i]), ds, i + 1)
  }

  /** Once every deleted row has been looked at, none has a created row
      carrying its old hash. */
  lemma SettledRows(changes: seq<Change>, ds: seq<Change>)
    ensures Settling(changes, ds, |ds|) ==>
      forall d, c :: d in changes && d.action == Deleted && c in changes && c.action == Created ==> c.after != d.before
  {
    if Settling(changes, ds, |ds|) {
      forall d, c | d in changes && d.action == Deleted && c in changes && c.action == Created
        ensures c.after != d.before
      {
        var k :| 0 <= k < |ds| && ds[k] == d;
      }
    }
  }

  /** A row whose new hash is `sha1` is no created row of `changes`. */
  predicate NoCreated(changes: seq<Change>, sha1: HashPart) {
    forall c :: c in changes ==> !(c.action == Created && c.after == sha1)
  }

  /** What holds before the fold looks at the `i`-th deleted row: the rows
      to look at are deletions, every deleted row is one of them, and each
      one looked at already that is still there has no created row
      carrying its old hash. */
  predicate Settling(changes: seq<Change>, ds: seq<Change>, i: nat) {
    (forall k :: 0 <= k < |ds| ==> ds[k].action == Deleted) &&
    (forall d :: d in changes && d.action == Deleted ==> d in ds) &&
    (forall k :: 0 <= k < i && k < |ds| && ds[k] in changes ==> NoCreated(changes, ds[k].before))
  }

  lemma RenameSettles(changes: seq<Change>, ds: seq<Change>, i: nat)
    requires i < |ds|
    ensures Settling(changes, ds, i) ==> Settling(Rename(changes, ds[i]), ds, i + 1)
  {
    RenameRows(changes, ds[i]);
  }

  /** One step of the fold adds nothing but the rename; a deleted row
      that found its created row is gone, and one that found none leaves
      the rows as they were. */
  lemma RenameRows(changes: seq<Change>, d: Change)
    ensures forall y :: y in Rename(changes, d) ==> y in changes || y.action == Renamed
    ensures d.action != Renamed && d in Rename(changes, d) ==> NoCreated(changes, d.before) && Rename(changes, d) == changes
  {
    var next := Rename(changes, d);
    if FindCreated(changes, d.before).Some? {
      forall y | y in next
        ensures (y in changes && y != d) || y.action == Renamed
      {
        if y !in next[..|next| - 1] {
          var k :| 0 <= k < |next| && next[k] == y;
          assert k == |next| - 1;
        }
      }
    }
  }

  /** The tail of `changes_introduced_by` once its two lists are known:
      `concat` of the deletions, then the rename fold over the deleted
      rows. */
  function Fold(updates: seq<Change>, deletions: seq<Change>): (r: seq<Change>)
    ensures forall y :: y in r ==> y in updates + deletions || y.action == Renamed
    ensures forall d, c :: d in r && d.action == Deleted && c in r && c.action == Created ==> c.after != d.before
  {
    var all := updates + deletions;
    FoldStarts(all);
    Renames(all, Deleteds(all), 0)
  }

  /** The fold starts settled: it looks at exactly the deleted rows. */
  lemma FoldStarts(all: seq<Change>)
    ensures Settling(all, Deleteds(all), 0)
  {
    var ds := Deleteds(all);
    assert forall k :: 0 <= k < |ds| ==> ds[k] in ds;
  }

  /** No deleted row is left beside a created row carrying its old hash:
      every such pair has become one rename. */
  predicate RenamesFound(cs: seq<Change>) {
    forall d, c :: d in cs && d.action == Deleted && c in cs && c.action == Created ==> c.after != d.before
  }

  // ---------------------------------------------------------------------------
  // The remembered `changes_between` array

  /** `changes_introduced_by` as written, given the array `remember` holds
      for `tree.changes_between(parents.map(&:tree))`: `concat`, `delete`
      and `<<` change that very array, so the answer and what stays
      remembered are one array, and a later call with the same tree and
      parent trees starts from the answer of the earlier one. */
  function IntroducedAsWritten(remembered: seq<Change>, deletions: seq<Change>): (r: (seq<Change>, seq<Change>))
    ensures r.1 == r.0
    ensures forall y :: y in r.0 ==> y in remembered + deletions || y.action == Renamed
  {
    var changes := Fold(remembered, deletions);
    (changes, changes)
  }

  /** The evident intent: the fold works on a copy of the remembered diff
      (`changes_between(...).dup`), which stays as it was. */
  function IntroducedOnCopy(remembered: seq<Change>, deletions: seq<Change>): (r: (seq<Change>, seq<Change>))
    ensures r.1 == remembered
    ensures r.0 == Fold(remembered, deletions)
  {
    (Fold(remembered, deletions), remembered)
  }

  /** On a copy, asking again with the same remembered diff and deletions
      gives the same answer and leaves the same diff remembered. */
  lemma CopiedCallsAgree(remembered: seq<Change>, deletions: seq<Change>)
    ensures var first := IntroducedOnCopy(remembered, deletions);
            IntroducedOnCopy(first.1, deletions) == first
  {
  }

  /** A commit whose only change is one deleted file, asked twice as
      written: the second answer lists the deletion twice, where the copy
      answers the same both times. */
  lemma SecondCallRepeatsDeletion()
    ensures var d := Change("a", Deleted, One("1111111"), Many([]));
            var first := IntroducedAsWritten([], [d]);
            first.0 == [d] && IntroducedAsWritten(first.1, [d]).0 == [d, d] &&
            IntroducedOnCopy(IntroducedOnCopy([], [d]).1, [d]).0 == [d]
  {
    var d := Change("a", Deleted, One("1111111"), Many([]));
    RowsCons(d, []);
    RowsCons(d, [d]);
    assert [] + [d] == [d] && [d] + [d] == [d, d] && [d] + [] == [d] && [d] + [d] == [d, d];
    assert Fold([], [d]) == [d] by {
      assert Renames([d], [d], 0) == Renames(Rename([d], d), [d], 1);
    }
    assert Fold([d], [d]) == [d, d] by {
      assert Renames([d, d], [d, d], 0) == Renames(Rename([d, d], d), [d, d], 1);
      assert Renames([d, d], [d, d], 1) == Renames(Rename([d, d], d), [d, d], 2);
    }
  }

  /** A commit whose only change is one renamed file, asked twice as
      written: the second answer keeps the rename and adds a stray
      deletion of the old name. */
  lemma SecondCallAfterRename()
    ensures var c := Change("b", Created, Many([]), One("1111111"));
            var d := Change("a", Deleted, One("1111111"), Many([]));
            var renamed := Change("a" + " -> " + "b", Renamed, One("1111111"), One("1111111"));
            var first := IntroducedAsWritten([c], [d]);
            first.0 == [renamed] && IntroducedAsWritten(first.1, [d]).0 == [renamed, d] &&
            IntroducedOnCopy(IntroducedOnCopy([c], [d]).1, [d]).0 == [renamed]
  {
    var c := Change("b", Created, Many([]), One("1111111"));
    var d := Change("a", Deleted, One("1111111"), Many([]));
    var renamed := Change("a" + " -> " + "b", Renamed, One("1111111"), One("1111111"));
    FirstFold(c, d);
    SecondFold(renamed, d);
  }

  lemma FirstFold(c: Change, d: Change)
    requires c == Change("b", Created, Many([]), One("1111111")) && d == Change("a", Deleted, One("1111111"), Many([]))
    ensures Fold([c], [d]) == [Change("a" + " -> " + "b", Renamed, One("1111111"), One("1111111"))]
  {
    assert [c] + [d] == [c, d];
    DeletedsOfPair(c, d);
    RenameFound(c, d);
    RenamesOne([c, d], d);
  }

  /** Of a created and a deleted row, the deleted one is the deletion. */
  lemma DeletedsOfPair(c: Change, d: Change)
    requires c.action == Created && d.action == Deleted
    ensures Deleteds([c, d]) == [d]
  {
    RowsCons(c, [d]);
    RowsCons(d, []);
    assert [c] + [d] == [c, d] && [d] + [] == [d];
  }

  /** The fold over one deleted row is one rename step. */
  lemma RenamesOne(changes: seq<Change>, d: Change)
    ensures Renames(changes, [d], 0) == Rename(changes, d)
  {
  }

  lemma SecondFold(renamed: Change, d: Change)
    requires renamed.action == Renamed && d == Change("a", Deleted, One("1111111"), Many([]))
    ensures Fold([renamed], [d]) == [renamed, d]
  {
    RowsCons(d, []);
    RowsCons(renamed, [d]);
    assert [d] + [] == [d] && [renamed] + [d] == [renamed, d];
    assert Deleteds([renamed, d]) == [d];
    assert FindCreated([renamed, d], d.before).None?;
    assert Renames([renamed, d], [d], 0) == Renames(Rename([renamed, d], d), [d], 1);
  }

  /** The fold's list operations on a row put in front. */
  lemma RowsCons(x: Change, xs: seq<Change>)
    ensures Deleteds([x] + xs) == (if x.action == Deleted then [x] else []) + Deleteds(xs)
    ensures forall sha1 :: !(x.action == Created && x.after == sha1) ==> FindCreated([x] + xs, sha1) == FindCreated(xs, sha1)
    ensures forall y :: Delete([x] + xs, y) == (if x == y then [] else [x]) + Delete(xs, y)
  {
    assert ([x] + xs)[1..] == xs;
  }

  /** The one rename step of the example. */
  lemma RenameFound(c: Change, d: Change)
    requires c == Change("b", Created, Many([]), One("1111111")) && d == Change("a", Deleted, One("1111111"), Many([]))
    ensures Rename([c, d], d) == [Change("a" + " -> " + "b", Renamed, One("1111111"), One("1111111"))]
  {
    RowsCons(c, [d]);
    RowsCons(d, []);
    assert [c] + [d] == [c, d] && [d] + [] == [d];
    assert FindCreated([c, d], d.before) == Some(c);
    assert Delete([c, d], c) == [d];
    assert Delete([d], d) == [];
  }

  // ---------------------------------------------------------------------------
  // changes_introduced_by

  /** `parents.map(&:tree)`, from the `i`-th parent on. */
  function TreesOf(h: Hooks, inst: Instances, ps: seq<Parent>, i: nat): (r: (Result<seq<GitObject>>, Instances))
    requires i <= |ps|
    ensures r.0.Success? ==> |r.0.value| == |ps| - i
    ensures Extends(inst, r.1)
    decreases |ps| - i
  {
    if i == |ps| then (Success([]), inst)
    else
      var first := TreeOf(h, inst, ps[i].obj);
      if first.0.Failure? then (Failure(first.0.error), first.1)
      else
        var rest := TreesOf(h, first.1, ps, i + 1);
        if rest.0.Failure? then rest else (Success([first.0.value] + rest.0.value), rest.1)
  }

  /** For each parent tree from the `i`-th on,
      `parent.tree.changes_between([tree])` turned into deletions. */
  function DeletionLists(h: Hooks, inst: Instances, parentTrees: seq<GitObject>, tree: GitObject, i: nat, fuel: nat): (r: (Result<seq<seq<Change>>>, Instances))
    requires i <= |parentTrees|
    ensures r.0.Success? ==> |r.0.value| == |parentTrees| - i
    ensures Extends(inst, r.1)
    decreases |parentTrees| - i
  {
    if i == |parentTrees| then (Success([]), inst)
    else
      var first := ChangesBetween(h, inst, parentTrees[i], [tree], None, fuel);
      if first.0.Failure? then (Failure(first.0.error), first.1)
      else
        var rest := DeletionLists(h, first.1, parentTrees, tree, i + 1, fuel);
        if rest.0.Failure? then rest else (Success([AsDeletions(first.0.value)] + rest.0.value), rest.1)
  }

  /** For each parent tree from the `i`-th on,
      `parent.tree.changes_between([tree])`, as the calls of
      `DeletionLists` compute them. */
  function ParentDiffs(h: Hooks, inst: Instances, parentTrees: seq<GitObject>, tree: GitObject, i: nat, fuel: nat): (r: (Result<seq<seq<Change>>>, Instances))
    requires i <= |parentTrees|
    ensures r.0.Success? ==> |r.0.value| == |parentTrees| - i
    decreases |parentTrees| - i
  {
    if i == |parentTrees| then (Success([]), inst)
    else
      var first := ChangesBetween(h, inst, parentTrees[i], [tree], None, fuel);
      if first.0.Failure? then (Failure(first.0.error), first.1)
      else
        var rest := ParentDiffs(h, first.1, parentTrees, tree, i + 1, fuel);
        if rest.0.Failure? then rest else (Success([first.0.value] + rest.0.value), rest.1)
  }

  /** Each deletion list is the created rows of that parent's diff against
      the commit's tree, turned into deletions. */
  lemma {:induction false} DeletionListsOfDiffs(h: Hooks, inst: Instances, parentTrees: seq<GitObject>, tree: GitObject, i: nat, fuel: nat)
    requires i <= |parentTrees|
    ensures var lists := DeletionLists(h, inst, parentTrees, tree, i, fuel);
            var diffs := ParentDiffs(h, inst, parentTrees, tree, i, fuel);
            lists.0.Success? <==> diffs.0.Success?
    ensures var lists := DeletionLists(h, inst, parentTrees, tree, i, fuel);
            var diffs := ParentDiffs(h, inst, parentTrees, tree, i, fuel);
            lists.0.Success? ==> forall j :: 0 <= j < |lists.0.value| ==> lists.0.value[j] == AsDeletions(diffs.0.value[j])
    decreases |parentTrees| - i
  {
    if i < |parentTrees| {
      var first := ChangesBetween(h, inst, parentTrees[i], [tree], None, fuel);
      if first.0.Success? {
        var lists := DeletionLists(h, first.1, parentTrees, tree, i + 1, fuel);
        var diffs := ParentDiffs(h, first.1, parentTrees, tree, i + 1, fuel);
        DeletionListsOfDiffs(h, first.1, parentTrees, tree, i + 1, fuel);
        if lists.0.Success? {
          ListsStep(first.0.value, lists.0.value, diffs.0.value);
        }
      }
    }
  }

  lemma ListsStep(first: seq<Change>, lists: seq<seq<Change>>, diffs: seq<seq<Change>>)
    requires |lists| == |diffs| && forall j :: 0 <= j < |lists| ==> lists[j] == AsDeletions(diffs[j])
    ensures var l := [AsDeletions(first)] + lists;
            var d := [first] + diffs;
            |l| == |d| && forall j :: 0 <= j < |l| ==> l[j] == AsDeletions(d[j])
  {
    var l := [AsDeletions(first)] + lists;
    var d := [first] + diffs;
    forall j | 0 < j < |l|
      ensures l[j] == AsDeletions(d[j])
    {
      assert l[j] == lists[j - 1] && d[j] == diffs[j - 1];
    }
  }

  /** The changes of `tree` against the parents' trees `pts`: its creations
      and updates, then the deletions common to all parents, then the
      rename fold over the deleted rows. */
  function Introduced(h: Hooks, inst: Instances, tree: GitObject, pts: seq<GitObject>, fuel: nat): (r: (Result<seq<Change>>, Instances))
    ensures Extends(inst, r.1)
    ensures r.0.Success? ==> RenamesFound(r.0.value)
  {
    var updates := ChangesBetween(h, inst, tree, pts, None, fuel);
    if updates.0.Failure? then (Failure(updates.0.error), updates.1)
    else
      var deletions := DeletionLists(h, updates.1, pts, tree, 0, fuel);
      if deletions.0.Failure? then (Failure(deletions.0.error), deletions.1)
      else
        (Success(IntroducedOnCopy(updates.0.value, InjectAnd(deletions.0.value)).0), deletions.1)
  }

  /** What the changes against the parents' trees hold: every row is a
      creation or update of the tree's diff, a deletion or a rename; a
      deleted row is, for every parent, the deletion of a row that the
      parent tree's diff against the tree reports as created; and no
      created row is left carrying a deleted row's old hash, so the rename
      fold found every rename it could. */
  lemma IntroducedRows(h: Hooks, inst: Instances, tree: GitObject, pts: seq<GitObject>, fuel: nat)
    requires Introduced(h, inst, tree, pts, fuel).0.Success?
    ensures var r := Introduced(h, inst, tree, pts, fuel).0.value;
            var updates := ChangesBetween(h, inst, tree, pts, None, fuel);
            var diffs := ParentDiffs(h, updates.1, pts, tree, 0, fuel);
            updates.0.Success? && diffs.0.Success? && |diffs.0.value| == |pts| &&
            (forall y :: y in r && y.action != Deleted && y.action != Renamed ==> y in updates.0.value) &&
            (forall y :: y in r && y.action == Deleted ==>
               |pts| > 0 && forall j :: 0 <= j < |pts| ==> y in AsDeletions(diffs.0.value[j])) &&
            (forall d, c :: d in r && d.action == Deleted && c in r && c.action == Created ==> c.after != d.before)
  {
    var updates := ChangesBetween(h, inst, tree, pts, None, fuel);
    var lists := DeletionLists(h, updates.1, pts, tree, 0, fuel);
    var diffs := ParentDiffs(h, updates.1, pts, tree, 0, fuel);
    DeletionListsOfDiffs(h, updates.1, pts, tree, 0, fuel);
    FoldRows(updates.0.value, lists.0.value, diffs.0.value);
  }

  /** The fold over a diff's rows and the deletions every parent agrees
      on keeps the diff's rows, adds deletions only from every list, and
      leaves no rename unfound. */
  lemma FoldRows(updates: seq<Change>, lists: seq<seq<Change>>, diffs: seq<seq<Change>>)
    requires DiffRows(updates, None)
    requires |lists| == |diffs| && forall j :: 0 <= j < |lists| ==> lists[j] == AsDeletions(diffs[j])
    ensures var r := Fold(updates, InjectAnd(lists));
            (forall y :: y in r && y.action != Deleted && y.action != Renamed ==> y in updates) &&
            (forall y :: y in r && y.action == Deleted ==>
               |diffs| > 0 && forall j :: 0 <= j < |diffs| ==> y in AsDeletions(diffs[j]))
  {
    var deletions := InjectAnd(lists);
    CommonDeletions(lists, diffs);
    var r := Fold(updates, deletions);
    forall y | y in r && y.action != Renamed
      ensures y in updates || y in deletions
    {
      assert y in updates + deletions;
    }
  }

  /** The rows every deletion list holds are deletions, and there is at
      least one list. */
  lemma CommonDeletions(lists: seq<seq<Change>>, diffs: seq<seq<Change>>)
    requires |lists| == |diffs| && forall j :: 0 <= j < |lists| ==> lists[j] == AsDeletions(diffs[j])
    ensures forall y :: y in InjectAnd(lists) ==> y.action == Deleted && |lists| > 0 && forall j :: 0 <= j < |diffs| ==> y in lists[j]
  {
    forall y | y in InjectAnd(lists)
      ensures y.action == Deleted
    {
      assert y in AsDeletions(diffs[0]);
    }
  }

  /** `changes_introduced_by`: the commit's tree and its parents' trees are
      loaded, then compared. `fuel` is the Ruby stack depth left to
      `changes_between`. */
  function ChangesIntroducedBy(h: Hooks, inst: Instances, c: GitObject, fuel: nat): (r: (Result<seq<Change>>, Instances))
    ensures Extends(inst, r.1)
    ensures r.0.Success? ==> RenamesFound(r.0.value)
  {
    var tree := TreeOf(h, inst, c);
    if tree.0.Failure? then (Failure(tree.0.error), tree.1)
    else
      var ps := ParentsOf(h, tree.1, c);
      if ps.0.Failure? then (Failure(ps.0.error), ps.1)
      else
        var pts := TreesOf(h, ps.1, ps.0.value, 0);
        if pts.0.Failure? then (Failure(pts.0.error), pts.1)
        else Introduced(h, pts.1, tree.0.value, pts.0.value, fuel)
  }

  /** Against no parent tree, a tree introduces every compared leaf under
      it, created, with no deletion and no rename. */
  lemma IntroducedAgainstNothing(h: Hooks, inst: Instances, t: GitObject, fuel: nat)
    ensures Introduced(h, inst, t, [], fuel).0 == Leaves(h, inst, t, None, fuel).0
  {
    ChangesAgainstNothing(h, inst, t, None, fuel);
    var updates := ChangesBetween(h, inst, t, [], None, fuel);
    if updates.0.Success? {
      var cs := updates.0.value;
      assert DeletionLists(h, updates.1, [], t, 0, fuel) == (Success([]), updates.1);
      assert cs + InjectAnd([]) == cs;
      NothingDeleted(cs);
    }
  }

  /** Rows that are all creations leave the rename fold nothing to do. */
  lemma NothingDeleted(cs: seq<Change>)
    requires forall c :: c in cs ==> c.action == Created
    ensures Renames(cs, Deleteds(cs), 0) == cs
  {
    assert Deleteds(cs) == [];
  }

  /** Against itself as the only parent tree, a tree introduces nothing. */
  lemma IntroducedAgainstItself(h: Hooks, inst: Instances, t: GitObject, fuel: nat)
    requires Entries(h, inst, t).0.Success?
    ensures Introduced(h, inst, t, [t], fuel).0 == Success([])
  {
    ChangesAgainstItself(h, inst, t, None, fuel);
    var es := Entries(h, inst, t);
    EntriesStable(h, inst, t, es.1);
    ChangesAgainstItself(h, es.1, t, None, fuel);
    var rest := DeletionLists(h, es.1, [t], t, 1, fuel);
    assert rest == (Success([]), es.1);
    assert ChangesBetween(h, es.1, [t][0], [t], None, fuel) == (Success([]), es.1);
    var noDeletions: seq<Change> := AsDeletions([]);
    assert noDeletions == [];
    assert [noDeletions] + rest.0.value == [[]];
    assert DeletionLists(h, es.1, [t], t, 0, fuel) == (Success([[]]), es.1);
    assert InjectAnd([[]]) == [];
    assert Deleteds([]) == [];
  }

  /** A root commit introduces its whole tree: every compared leaf under it,
      created, with no deletion and no rename. */
  lemma RootCommitChanges(h: Hooks, inst: Instances, c: GitObject, fuel: nat)
    requires FieldsOf(c).Success? && FieldsOf(c).value.parents == []
    requires TreeOf(h, inst, c).0.Success?
    ensures var tree := TreeOf(h, inst, c);
            ChangesIntroducedBy(h, inst, c, fuel).0 == Leaves(h, tree.1, tree.0.value, None, fuel).0
  {
    var tree := TreeOf(h, inst, c);
    assert ParentsOf(h, tree.1, c) == (Success([]), tree.1);
    assert TreesOf(h, tree.1, [], 0) == (Success([]), tree.1);
    IntroducedAgainstNothing(h, tree.1, tree.0.value, fuel);
  }

  /** A commit whose only parent has the very same tree introduces no
      change. */
  lemma SameTreeNoChanges(h: Hooks, inst: Instances, c: GitObject, fuel: nat)
    requires TreeOf(h, inst, c).0.Success?
    requires var tree := TreeOf(h, inst, c);
             var ps := ParentsOf(h, tree.1, c);
             ps.0.Success? && |ps.0.value| == 1 &&
             TreeOf(h, ps.1, ps.0.value[0].obj) == (Success(tree.0.value), ps.1) &&
             Entries(h, ps.1, tree.0.value).0.Success?
    ensures ChangesIntroducedBy(h, inst, c, fuel).0 == Success([])
  {
    var tree := TreeOf(h, inst, c);
    var t := tree.0.value;
    var ps := ParentsOf(h, tree.1, c);
    assert TreesOf(h, ps.1, ps.0.value, 1) == (Success([]), ps.1);
    assert [t] + [] == [t];
    assert TreesOf(h, ps.1, ps.0.value, 0) == (Success([t]), ps.1);
    IntroducedAgainstItself(h, ps.1, t, fuel);
  }
}
