/** models/commit.rb: the breadth-first walk over a commit's ancestors and
    what is built on it (`commit_count`, `max_parents_count`,
    `validate_ancestors`), the changes a commit introduces, and the
    two-phase clone of a whole history. */
module Commits {

  import opened Results
  import opened ObjectData
  import opened Modes
  import opened Backends
  import opened GitObjects
  import opened GitRepository
  import opened Trees
  import opened Sha1Util

  // ---------------------------------------------------------------------------
  // The `visited` hash: ordered, keyed by hash

  /** `visited[key] = value`: a key already present keeps its position and
      takes the new value; a new key goes last. */
  function Put<V>(visited: seq<(string, V)>, key: string, value: V): (r: seq<(string, V)>)
    ensures KeySet(r) == KeySet(visited) + {key}
    ensures DistinctPairs(visited) ==> DistinctPairs(r)
    ensures |r| == if key in KeySet(visited) then |visited| else |visited| + 1
    decreases |visited|
  {
    if |visited| == 0 then
      PairsCons((key, value), visited);
      [(key, value)] + visited
    else
      PairsTail(visited);
      if visited[0].0 == key then
        PairsCons((key, value), visited[1..]);
        [(key, value)] + visited[1..]
      else
        var rest := Put(visited[1..], key, value);
        PairsCons(visited[0], rest);
        [visited[0]] + rest
  }

  /** `visited[key]`: the value of the first pair with that key, nil
      (None) for a key the hash does not hold. */
  function Get<V>(pairs: seq<(string, V)>, key: string): (r: Option<V>)
    ensures r.Some? <==> key in KeySet(pairs)
    ensures r.Some? ==> (key, r.value) in pairs
    ensures DistinctPairs(pairs) ==> forall i :: 0 <= i < |pairs| && pairs[i].0 == key ==> r == Some(pairs[i].1)
    decreases |pairs|
  {
    if |pairs| == 0 then None
    else
      PairsTail(pairs);
      if pairs[0].0 == key then Some(pairs[0].1)
      else
        var rest := Get(pairs[1..], key);
        assert forall i :: 0 < i < |pairs| ==> pairs[i] == pairs[1..][i - 1];
        rest
  }

  /** Storing under a key present already replaces that pair where it
      stands; storing under a new key appends the pair. */
  lemma {:induction false} PutPlaces<V>(visited: seq<(string, V)>, key: string, value: V)
    requires DistinctPairs(visited)
    ensures key !in KeySet(visited) ==> Put(visited, key, value) == visited + [(key, value)]
    ensures forall i :: 0 <= i < |visited| && visited[i].0 == key ==> Put(visited, key, value) == visited[i := (key, value)]
    decreases |visited|
  {
    if |visited| > 0 {
      PairsTail(visited);
      var tail := visited[1..];
      if visited[0].0 != key {
        PutPlaces(tail, key, value);
        assert Put(visited, key, value) == [visited[0]] + Put(tail, key, value);
        if key !in KeySet(visited) {
          assert [visited[0]] + (tail + [(key, value)]) == visited + [(key, value)];
        }
        forall i | 0 <= i < |visited| && visited[i].0 == key
          ensures Put(visited, key, value) == visited[i := (key, value)]
        {
          assert tail[i - 1] == visited[i];
          assert [visited[0]] + tail[i - 1 := (key, value)] == visited[i := (key, value)];
        }
      }
    }
  }

  /** What a key looks up after a store: the stored value for that key,
      the earlier answer for every other. */
  lemma {:induction false} PutGet<V>(visited: seq<(string, V)>, key: string, value: V, other: string)
    ensures Get(Put(visited, key, value), key) == Some(value)
    ensures other != key ==> Get(Put(visited, key, value), other) == Get(visited, other)
    decreases |visited|
  {
    if |visited| > 0 {
      PairsTail(visited);
      if visited[0].0 != key {
        PutGet(visited[1..], key, value, other);
        var rest := Put(visited[1..], key, value);
        assert ([visited[0]] + rest)[1..] == rest;
      } else {
        assert ([(key, value)] + visited[1..])[1..] == visited[1..];
      }
    }
  }

  lemma PairsCons<V>(x: (string, V), rest: seq<(string, V)>)
    ensures KeySet([x] + rest) == {x.0} + KeySet(rest)
    ensures DistinctPairs([x] + rest) <==> x.0 !in KeySet(rest) && DistinctPairs(rest)
  {
    var all := [x] + rest;
    forall k | k in KeySet(all)
      ensures k in {x.0} + KeySet(rest)
    {
      var i :| 0 <= i < |all| && all[i].0 == k;
      if i > 0 { assert all[i] == rest[i - 1]; }
    }
    forall k | k in KeySet(rest)
      ensures k in KeySet(all)
    {
      var i :| 0 <= i < |rest| && rest[i].0 == k;
      assert all[i + 1] == rest[i];
    }
    assert all[0] == x;
    if DistinctPairs(all) {
      forall a, b | 0 <= a < b < |rest|
        ensures rest[a].0 != rest[b].0
      {
        assert all[a + 1] == rest[a] && all[b + 1] == rest[b];
      }
      forall i | 0 <= i < |rest|
        ensures rest[i].0 != x.0
      {
        assert all[i + 1] == rest[i];
      }
    }
    if x.0 !in KeySet(rest) && DistinctPairs(rest) {
      forall a, b | 0 <= a < b < |all|
        ensures all[a].0 != all[b].0
      {
        assert all[b] == rest[b - 1];
        if a > 0 { assert all[a] == rest[a - 1]; }
        else { assert rest[b - 1].0 in KeySet(rest); }
      }
    }
  }

  lemma PairsTail<V>(visited: seq<(string, V)>)
    requires |visited| > 0
    ensures visited == [visited[0]] + visited[1..]
    ensures KeySet(visited) == {visited[0].0} + KeySet(visited[1..])
    ensures DistinctPairs(visited) <==> visited[0].0 !in KeySet(visited[1..]) && DistinctPairs(visited[1..])
  {
    assert visited == [visited[0]] + visited[1..];
    PairsCons(visited[0], visited[1..]);
  }

  /** The keys of an ordered hash. */
  function KeySet<V>(pairs: seq<(string, V)>): set<string> {
    set i | 0 <= i < |pairs| :: pairs[i].0
  }

  /** No key appears twice. */
  predicate DistinctPairs<V>(pairs: seq<(string, V)>) {
    forall a, b :: 0 <= a < b < |pairs| ==> pairs[a].0 != pairs[b].0
  }

  /** `visited.has_key?(key)`. */
  function HasKey<V>(pairs: seq<(string, V)>, key: string): (b: bool)
    ensures b <==> key in KeySet(pairs)
  {
    exists i :: 0 <= i < |pairs| && pairs[i].0 == key
  }

  // ---------------------------------------------------------------------------
  // The walk's bookkeeping

  /** The cache keys a sequence of parents were asked for. */
  function Keys(ps: seq<Parent>): set<string> {
    set p | p in ps :: p.key
  }

  /** The hashes of the instances of a sequence of parents. */
  function Hashes(ps: seq<Parent>): set<string> {
    set p | p in ps :: p.obj.sha1
  }

  /** The parent hashes a commit instance lists (none for an instance
      without commit fields). */
  function ParentKeys(o: GitObject): seq<Option<string>> {
    if FieldsOf(o).Success? then FieldsOf(o).value.parents else []
  }

  /** The parent hashes the commit stored under `sha1` lists, as the hooks
      load and parse it. */
  function ParentKeysIn(h: Hooks, sha1: string): set<string> {
    var info := h.load(sha1);
    if info.Failure? || info.value.data.NoData? then {}
    else
      var fields := h.parseCommit(info.value.data);
      if fields.Failure? || fields.value.None? then {}
      else set p | p in fields.value.value.parents && p.Some? :: p.value
  }

  /** Every key a walk from `root` can ask for: the root, and every parent
      hash of a stored commit. A finite set. */
  function Universe(h: Hooks, root: string): set<string> {
    {root} + (set s, p | s in h.keys && p in ParentKeysIn(h, s) :: p)
  }

  /** A cached commit's parent hashes are parent hashes of a stored commit. */
  lemma ParentsInUniverse(h: Hooks, inst: Instances, key: string, root: string)
    requires Cached(h, inst) && Bounded(h) && key in inst
    ensures forall p :: p in ParentKeys(inst[key]) && p.Some? ==> p.value in Universe(h, root)
  {
    var o := inst[key];
    if FieldsOf(o).Success? {
      var sha1 := StandardizedSha1(key).value;
      assert Initialize(h, o.cls, sha1, OptionsOf(o)) == Success(o);
      var info := h.load(sha1).value;
      assert sha1 in h.keys;
      assert ParseData(h, Commit, info.data) == Success(o.parsed);
      assert h.parseCommit(info.data) == Success(Some(FieldsOf(o).value));
      forall p | p in ParentKeys(o) && p.Some?
        ensures p.value in Universe(h, root)
      {
        assert p.value in ParentKeysIn(h, sha1);
      }
    }
  }

  /** Every instance of the sequence is the one cached under its key. */
  ghost predicate InCache(ps: seq<Parent>, inst: Instances) {
    forall k :: 0 <= k < |ps| ==> ps[k].key in inst && inst[ps[k].key] == ps[k].obj
  }

  /** No key is asked for twice. */
  predicate DistinctKeys(ps: seq<Parent>) {
    forall a, b :: 0 <= a < b < |ps| ==> ps[a].key != ps[b].key
  }

  /** The first `m` parent hashes of `o` are cached and each is among the
      keys of `all`, or is cached as an instance whose hash one of `all`
      has: the walk has scheduled or visited it. */
  ghost predicate Reached(all: seq<Parent>, o: GitObject, m: nat, inst: Instances) {
    FieldsOf(o).Success? && m <= |ParentKeys(o)| &&
    forall i :: 0 <= i < m ==>
      var p := ParentKeys(o)[i];
      p.Some? && p.value in inst && (p.value in Keys(all) || inst[p.value].sha1 in Hashes(all))
  }

  /** Every parent of the first `c` of `all` is reached. */
  ghost predicate Closed(all: seq<Parent>, c: nat, inst: Instances) {
    c <= |all| && forall k :: 0 <= k < c ==> Reached(all, all[k].obj, |ParentKeys(all[k].obj)|, inst)
  }

  /** Every one of `all` but the first was asked for by an earlier one,
      `from` naming which, and in the order the askers were visited. */
  predicate Grounded(all: seq<Parent>, from: seq<nat>) {
    |from| == |all| &&
    (forall k :: 0 < k < |all| ==> from[k] < k && Some(all[k].key) in ParentKeys(all[from[k]].obj)) &&
    (forall a, b :: 0 < a < b < |all| ==> from[a] <= from[b])
  }

  lemma KeysPrefix(all: seq<Parent>, all2: seq<Parent>)
    requires |all| <= |all2| && all == all2[..|all|]
    ensures Keys(all) <= Keys(all2) && Hashes(all) <= Hashes(all2)
  {
    forall p | p in all
      ensures p in all2
    {
      var i :| 0 <= i < |all| && all[i] == p;
      assert all2[i] == p;
    }
  }

  lemma ReachedGrows(all: seq<Parent>, all2: seq<Parent>, o: GitObject, m: nat, inst: Instances, inst2: Instances)
    requires Reached(all, o, m, inst) && Extends(inst, inst2)
    requires |all| <= |all2| && all == all2[..|all|]
    ensures Reached(all2, o, m, inst2)
  {
    KeysPrefix(all, all2);
  }

  lemma ClosedGrows(all: seq<Parent>, all2: seq<Parent>, c: nat, inst: Instances, inst2: Instances)
    requires Closed(all, c, inst) && Extends(inst, inst2)
    requires |all| <= |all2| && all == all2[..|all|]
    ensures Closed(all2, c, inst2)
  {
    forall k | 0 <= k < c
      ensures Reached(all2, all2[k].obj, |ParentKeys(all2[k].obj)|, inst2)
    {
      assert all2[k] == all[k];
      ReachedGrows(all, all2, all[k].obj, |ParentKeys(all[k].obj)|, inst, inst2);
    }
  }

  lemma InCacheGrows(ps: seq<Parent>, inst: Instances, inst2: Instances)
    requires InCache(ps, inst) && Extends(inst, inst2)
    ensures InCache(ps, inst2)
  {
  }

  /** Adding an element of `u` that `a` lacks shrinks what `a` misses of `u`. */
  lemma MissingShrinks(u: set<string>, a: set<string>, x: string)
    requires x in u && x !in a
    ensures u - (a + {x}) < u - a
  {
    assert x in u - a && x !in u - (a + {x});
  }

  /** What holds of everything a walk has asked for, `all` (visited, then
      queued), once `n` of them are visited: keys are distinct, each holds
      the cached instance, all lie in the universe `u`, and each but the
      root was asked for by a visited one, in visiting order. */
  ghost predicate Walk(u: set<string>, all: seq<Parent>, from: seq<nat>, n: nat, inst: Instances) {
    DistinctKeys(all) && InCache(all, inst) && Keys(all) <= u &&
    Grounded(all, from) && AskedBefore(from, n)
  }

  /** Each one but the first was asked for by one of the first `n`. */
  predicate AskedBefore(from: seq<nat>, n: nat) {
    forall k :: 0 < k < |from| ==> from[k] < n
  }

  /** Every parent hash of `o` lies in `u`. */
  predicate ParentsWithin(o: GitObject, u: set<string>) {
    forall p :: p in ParentKeys(o) && p.Some? ==> p.value in u
  }

  /** Queueing a parent that is neither visited nor queued keeps the walk's
      invariants and shrinks what is left to ask. */
  lemma PushStep(u: set<string>, order: seq<Parent>, queue: seq<Parent>, from: seq<nat>, inst: Instances,
                 current: Parent, j: nat, p: Parent)
    requires |order| > 0 && order[|order| - 1] == current && ParentsWithin(current.obj, u)
    requires Walk(u, order + queue, from, |order|, inst)
    requires j < |ParentKeys(current.obj)| && ParentKeys(current.obj)[j] == Some(p.key) && p.key in inst && inst[p.key] == p.obj
    requires p.obj.sha1 !in Hashes(order) && p.key !in Keys(queue)
    ensures Walk(u, order + queue + [p], from + [|order| - 1], |order|, inst)
    ensures |u - Keys(order + queue + [p])| < |u - Keys(order + queue)|
    ensures p.key in Keys(order + queue + [p])
  {
    var all := order + queue;
    var n := |order|;
    assert ParentKeys(current.obj)[j] in ParentKeys(current.obj);
    PushFresh(order, queue, p, inst);
    KeysAppend(all, p);
    MissingShrinks(u, Keys(all), p.key);
    assert all[n - 1] == current;
    GroundedPush(all, from, n, p);
    InCachePush(all, inst, p);
  }

  /** A parent asked for by the last visited one keeps the walk grounded. */
  lemma GroundedPush(all: seq<Parent>, from: seq<nat>, n: nat, p: Parent)
    requires Grounded(all, from) && 0 < n <= |all| && AskedBefore(from, n)
    requires Some(p.key) in ParentKeys(all[n - 1].obj)
    ensures Grounded(all + [p], from + [n - 1]) && AskedBefore(from + [n - 1], n)
  {
    LinksPush(all, from, n, p, all + [p], from + [n - 1]);
    AskedInOrderPush(all, from, n, from + [n - 1]);
  }

  /** The link of every queued parent to the one that asked for it. */
  lemma LinksPush(all: seq<Parent>, from: seq<nat>, n: nat, p: Parent, all2: seq<Parent>, from2: seq<nat>)
    requires Grounded(all, from) && 0 < n <= |all|
    requires Some(p.key) in ParentKeys(all[n - 1].obj)
    requires all2 == all + [p] && from2 == from + [n - 1]
    ensures forall k :: 0 < k < |all2| ==> from2[k] < k && Some(all2[k].key) in ParentKeys(all2[from2[k]].obj)
  {
    forall k | 0 < k < |all2|
      ensures from2[k] < k && Some(all2[k].key) in ParentKeys(all2[from2[k]].obj)
    {
      if k < |all| { assert all2[k] == all[k] && from2[k] == from[k] && all2[from[k]] == all[from[k]]; }
      else { assert all2[n - 1] == all[n - 1]; }
    }
  }

  /** The askers stay in visiting order, all among the first `n`. */
  lemma AskedInOrderPush(all: seq<Parent>, from: seq<nat>, n: nat, from2: seq<nat>)
    requires Grounded(all, from) && 0 < n <= |all| && AskedBefore(from, n)
    requires from2 == from + [n - 1]
    ensures forall a, b :: 0 < a < b < |from2| ==> from2[a] <= from2[b]
    ensures AskedBefore(from2, n)
  {
    forall a, b | 0 < a < b < |from2|
      ensures from2[a] <= from2[b]
    {
      if b < |all| { assert from2[a] == from[a] && from2[b] == from[b]; }
    }
  }

  lemma InCachePush(all: seq<Parent>, inst: Instances, p: Parent)
    requires InCache(all, inst) && p.key in inst && inst[p.key] == p.obj
    ensures InCache(all + [p], inst)
  {
    forall k | 0 <= k < |all| + 1
      ensures (all + [p])[k].key in inst && inst[(all + [p])[k].key] == (all + [p])[k].obj
    {
      if k < |all| { assert (all + [p])[k] == all[k]; }
    }
  }

  /** Whatever is queued, the parents reached so far stay reached, and a
      queued one is reached. */
  lemma ReachedPush(order: seq<Parent>, queue: seq<Parent>, inst: Instances, current: Parent, j: nat, p: Parent)
    requires Reached(order + queue, current.obj, j, inst) && j < |ParentKeys(current.obj)|
    requires ParentKeys(current.obj)[j] == Some(p.key) && p.key in inst
    ensures Reached(order + queue + [p], current.obj, j + 1, inst)
  {
    ReachedGrows(order + queue, order + queue + [p], current.obj, j, inst, inst);
    KeysAppend(order + queue, p);
  }

  /** A parent already visited by hash or queued by key is reached. */
  lemma SkipStep(order: seq<Parent>, queue: seq<Parent>, inst: Instances, current: Parent, j: nat, p: Parent)
    requires Reached(order + queue, current.obj, j, inst) && j < |ParentKeys(current.obj)|
    requires ParentKeys(current.obj)[j] == Some(p.key) && p.key in inst && inst[p.key] == p.obj
    requires p.obj.sha1 in Hashes(order) || p.key in Keys(queue)
    ensures Reached(order + queue, current.obj, j + 1, inst)
  {
    KeysConcat(order, queue);
  }

  /** The state of scheduling the parents of the `n`-th visited commit,
      `current`, once its first `j` parent hashes are dealt with: `all`
      (the visited ones, then the queue) grew from `all0` and keeps the
      walk's invariants, every visited commit but `current` is closed, the
      first `j` parents of `current` are reached, and the unasked part of
      `u` shrank if anything was queued. */
  ghost predicate Scheduling(u: set<string>, n: nat, all0: seq<Parent>, all: seq<Parent>,
                             from: seq<nat>, inst: Instances, current: Parent, j: nat) {
    0 < n <= |all0| && all0 <= all && all[n - 1] == current &&
    Walk(u, all, from, n, inst) && Closed(all, n - 1, inst) && Reached(all, current.obj, j, inst) &&
    (all == all0 || |u - Keys(all)| < |u - Keys(all0)|) && |u - Keys(all)| <= |u - Keys(all0)|
  }

  /** Queueing a parent that is neither visited nor queued. */
  lemma Push(u: set<string>, order: seq<Parent>, queue: seq<Parent>, all0: seq<Parent>, all: seq<Parent>,
             from: seq<nat>, inst: Instances, current: Parent, j: nat, p: Parent)
    requires all == order + queue && Scheduling(u, |order|, all0, all, from, inst, current, j)
    requires ParentsWithin(current.obj, u)
    requires j < |ParentKeys(current.obj)| && ParentKeys(current.obj)[j] == Some(p.key) && p.key in inst && inst[p.key] == p.obj
    requires p.obj.sha1 !in Hashes(order) && p.key !in Keys(queue)
    ensures Scheduling(u, |order|, all0, all + [p], from + [|order| - 1], inst, current, j + 1)
  {
    assert order[|order| - 1] == current;
    PushStep(u, order, queue, from, inst, current, j, p);
    ReachedPush(order, queue, inst, current, j, p);
    ClosedGrows(all, all + [p], |order| - 1, inst, inst);
    assert (all + [p])[|order| - 1] == current;
  }

  /** Passing over a parent visited by hash or queued by key. */
  lemma Skip(u: set<string>, order: seq<Parent>, queue: seq<Parent>, all0: seq<Parent>, all: seq<Parent>,
             from: seq<nat>, inst: Instances, current: Parent, j: nat, p: Parent)
    requires all == order + queue && Scheduling(u, |order|, all0, all, from, inst, current, j)
    requires j < |ParentKeys(current.obj)| && ParentKeys(current.obj)[j] == Some(p.key) && p.key in inst && inst[p.key] == p.obj
    requires p.obj.sha1 in Hashes(order) || p.key in Keys(queue)
    ensures Scheduling(u, |order|, all0, all, from, inst, current, j + 1)
  {
    SkipStep(order, queue, inst, current, j, p);
  }

  /** One parent dealt with: queued when neither visited nor queued,
      passed over otherwise. */
  lemma ScheduleParent(u: set<string>, order: seq<Parent>, queue: seq<Parent>, queue2: seq<Parent>, all0: seq<Parent>,
                       from: seq<nat>, from2: seq<nat>, inst: Instances, current: Parent, j: nat, p: Parent, push: bool)
    requires Scheduling(u, |order|, all0, order + queue, from, inst, current, j) && ParentsWithin(current.obj, u)
    requires j < |ParentKeys(current.obj)| && ParentKeys(current.obj)[j] == Some(p.key) && p.key in inst && inst[p.key] == p.obj
    requires push <==> p.obj.sha1 !in Hashes(order) && p.key !in Keys(queue)
    requires queue2 == (if push then queue + [p] else queue) && from2 == (if push then from + [|order| - 1] else from)
    ensures Scheduling(u, |order|, all0, order + queue2, from2, inst, current, j + 1)
  {
    if push {
      Push(u, order, queue, all0, order + queue, from, inst, current, j, p);
      AppendAssoc(order, queue, p);
    } else {
      Skip(u, order, queue, all0, order + queue, from, inst, current, j, p);
    }
  }

  lemma AppendAssoc(a: seq<Parent>, b: seq<Parent>, p: Parent)
    ensures a + b + [p] == a + (b + [p])
  {
  }

  /** `visit_queue.push(parent) unless visited.has_key?(parent.sha1) ||
      visit_queue.include?(parent)` for each parent of the commit just
      visited, in order. Two instances are the same object exactly when
      they were asked for by the same key, so `include?` compares keys. */
  method Schedule<V>(inst: Instances, ghost u: set<string>, current: Parent, ps: seq<Parent>,
                     ghost order: seq<Parent>, queue0: seq<Parent>, visited: seq<(string, V)>, ghost from0: seq<nat>)
    returns (queue: seq<Parent>, ghost from: seq<nat>)
    requires |order| > 0 && order[|order| - 1] == current && KeySet(visited) == Hashes(order)
    requires FieldsOf(current.obj).Success? && |ps| == |ParentKeys(current.obj)| && Recorded(ps, ParentKeys(current.obj), 0, inst)
    requires ParentsWithin(current.obj, u)
    requires Walk(u, order + queue0, from0, |order|, inst)
    requires Closed(order + queue0, |order| - 1, inst)
    ensures Walk(u, order + queue, from, |order|, inst)
    ensures Closed(order + queue, |order|, inst)
    ensures queue0 <= queue
    ensures queue == queue0 || |u - Keys(order + queue)| < |u - Keys(order + queue0)|
  {
    queue := queue0;
    from := from0;
    ScheduleStart(u, order, queue0, from0, inst, current);
    var j := 0;
    while j < |ps|
      invariant j <= |ps| && Scheduling(u, |order|, order + queue0, order + queue, from, inst, current, j)
    {
      var p := ps[j];
      assert ParentKeys(current.obj)[j] == Some(p.key) && p.key in inst && inst[p.key] == p.obj;
      var push := !HasKey(visited, p.obj.sha1) && p.key !in Keys(queue);
      var queue2 := if push then queue + [p] else queue;
      ghost var from2 := if push then from + [|order| - 1] else from;
      ScheduleParent(u, order, queue, queue2, order + queue0, from, from2, inst, current, j, p, push);
      queue, from := queue2, from2;
      j := j + 1;
    }
    ScheduleEnd(u, order, queue0, queue, from, inst, current);
  }

  /** Before any parent is dealt with, the walk is in the scheduling state. */
  lemma ScheduleStart(u: set<string>, order: seq<Parent>, queue0: seq<Parent>, from0: seq<nat>, inst: Instances, current: Parent)
    requires |order| > 0 && order[|order| - 1] == current && FieldsOf(current.obj).Success?
    requires Walk(u, order + queue0, from0, |order|, inst) && Closed(order + queue0, |order| - 1, inst)
    ensures Scheduling(u, |order|, order + queue0, order + queue0, from0, inst, current, 0)
  {
    assert (order + queue0)[|order| - 1] == current;
    assert Reached(order + queue0, current.obj, 0, inst);
  }

  /** With every parent dealt with, the current commit is closed too and
      the queue only grew. */
  lemma ScheduleEnd(u: set<string>, order: seq<Parent>, queue0: seq<Parent>, queue: seq<Parent>, from: seq<nat>,
                    inst: Instances, current: Parent)
    requires Scheduling(u, |order|, order + queue0, order + queue, from, inst, current, |ParentKeys(current.obj)|)
    ensures Walk(u, order + queue, from, |order|, inst)
    ensures Closed(order + queue, |order|, inst)
    ensures queue0 <= queue
    ensures queue == queue0 || |u - Keys(order + queue)| < |u - Keys(order + queue0)|
  {
    ClosedStep(order + queue, |order|, inst);
    PrefixQueue(order, queue0, queue);
  }

  /** A longer walk from the same visited commits has the longer queue. */
  lemma PrefixQueue(order: seq<Parent>, queue0: seq<Parent>, queue: seq<Parent>)
    requires order + queue0 <= order + queue
    ensures queue0 <= queue && (queue == queue0 <==> order + queue == order + queue0)
  {
    assert |queue0| <= |queue|;
    forall i | 0 <= i < |queue0|
      ensures queue0[i] == queue[i]
    {
      assert (order + queue0)[|order| + i] == (order + queue)[|order| + i];
    }
    if order + queue == order + queue0 {
      assert queue == (order + queue)[|order|..];
    }
  }

  /** The last visited commit's parents all reached closes one more. */
  lemma ClosedStep(all: seq<Parent>, n: nat, inst: Instances)
    requires 0 < n <= |all| && Closed(all, n - 1, inst)
    requires Reached(all, all[n - 1].obj, |ParentKeys(all[n - 1].obj)|, inst)
    ensures Closed(all, n, inst)
  {
  }

  lemma KeysConcat(a: seq<Parent>, b: seq<Parent>)
    ensures Keys(a + b) == Keys(a) + Keys(b) && Hashes(a + b) == Hashes(a) + Hashes(b)
  {
    assert forall p :: p in a + b <==> p in a || p in b;
  }

  lemma KeysAppend(all: seq<Parent>, p: Parent)
    ensures Keys(all + [p]) == Keys(all) + {p.key} && Hashes(all + [p]) == Hashes(all) + {p.obj.sha1}
  {
    KeysConcat(all, [p]);
    assert Keys([p]) == {p.key} && Hashes([p]) == {p.obj.sha1};
  }

  /** A parent neither visited (by hash) nor queued (by key) has a key the
      walk has not asked for yet, because every asked-for key holds the
      instance that was visited or queued. */
  lemma PushFresh(order: seq<Parent>, queue: seq<Parent>, p: Parent, inst: Instances)
    requires InCache(order + queue, inst) && p.key in inst && inst[p.key] == p.obj
    requires p.obj.sha1 !in Hashes(order) && p.key !in Keys(queue)
    requires DistinctKeys(order + queue)
    ensures p.key !in Keys(order + queue) && DistinctKeys(order + queue + [p])
  {
    var all := order + queue;
    forall i | 0 <= i < |all|
      ensures all[i].key != p.key
    {
      if i < |order| {
        assert all[i] == order[i] && order[i] in order;
      } else {
        assert all[i] == queue[i - |order|];
        assert queue[i - |order|] in queue;
      }
    }
    var all2 := all + [p];
    forall a, b | 0 <= a < b < |all2|
      ensures all2[a].key != all2[b].key
    {
      assert all2[a] == all[a];
      if b < |all| { assert all2[b] == all[b]; }
    }
  }

  // ---------------------------------------------------------------------------
  // visit_ancestors

  /** The block `visit_ancestors` yields to: given a commit, its index in
      the walk, the instance cache and whatever state the block closes
      over, it gives its result (or raises), the cache and that state. */
  type Visitor<!S, V> = (GitObject, nat, Instances, S) -> (Result<V>, Instances, S)

  /** A block that only ever adds correctly loaded instances to the cache. */
  ghost predicate WellBehaved<S(!new), V>(h: Hooks, visit: Visitor<S, V>) {
    forall o, i, inst, s :: Cached(h, inst) ==>
      Extends(inst, visit(o, i, inst, s).1) && Cached(h, visit(o, i, inst, s).1)
  }

  /** The `visited` hash the walk builds: each visited commit's hash bound
      to the block's result for it, a later visit of the same hash
      replacing the earlier result in place. */
  function Collect<V>(order: seq<Parent>, values: seq<V>): (r: seq<(string, V)>)
    requires |values| == |order|
    ensures KeySet(r) == Hashes(order) && DistinctPairs(r)
    decreases |order|
  {
    if |order| == 0 then []
    else
      var n := |order| - 1;
      KeysAppend(order[..n], order[n]);
      assert order == order[..n] + [order[n]];
      Put(Collect(order[..n], values[..n]), order[n].obj.sha1, values[n])
  }

  lemma CollectSnoc<V>(order: seq<Parent>, values: seq<V>, p: Parent, v: V)
    requires |values| == |order|
    ensures Collect(order + [p], values + [v]) == Put(Collect(order, values), p.obj.sha1, v)
  {
    assert (order + [p])[..|order|] == order && (values + [v])[..|values|] == values;
  }

  /** Every value of the `visited` hash is the block's result for some
      visited commit. */
  lemma {:induction false} CollectValues<V>(order: seq<Parent>, values: seq<V>)
    requires |values| == |order|
    ensures forall k :: 0 <= k < |Collect(order, values)| ==> Collect(order, values)[k].1 in values
    decreases |order|
  {
    if |order| > 0 {
      var n := |order| - 1;
      var before := Collect(order[..n], values[..n]);
      CollectValues(order[..n], values[..n]);
      var key := order[n].obj.sha1;
      assert order[..n] + [order[n]] == order;
      var after := Put(before, key, values[n]);
      assert Collect(order, values) == after;
      PutPlaces(before, key, values[n]);
      forall k | 0 <= k < |after|
        ensures after[k].1 in values
      {
        if k < |before| && after[k] == before[k] {
          assert before[k].1 in values[..n];
        }
      }
    }
  }

  /** Each collected pair is a visited commit's hash with the value its
      visit gave. */
  lemma {:induction false} CollectPairs<V>(order: seq<Parent>, values: seq<V>, k: nat)
    requires |values| == |order| && k < |Collect(order, values)|
    ensures exists j :: 0 <= j < |order| && Collect(order, values)[k] == (order[j].obj.sha1, values[j])
    decreases |order|
  {
    var n := |order| - 1;
    var before := Collect(order[..n], values[..n]);
    var key := order[n].obj.sha1;
    assert order[..n] + [order[n]] == order;
    var after := Put(before, key, values[n]);
    assert Collect(order, values) == after;
    PutPlaces(before, key, values[n]);
    if after[k] != (key, values[n]) {
      assert k < |before| && after[k] == before[k] by {
        if key in KeySet(before) {
          var i :| 0 <= i < |before| && before[i].0 == key;
          assert after == before[i := (key, values[n])];
        }
      }
      CollectPairs(order[..n], values[..n], k);
      var j :| 0 <= j < n && before[k] == (order[..n][j].obj.sha1, values[..n][j]);
      assert after[k] == (order[j].obj.sha1, values[j]);
    }
  }

  /** The `k`-th commit visited was handed to the block with index `k`,
      the cache and state of `trace[k]`, and gave `values[k]`; the state it
      left is the next one's, and the cache it left grew into the next
      one's. */
  ghost predicate Visits<S, V>(visit: Visitor<S, V>, order: seq<Parent>, values: seq<V>, trace: seq<(Instances, S)>) {
    |values| == |order| && |trace| == |order| + 1 &&
    forall k :: 0 <= k < |order| ==> VisitedAt(visit, order[k].obj, k, values[k], trace[k], trace[k + 1])
  }

  ghost predicate VisitedAt<S, V>(visit: Visitor<S, V>, o: GitObject, k: nat, value: V, before: (Instances, S), after: (Instances, S)) {
    var res := visit(o, k, before.0, before.1);
    res.0 == Success(value) && res.2 == after.1 && Extends(res.1, after.0)
  }

  lemma VisitsAt<S, V>(visit: Visitor<S, V>, order: seq<Parent>, values: seq<V>, trace: seq<(Instances, S)>, k: nat)
    requires Visits(visit, order, values, trace) && k < |order|
    ensures VisitedAt(visit, order[k].obj, k, values[k], trace[k], trace[k + 1])
  {
  }

  lemma VisitsSnoc<S, V>(visit: Visitor<S, V>, order: seq<Parent>, values: seq<V>, trace: seq<(Instances, S)>,
                         p: Parent, v: V, next: (Instances, S))
    requires Visits(visit, order, values, trace)
    requires VisitedAt(visit, p.obj, |order|, v, trace[|order|], next)
    ensures Visits(visit, order + [p], values + [v], trace + [next])
  {
    var order2, values2, trace2 := order + [p], values + [v], trace + [next];
    forall k | 0 <= k < |order2|
      ensures VisitedAt(visit, order2[k].obj, k, values2[k], trace2[k], trace2[k + 1])
    {
      if k < |order| {
        assert order2[k] == order[k] && values2[k] == values[k] && trace2[k] == trace[k] && trace2[k + 1] == trace[k + 1];
      } else {
        assert order2[k] == p && values2[k] == v && trace2[k] == trace[|order|] && trace2[k + 1] == next;
      }
    }
  }

  lemma PopKeepsAll(order: seq<Parent>, queue: seq<Parent>)
    requires |queue| > 0
    ensures order + queue == order + [queue[0]] + queue[1..]
  {
    assert queue == [queue[0]] + queue[1..];
  }

  /** The invariant of the walk from `root` after visiting `order`, with
      `queue` scheduled. */
  ghost predicate Walking<S, V>(h: Hooks, u: set<string>, root: Parent, inst0: Instances, s0: S, visit: Visitor<S, V>,
                                order: seq<Parent>, queue: seq<Parent>, from: seq<nat>, visited: seq<(string, V)>,
                                values: seq<V>, trace: seq<(Instances, S)>, inst: Instances, s: S) {
    |order + queue| > 0 && (order + queue)[0] == root &&
    Walk(u, order + queue, from, |order|, inst) && Closed(order + queue, |order|, inst) &&
    Visits(visit, order, values, trace) && trace[0] == (inst0, s0) && trace[|order|] == (inst, s) &&
    visited == Collect(order, values)
  }

  /** The block keeps the cache well formed. */
  lemma VisitKeeps<S(!new), V>(h: Hooks, visit: Visitor<S, V>, o: GitObject, i: nat, inst: Instances, s: S)
    requires WellBehaved(h, visit) && Cached(h, inst)
    ensures Extends(inst, visit(o, i, inst, s).1) && Cached(h, visit(o, i, inst, s).1)
  {
  }

  lemma ExtendsTrans(a: Instances, b: Instances, c: Instances)
    requires Extends(a, b) && Extends(b, c)
    ensures Extends(a, c)
  {
  }

  /** The walk starts with the root queued and nothing visited. */
  lemma WalkStarts<S, V>(h: Hooks, u: set<string>, root: Parent, inst0: Instances, s0: S, visit: Visitor<S, V>)
    requires root.key in inst0 && inst0[root.key] == root.obj && root.key in u
    ensures Walking(h, u, root, inst0, s0, visit, [], [root], [0], [], [], [(inst0, s0)], inst0, s0)
  {
    assert [] + [root] == [root];
    assert Keys([root]) == {root.key};
  }

  /** Taking the head of the queue as the next visited commit leaves the
      walk's invariants in place, the new commit not yet closed, for any
      cache that grew. */
  lemma WalkPops(u: set<string>, order: seq<Parent>, queue: seq<Parent>, from: seq<nat>, inst: Instances, inst2: Instances)
    requires |queue| > 0 && Walk(u, order + queue, from, |order|, inst) && Closed(order + queue, |order|, inst)
    requires Extends(inst, inst2)
    ensures order + [queue[0]] + queue[1..] == order + queue
    ensures Walk(u, order + [queue[0]] + queue[1..], from, |order| + 1, inst2)
    ensures Closed(order + [queue[0]] + queue[1..], |order|, inst2)
    ensures queue[0].key in inst2 && inst2[queue[0].key] == queue[0].obj
  {
    var all := order + queue;
    PopKeepsAll(order, queue);
    InCacheGrows(all, inst, inst2);
    ClosedGrows(all, all, |order|, inst, inst2);
    assert all[|order|] == queue[0];
  }

  /** Once the parents of the last visited commit are scheduled, the
      walk's invariant holds of the new state. */
  lemma WalkAdvances<S, V>(h: Hooks, u: set<string>, root: Parent, inst0: Instances, s0: S, visit: Visitor<S, V>,
                           order: seq<Parent>, queue: seq<Parent>, from: seq<nat>, visited: seq<(string, V)>,
                           values: seq<V>, trace: seq<(Instances, S)>, inst: Instances, s: S)
    requires |order| > 0 && order[0] == root
    requires Walk(u, order + queue, from, |order|, inst) && Closed(order + queue, |order|, inst)
    requires Visits(visit, order, values, trace) && trace[0] == (inst0, s0) && trace[|order|] == (inst, s)
    requires visited == Collect(order, values)
    ensures Walking(h, u, root, inst0, s0, visit, order, queue, from, visited, values, trace, inst, s)
  {
    assert (order + queue)[0] == order[0];
  }

  /** With nothing left to visit, everything asked for was visited. */
  lemma WalkEnds<S, V>(h: Hooks, u: set<string>, root: Parent, inst0: Instances, s0: S, visit: Visitor<S, V>,
                       order: seq<Parent>, from: seq<nat>, visited: seq<(string, V)>,
                       values: seq<V>, trace: seq<(Instances, S)>, inst: Instances, s: S)
    requires Walking(h, u, root, inst0, s0, visit, order, [], from, visited, values, trace, inst, s)
    ensures |order| > 0 && order[0] == root && trace[|order|] == (inst, s)
    ensures DistinctKeys(order) && InCache(order, inst) && Grounded(order, from)
    ensures Closed(order, |order|, inst) && visited == Collect(order, values)
  {
    assert order + [] == order;
  }

  /** One pass of the walk's loop: `visit_queue.shift`, the block, the
      `visited` entry, and the parents scheduled. Unless something raises,
      the walk's invariant holds again, and either fewer keys of `u` are
      left unasked, or as many and the queue is shorter. */
  method VisitNext<S(!new), V>(h: Hooks, ghost u: set<string>, ghost root: Parent, ghost inst0: Instances, ghost s0: S,
                               visit: Visitor<S, V>, ghost order: seq<Parent>, queue: seq<Parent>, ghost from: seq<nat>,
                               visited: seq<(string, V)>, ghost values: seq<V>, ghost trace: seq<(Instances, S)>,
                               inst: Instances, s: S, index: nat)
    returns (r: Result<()>, ghost order2: seq<Parent>, queue2: seq<Parent>, ghost from2: seq<nat>,
             visited2: seq<(string, V)>, ghost values2: seq<V>, ghost trace2: seq<(Instances, S)>,
             inst2: Instances, s2: S)
    requires Bounded(h) && WellBehaved(h, visit) && u == Universe(h, root.key)
    requires |queue| > 0 && index == |order| && Extends(inst0, inst) && Cached(h, inst)
    requires Walking(h, u, root, inst0, s0, visit, order, queue, from, visited, values, trace, inst, s)
    ensures Extends(inst0, inst2) && Cached(h, inst2)
    ensures Visits(visit, order2, values2, trace2) && trace2[0] == (inst0, s0)
    ensures r.Success? ==> |order2| == index + 1
    ensures r.Success? ==> Walking(h, u, root, inst0, s0, visit, order2, queue2, from2, visited2, values2, trace2, inst2, s2)
    ensures r.Success? ==> |u - Keys(order2 + queue2)| < |u - Keys(order + queue)| ||
                           (|u - Keys(order2 + queue2)| == |u - Keys(order + queue)| && |queue2| < |queue|)
  {
    order2, queue2, from2, visited2, values2, trace2, inst2, s2 := order, queue, from, visited, values, trace, inst, s;
    var current := queue[0];
    var res := visit(current.obj, index, inst, s);
    VisitKeeps(h, visit, current.obj, index, inst, s);
    ExtendsTrans(inst0, inst, res.1);
    if res.0.Failure? {
      r, inst2, s2 := Failure(res.0.error), res.1, res.2;
      return;
    }
    var v := res.0.value;
    var parents := ParentsOf(h, res.1, current.obj);
    ExtendsTrans(inst, res.1, parents.1);
    ExtendsTrans(inst0, inst, parents.1);
    WalkPops(u, order, queue, from, inst, parents.1);
    ghost var next := (parents.1, res.2);
    VisitsSnoc(visit, order, values, trace, current, v, next);
    CollectSnoc(order, values, current, v);
    order2, values2, trace2 := order + [current], values + [v], trace + [next];
    queue2 := queue[1..];
    visited2 := Put(visited, current.obj.sha1, v);
    inst2, s2 := parents.1, res.2;
    if parents.0.Failure? {
      r := Failure(parents.0.error);
      return;
    }
    ParentsInUniverse(h, inst2, current.key, root.key);
    queue2, from2 := Schedule(inst2, u, current, parents.0.value, order2, queue2, visited2, from2);
    WalkAdvances(h, u, root, inst0, s0, visit, order2, queue2, from2, visited2, values2, trace2, inst2, s2);
    r := Success(());
  }

  /** `visit_ancestors`: breadth first from `root` (the commit itself),
      each commit is handed to the block with its index and its result
      recorded under its hash; then each of its parents not visited (by
      hash) nor queued (by identity, that is by key) is queued. A raise of
      the block or of `parents` ends the walk. On success every commit
      visited was the root or a parent of an earlier one, in breadth-first
      order, no instance was visited twice, and every parent of every
      visited commit was visited itself, or another instance of its hash
      was. */
  method VisitAncestors<S(!new), V>(h: Hooks, inst0: Instances, root: Parent, s0: S, visit: Visitor<S, V>)
    returns (r: Result<seq<(string, V)>>, inst: Instances, s: S,
             ghost order: seq<Parent>, ghost values: seq<V>, ghost trace: seq<(Instances, S)>, ghost from: seq<nat>)
    requires Bounded(h) && Cached(h, inst0) && WellBehaved(h, visit)
    requires root.key in inst0 && inst0[root.key] == root.obj
    ensures Extends(inst0, inst) && Cached(h, inst)
    ensures Visits(visit, order, values, trace) && trace[0] == (inst0, s0)
    ensures r.Success? ==> |order| > 0 && order[0] == root && trace[|order|] == (inst, s)
    ensures r.Success? ==> DistinctKeys(order) && InCache(order, inst) && Grounded(order, from)
    ensures r.Success? ==> Closed(order, |order|, inst)
    ensures r.Success? ==> r.value == Collect(order, values)
  {
    ghost var u := Universe(h, root.key);
    inst, s := inst0, s0;
    var queue := [root];
    var visited: seq<(string, V)> := [];
    var index := 0;
    order, values, trace, from := [], [], [(inst0, s0)], [0];
    WalkStarts(h, u, root, inst0, s0, visit);
    while |queue| > 0
      invariant index == |order|
      invariant Extends(inst0, inst) && Cached(h, inst)
      invariant Walking(h, u, root, inst0, s0, visit, order, queue, from, visited, values, trace, inst, s)
      decreases |u - Keys(order + queue)|, |queue|
    {
      var step;
      step, order, queue, from, visited, values, trace, inst, s :=
        VisitNext(h, u, root, inst0, s0, visit, order, queue, from, visited, values, trace, inst, s, index);
      if step.Failure? {
        r := Failure(step.error);
        return;
      }
      index := index + 1;
    }
    WalkEnds(h, u, root, inst0, s0, visit, order, from, visited, values, trace, inst, s);
    r := Success(visited);
  }

  /** Distinct keys: as many keys as pairs. */
  lemma {:induction false} DistinctCount<V>(pairs: seq<(string, V)>)
    requires DistinctPairs(pairs)
    ensures |KeySet(pairs)| == |pairs|
    decreases |pairs|
  {
    if |pairs| > 0 {
      PairsTail(pairs);
      DistinctCount(pairs[1..]);
    }
  }

  // ---------------------------------------------------------------------------
  // commit_count

  /** No block given: each commit is recorded with nil and nothing else
      happens. */
  function NoBlock(): (v: Visitor<(), ()>)
    ensures forall o, i, inst, s :: v(o, i, inst, s) == (Success(()), inst, s)
  {
    (o: GitObject, i: nat, inst: Instances, s: ()) => (Success(()), inst, s)
  }

  lemma NoBlockWellBehaved(h: Hooks)
    ensures WellBehaved(h, NoBlock())
  {
  }

  /** `commit_count`: `visit_ancestors.count`, the number of entries of the
      `visited` hash, that is of distinct hashes among the commits the walk
      visited; the walk visits `root` first, and every parent of a visited
      commit, so these are all the commits reachable from it. */
  method CommitCount(h: Hooks, inst0: Instances, root: Parent) returns (r: Result<nat>, inst: Instances, ghost order: seq<Parent>)
    requires Bounded(h) && Cached(h, inst0)
    requires root.key in inst0 && inst0[root.key] == root.obj
    ensures Extends(inst0, inst) && Cached(h, inst)
    ensures r.Success? ==> |order| > 0 && order[0] == root && DistinctKeys(order) && Closed(order, |order|, inst)
    ensures r.Success? ==> r.value == |Hashes(order)|
  {
    NoBlockWellBehaved(h);
    var visited, s;
    ghost var values, trace, from;
    visited, inst, s, order, values, trace, from := VisitAncestors(h, inst0, root, (), NoBlock());
    if visited.Failure? {
      return Failure(visited.error), inst, order;
    }
    DistinctCount(visited.value);
    r := Success(|visited.value|);
  }

  // ---------------------------------------------------------------------------
  // max_parents_count

  /** `{ sha1:, count: }`, the largest parent count seen so far. */
  datatype MaxSoFar = MaxSoFar(sha1: Option<string>, count: int)

  /** A commit with strictly more parents than the maximum so far becomes
      the new maximum; a tie keeps the earlier one. */
  function MaxStep(m: MaxSoFar, sha1: string, count: nat): (r: MaxSoFar)
    ensures r.count >= m.count && r.count >= count
    ensures r == m || r == MaxSoFar(Some(sha1), count)
  {
    if count > m.count then MaxSoFar(Some(sha1), count) else m
  }

  /** The block of `max_parents_count`: `commit.parents.count` (which may
      raise) against the maximum, answering the new count or nil. */
  function MaxVisit(h: Hooks, o: GitObject, inst: Instances, m: MaxSoFar): (r: (Result<Option<nat>>, Instances, MaxSoFar))
    ensures ParentsOf(h, inst, o).0.Failure? ==> r == (Failure(ParentsOf(h, inst, o).0.error), ParentsOf(h, inst, o).1, m)
    ensures r.0.Success? ==> FieldsOf(o).Success? && r.2 == MaxStep(m, o.sha1, |ParentKeys(o)|)
    ensures Extends(inst, r.1) && (Cached(h, inst) ==> Cached(h, r.1))
  {
    var ps := ParentsOf(h, inst, o);
    if ps.0.Failure? then (Failure(ps.0.error), ps.1, m)
    else
      var count := |ps.0.value|;
      (Success(if count > m.count then Some(count) else None), ps.1, MaxStep(m, o.sha1, count))
  }

  function MaxVisitor(h: Hooks): (v: Visitor<MaxSoFar, Option<nat>>)
    ensures forall o, i, inst, m :: v(o, i, inst, m) == MaxVisit(h, o, inst, m)
  {
    (o: GitObject, i: nat, inst: Instances, m: MaxSoFar) => MaxVisit(h, o, inst, m)
  }

  lemma MaxVisitorWellBehaved(h: Hooks)
    ensures WellBehaved(h, MaxVisitor(h))
  {
  }

  /** Reference: the maximum over a sequence of visited commits, folded
      from `{ sha1: nil, count: -1 }` in visiting order. */
  function MaxOf(ps: seq<Parent>): MaxSoFar
    decreases |ps|
  {
    if |ps| == 0 then MaxSoFar(None, -1)
    else MaxStep(MaxOf(ps[..|ps| - 1]), ps[|ps| - 1].obj.sha1, |ParentKeys(ps[|ps| - 1].obj)|)
  }

  /** The fold gives the largest parent count and the hash of the first
      commit that has it, or the start value for no commits. */
  lemma {:induction false} MaxOfIsMax(ps: seq<Parent>)
    ensures |ps| == 0 ==> MaxOf(ps) == MaxSoFar(None, -1)
    ensures forall k :: 0 <= k < |ps| ==> |ParentKeys(ps[k].obj)| <= MaxOf(ps).count
    ensures |ps| > 0 ==> exists k :: 0 <= k < |ps| && MaxOf(ps) == MaxSoFar(Some(ps[k].obj.sha1), |ParentKeys(ps[k].obj)|) &&
                                     forall j :: 0 <= j < k ==> |ParentKeys(ps[j].obj)| < MaxOf(ps).count
    decreases |ps|
  {
    if |ps| > 0 {
      var n := |ps| - 1;
      var init := ps[..n];
      MaxOfIsMax(init);
      var m := MaxOf(init);
      var c := |ParentKeys(ps[n].obj)|;
      assert MaxOf(ps) == MaxStep(m, ps[n].obj.sha1, c);
      forall k | 0 <= k < n
        ensures ps[k] == init[k]
      {
      }
      if c > m.count {
        forall j | 0 <= j < n
          ensures |ParentKeys(ps[j].obj)| < MaxOf(ps).count
        {
          assert ps[j] == init[j];
        }
      } else {
        var k :| 0 <= k < |init| && m == MaxSoFar(Some(init[k].obj.sha1), |ParentKeys(init[k].obj)|) &&
                 forall j :: 0 <= j < k ==> |ParentKeys(init[j].obj)| < m.count;
        assert ps[k] == init[k];
        forall j | 0 <= j < k
          ensures |ParentKeys(ps[j].obj)| < MaxOf(ps).count
        {
          assert ps[j] == init[j];
        }
      }
    }
  }

  /** The state the block of `max_parents_count` hands on after the first
      `k` visits is the fold over those commits. */
  lemma {:induction false} MaxTrace(h: Hooks, order: seq<Parent>, values: seq<Option<nat>>, trace: seq<(Instances, MaxSoFar)>, k: nat)
    requires Visits(MaxVisitor(h), order, values, trace) && trace[0].1 == MaxSoFar(None, -1) && k <= |order|
    ensures trace[k].1 == MaxOf(order[..k])
    decreases k
  {
    if k > 0 {
      MaxTrace(h, order, values, trace, k - 1);
      assert VisitedAt(MaxVisitor(h), order[k - 1].obj, k - 1, values[k - 1], trace[k - 1], trace[k]);
      assert order[..k][..k - 1] == order[..k - 1];
    }
  }

  /** `max_parents_count`: the walk with a block that keeps the largest
      parent count and the hash of the first commit with it. */
  method MaxParentsCount(h: Hooks, inst0: Instances, root: Parent) returns (r: Result<MaxSoFar>, inst: Instances, ghost order: seq<Parent>)
    requires Bounded(h) && Cached(h, inst0)
    requires root.key in inst0 && inst0[root.key] == root.obj
    ensures Extends(inst0, inst) && Cached(h, inst)
    ensures r.Success? ==> |order| > 0 && order[0] == root && DistinctKeys(order) && Closed(order, |order|, inst)
    ensures r.Success? ==> r.value == MaxOf(order)
  {
    MaxVisitorWellBehaved(h);
    var visited, m;
    ghost var values, trace, from;
    visited, inst, m, order, values, trace, from := VisitAncestors(h, inst0, root, MaxSoFar(None, -1), MaxVisitor(h));
    if visited.Failure? {
      return Failure(visited.error), inst, order;
    }
    MaxTrace(h, order, values, trace, |order|);
    assert order[..|order|] == order;
    r := Success(m);
  }

  // ---------------------------------------------------------------------------
  // validate_ancestors

  /** The block of `validate_ancestors`: `commit.validate`, with `fuel`
      Ruby stack frames to spare. */
  function ValidateVisitor(h: Hooks, fuel: nat): (v: Visitor<(), bool>)
    ensures forall o, i, inst, s :: v(o, i, inst, s) == (Validate(h, inst, o, fuel).0, Validate(h, inst, o, fuel).1, s)
  {
    (o: GitObject, i: nat, inst: Instances, s: ()) => var r := Validate(h, inst, o, fuel); (r.0, r.1, s)
  }

  lemma ValidateVisitorWellBehaved(h: Hooks, fuel: nat)
    ensures WellBehaved(h, ValidateVisitor(h, fuel))
  {
    forall o, i, inst, s | Cached(h, inst)
      ensures Cached(h, ValidateVisitor(h, fuel)(o, i, inst, s).1)
    {
      ValidateKeepsCache(h, inst, o, fuel);
    }
  }

  /** Validation only adds instances, so each cache of the walk grows
      into every later one. */
  lemma {:induction false} ValidateTraceGrows(h: Hooks, fuel: nat, order: seq<Parent>, values: seq<bool>, trace: seq<(Instances, ())>, k: nat, m: nat)
    requires Visits(ValidateVisitor(h, fuel), order, values, trace) && k <= m <= |order|
    ensures Extends(trace[k].0, trace[m].0)
    decreases m - k
  {
    if k < m {
      ValidateTraceGrows(h, fuel, order, values, trace, k + 1, m);
      assert VisitedAt(ValidateVisitor(h, fuel), order[k].obj, k, values[k], trace[k], trace[k + 1]);
    }
  }

  /** `validate_ancestors`: validates every commit the walk visits, then
      answers true. On success each visited commit validates, under the
      cache the walk leaves, without loading anything more. */
  method ValidateAncestors(h: Hooks, inst0: Instances, root: Parent, fuel: nat) returns (r: Result<bool>, inst: Instances, ghost order: seq<Parent>)
    requires Bounded(h) && Cached(h, inst0)
    requires root.key in inst0 && inst0[root.key] == root.obj
    ensures Extends(inst0, inst) && Cached(h, inst)
    ensures r.Success? ==> r.value && |order| > 0 && order[0] == root && DistinctKeys(order) && Closed(order, |order|, inst)
    ensures r.Success? ==> forall k :: 0 <= k < |order| ==> Validate(h, inst, order[k].obj, fuel) == (Success(true), inst)
  {
    ValidateVisitorWellBehaved(h, fuel);
    var visited, s;
    ghost var values, trace, from;
    visited, inst, s, order, values, trace, from := VisitAncestors(h, inst0, root, (), ValidateVisitor(h, fuel));
    if visited.Failure? {
      return Failure(visited.error), inst, order;
    }
    forall k | 0 <= k < |order|
      ensures Validate(h, inst, order[k].obj, fuel) == (Success(true), inst)
    {
      assert VisitedAt(ValidateVisitor(h, fuel), order[k].obj, k, values[k], trace[k], trace[k + 1]);
      ValidateTraceGrows(h, fuel, order, values, trace, k + 1, |order|);
      ValidateStable(h, trace[k].0, order[k].obj, fuel, inst);
    }
    r := Success(true);
  }

  /** `GitRepository#validate`: the head commit, loaded with blob data, and
      `validate_ancestors` on it; without a head commit, calling it on nil
      raises NoMethodError. */
  method ValidateRepository(h: Hooks, inst0: Instances, fuel: nat) returns (r: Result<bool>, inst: Instances)
    requires Bounded(h) && Cached(h, inst0)
    ensures Extends(inst0, inst) && Cached(h, inst)
    ensures h.head.None? ==> r == Failure(NoMethodError)
    ensures r.Success? ==> r.value && h.head.Some? && h.head.value in inst &&
                           Validate(h, inst, inst[h.head.value], fuel) == (Success(true), inst)
  {
    var head := HeadCommit(h, inst0, WithBlobData(Options(None, None)));
    inst := head.1;
    if head.0.Failure? {
      return Failure(head.0.error), inst;
    }
    if head.0.value.None? {
      return Failure(NoMethodError), inst;
    }
    var root := Parent(h.head.value, head.0.value.value);
    ghost var order;
    r, inst, order := ValidateAncestors(h, inst, root, fuel);
  }
}
