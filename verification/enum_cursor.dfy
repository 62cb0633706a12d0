/** The cached cursor both versions of `MyEnumerator` keep (lib/my_enum_for.rb
    and lib/my_enum.rb): the values the wrapped method has yielded so far,
    in order, and the index of the current one, -1 before the first. The
    Fiber that runs the method is replaced by the whole finite sequence the
    method would yield; resuming it hands out the next value not cached yet,
    and once every value has been handed out it raises StopIteration. The
    operations here are written the same way in both files. */
module EnumCursor {

  import opened Results

  /** `source` is everything the method yields, `cache` the part fetched so
      far, `index` the cache index. */
  datatype Cursor<T> = Cursor(source: seq<T>, cache: seq<T>, index: int)

  /** The cache is a prefix of the source and the index is -1 or names a
      cached value. */
  ghost predicate Valid<T>(c: Cursor<T>) {
    |c.cache| <= |c.source| && c.cache == c.source[..|c.cache|] && -1 <= c.index < |c.cache|
  }

  /** A new enumerator: nothing fetched, index -1. */
  function Start<T>(source: seq<T>): (c: Cursor<T>)
    ensures Valid(c) && c.source == source
  {
    Cursor(source, [], -1)
  }

  /** `next_value_in_cache?`. */
  predicate NextInCache<T>(c: Cursor<T>) {
    c.index + 1 <= |c.cache| - 1
  }

  /** `next`: the cached value after the current one, if there is one;
      otherwise the Fiber is resumed for a new value, which is appended to
      the cache; a Fiber with nothing left raises StopIteration and nothing
      changes. */
  function Next<T>(c: Cursor<T>): (r: (Result<T>, Cursor<T>))
    requires Valid(c)
    ensures Valid(r.1) && r.1.source == c.source
    ensures r.0.Success? <==> c.index + 1 < |c.source|
    ensures r.0.Success? ==>
      r.0.value == c.source[c.index + 1] && r.1.index == c.index + 1 &&
      |r.1.cache| == (if c.index + 1 < |c.cache| then |c.cache| else |c.cache| + 1)
    ensures r.0.Failure? ==> r.0.error == StopIteration && r == (r.0, c)
  {
    if NextInCache(c) then
      (Success(c.cache[c.index + 1]), c.(index := c.index + 1))
    else if |c.cache| < |c.source| then
      var v := c.source[|c.cache|];
      assert c.cache + [v] == c.source[..|c.cache| + 1];
      (Success(v), c.(cache := c.cache + [v], index := c.index + 1))
    else
      (Failure(StopIteration), c)
  }

  /** `rewind`: back to index -1; the cache is kept. */
  function Rewind<T>(c: Cursor<T>): (r: Cursor<T>)
    requires Valid(c)
    ensures Valid(r) && r.source == c.source && r.cache == c.cache && r.index == -1
  {
    c.(index := -1)
  }

  /** `k` calls of `next` in a row, each one's result in order. */
  function Nexts<T>(c: Cursor<T>, k: nat): (r: (seq<Result<T>>, Cursor<T>))
    requires Valid(c)
    ensures |r.0| == k && Valid(r.1) && r.1.source == c.source
    decreases k
  {
    if k == 0 then ([], c)
    else
      var step := Next(c);
      var rest := Nexts(step.1, k - 1);
      ([step.0] + rest.0, rest.1)
  }

  function Max(a: int, b: int): int {
    if a < b then b else a
  }

  /** While values remain, `k` nexts hand out the source's values after the
      current one, in order, and fetch only what was not cached. */
  lemma {:induction false} NextsInOrder<T>(c: Cursor<T>, k: nat)
    requires Valid(c) && c.index + 1 + k <= |c.source|
    ensures var r := Nexts(c, k);
      (forall i :: 0 <= i < k ==> r.0[i] == Success(c.source[c.index + 1 + i])) &&
      r.1.index == c.index + k && |r.1.cache| == Max(|c.cache|, c.index + 1 + k)
    decreases k
  {
    if k > 0 {
      var step := Next(c);
      NextsInOrder(step.1, k - 1);
      var r := Nexts(c, k);
      assert r.0 == [step.0] + Nexts(step.1, k - 1).0;
      forall i | 0 <= i < k
        ensures r.0[i] == Success(c.source[c.index + 1 + i])
      {
        if i > 0 {
          assert r.0[i] == Nexts(step.1, k - 1).0[i - 1];
        }
      }
    }
  }

  /** A new enumerator's nexts return the source in order, and one more
      raises StopIteration. */
  lemma NextsFromStart<T>(source: seq<T>)
    ensures var r := Nexts(Start(source), |source|);
      (forall i :: 0 <= i < |source| ==> r.0[i] == Success(source[i])) &&
      r.1.cache == source && Next(r.1).0 == Failure(StopIteration)
  {
    NextsInOrder(Start(source), |source|);
  }

  /** After `rewind` the nexts replay the cache without fetching anything. */
  lemma RewindReplays<T>(c: Cursor<T>, k: nat)
    requires Valid(c) && k <= |c.cache|
    ensures var r := Nexts(Rewind(c), k);
      (forall i :: 0 <= i < k ==> r.0[i] == Success(c.cache[i])) &&
      r.1.cache == c.cache && r.1.index == k - 1
  {
    NextsInOrder(Rewind(c), k);
    var r := Nexts(Rewind(c), k);
    forall i | 0 <= i < k
      ensures r.0[i] == Success(c.cache[i])
    {
      assert c.cache[i] == c.source[..|c.cache|][i];
    }
  }

  /** `peek`: when the next value is not cached, `next` fetches it and the
      index is stepped back; then the value after the current one. */
  function Peek<T>(c: Cursor<T>): (r: (Result<T>, Cursor<T>))
    requires Valid(c)
    ensures Valid(r.1) && r.1.source == c.source && r.1.index == c.index
    ensures r.0 == Next(c).0 && r.1.cache == Next(c).1.cache
  {
    if !NextInCache(c) then
      var step := Next(c);
      if step.0.Failure? then (Failure(step.0.error), step.1)
      else
        var d := step.1.(index := step.1.index - 1);
        (Success(d.cache[d.index + 1]), d)
    else
      (Success(c.cache[c.index + 1]), c)
  }

  /** `loop do self.next end`: nexts until one raises StopIteration, which
      the loop swallows. `n` is how many succeeded. */
  method Exhaust<T>(c: Cursor<T>) returns (n: nat, d: Cursor<T>)
    requires Valid(c)
    ensures Valid(d) && d.source == c.source && d.cache == c.source
    ensures d.index == |c.source| - 1 && n == |c.source| - 1 - c.index
  {
    n := 0;
    d := c;
    var step := Next(d);
    while step.0.Success?
      invariant Valid(d) && d.source == c.source && step == Next(d)
      invariant n == d.index - c.index
      decreases |c.source| - d.index
    {
      d := step.1;
      n := n + 1;
      step := Next(d);
    }
  }

  /** `count`: the index is saved, the enumerator rewound and run to the
      end, and the index restored; the cache then holds the whole source. */
  method Count<T>(c: Cursor<T>) returns (n: int, d: Cursor<T>)
    requires Valid(c)
    ensures n == |c.source|
    ensures Valid(d) && d.source == c.source && d.cache == c.source && d.index == c.index
  {
    var saved := c.index;
    var k, e := Exhaust(Rewind(c));
    n := k;
    d := e.(index := saved);
  }

  /** `first`: rewind, then next. */
  function First<T>(c: Cursor<T>): (r: (Result<T>, Cursor<T>))
    requires Valid(c)
    ensures |c.source| > 0 ==> r.0 == Success(c.source[0]) && r.1.index == 0
    ensures |c.source| == 0 ==> r.0 == Failure(StopIteration) && r.1.index == -1
  {
    Next(Rewind(c))
  }
}
