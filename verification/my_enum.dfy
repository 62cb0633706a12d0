/** lib/my_enum.rb: the earlier `MyEnumerator`, which keeps its cache in a
    hash (`:data` and `:current_index`). `next`, `peek`, `count`, `rewind`
    and `first` are those of the shared cursor; here `current` is nil at
    index -1 instead of raising, `previous` may step back to -1, and there
    is no `self[index]`. */
module MyEnum {

  import opened Results
  import opened EnumCursor

  /** `current` (`current_cache_value`): nil at index -1, otherwise the
      cached value there. */
  function Current<T>(c: Cursor<T>): (r: Option<T>)
    requires Valid(c)
    ensures r.None? <==> c.index == -1
    ensures r.Some? ==> r.value == c.source[c.index]
  {
    if c.index == -1 then None else Some(c.cache[c.index])
  }

  /** `previous`: StopIteration at index -1; otherwise one step back and
      the value there, nil when that step reaches -1. */
  function Previous<T>(c: Cursor<T>): (r: (Result<Option<T>>, Cursor<T>))
    requires Valid(c)
    ensures Valid(r.1) && r.1.source == c.source && r.1.cache == c.cache
    ensures c.index == -1 ==> r == (Failure(StopIteration), c)
    ensures c.index == 0 ==> r == (Success(None), c.(index := -1))
    ensures c.index > 0 ==> r.0 == Success(Some(c.source[c.index - 1])) && r.1.index == c.index - 1
  {
    if c.index == -1 then (Failure(StopIteration), c)
    else
      var d := c.(index := c.index - 1);
      (Success(Current(d)), d)
  }

  /** `previous` undoes a `next`, back to the value that was current (nil
      before the first `next`). */
  lemma PreviousUndoesNext<T>(c: Cursor<T>)
    requires Valid(c) && Next(c).0.Success?
    ensures var back := Previous(Next(c).1);
      back.0 == Success(Current(c)) && back.1.index == c.index && back.1.cache == Next(c).1.cache
  {
  }

  /** `current` is nil before the first `next` and after `rewind`. */
  lemma NoCurrentAfterRewind<T>(c: Cursor<T>, source: seq<T>)
    requires Valid(c)
    ensures Current(Start(source)) == None && Current(Rewind(c)) == None
  {
  }

  /** `last`: run to the end, then `current`, nil for an empty source. */
  method Last<T>(c: Cursor<T>) returns (r: Option<T>, d: Cursor<T>)
    requires Valid(c)
    ensures Valid(d) && d.source == c.source && d.cache == c.source
    ensures |c.source| > 0 ==> r == Some(c.source[|c.source| - 1]) && d.index == |c.source| - 1
    ensures |c.source| == 0 ==> r == None
  {
    var _, e := Exhaust(c);
    d := e;
    r := Current(d);
  }
}
