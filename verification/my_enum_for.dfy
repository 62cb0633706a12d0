/** lib/my_enum_for.rb: the later `MyEnumerator`. `next`, `peek`, `count`,
    `rewind` and `first` are those of the shared cursor; here `current` and
    `previous` raise InvalidEnumeratorIndex before the first value, and
    `self[index]` moves the cursor to any index, fetching as far as needed. */
module MyEnumFor {

  import opened Results
  import opened EnumCursor

  /** `current`: the cached value at the index, or InvalidEnumeratorIndex
      at index -1. */
  function Current<T>(c: Cursor<T>): (r: Result<T>)
    requires Valid(c)
    ensures r.Success? <==> c.index >= 0
    ensures r.Success? ==> r.value == c.source[c.index]
    ensures r.Failure? ==> r.error == InvalidEnumeratorIndex
  {
    if c.index < 0 then Failure(InvalidEnumeratorIndex) else Success(c.cache[c.index])
  }

  /** `previous`: InvalidEnumeratorIndex at index -1, StopIteration at the
      first value; otherwise one step back and the value there. */
  function Previous<T>(c: Cursor<T>): (r: (Result<T>, Cursor<T>))
    requires Valid(c)
    ensures Valid(r.1) && r.1.source == c.source && r.1.cache == c.cache
    ensures c.index < 0 ==> r == (Failure(InvalidEnumeratorIndex), c)
    ensures c.index == 0 ==> r == (Failure(StopIteration), c)
    ensures c.index > 0 ==> r.0 == Success(c.source[c.index - 1]) && r.1.index == c.index - 1
  {
    if c.index < 0 then (Failure(InvalidEnumeratorIndex), c)
    else if c.index == 0 then (Failure(StopIteration), c)
    else
      var d := c.(index := c.index - 1);
      (Current(d), d)
  }

  /** `previous` undoes a `next`: it returns to the value that was current
      and to its index, keeping whatever `next` fetched. */
  lemma PreviousUndoesNext<T>(c: Cursor<T>)
    requires Valid(c) && c.index >= 0 && Next(c).0.Success?
    ensures var back := Previous(Next(c).1);
      back.0 == Current(c) && back.1.index == c.index && back.1.cache == Next(c).1.cache
  {
  }

  /** `last`: run to the end, then `current`, which raises for an empty
      source. */
  method Last<T>(c: Cursor<T>) returns (r: Result<T>, d: Cursor<T>)
    requires Valid(c)
    ensures Valid(d) && d.source == c.source && d.cache == c.source
    ensures |c.source| > 0 ==> r == Success(c.source[|c.source| - 1]) && d.index == |c.source| - 1
    ensures |c.source| == 0 ==> r == Failure(InvalidEnumeratorIndex)
  {
    var _, e := Exhaust(c);
    d := e;
    r := Current(d);
  }

  /** `self[index]`: a negative index raises at once. A cached index
      becomes the current one. Otherwise the cursor is put on the last
      cached value and `next` is called `index - cache.count + 1` times; a
      StopIteration on the way becomes InvalidEnumeratorIndex, with the
      cursor left at the end of the source. */
  method At<T>(c: Cursor<T>, index: int) returns (r: Result<T>, d: Cursor<T>)
    requires Valid(c)
    ensures Valid(d) && d.source == c.source
    ensures 0 <= index < |c.source| ==> r == Success(c.source[index]) && d.index == index
    ensures index < 0 ==> r == Failure(InvalidEnumeratorIndex) && d == c
    ensures index >= |c.source| ==>
      r == Failure(InvalidEnumeratorIndex) && d.cache == c.source && d.index == |c.source| - 1
  {
    if index < 0 {
      return Failure(InvalidEnumeratorIndex), c;
    }
    if index < |c.cache| {
      d := c.(index := index);
      r := Current(d);
      return;
    }
    d := c.(index := |c.cache| - 1);
    var steps := index - |c.cache| + 1;
    var j := 0;
    while j < steps
      invariant 0 <= j <= steps
      invariant Valid(d) && d.source == c.source
      invariant |d.cache| == |c.cache| + j && d.index == |d.cache| - 1
    {
      var step := Next(d);
      if step.0.Failure? {
        return Failure(InvalidEnumeratorIndex), d;
      }
      d := step.1;
      j := j + 1;
    }
    r := Current(d);
  }
}
