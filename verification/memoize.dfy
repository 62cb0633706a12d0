/** memoize.rb: `remember` wraps a method so that its result is stored per
    method name, per receiver (its `object_id`) and per argument list, and
    returned from the store on every later call with the same receiver and
    arguments. The wrapped method is a function of the receiver and the
    arguments; raising is its failure. */
module Memoize {

  import opened Results

  /** Where a result is stored: `memory[object_id][args]` of the `memory`
      hash that belongs to one method name. */
  datatype Key<A> = Key(name: string, receiver: int, args: A)

  type Memory<A(==), V> = map<Key<A>, V>

  /** The outcome of one wrapped call: the result, the store afterwards, and
      whether the original method ran. */
  datatype Outcome<A(==), V> = Outcome(result: Result<V>, memory: Memory<A, V>, ran: bool)

  /** The wrapped method: a stored result is returned as it is (the test is
      `has_key?`, so nil and false are found too); otherwise the original
      runs and a result it returns is stored, while a raise stores nothing. */
  function Call<A(==), V>(memory: Memory<A, V>, original: (int, A) -> Result<V>, name: string, receiver: int, args: A): (o: Outcome<A, V>)
    ensures Key(name, receiver, args) in memory ==> o == Outcome(Success(memory[Key(name, receiver, args)]), memory, false)
    ensures Key(name, receiver, args) !in memory ==> o.ran && o.result == original(receiver, args)
    ensures o.result.Success? ==> Key(name, receiver, args) in o.memory && o.memory[Key(name, receiver, args)] == o.result.value
    ensures o.result.Failure? ==> o.memory == memory
    ensures forall k :: k in memory ==> k in o.memory && o.memory[k] == memory[k]
    ensures forall k :: k in o.memory && k != Key(name, receiver, args) ==> k in memory
  {
    var key := Key(name, receiver, args);
    if key in memory then Outcome(Success(memory[key]), memory, false)
    else
      var r := original(receiver, args);
      if r.Success? then Outcome(r, memory[key := r.value], true)
      else Outcome(r, memory, true)
  }

  /** The store agrees with the original method under `name`: every stored
      result is what the original returns for that receiver and those
      arguments. */
  ghost predicate Faithful<A, V>(memory: Memory<A, V>, original: (int, A) -> Result<V>, name: string) {
    forall k :: k in memory && k.name == name ==> original(k.receiver, k.args) == Success(memory[k])
  }

  /** A call after a successful call with the same receiver and arguments
      returns the same result without running the original. */
  lemma SecondCallIsRemembered<A, V>(memory: Memory<A, V>, original: (int, A) -> Result<V>, name: string, receiver: int, args: A)
    requires Call(memory, original, name, receiver, args).result.Success?
    ensures var first := Call(memory, original, name, receiver, args);
            var second := Call(first.memory, original, name, receiver, args);
            !second.ran && second.result == first.result && second.memory == first.memory
  {
  }

  /** A stored store keeps agreeing with the original, and then a wrapped
      call returns exactly what the original returns: remembering changes
      no result. */
  lemma CallIsTransparent<A, V>(memory: Memory<A, V>, original: (int, A) -> Result<V>, name: string, receiver: int, args: A)
    requires Faithful(memory, original, name)
    ensures var o := Call(memory, original, name, receiver, args);
            o.result == original(receiver, args) && Faithful(o.memory, original, name)
  {
  }

  /** nil and false are results like any other: once stored, they are
      returned without running the original again. */
  lemma FalsyResultsAreRemembered(memory: Memory<int, Option<bool>>, original: (int, int) -> Result<Option<bool>>, name: string, receiver: int, args: int)
    requires original(receiver, args) == Success(None) || original(receiver, args) == Success(Some(false))
    requires Key(name, receiver, args) !in memory
    ensures var first := Call(memory, original, name, receiver, args);
            first.ran && first.result == original(receiver, args) &&
            var second := Call(first.memory, original, name, receiver, args);
            !second.ran && second.result == original(receiver, args)
  {
  }

  /** A stored result answers only its own method name, receiver and
      argument list: a call that differs in any of them runs the original. */
  lemma SeparateStores<A, V>(memory: Memory<A, V>, original: (int, A) -> Result<V>, name: string, receiver: int, args: A,
                                 name2: string, receiver2: int, args2: A)
    requires memory == map[]
    requires name2 != name || receiver2 != receiver || args2 != args
    ensures var first := Call(memory, original, name, receiver, args);
            Call(first.memory, original, name2, receiver2, args2).ran
  {
  }

  /** A raising call stores nothing, so the next call runs the original
      again. */
  lemma FailureIsNotRemembered<A, V>(memory: Memory<A, V>, original: (int, A) -> Result<V>, name: string, receiver: int, args: A)
    requires Key(name, receiver, args) !in memory
    requires original(receiver, args).Failure?
    ensures var first := Call(memory, original, name, receiver, args);
            Call(first.memory, original, name, receiver, args).ran
  {
  }
}
