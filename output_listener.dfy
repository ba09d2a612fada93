// OutputListenerMultiplexer (src/output_listener.cpp): forwards each output
// event to every registered listener.
module OutputListeners {

  /** The three events forwarded. */
  datatype OutputEvent = OutputCreated(output: nat) | OutputUpdated(updated: nat, original: nat) | OutputDeleted(output: nat)

  /** How many times `x` occurs in `s`. */
  function Count(s: seq<nat>, x: nat): nat
  {
    if |s| == 0 then 0 else Count(s[..|s| - 1], x) + (if s[|s| - 1] == x then 1 else 0)
  }

  lemma CountAppend(s: seq<nat>, x: nat, y: nat)
    ensures Count(s + [y], x) == Count(s, x) + (if y == x then 1 else 0)
  {
    assert (s + [y])[..|s|] == s;
  }

  /** `s` with every occurrence of `x` taken out. */
  function Without(s: seq<nat>, x: nat): (r: seq<nat>)
    ensures x !in r && Count(r, x) == 0
    ensures forall y :: y != x ==> Count(r, y) == Count(s, y)
  {
    if |s| == 0 then []
    else
      var r := Without(s[..|s| - 1], x);
      if s[|s| - 1] == x then r
      else
        assert forall y :: Count(r + [s[|s| - 1]], y) == Count(r, y) + (if s[|s| - 1] == y then 1 else 0) by {
          forall y { CountAppend(r, y, s[|s| - 1]); }
        }
        r + [s[|s| - 1]]
  }

  class OutputListenerMultiplexer {
    var listeners: seq<nat>

    constructor()
      ensures listeners == []
    {
      listeners := [];
    }

    /** `register_listener` appends. */
    method RegisterListener(l: nat)
      modifies this
      ensures listeners == old(listeners) + [l]
    {
      listeners := listeners + [l];
    }

    /** `unregister_listener` as written: it appends the listener again. */
    method UnregisterListener(l: nat)
      modifies this
      ensures listeners == old(listeners) + [l]
    {
      listeners := listeners + [l];
    }

    /** `unregister_listener` as evidently intended: the listener is no longer told anything, and no other listener is affected. */
    method RemoveListener(l: nat)
      modifies this
      ensures listeners == Without(old(listeners), l)
      ensures Count(listeners, l) == 0 && forall y :: y != l ==> Count(listeners, y) == Count(old(listeners), y)
    {
      listeners := Without(listeners, l);
    }

    /**
     * `output_created`, `output_updated` and `output_deleted`: the event goes
     * to each listener in list order, once per entry. The listeners told are
     * returned in the order they were told.
     */
    method Forward(event: OutputEvent) returns (told: seq<nat>)
      ensures told == listeners
      ensures forall l :: Count(told, l) == Count(listeners, l)
    {
      told := [];
      var i := 0;
      while i < |listeners|
        invariant i <= |listeners| && told == listeners[..i]
      {
        told := told + [listeners[i]];
        i := i + 1;
      }
    }
  }

  /**
   * A listener registered and then unregistered, as written, is told of each
   * event twice more than before: registering and unregistering both append.
   */
  lemma RegisterThenUnregisterTellsTwice(s: seq<nat>, l: nat)
    ensures Count(s + [l] + [l], l) == Count(s, l) + 2
    ensures Count(Without(s + [l], l), l) == 0
  {
    CountAppend(s, l, l);
    CountAppend(s + [l], l, l);
  }
}
