// WorkspaceObserverRegistrar (src/workspace_observer.cpp): the observers told
// when a workspace is created, removed or focused. Unregistering compares
// observers by their id.
module WorkspaceObservers {
  import opened ObserverRegistrars

  /** A `WorkspaceObserver`: `handle` tells observers apart in the model; `id` is what the source compares. */
  datatype WorkspaceObserver = WorkspaceObserver(handle: nat, id: int)

  /** The workspace events an observer is told about. */
  datatype WorkspaceEvent =
    | Created(key: int)
    | Removed(key: int)
    | Focused(previousKey: int, currentKey: int)

  /** `NEXT_ID`, which nothing ever increments. */
  const NextId: int := 0

  /** The key `unregister_interest` compares. */
  function IdOf(o: WorkspaceObserver): int
  {
    o.id
  }

  /** The `WorkspaceObserver` constructor as written: every observer gets id 0. */
  function NewObserver(handle: nat): (o: WorkspaceObserver)
    ensures o.handle == handle && o.id == 0
  {
    WorkspaceObserver(handle, NextId)
  }

  /**
   * As written, unregistering the second of two registered observers takes
   * away the first one: both have id 0, so both match, and the single-slot
   * erase removes the slot at position 0.
   */
  lemma UnregisterRemovesOtherObserver(a: nat, b: nat)
    requires a != b
    ensures var s := [Live(NewObserver(a)), Live(NewObserver(b))];
      |Survivors(s, NewObserver(b).id, IdOf)| < |s|
      && ErasedOnce(s, NewObserver(b).id, IdOf) == [Live(NewObserver(b))]
      && LiveEntries(ErasedOnce(s, NewObserver(b).id, IdOf)) == [NewObserver(b)]
  {
    var s := [Live(NewObserver(a)), Live(NewObserver(b))];
    assert s[..1] == [Live(NewObserver(a))] && s[..1][..0] == [];
    assert Survivors(s, NewObserver(b).id, IdOf) == [];
    var r := ErasedOnce(s, NewObserver(b).id, IdOf);
    assert r == [Live(NewObserver(b))];
    assert r[..0] == [];
  }

  /** No two live observers share an id. */
  predicate DistinctIds(s: seq<Slot<WorkspaceObserver>>)
  {
    forall i, j :: 0 <= i < j < |s| && s[i].Live? && s[j].Live? ==> s[i].observer.id != s[j].observer.id
  }

  /**
   * With ids handed out one apart and the whole tail erased, unregistering an
   * observer leaves exactly the other live observers, in their order.
   */
  lemma DistinctIdsUnregisterOnlyThat(s: seq<Slot<WorkspaceObserver>>, o: WorkspaceObserver)
    requires DistinctIds(s) && Live(o) in s
    ensures o !in LiveEntries(Survivors(s, o.id, IdOf))
    ensures forall p :: p in LiveEntries(s) && p != o ==> p in LiveEntries(Survivors(s, o.id, IdOf))
  {
    forall p | p in LiveEntries(s) && p != o
      ensures p in LiveEntries(Survivors(s, o.id, IdOf))
    {
      var i :| 0 <= i < |s| && s[i] == Live(p);
      var j :| 0 <= j < |s| && s[j] == Live(o);
      assert i != j;
      assert p.id != o.id by {
        if i < j {} else {}
      }
    }
  }

  /** The source of observer ids as evidently intended: each new observer takes the next one. */
  class ObserverIds {
    var next: int

    constructor()
      ensures next == NextId
    {
      next := NextId;
    }

    method NewObserver(handle: nat) returns (o: WorkspaceObserver)
      modifies this
      ensures o == WorkspaceObserver(handle, old(next)) && next == old(next) + 1
    {
      o := WorkspaceObserver(handle, next);
      next := next + 1;
    }
  }

  class WorkspaceObserverRegistrar {
    var observers: seq<Slot<WorkspaceObserver>>

    constructor()
      ensures observers == []
    {
      observers := [];
    }

    /** `register_interest` appends. */
    method RegisterInterest(o: WorkspaceObserver)
      modifies this
      ensures observers == old(observers) + [Live(o)]
    {
      observers := observers + [Live(o)];
    }

    /**
     * `unregister_interest` as written: every expired entry and every observer
     * with the same id matches, and one slot is erased. A match is required.
     */
    method UnregisterInterest(o: WorkspaceObserver)
      requires exists j :: 0 <= j < |observers| && Matches(observers[j], o.id, IdOf)
      modifies this
      ensures |Survivors(old(observers), o.id, IdOf)| < |old(observers)|
      ensures observers == ErasedOnce(old(observers), o.id, IdOf)
    {
      var j :| 0 <= j < |observers| && Matches(observers[j], o.id, IdOf);
      MatchShrinks(observers, o.id, IdOf, j);
      var a, w := RemoveIf(observers, o.id, IdOf);
      observers := a[..w] + a[w + 1..];
      assert a[w + 1..] == a[w..][1..];
    }

    /**
     * `advise_created`, `advise_removed` and `advise_focused`: each live
     * observer, in registration order, is told about the event. The
     * observers told are returned.
     */
    method Advise(event: WorkspaceEvent) returns (told: seq<WorkspaceObserver>)
      ensures told == LiveEntries(observers)
    {
      told := [];
      var i := 0;
      while i < |observers|
        invariant i <= |observers|
        invariant told == LiveEntries(observers[..i])
      {
        assert observers[..i + 1][..i] == observers[..i];
        if observers[i].Live? {
          told := told + [observers[i].observer];
        }
        i := i + 1;
      }
      assert observers[..i] == observers;
    }
  }
}
