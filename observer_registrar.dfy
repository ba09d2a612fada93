// ObserverRegistrar (src/observer_registrar.h): a list of weak references to
// observers. An entry is either a live observer or an expired one.
module ObserverRegistrars {

  datatype Slot<T> = Live(observer: T) | Expired

  /** The removal test of `unregister_interest`: expired entries, and entries whose key is the one given. */
  predicate Matches<T, K(==)>(s: Slot<T>, x: K, key: T -> K)
  {
    s.Expired? || key(s.observer) == x
  }

  /** The entries `remove_if` keeps, in their order. */
  function Survivors<T, K(==)>(s: seq<Slot<T>>, x: K, key: T -> K): (r: seq<Slot<T>>)
    ensures |r| <= |s|
    ensures forall i :: 0 <= i < |r| ==> !Matches(r[i], x, key) && r[i] in s
    ensures forall i :: 0 <= i < |s| && !Matches(s[i], x, key) ==> s[i] in r
  {
    if |s| == 0 then []
    else Survivors(s[..|s| - 1], x, key) + (if Matches(s[|s| - 1], x, key) then [] else [s[|s| - 1]])
  }

  /** The live entries, in order: the ones a loop that locks each entry reaches. */
  function LiveEntries<T(!new)>(s: seq<Slot<T>>): (r: seq<T>)
    ensures |r| <= |s|
    ensures forall o :: o in r <==> Live(o) in s
  {
    if |s| == 0 then []
    else
      var r := LiveEntries(s[..|s| - 1]);
      assert s == s[..|s| - 1] + [s[|s| - 1]];
      if s[|s| - 1].Live? then r + [s[|s| - 1].observer] else r
  }

  /** Number of entries the test matches. */
  function MatchCount<T, K(==)>(s: seq<Slot<T>>, x: K, key: T -> K): nat
  {
    if |s| == 0 then 0
    else MatchCount(s[..|s| - 1], x, key) + (if Matches(s[|s| - 1], x, key) then 1 else 0)
  }

  /** Every entry is either kept or matched. */
  lemma {:induction false} SurvivorsCount<T, K>(s: seq<Slot<T>>, x: K, key: T -> K)
    ensures |Survivors(s, x, key)| + MatchCount(s, x, key) == |s|
  {
    if |s| > 0 {
      SurvivorsCount(s[..|s| - 1], x, key);
    }
  }

  /** A matching entry means something for `remove_if` to take out. */
  lemma {:induction false} MatchShrinks<T, K>(s: seq<Slot<T>>, x: K, key: T -> K, j: nat)
    requires j < |s| && Matches(s[j], x, key)
    ensures |Survivors(s, x, key)| < |s|
  {
    if j == |s| - 1 {
      SurvivorsCount(s[..|s| - 1], x, key);
    } else {
      MatchShrinks(s[..|s| - 1], x, key, j);
    }
  }

  /**
   * What `remove_if` leaves behind its new end: an entry it matched stays
   * where it was; an entry it kept has been moved out and is left empty.
   */
  function Cleared<T, K(==)>(s: seq<Slot<T>>, x: K, key: T -> K): (r: seq<Slot<T>>)
    ensures |r| == |s|
  {
    seq(|s|, j requires 0 <= j < |s| => if Matches(s[j], x, key) then s[j] else Expired)
  }

  /**
   * `std::remove_if` over the vector: the kept entries are moved, in order, to
   * the front; `w` is the new logical end, and behind it are the entries as
   * `Cleared` describes them.
   */
  method RemoveIf<T, K(==)>(s: seq<Slot<T>>, x: K, key: T -> K) returns (a: seq<Slot<T>>, w: nat)
    ensures w == |Survivors(s, x, key)| && |a| == |s|
    ensures a[..w] == Survivors(s, x, key) && a[w..] == Cleared(s[w..], x, key)
  {
    a := s;
    w := 0;
    var i := 0;
    while i < |a|
      invariant w <= i <= |a| == |s|
      invariant RemoveIfState(s, x, key, a, w, i)
    {
      if !Matches(a[i], x, key) {
        var a' := if w != i then a[w := a[i]][i := Expired] else a;
        KeepStep(s, x, key, a, w, i, a');
        a := a';
        w := w + 1;
      } else {
        MatchStep(s, x, key, a, w, i);
      }
      i := i + 1;
    }
    assert s[..i] == s;
    assert a[w..] == Cleared(s[w..], x, key);
  }

  /** The loop invariant of `RemoveIf` after `i` entries, with `w` kept so far. */
  ghost predicate RemoveIfState<T, K>(s: seq<Slot<T>>, x: K, key: T -> K, a: seq<Slot<T>>, w: nat, i: nat)
    requires w <= i <= |a| == |s|
  {
    a[..w] == Survivors(s[..i], x, key) && a[i..] == s[i..]
    && forall j :: w <= j < i ==> a[j] == (if Matches(s[j], x, key) then s[j] else Expired)
  }

  /** Keeping entry `i`: it moves to the new end, and its old slot is left empty when it moved. */
  lemma KeepStep<T, K>(s: seq<Slot<T>>, x: K, key: T -> K, a: seq<Slot<T>>, w: nat, i: nat, a': seq<Slot<T>>)
    requires w <= i < |a| == |s| && RemoveIfState(s, x, key, a, w, i) && !Matches(a[i], x, key)
    requires a' == if w != i then a[w := a[i]][i := Expired] else a
    ensures |a'| == |a| && RemoveIfState(s, x, key, a', w + 1, i + 1)
  {
    assert s[..i + 1][..i] == s[..i];
    assert a[i] == s[i] by { assert a[i..][0] == s[i..][0]; }
    assert a'[..w + 1] == a[..w] + [s[i]];
    assert a'[i + 1..] == a[i + 1..] by { assert a[i + 1..] == a[i..][1..]; }
    assert a[i + 1..] == s[i + 1..] by { assert s[i + 1..] == s[i..][1..]; assert a[i + 1..] == a[i..][1..]; }
  }

  /** Skipping a matched entry `i`: it stays where it is. */
  lemma MatchStep<T, K>(s: seq<Slot<T>>, x: K, key: T -> K, a: seq<Slot<T>>, w: nat, i: nat)
    requires w <= i < |a| == |s| && RemoveIfState(s, x, key, a, w, i) && Matches(a[i], x, key)
    ensures RemoveIfState(s, x, key, a, w, i + 1)
  {
    assert s[..i + 1][..i] == s[..i];
    assert a[i] == s[i] by { assert a[i..][0] == s[i..][0]; }
    assert a[i + 1..] == s[i + 1..] by { assert s[i + 1..] == s[i..][1..]; assert a[i + 1..] == a[i..][1..]; }
  }

  /**
   * `observers.erase(remove_if(...))`: `erase` is given one iterator, so it
   * takes away only the slot at the new end; the entries behind it stay.
   */
  function ErasedOnce<T, K(==)>(s: seq<Slot<T>>, x: K, key: T -> K): (r: seq<Slot<T>>)
    requires |Survivors(s, x, key)| < |s|
    ensures |r| == |s| - 1
  {
    var k := |Survivors(s, x, key)|;
    Survivors(s, x, key) + Cleared(s[k + 1..], x, key)
  }

  /** With exactly one matching entry, the single erase does remove every match. */
  lemma OneMatchErasesAll<T, K>(s: seq<Slot<T>>, x: K, key: T -> K)
    requires MatchCount(s, x, key) == 1
    ensures |Survivors(s, x, key)| < |s| && ErasedOnce(s, x, key) == Survivors(s, x, key)
  {
    SurvivorsCount(s, x, key);
  }

  /** Registered twice, an observer is still registered after unregistering it once. */
  lemma DuplicateSurvivesErase(o: nat)
    ensures var s := [Live(o), Live(o)];
      |Survivors(s, o, (n: nat) => n)| < |s| && ErasedOnce(s, o, (n: nat) => n) == [Live(o)]
  {
    var s := [Live(o), Live(o)];
    var id := (n: nat) => n;
    assert s[..1] == [Live(o)] && s[..1][..0] == [];
    assert Survivors(s, o, id) == [];
  }

  /** `ObserverRegistrar<T>`, observers compared by identity. */
  class ObserverRegistrar {
    var observers: seq<Slot<nat>>

    constructor()
      ensures observers == []
    {
      observers := [];
    }

    /** `register_interest` appends. */
    method RegisterInterest(o: nat)
      modifies this
      ensures observers == old(observers) + [Live(o)]
    {
      observers := observers + [Live(o)];
    }

    /**
     * `unregister_interest` as written: one slot erased at the end of the
     * kept entries. With no matching entry the erase would be at `end()`,
     * which is undefined, so a match is required.
     */
    method UnregisterInterest(o: nat)
      requires exists j :: 0 <= j < |observers| && Matches(observers[j], o, (n: nat) => n)
      modifies this
      ensures |Survivors(old(observers), o, (n: nat) => n)| < |old(observers)|
      ensures observers == ErasedOnce(old(observers), o, (n: nat) => n)
    {
      var id := (n: nat) => n;
      var j :| 0 <= j < |observers| && Matches(observers[j], o, id);
      MatchShrinks(observers, o, id, j);
      var a, w := RemoveIf(observers, o, id);
      observers := a[..w] + a[w + 1..];
      assert a[w + 1..] == a[w..][1..];
    }

    /**
     * `unregister_interest` as evidently intended, erasing from the new end
     * to the end: the observer is gone, expired entries are dropped, and
     * every other observer keeps its place in the order.
     */
    method UnregisterAll(o: nat)
      modifies this
      ensures observers == Survivors(old(observers), o, (n: nat) => n)
      ensures Live(o) !in observers && Expired !in observers
    {
      var a, w := RemoveIf(observers, o, (n: nat) => n);
      observers := a[..w];
    }
  }
}
