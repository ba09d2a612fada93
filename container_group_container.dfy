// ContainerGroupContainer (src/container_group_container.cpp): the group of
// containers gathered in selecting mode. It holds weak references to its
// members and passes most requests on to each live member.
module ContainerGroups {
  import opened Wrappers
  import opened ObserverRegistrars

  /** Every member in `s` answers yes. */
  function AllTrue(s: seq<nat>, answers: nat -> bool): (r: bool)
    ensures r <==> forall i :: 0 <= i < |s| ==> answers(s[i])
  {
    if |s| == 0 then true else AllTrue(s[..|s| - 1], answers) && answers(s[|s| - 1])
  }

  class ContainerGroupContainer {
    /** Members, by container id; an expired member is `Expired`. */
    var containers: seq<Slot<nat>>
    /** The group's own identity, as `is_focused` compares it. */
    const self: nat

    constructor(self: nat)
      ensures containers == [] && this.self == self
    {
      containers := [];
      this.self := self;
    }

    /** `add` appends. */
    method Add(c: nat)
      modifies this
      ensures containers == old(containers) + [Live(c)]
    {
      containers := containers + [Live(c)];
    }

    /**
     * `remove`: erase–remove of the container and of every expired member;
     * the other members keep their order.
     */
    method Remove(c: nat)
      modifies this
      ensures containers == Survivors(old(containers), c, (n: nat) => n)
      ensures Live(c) !in containers && Expired !in containers
      ensures forall i :: 0 <= i < |old(containers)| && old(containers)[i].Live? && old(containers)[i].observer != c ==> old(containers)[i] in containers
    {
      var a, w := RemoveIf(containers, c, (n: nat) => n);
      containers := a[..w];
    }

    /**
     * `resize`, `toggle_fullscreen`, `move`, `move_by` and `move_to`: the
     * request goes to every live member in order (`&=` does not stop at a
     * refusal), and the group succeeds iff every member does, so an empty
     * group succeeds. `answers` is what each member's own operation returns.
     * The layout requests, `commit_changes`, `constrain` and the `handle_*`
     * forwarders make the same calls and ignore the answers.
     */
    method ForEachMember(answers: nat -> bool) returns (result: bool, called: seq<nat>)
      ensures called == LiveEntries(containers)
      ensures result <==> forall i :: 0 <= i < |called| ==> answers(called[i])
      ensures LiveEntries(containers) == [] ==> result
    {
      result := true;
      called := [];
      var i := 0;
      while i < |containers|
        invariant i <= |containers|
        invariant called == LiveEntries(containers[..i])
        invariant result == AllTrue(called, answers)
      {
        assert containers[..i + 1][..i] == containers[..i];
        if containers[i].Live? {
          assert (called + [containers[i].observer])[..|called|] == called;
          result := result && answers(containers[i].observer);
          called := called + [containers[i].observer];
        }
        i := i + 1;
      }
      assert containers[..i] == containers;
    }

    /** `is_focused`: the compositor's active container is this group. */
    function IsFocused(active: Option<nat>): (r: bool)
      ensures r <==> active.Some? && active.value == self
    {
      active == Some(self)
    }

    /**
     * The group's fixed answers: no restore state, no parent, no workspace,
     * no window, minimum size 0, never fullscreen, pinned or selectable.
     * `set_parent` and `handle_ready` throw, which is `ok == false` here.
     */
    method FixedAnswers() returns (restoreState: Option<nat>, minWidth: nat, minHeight: nat, fullscreen: bool,
                                   pinned: bool, pinnedSet: bool, selected: bool, setParentOk: bool, handleReadyOk: bool)
      ensures restoreState.None? && minWidth == 0 && minHeight == 0 && !fullscreen
      ensures !pinned && !pinnedSet && !selected && !setParentOk && !handleReadyOk
    {
      return None, 0, 0, false, false, false, false, false, false;
    }
  }
}
