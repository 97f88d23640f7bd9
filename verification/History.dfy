/** What a history of events says now: something was set by an event and not cleared by any later one. */
module History {

  /** Whether an event sets or clears may depend on what came before it. */
  ghost predicate Stands<E>(events: seq<E>, sets: (seq<E>, E) -> bool, clears: (seq<E>, E) -> bool) {
    exists i :: 0 <= i < |events| && sets(events[..i], events[i])
                && forall j :: i < j < |events| ==> !clears(events[..j], events[j])
  }

  lemma NothingStands<E>(sets: (seq<E>, E) -> bool, clears: (seq<E>, E) -> bool)
    ensures !Stands([], sets, clears)
  {
  }

  /** One more event. */
  lemma StandsStep<E>(front: seq<E>, last: E, sets: (seq<E>, E) -> bool, clears: (seq<E>, E) -> bool)
    ensures Stands(front + [last], sets, clears) <==>
            sets(front, last) || (Stands(front, sets, clears) && !clears(front, last))
  {
    var events := front + [last];
    assert events[..|front|] == front && events[|front|] == last;
    forall i | 0 <= i < |front|
      ensures events[..i] == front[..i] && events[i] == front[i]
    {
    }
    if sets(front, last) {
      assert sets(events[..|front|], events[|front|]);
    } else if Stands(front, sets, clears) && !clears(front, last) {
      var i :| 0 <= i < |front| && sets(front[..i], front[i])
               && forall j :: i < j < |front| ==> !clears(front[..j], front[j]);
      assert sets(events[..i], events[i]);
      forall j | i < j < |events|
        ensures !clears(events[..j], events[j])
      {
        if j < |front| {
          assert !clears(front[..j], front[j]);
        }
      }
    }
    if Stands(events, sets, clears) {
      var i :| 0 <= i < |events| && sets(events[..i], events[i])
               && forall j :: i < j < |events| ==> !clears(events[..j], events[j]);
      if i < |front| {
        assert sets(front[..i], front[i]) && !clears(events[..|front|], events[|front|]);
        forall j | i < j < |front|
          ensures !clears(front[..j], front[j])
        {
          assert !clears(events[..j], events[j]);
        }
      }
    }
  }
}
