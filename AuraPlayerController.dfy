/**
 * The player controller's hover tracking, as the object the game updates in place.
 *
 * The engine calls PlayerTick once per frame and PlayerTick calls CursorTrace. The
 * cursor line trace itself and the resolution of the hit actor to an enemy handle are
 * done by the engine; here their outcome is the `hit` argument. The highlight and
 * un-highlight calls on the enemies are recorded, in order, in the ghost log `calls`.
 */
module AuraPlayerController {
  import opened Wrappers
  import opened CursorHover

  class PlayerController {
    /** The enemy hovered before the latest blocking trace, or null. */
    var lastHoveredActor: Option<ActorId>
    /** The enemy hovered at the latest blocking trace, or null. */
    var currentHoveredActor: Option<ActorId>
    /** Every HighlightActor / UnHighlightActor call made so far, oldest first. */
    ghost var calls: seq<Event>

    /** The two hover fields as a value. */
    ghost function State(): Hover
      reads this
    {
      Hover(lastHoveredActor, currentHoveredActor)
    }

    /**
     * The calls made so far are never redundant and leave exactly the currently hovered
     * enemy highlighted, if there is one.
     */
    ghost predicate Valid()
      reads this
    {
      Replay({}, calls) == Some(Lit(currentHoveredActor))
    }

    /** A new controller hovers nothing and has made no call. */
    constructor()
      ensures Valid()
      ensures State() == Initial && calls == []
    {
      lastHoveredActor := None;
      currentHoveredActor := None;
      calls := [];
    }

    /**
     * One cursor trace. Without a blocking hit nothing happens. Otherwise the current
     * handle is shifted into the last one, the new target is stored, and the calls of
     * cases A to E are made.
     */
    method CursorTrace(hit: Hit)
      requires Valid()
      modifies this
      ensures Valid()
      ensures hit.None? ==> State() == old(State()) && calls == old(calls)
      ensures hit.Some? ==>
                lastHoveredActor == old(currentHoveredActor) &&
                currentHoveredActor == hit.value
      ensures State() == Tick(old(State()), hit).state
      ensures calls == old(calls) + Tick(old(State()), hit).events
    {
      if hit.None? {
        return;
      }
      ghost var before := calls;
      lastHoveredActor := currentHoveredActor;
      currentHoveredActor := hit.value;
      if lastHoveredActor == None {
        if currentHoveredActor != None {
          // Case B
          calls := calls + [Highlight(currentHoveredActor.value)];
        }
      } else {
        if currentHoveredActor == None {
          // Case C
          calls := calls + [Unhighlight(lastHoveredActor.value)];
        } else {
          if lastHoveredActor != currentHoveredActor {
            // Case D
            calls := calls + [Unhighlight(lastHoveredActor.value)];
            calls := calls + [Highlight(currentHoveredActor.value)];
          }
        }
      }
      ghost var old' := Hover(old(lastHoveredActor), lastHoveredActor);
      assert calls == before + Tick(old', hit).events;
      TickKeepsHighlightInStep(old', hit);
      ReplayConcat({}, before, Tick(old', hit).events);
    }

    /** A run of frames: PlayerTick once per trace result, in order. */
    method PlayerTicks(hits: seq<Hit>)
      requires Valid()
      modifies this
      ensures Valid()
      ensures State() == Trace(old(State()), hits).state
      ensures calls == old(calls) + Trace(old(State()), hits).events
    {
      var i := 0;
      while i < |hits|
        invariant 0 <= i <= |hits|
        invariant Valid()
        invariant State() == Trace(old(State()), hits[..i]).state
        invariant calls == old(calls) + Trace(old(State()), hits[..i]).events
      {
        assert hits[..i + 1][..i] == hits[..i];
        CursorTrace(hits[i]);
        i := i + 1;
      }
      assert hits[..i] == hits;
    }
  }

  /**
   * A session from a fresh controller: the cursor rests on the floor, moves onto enemy
   * 1, stays there, moves onto enemy 2, then leaves the scene (two traces without a
   * blocking hit). Enemy 1 is highlighted, then swapped for enemy 2, and the misses
   * leave enemy 2 highlighted and both handles as they were.
   */
  method ExampleSession()
  {
    var pc := new PlayerController();
    pc.CursorTrace(Some(None));
    assert pc.State() == Hover(None, None) && pc.calls == [];
    pc.CursorTrace(Some(Some(1)));
    assert pc.State() == Hover(None, Some(1)) && pc.calls == [Highlight(1)];
    pc.CursorTrace(Some(Some(1)));
    assert pc.State() == Hover(Some(1), Some(1)) && pc.calls == [Highlight(1)];
    pc.CursorTrace(Some(Some(2)));
    assert Notifications(Some(1), Some(2)) == [Unhighlight(1), Highlight(2)];
    assert pc.State() == Hover(Some(1), Some(2));
    assert pc.calls == [Highlight(1), Unhighlight(1), Highlight(2)];
    pc.CursorTrace(None);
    pc.CursorTrace(None);
    assert pc.calls == [Highlight(1), Unhighlight(1), Highlight(2)];
    assert pc.lastHoveredActor == Some(1) && pc.currentHoveredActor == Some(2);
  }
}
