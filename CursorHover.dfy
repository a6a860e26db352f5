/**
 * The cursor-hover highlight logic of the Aura player controller, stated on values.
 *
 * The controller remembers the actor hovered on the previous blocking cursor trace
 * (`last`) and the one hovered now (`current`). Every blocking trace shifts `current`
 * into `last`, stores the new target and tells the two actors involved to highlight
 * or un-highlight themselves. This module gives that behaviour as functions, so that
 * the class in module AuraPlayerController can be proved against it and so that
 * whole sessions of ticks can be reasoned about.
 */
module CursorHover {
  import opened Wrappers

  /** Identity of an enemy actor: the controller compares its handles by identity only and never checks liveness. */
  type ActorId = nat

  /** One side-effecting call the controller makes on an enemy actor. */
  datatype Event = Highlight(target: ActorId) | Unhighlight(target: ActorId)

  /** The two hover fields of the controller. */
  datatype Hover = Hover(last: Option<ActorId>, current: Option<ActorId>)

  /** What one cursor trace gives the controller: `None` when the trace had no blocking
      hit, otherwise `Some(t)` with `t` the hovered target (itself `None` when the hit
      actor is not an enemy). */
  type Hit = Option<Option<ActorId>>

  /** The state and the calls that a run of ticks leaves behind. */
  datatype Outcome = Outcome(state: Hover, events: seq<Event>)

  /** The state a controller has before its first tick: both handles are null. */
  const Initial := Hover(None, None)

  /**
   * The calls made when the hover target moves from `last` to `current`: leave the
   * old target (un-highlight it) when it is no longer hovered, then enter the new one
   * (highlight it) when it was not hovered before.
   */
  function Notifications(last: Option<ActorId>, current: Option<ActorId>): (evs: seq<Event>)
    ensures |evs| <= 2
    ensures evs == [] <==> last == current
    ensures forall i | 0 <= i < |evs| ::
              last != current &&
              (evs[i].Highlight? ==> current == Some(evs[i].target)) &&
              (evs[i].Unhighlight? ==> last == Some(evs[i].target))
    ensures current.Some? && current != last ==> Highlight(current.value) in evs
    ensures last.Some? && last != current ==> Unhighlight(last.value) in evs
    ensures |evs| == 2 ==>
              last.Some? && current.Some? &&
              evs == [Unhighlight(last.value), Highlight(current.value)]
  {
    (if last.Some? && last != current then [Unhighlight(last.value)] else []) +
    (if current.Some? && current != last then [Highlight(current.value)] else [])
  }

  /** One call of CursorTrace on the hover state `s`, given the trace result `hit`. */
  function Tick(s: Hover, hit: Hit): (r: Outcome)
  {
    match hit
    case None => Outcome(s, [])
    case Some(target) => Outcome(Hover(s.current, target), Notifications(s.current, target))
  }

  /** A run of ticks, one trace result per frame, starting in state `s`. */
  function Trace(s: Hover, hits: seq<Hit>): (r: Outcome)
    decreases |hits|
  {
    if hits == [] then Outcome(s, [])
    else
      var before := Trace(s, hits[..|hits| - 1]);
      var step := Tick(before.state, hits[|hits| - 1]);
      Outcome(step.state, before.events + step.events)
  }

  /** The trace results that had a blocking hit, in order. */
  function Blocking(hits: seq<Hit>): (r: seq<Option<ActorId>>)
    decreases |hits|
  {
    if hits == [] then []
    else
      var rest := Blocking(hits[..|hits| - 1]);
      match hits[|hits| - 1]
      case None => rest
      case Some(t) => rest + [t]
  }

  /** The trace results a run would see if only its blocking hits were kept. */
  function AllBlocking(targets: seq<Option<ActorId>>): (hits: seq<Hit>)
  {
    seq(|targets|, i requires 0 <= i < |targets| => Some(targets[i]))
  }

  /** Turning targets into blocking hits and keeping the blocking hits gives the targets back. */
  lemma {:induction false} BlockingAllBlocking(targets: seq<Option<ActorId>>)
    ensures Blocking(AllBlocking(targets)) == targets
    decreases |targets|
  {
    if targets != [] {
      var n := |targets|;
      assert AllBlocking(targets)[..n - 1] == AllBlocking(targets[..n - 1]);
      BlockingAllBlocking(targets[..n - 1]);
    }
  }

  /** The set of actors a handle leaves highlighted: its target, if any. */
  function Lit(h: Option<ActorId>): (lit: set<ActorId>)
  {
    match h
    case None => {}
    case Some(a) => {a}
  }

  /**
   * Replays calls against the set of highlighted actors `lit`. A call that would be
   * redundant (highlighting an actor already highlighted, un-highlighting one that is
   * not) makes the replay fail with `None`.
   */
  function Replay(lit: set<ActorId>, evs: seq<Event>): (r: Option<set<ActorId>>)
    decreases |evs|
  {
    if evs == [] then Some(lit)
    else
      match evs[0]
      case Highlight(a) => if a in lit then None else Replay(lit + {a}, evs[1..])
      case Unhighlight(a) => if a in lit then Replay(lit - {a}, evs[1..]) else None
  }

  /** The case table of CursorTrace: cases A to E, on the fields after the shift. */
  lemma CaseTable(last: Option<ActorId>, current: Option<ActorId>)
    ensures last.None? && current.None? ==> Notifications(last, current) == []
    ensures last.None? && current.Some? ==>
              Notifications(last, current) == [Highlight(current.value)]
    ensures last.Some? && current.None? ==>
              Notifications(last, current) == [Unhighlight(last.value)]
    ensures last.Some? && current.Some? && last != current ==>
              Notifications(last, current) == [Unhighlight(last.value), Highlight(current.value)]
    ensures last.Some? && current.Some? && last == current ==>
              Notifications(last, current) == []
  {
  }

  /** Replaying `a + b` is replaying `a`, then `b` from where `a` left off. */
  lemma {:induction false} ReplayConcat(lit: set<ActorId>, a: seq<Event>, b: seq<Event>)
    ensures Replay(lit, a + b) ==
              match Replay(lit, a)
              case None => None
              case Some(mid) => Replay(mid, b)
    decreases |a|
  {
    if a == [] {
      assert a + b == b;
    } else {
      assert (a + b)[0] == a[0];
      assert (a + b)[1..] == a[1..] + b;
      match a[0]
      case Highlight(x) =>
        if x !in lit { ReplayConcat(lit + {x}, a[1..], b); }
      case Unhighlight(x) =>
        if x in lit { ReplayConcat(lit - {x}, a[1..], b); }
    }
  }

  /**
   * One tick keeps the highlights in step with the hover: if exactly the current target
   * was highlighted before, the calls made are never redundant and leave exactly the
   * new current target highlighted.
   */
  lemma TickKeepsHighlightInStep(s: Hover, hit: Hit)
    ensures Replay(Lit(s.current), Tick(s, hit).events) == Some(Lit(Tick(s, hit).state.current))
  {
    match hit
    case None =>
    case Some(t) =>
      var evs := Notifications(s.current, t);
      match (s.current, t)
      case (Some(a), Some(b)) =>
        if a != b {
          assert evs == [Unhighlight(a), Highlight(b)];
          assert evs[1..] == [Highlight(b)];
          assert {a} - {a} == {} && {} + {b} == {b};
          assert Replay({b}, evs[1..][1..]) == Some({b});
        }
      case (Some(a), None) =>
        assert evs == [Unhighlight(a)];
        assert {a} - {a} == {};
      case (None, Some(b)) =>
        assert evs == [Highlight(b)];
        assert {} + {b} == {b};
      case (None, None) =>
  }

  /**
   * Over any run of ticks the calls made are never redundant, and afterwards exactly the
   * hovered target is highlighted (nothing at all when the handle is null).
   */
  lemma {:induction false} TraceKeepsHighlightInStep(s: Hover, hits: seq<Hit>)
    ensures Replay(Lit(s.current), Trace(s, hits).events) == Some(Lit(Trace(s, hits).state.current))
    decreases |hits|
  {
    if hits != [] {
      var before := Trace(s, hits[..|hits| - 1]);
      TraceKeepsHighlightInStep(s, hits[..|hits| - 1]);
      TickKeepsHighlightInStep(before.state, hits[|hits| - 1]);
      ReplayConcat(Lit(s.current), before.events, Tick(before.state, hits[|hits| - 1]).events);
    }
  }

  /** A trace with no blocking hit changes neither the hover state nor makes any call. */
  lemma {:induction false} MissesChangeNothing(s: Hover, hits: seq<Hit>)
    requires forall i | 0 <= i < |hits| :: hits[i].None?
    ensures Trace(s, hits) == Outcome(s, [])
    decreases |hits|
  {
    if hits != [] {
      MissesChangeNothing(s, hits[..|hits| - 1]);
    }
  }

  /** A run behaves exactly as the same run with its missed traces dropped. */
  lemma {:induction false} OnlyBlockingHitsMatter(s: Hover, hits: seq<Hit>)
    ensures Trace(s, hits) == Trace(s, AllBlocking(Blocking(hits)))
    decreases |hits|
  {
    if hits != [] {
      var prefix := hits[..|hits| - 1];
      OnlyBlockingHitsMatter(s, prefix);
      var kept := AllBlocking(Blocking(prefix));
      match hits[|hits| - 1]
      case None =>
        assert Blocking(hits) == Blocking(prefix);
      case Some(t) =>
        assert Blocking(hits) == Blocking(prefix) + [t];
        assert AllBlocking(Blocking(hits))[..|kept|] == kept;
    }
  }

  /** A run split in two: the second part starts from the state the first part left. */
  lemma {:induction false} TraceConcat(s: Hover, a: seq<Hit>, b: seq<Hit>)
    ensures Trace(s, a + b).state == Trace(Trace(s, a).state, b).state
    ensures Trace(s, a + b).events == Trace(s, a).events + Trace(Trace(s, a).state, b).events
    decreases |b|
  {
    var first := Trace(s, a);
    if b == [] {
      assert a + b == a;
    } else {
      var b', h := b[..|b| - 1], b[|b| - 1];
      assert (a + b)[..|a + b| - 1] == a + b';
      assert (a + b)[|a + b| - 1] == h;
      TraceConcat(s, a, b');
      var mid := Trace(first.state, b');
      var step := Tick(mid.state, h);
      assert Trace(first.state, b) == Outcome(step.state, mid.events + step.events);
      assert Trace(s, a + b) == Outcome(step.state, (first.events + mid.events) + step.events);
    }
  }

  /** A run of one tick is that tick. */
  lemma TraceSingle(s: Hover, hit: Hit)
    ensures Trace(s, [hit]) == Tick(s, hit)
  {
  }

  /**
   * After a blocking hit on `t`, any number of missed traces followed by another
   * blocking hit on the same `t` makes no call the second time and leaves `t` both
   * last and current.
   */
  lemma SameTargetAgainIsSilent(s: Hover, t: Option<ActorId>, misses: seq<Hit>)
    requires forall i | 0 <= i < |misses| :: misses[i].None?
    ensures Trace(s, [Some(t)] + misses + [Some(t)]) ==
              Outcome(Hover(t, t), Notifications(s.current, t))
  {
    var head := [Some(t)] + misses;
    TraceSingle(s, Some(t));
    MissesChangeNothing(Hover(s.current, t), misses);
    TraceConcat(s, [Some(t)], misses);
    TraceSingle(Hover(s.current, t), Some(t));
    TraceConcat(s, head, [Some(t)]);
  }

}
