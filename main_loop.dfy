/**
 * The controlling side of the effect: turning pointer events into ripple
 * records and keeping them in the bounded ripple list that every frame
 * uploads to the shader.
 */
module MainLoop {
  import opened Geometry
  import opened Ripples

  /** Window size in pixels. */
  const WIDTH: nat := 800
  const HEIGHT: nat := 600

  /**
   * Pointer position in window pixels (origin top left, y down) to texture
   * space (origin bottom left, y up): `[x / 800, 1 - y / 600]`.
   */
  function Normalize(x: int, y: int): (r: Vec2)
    ensures r.x * WIDTH as real == x as real
    ensures (1.0 - r.y) * HEIGHT as real == y as real
    ensures (0 <= x <= WIDTH && 0 <= y <= HEIGHT) <==> InUnitSquare(r)
  {
    Vec2(x as real / WIDTH as real, 1.0 - y as real / HEIGHT as real)
  }

  /** The window's corners land on the unit square's corners, with the y-axis flipped. */
  lemma NormalizeCorners()
    ensures Normalize(0, 0) == Vec2(0.0, 1.0)
    ensures Normalize(WIDTH, HEIGHT) == Vec2(1.0, 0.0)
    ensures Normalize(0, HEIGHT) == Vec2(0.0, 0.0)
    ensures Normalize(WIDTH, 0) == Vec2(1.0, 1.0)
  {
  }

  /** Moving the pointer down the window moves the ripple down the texture. */
  lemma NormalizeFlipsY(x: int, y1: int, y2: int)
    ensures y1 < y2 <==> Normalize(x, y1).y > Normalize(x, y2).y
  {
  }

  /** Seconds since start from the millisecond tick counter: `(ticks - start) / 1000.0`. */
  function Seconds(ticks: int, start: int): (t: real)
    ensures t * 1000.0 == (ticks - start) as real
    ensures start <= ticks <==> 0.0 <= t
  {
    (ticks - start) as real / 1000.0
  }

  /**
   * One event from the window's queue. For the pointer events, `x`, `y`
   * are the pointer position and `ticks` the tick counter as read when the
   * handler reaches the event.
   */
  datatype Event =
    | Quit
    | MouseButtonDown(x: int, y: int, ticks: int)
    | MouseMotion(leftButton: bool, x: int, y: int, ticks: int)
    | Other

  /** A click with any button, or a drag with the left button held, spawns a ripple. */
  predicate SpawnsRipple(e: Event) {
    e.MouseButtonDown? || (e.MouseMotion? && e.leftButton)
  }

  /**
   * The ripples one event spawns: one for a click or a left-button drag, none
   * otherwise. A spawned ripple lies in the unit square exactly when the
   * pointer is inside the window, and its time is non-negative exactly when
   * the tick count is not before the start.
   */
  function SpawnedBy(e: Event, start: int): (r: seq<RipplePoint>)
    ensures SpawnsRipple(e) <==> r != []
    ensures |r| <= 1
    ensures forall x :: x in r ==>
              (InUnitSquare(x.pos) <==> 0 <= e.x <= WIDTH && 0 <= e.y <= HEIGHT) &&
              (0.0 <= x.time <==> start <= e.ticks)
  {
    if SpawnsRipple(e) then [RipplePoint(Normalize(e.x, e.y), Seconds(e.ticks, start))] else []
  }

  /**
   * The ripples a batch of events spawns, in order, up to the first Quit: at
   * most one per event, none from a batch without clicks or drags, and each
   * one spawned by some click or drag of the batch.
   */
  function Spawns(events: seq<Event>, start: int): (r: seq<RipplePoint>)
    ensures |r| <= |events|
    ensures (forall e :: e in events ==> !SpawnsRipple(e)) ==> r == []
    ensures forall x :: x in r ==> exists e :: e in events && SpawnsRipple(e) && x in SpawnedBy(e, start)
    decreases |events|
  {
    if events == [] || events[0].Quit? then []
    else SpawnedBy(events[0], start) + Spawns(events[1..], start)
  }

  /** Handling one more event before any Quit adds that event's ripples at the end. */
  lemma {:induction false} SpawnsSnoc(events: seq<Event>, e: Event, start: int)
    requires Quit !in events
    ensures Spawns(events + [e], start) == Spawns(events, start) + SpawnedBy(e, start)
    decreases |events|
  {
    if events == [] {
      assert events + [e] == [e];
      assert Spawns([e], start) == SpawnedBy(e, start) + Spawns([], start);
    } else {
      assert (events + [e])[1..] == events[1..] + [e];
      SpawnsSnoc(events[1..], e, start);
    }
  }

  /** Nothing after the first Quit spawns a ripple. */
  lemma {:induction false} SpawnsStopAtQuit(events: seq<Event>, i: nat, start: int)
    requires i < |events| && events[i].Quit? && Quit !in events[..i]
    ensures Spawns(events, start) == Spawns(events[..i], start)
    decreases i
  {
    if i > 0 {
      assert events[..i][1..] == events[1..][..i - 1];
      SpawnsStopAtQuit(events[1..], i - 1, start);
    }
  }

  /** Replaying the ripples of one more event, before any Quit, continues the replay so far. */
  lemma ReplayOneMore(log: seq<RipplePoint>, events: seq<Event>, i: nat, start: int)
    requires i < |events| && Quit !in events[..i]
    ensures var before := Replay(log, Spawns(events[..i], start));
      Replay(log, Spawns(events[..i + 1], start))
      == if SpawnsRipple(events[i])
         then Appended(before, RipplePoint(Normalize(events[i].x, events[i].y), Seconds(events[i].ticks, start)))
         else before
  {
    assert events[..i + 1] == events[..i] + [events[i]];
    SpawnsSnoc(events[..i], events[i], start);
    ReplayConcat(log, Spawns(events[..i], start), SpawnedBy(events[i], start));
  }

  /**
   * The ripple list of the main loop. It starts empty and only ever grows by
   * one append step at a time, so it never holds more than MAX_RIPPLES records.
   */
  class RippleLog {
    var points: seq<RipplePoint>

    ghost predicate Valid()
      reads this
    {
      |points| <= MAX_RIPPLES
    }

    constructor ()
      ensures Valid() && points == []
    {
      points := [];
    }

    /** Append a record; if the list is then over capacity, drop its front (oldest) record. */
    method Append(e: RipplePoint)
      requires Valid()
      modifies this
      ensures Valid()
      ensures points == Appended(old(points), e)
      ensures |old(points)| < MAX_RIPPLES ==> points == old(points) + [e]
      ensures |old(points)| == MAX_RIPPLES ==> points == old(points)[1..] + [e]
    {
      points := points + [e];
      if |points| > MAX_RIPPLES {
        points := points[1..];
      }
    }

    /**
     * Handle one frame's batch of events in order: each click or left-button
     * drag appends a ripple at the normalised pointer position, stamped with
     * the seconds elapsed since `start`; a Quit stops the handling.
     */
    method HandleEvents(events: seq<Event>, start: int) returns (quit: bool)
      requires Valid()
      modifies this
      ensures Valid()
      ensures quit <==> Quit in events
      ensures points == Replay(old(points), Spawns(events, start))
      ensures points == Newest(old(points) + Spawns(events, start), MAX_RIPPLES)
    {
      quit := false;
      var i := 0;
      while i < |events| && !quit
        invariant 0 <= i <= |events|
        invariant Valid()
        invariant !quit ==> Quit !in events[..i]
        invariant quit ==> 0 < i && events[i - 1].Quit? && Quit !in events[..i - 1]
        invariant points == Replay(old(points), Spawns(events[..(if quit then i - 1 else i)], start))
      {
        var e := events[i];
        if e.Quit? {
          quit := true;
        } else {
          ReplayOneMore(old(points), events, i, start);
          if SpawnsRipple(e) {
            Append(RipplePoint(Normalize(e.x, e.y), Seconds(e.ticks, start)));
          }
        }
        i := i + 1;
      }
      if quit {
        SpawnsStopAtQuit(events, i - 1, start);
        assert Quit in events;
      } else {
        assert events[..i] == events;
      }
      ReplayKeepsNewest(old(points), Spawns(events, start));
    }
  }
}
