/** The events the visualizer's search generators yield, and the shape of a
    whole run.  A generator is modelled as the list of everything it yields. */
module Events {
  import opened Wrappers
  import opened Grid

  /** The two error messages: an endpoint that is not walkable, and a search
      that ran out of cells. */
  datatype Failure = EndpointBlocked | NoPath

  datatype Event =
    | Error(reason: Failure)
      /** A cell taken off the open list, with the running expansion count. */
    | Current(pos: Point, visitedCount: nat)
      /** A cell put on the open list. */
    | Visited(pos: Point)
    | PathFound(path: seq<Point>)
    | Complete(path: seq<Point>, visitedCount: nat)

  /** The `visitedCount` of every `Current` event, in order. */
  function Counts(ev: seq<Event>): seq<nat>
    decreases |ev|
  {
    if |ev| == 0 then []
    else
      var last := ev[|ev| - 1];
      Counts(ev[..|ev| - 1]) + (if last.Current? then [last.visitedCount] else [])
  }

  /** The cell of every `Visited` event, in order. */
  function Pushed(ev: seq<Event>): seq<Point>
    decreases |ev|
  {
    if |ev| == 0 then []
    else
      var last := ev[|ev| - 1];
      Pushed(ev[..|ev| - 1]) + (if last.Visited? then [last.pos] else [])
  }

  /** The cell of every `Current` event, in order. */
  function Expanded(ev: seq<Event>): seq<Point>
    decreases |ev|
  {
    if |ev| == 0 then []
    else
      var last := ev[|ev| - 1];
      Expanded(ev[..|ev| - 1]) + (if last.Current? then [last.pos] else [])
  }

  lemma {:induction false} AppendEvents(a: seq<Event>, b: seq<Event>)
    ensures Counts(a + b) == Counts(a) + Counts(b)
    ensures Pushed(a + b) == Pushed(a) + Pushed(b)
    ensures Expanded(a + b) == Expanded(a) + Expanded(b)
    decreases |b|
  {
    if |b| == 0 {
      assert a + b == a;
    } else {
      var b' := b[..|b| - 1];
      assert (a + b)[..|a + b| - 1] == a + b';
      assert (a + b)[|a + b| - 1] == b[|b| - 1];
      AppendEvents(a, b');
    }
  }

  /** Events that are neither `current` nor `visited` add nothing to the
      counts or to the reported cells. */
  lemma {:induction false} QuietEvents(ev: seq<Event>)
    requires forall i :: 0 <= i < |ev| ==> !ev[i].Current? && !ev[i].Visited?
    ensures Counts(ev) == [] && Pushed(ev) == [] && Expanded(ev) == []
    decreases |ev|
  {
    if |ev| > 0 {
      QuietEvents(ev[..|ev| - 1]);
    }
  }

  /** `1, 2, ..., n`. */
  function UpTo(n: nat): (r: seq<nat>)
    ensures |r| == n && forall i :: 0 <= i < n ==> r[i] == i + 1
  {
    seq(n, i => i + 1)
  }

  /** Only search progress so far: no error, no path. */
  predicate Progress(ev: seq<Event>) {
    forall i :: 0 <= i < |ev| ==> ev[i].Current? || ev[i].Visited?
  }

  /** How a run that passed the endpoint check ends: with the path and the
      completion event carrying the same path and the final count, or with
      the not-found error; nothing but progress comes before. */
  predicate Finished(ev: seq<Event>, result: Option<seq<Point>>, count: nat) {
    match result
    case Some(p) =>
      |ev| >= 2 && ev[|ev| - 2] == PathFound(p) && ev[|ev| - 1] == Complete(p, count) &&
      Progress(ev[..|ev| - 2])
    case None =>
      |ev| >= 1 && ev[|ev| - 1] == Error(NoPath) && Progress(ev[..|ev| - 1])
  }

  /** The generator's last step: a found path has already been reported
      with `'path'` and `'complete'`; a search that ran out of nodes yields
      the not-found error. */
  method Conclude(ev: seq<Event>, result: Option<seq<Point>>, count: nat) returns (events: seq<Event>)
    requires result.Some? ==> Finished(ev, result, count)
    requires result.None? ==> Progress(ev)
    ensures Finished(events, result, count)
    ensures Counts(events) == Counts(ev) && Expanded(events) == Expanded(ev) && Pushed(events) == Pushed(ev)
  {
    if result.Some? {
      events := ev;
    } else {
      events := ev + [Error(NoPath)];
      AppendEvents(ev, [Error(NoPath)]);
      QuietEvents([Error(NoPath)]);
      assert events[..|events| - 1] == ev;
    }
  }

  /** The path and completion events close a run of progress events and
      report nothing more. */
  lemma EndFound(ev: seq<Event>, p: seq<Point>, count: nat)
    requires Progress(ev)
    ensures var all := ev + [PathFound(p), Complete(p, count)];
      Finished(all, Some(p), count) && Counts(all) == Counts(ev) && Expanded(all) == Expanded(ev)
  {
    var all := ev + [PathFound(p), Complete(p, count)];
    AppendEvents(ev, [PathFound(p), Complete(p, count)]);
    QuietEvents([PathFound(p), Complete(p, count)]);
    assert all[..|all| - 2] == ev;
  }

  /** One `'visited'` event per cell. */
  function VisitedEvents(cells: seq<Point>): (r: seq<Event>)
    ensures |r| == |cells| && forall i :: 0 <= i < |r| ==> r[i] == Visited(cells[i])
  {
    seq(|cells|, i requires 0 <= i < |cells| => Visited(cells[i]))
  }

  lemma {:induction false} VisitedEventsReport(cells: seq<Point>)
    ensures Pushed(VisitedEvents(cells)) == cells
    ensures Counts(VisitedEvents(cells)) == [] && Expanded(VisitedEvents(cells)) == []
    ensures Progress(VisitedEvents(cells))
    decreases |cells|
  {
    if |cells| > 0 {
      var pre := cells[..|cells| - 1];
      assert VisitedEvents(cells)[..|cells| - 1] == VisitedEvents(pre);
      VisitedEventsReport(pre);
      assert cells == pre + [cells[|cells| - 1]];
    }
  }

  /** The events of one expansion: one `current` event with the next count,
      then one `visited` event per fresh cell. */
  lemma ReportStep(ev: seq<Event>, e: Event, F: seq<Point>, count: nat)
    requires e.Current? && e.visitedCount == count + 1
    requires Progress(ev) && Counts(ev) == UpTo(count)
    ensures Progress(ev + [e] + VisitedEvents(F))
    ensures Counts(ev + [e] + VisitedEvents(F)) == UpTo(count + 1)
    ensures Pushed(ev + [e] + VisitedEvents(F)) == Pushed(ev) + F
    ensures Expanded(ev + [e] + VisitedEvents(F)) == Expanded(ev) + [e.pos]
  {
    AppendEvents(ev, [e]);
    AppendEvents(ev + [e], VisitedEvents(F));
    VisitedEventsReport(F);
    assert [e][..0] == [];
    assert Counts([e]) == [count + 1];
    assert Pushed([e]) == [] && Expanded([e]) == [e.pos];
    assert UpTo(count) + [count + 1] == UpTo(count + 1);
    var all := ev + [e] + VisitedEvents(F);
    forall k | 0 <= k < |all|
      ensures all[k].Current? || all[k].Visited?
    {
      if k < |ev| {
        assert all[k] == ev[k];
      }
    }
  }
}
