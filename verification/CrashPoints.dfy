/** Which crash points are enumerated: those next to a persistence call, and a seeded sample of the rest. */
module CrashPoints {
  import opened Sorting
  import opened Traces
  import opened States
  import opened Hashing

  datatype SelectionOptions = SelectionOptions(
    nonFsyncSampleRate: real,
    seed: int,
    maxExhaustiveWorkloadOps: Option<nat>
  )

  /** Short traces and traces that never call a persistence function are enumerated in full. */
  predicate Exhaustive(events: seq<Event>, options: SelectionOptions) {
    || |events| <= (if options.maxExhaustiveWorkloadOps.Some? then options.maxExhaustiveWorkloadOps.value else 0)
    || forall i :: 0 <= i < |events| ==> !IsPersistence(events[i].call)
  }

  predicate NextToSync(events: seq<Event>, i: nat)
    requires i < |events|
  {
    IsPersistence(events[i].call) || (i > 0 && IsPersistence(events[i - 1].call))
  }

  /** The crash points a run visits. */
  predicate Selected(events: seq<Event>, options: SelectionOptions, i: nat) {
    i < |events| && (
      || Exhaustive(events, options)
      || NextToSync(events, i)
      || UnitHash(options.seed, i) < options.nonFsyncSampleRate
    )
  }

  function SelectedPoints(events: seq<Event>, options: SelectionOptions): (r: seq<nat>)
    ensures Ascending(r)
    ensures forall i: nat :: i in r <==> Selected(events, options, i)
  {
    InOrder(set i: nat | i < |events| && Selected(events, options, i), |events|)
  }

  /** The selection is the ascending list of the selected points, however it is computed. */
  lemma SelectionIsUnique(events: seq<Event>, options: SelectionOptions, selected: seq<nat>)
    requires Ascending(selected) && forall i: nat :: i in selected <==> Selected(events, options, i)
    ensures selected == SelectedPoints(events, options)
  {
    hide Selected;
    AscendingIsUnique(selected, SelectedPoints(events, options));
  }

  method SelectCrashPoints(trace: Trace, options: SelectionOptions) returns (selected: seq<nat>)
    ensures Ascending(selected)
    ensures forall i: nat :: i in selected <==> Selected(trace.events, options, i)
  {
    var events := trace.events;
    selected := [];
    var exhaustive := if options.maxExhaustiveWorkloadOps.Some? then options.maxExhaustiveWorkloadOps.value else 0;
    if |events| <= exhaustive {
      return AllPoints(|events|);
    }
    var some := SomePersistence(events);
    if !some {
      return AllPoints(|events|);
    }
    assert !Exhaustive(events, options);
    hide UnitHash, IsPersistence, Exhaustive, Ascending, Selected;
    for index := 0 to |events|
      invariant Ascending(selected)
      invariant forall i: nat :: i in selected <==> i < index && Selected(events, options, i)
    {
      var isPersistence := IsPersistence(events[index].call);
      var followsPersistence := index > 0 && IsPersistence(events[index - 1].call);
      SelectedHere(events, options, index);
      AppendAscending(selected, index);
      if isPersistence || followsPersistence {
        selected := selected + [index];
        continue;
      }
      if UnitHash(options.seed, index) < options.nonFsyncSampleRate {
        selected := selected + [index];
      }
    }
  }

  lemma SelectedHere(events: seq<Event>, options: SelectionOptions, i: nat)
    requires i < |events| && !Exhaustive(events, options)
    ensures Selected(events, options, i) <==>
            || IsPersistence(events[i].call)
            || (i > 0 && IsPersistence(events[i - 1].call))
            || UnitHash(options.seed, i) < options.nonFsyncSampleRate
  {}

  method SomePersistence(events: seq<Event>) returns (some: bool)
    ensures some <==> exists i :: 0 <= i < |events| && IsPersistence(events[i].call)
  {
    for i := 0 to |events|
      invariant forall j :: 0 <= j < i ==> !IsPersistence(events[j].call)
    {
      if IsPersistence(events[i].call) {
        return true;
      }
    }
    return false;
  }

  /** Raising the rate only adds crash points; a rate of one selects them all. */
  lemma HigherRateSelectsMore(events: seq<Event>, low: SelectionOptions, high: SelectionOptions,
        i: nat)
    requires low.seed == high.seed && low.maxExhaustiveWorkloadOps == high.maxExhaustiveWorkloadOps
    requires low.nonFsyncSampleRate <= high.nonFsyncSampleRate
    ensures Selected(events, low, i) ==> Selected(events, high, i)
    ensures high.nonFsyncSampleRate >= 1.0 && i < |events| ==> Selected(events, high, i)
  {
    assert UnitHash(high.seed, i) < 1.0;
  }

  /** The selection in the fields of the events: every point of a trace within the limit or without a sync, and
      otherwise each sync, each event after one, and the points hashed below the rate. */
  lemma SelectionInFields(events: seq<Event>, options: SelectionOptions, i: nat)
    ensures i in SelectedPoints(events, options) <==>
            && i < |events|
            && (|| (options.maxExhaustiveWorkloadOps.Some? && |events| <= options.maxExhaustiveWorkloadOps.value)
                || (forall j :: 0 <= j < |events| ==> events[j].call !in {Fsync, Fdatasync, SyncFileRange})
                || events[i].call in {Fsync, Fdatasync, SyncFileRange}
                || (i > 0 && events[i - 1].call in {Fsync, Fdatasync, SyncFileRange})
                || UnitHash(options.seed, i) < options.nonFsyncSampleRate)
  {
    hide UnitHash, SelectedPoints;
  }
}
