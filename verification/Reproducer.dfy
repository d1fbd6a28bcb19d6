/** The packaged reproducer: a trace cut at the crash point, and what survives the cut. */
module Reproducer {
  import opened Sorting
  import opened Traces
  import opened Bits
  import opened States
  import opened Reader

  // ---------------------------------------------------------------- the file, cut

  /** The records kept: everything that is not an event, and the first `crashPoint + 1` events. */
  function PrefixOf(records: seq<Record>, crashPoint: nat): seq<Record> {
    if records == [] then [] else
      var rest := records[..|records| - 1];
      var last := records[|records| - 1];
      PrefixOf(rest, crashPoint)
      + (if last.EventRecord? && |EventsOf(rest)| > crashPoint then [] else [last])
  }

  method TracePrefix(records: seq<Record>, crashPoint: nat) returns (kept: seq<Record>)
    ensures kept == PrefixOf(records, crashPoint)
  {
    kept := [];
    var events := 0;
    for i := 0 to |records|
      invariant kept == PrefixOf(records[..i], crashPoint)
      invariant events == if |EventsOf(records[..i])| > crashPoint then crashPoint + 1 else |EventsOf(records[..i])|
    {
      assert records[..i + 1][..i] == records[..i];
      if records[i].EventRecord? {
        if events > crashPoint {
          continue;
        }
        events := events + 1;
      }
      kept := kept + [records[i]];
    }
    assert records[..|records|] == records;
  }

  /** The cut keeps every marker, and events by their place in the file. */
  lemma {:induction false} CutKeeps(records: seq<Record>, crashPoint: nat)
    ensures MarkersOf(PrefixOf(records, crashPoint)) == MarkersOf(records)
    ensures EventsOf(PrefixOf(records, crashPoint))
         == if |EventsOf(records)| <= crashPoint then EventsOf(records) else EventsOf(records)[..crashPoint + 1]
  {
    if records != [] {
      var rest := records[..|records| - 1];
      var last := records[|records| - 1];
      CutKeeps(rest, crashPoint);
      var kept := PrefixOf(rest, crashPoint);
      assert (kept + [last])[..|kept + [last]| - 1] == kept;
      assert PrefixOf(records, crashPoint) == kept || PrefixOf(records, crashPoint) == kept + [last];
    }
  }

  // ---------------------------------------------------------------- when the cut is the right one

  /** Of the events, the first `m` in the file carry smaller stamps than all the others. */
  ghost predicate SplitsByStamp(events: seq<Event>, m: nat) {
    forall i, j :: 0 <= i < m <= j < |events| ==> events[i].index < events[j].index
  }

  lemma DistinctSlices(events: seq<Event>, m: nat)
    requires m <= |events| && DistinctKeys(events, EventKey)
    ensures DistinctKeys(events[..m], EventKey) && DistinctKeys(events[m..], EventKey)
  {}

  lemma {:induction false} SplitThenSorted(events: seq<Event>, m: nat)
    requires m <= |events| && DistinctKeys(events, EventKey) && SplitsByStamp(events, m)
    ensures SortBy(events[..m], EventKey) == SortBy(events, EventKey)[..m]
  {
    DistinctSlices(events, m);
    SortIsStrict(events, EventKey);
    SortIsStrict(events[..m], EventKey);
    SortIsStrict(events[m..], EventKey);
    var low, high := SortBy(events[..m], EventKey), SortBy(events[m..], EventKey);
    hide DistinctKeys, StrictlySortedBy;
    forall x, y | x in low && y in high ensures EventKey(x) < EventKey(y) {
      assert x in events[..m] && y in events[m..];
    }
    hide SplitsByStamp, SortBy;
    JoinSorted(low, high, EventKey);
    assert events == events[..m] + events[m..];
    StrictOrderIsUnique(low + high, SortBy(events, EventKey), EventKey);
  }

  lemma NotAmongFirst(events: seq<Event>, m: nat, j: nat)
    requires m <= j < |events| && DistinctKeys(events, EventKey)
    ensures events[j] !in events[..m]
  {
    forall x | 0 <= x < m ensures events[..m][x] != events[j] {
      assert EventKey(events[x]) != EventKey(events[j]);
    }
  }

  lemma {:induction false} SortedThenSplit(events: seq<Event>, m: nat)
    requires m <= |events| && DistinctKeys(events, EventKey)
    requires SortBy(events[..m], EventKey) == SortBy(events, EventKey)[..m]
    ensures SplitsByStamp(events, m)
  {
    SortIsStrict(events, EventKey);
    forall i, j | 0 <= i < m <= j < |events| ensures events[i].index < events[j].index {
      NotAmongFirst(events, m, j);
      assert events[i] in events[..m];
      assert events[j] in events;
      FirstComesFirst(SortBy(events, EventKey), m, events[i], events[j]);
    }
  }

  lemma FirstComesFirst(sorted: seq<Event>, m: nat, x: Event, y: Event)
    requires StrictlySortedBy(sorted, EventKey) && m <= |sorted|
    requires x in sorted[..m] && y in sorted && y !in sorted[..m]
    ensures x.index < y.index
  {
    var a :| 0 <= a < m && sorted[a] == x;
    var b :| 0 <= b < |sorted| && sorted[b] == y;
    forall c | 0 <= c < m ensures sorted[c] != y {
      assert sorted[..m][c] != y;
    }
    assert EventKey(sorted[a]) < EventKey(sorted[b]);
  }

  /** The packaged prefix parses to the first events of the trace exactly when the file's first events are
      the first submitted. Every marker stays, those after the crash included. */
  lemma {:induction false} CutIsThePrefixIff(records: seq<Record>, crashPoint: nat)
    requires UniqueStamps(records) && crashPoint < |EventsOf(records)|
    ensures Parsed(PrefixOf(records, crashPoint)).events == Parsed(records).events[..crashPoint + 1]
       <==> SplitsByStamp(EventsOf(records), crashPoint + 1)
    ensures Parsed(PrefixOf(records, crashPoint)).markers == Parsed(records).markers
  {
    CutKeeps(records, crashPoint);
    EventsDistinct(records);
    hide EventsOf, MarkersOf, PrefixOf, SplitsByStamp;
    if SplitsByStamp(EventsOf(records), crashPoint + 1) {
      SplitThenSorted(EventsOf(records), crashPoint + 1);
    }
    if SortBy(EventsOf(records)[..crashPoint + 1], EventKey) == SortBy(EventsOf(records), EventKey)[..crashPoint + 1] {
      SortedThenSplit(EventsOf(records), crashPoint + 1);
    }
  }

  // ---------------------------------------------------------------- states see no further than the crash

  ghost predicate AgreeUpto(a: seq<Event>, b: seq<Event>, k: nat) {
    k < |a| && k < |b| && a[..k + 1] == b[..k + 1]
  }

  lemma SameEvent(a: seq<Event>, b: seq<Event>, k: nat, i: nat)
    requires AgreeUpto(a, b, k) && i <= k
    ensures a[i] == b[i]
  {
    assert a[i] == a[..k + 1][i];
  }

  lemma SamePins(a: seq<Event>, b: seq<Event>, k: nat, s: nat, j: nat)
    requires AgreeUpto(a, b, k) && s <= k
    ensures Pins(a, s, j) <==> Pins(b, s, j)
  {
    SameEvent(a, b, k, s);
    if j < s { SameEvent(a, b, k, j); }
  }

  lemma SamePinned(a: seq<Event>, b: seq<Event>, k: nat, j: nat)
    requires AgreeUpto(a, b, k)
    ensures IsPinned(a, k, j) <==> IsPinned(b, k, j)
  {
    if s: nat :| s <= k && Pins(a, s, j) { SamePins(a, b, k, s, j); }
    if s: nat :| s <= k && Pins(b, s, j) { SamePins(a, b, k, s, j); }
  }

  lemma {:induction false} SameFree(a: seq<Event>, b: seq<Event>, k: nat, n: nat)
    requires AgreeUpto(a, b, k) && n <= k + 1
    ensures FreeUpto(a, k, n) == FreeUpto(b, k, n)
  {
    hide IsFree, Ascending;
    if n > 0 {
      SameFree(a, b, k, n - 1);
      SameIsFree(a, b, k, n - 1);
    }
  }

  lemma SameIsFree(a: seq<Event>, b: seq<Event>, k: nat, i: nat)
    requires AgreeUpto(a, b, k) && i <= k
    ensures IsFree(a, k, i) <==> IsFree(b, k, i)
  {
    hide IsPinned;
    SameEvent(a, b, k, i);
    SamePinned(a, b, k, i);
  }

  lemma SameGround(a: seq<Event>, b: seq<Event>, k: nat, w: nat)
    requires AgreeUpto(a, b, k)
    ensures Window(a, k, w) == Window(b, k, w)
    ensures AlwaysPresent(a, k, w) == AlwaysPresent(b, k, w)
    ensures Issued(a, k, w) == Issued(b, k, w)
  {
    hide IsPinned;
    SameFree(a, b, k, k + 1);
    forall j: nat ensures IsPinned(a, k, j) <==> IsPinned(b, k, j) { SamePinned(a, b, k, j); }
    assert PinnedSet(a, k) == PinnedSet(b, k);
    hide PinnedSet, Free;
  }

  lemma SameExistence(a: seq<Event>, b: seq<Event>, k: nat, kept: set<nat>)
    requires AgreeUpto(a, b, k) && forall i :: i in kept ==> i <= k
    ensures FilesExist(a, kept) <==> FilesExist(b, kept)
  {
    forall t: nat | t in kept ensures FileExists(a, kept, t) <==> FileExists(b, kept, t) {
      SameEvent(a, b, k, t);
      forall j: nat ensures Creates(a, j, t) <==> Creates(b, j, t) {
        if j < t { SameEvent(a, b, k, j); }
      }
    }
    hide FileExists;
  }

  lemma {:induction false} SameTears(a: seq<Event>, b: seq<Event>, k: nat, persisted: seq<nat>, window: seq<nat>,
        n: nat)
    requires AgreeUpto(a, b, k) && n <= |window| && forall i :: i in window ==> i <= k
    ensures TornStates(a, k, persisted, window, n) == TornStates(b, k, persisted, window, n)
  {
    hide SectorPrefixes;
    if n > 0 {
      SameTears(a, b, k, persisted, window, n - 1);
      assert window[n - 1] in window;
      SameEvent(a, b, k, window[n - 1]);
    }
  }

  lemma SameMask(a: seq<Event>, b: seq<Event>, k: nat, bounds: Bounds, mask: nat)
    requires AgreeUpto(a, b, k)
    ensures MaskStates(a, k, bounds, mask) == MaskStates(b, k, bounds, mask)
  {
    hide Window, AlwaysPresent, KeptBy, FilesExist, TornStates;
    var w := bounds.maxUnpersistedWindow;
    SameGround(a, b, k, w);
    var window := Window(a, k, w);
    var kept := KeptBy(AlwaysPresent(a, k, w), window, mask);
    AlwaysBounded(a, k, w);
    KeptBounded(AlwaysPresent(a, k, w), window, mask, k);
    SameExistence(a, b, k, ToSet(kept));
    SameTears(a, b, k, kept, window, |window|);
  }

  lemma KeptBounded(always: seq<nat>, window: seq<nat>, mask: nat, k: nat)
    requires forall i :: i in always ==> i <= k
    requires forall i :: i in window ==> i <= k
    ensures forall i :: i in KeptBy(always, window, mask) ==> i <= k
  {
    PickedBounded(window, mask, |window|, k);
  }

  lemma {:induction false} PickedBounded(window: seq<nat>, mask: nat, n: nat, k: nat)
    requires n <= |window| && forall i :: i in window ==> i <= k
    ensures forall i :: i in PickedUpto(window, mask, n) ==> i <= k
  {
    if n > 0 {
      PickedBounded(window, mask, n - 1, k);
      assert window[n - 1] in window;
    }
  }

  lemma {:induction false} SameMasks(a: seq<Event>, b: seq<Event>, k: nat, bounds: Bounds, n: nat)
    requires AgreeUpto(a, b, k)
    ensures MasksUpto(a, k, bounds, n) == MasksUpto(b, k, bounds, n)
  {
    hide MaskStates;
    if n > 0 {
      SameMasks(a, b, k, bounds, n - 1);
      SameMask(a, b, k, bounds, n - 1);
    }
  }

  /** Two traces that agree up to a crash point have the same crash states there, in the same order. */
  lemma StatesSeeNoFurther(a: seq<Event>, b: seq<Event>, k: nat, model: FilesystemModel,
        bounds: Bounds)
    requires AgreeUpto(a, b, k)
    ensures StatesAt(a, k, model, bounds) == StatesAt(b, k, model, bounds)
  {
    hide Window, AlwaysPresent, Issued, MasksUpto, PrefixesUpto;
    SameGround(a, b, k, bounds.maxUnpersistedWindow);
    SameMasks(a, b, k, bounds, ShiftedOne(|Window(a, k, bounds.maxUnpersistedWindow)|));
  }

  lemma {:induction false} ParsedLength(records: seq<Record>)
    ensures |Parsed(records).events| == |EventsOf(records)|
  {}

  lemma PrefixAgrees(cut: seq<Event>, whole: seq<Event>, k: nat)
    requires k < |whole| && cut == whole[..k + 1]
    ensures AgreeUpto(cut, whole, k)
  {}

  /** The reproducer enumerates the finding's own states: with the file's events in submission order, the
      packaged prefix has the same states at the crash point as the trace it was cut from. */
  lemma {:induction false} ReproducerKeepsTheStates(records: seq<Record>, k: nat, model: FilesystemModel,
        bounds: Bounds)
    requires UniqueStamps(records) && k < |EventsOf(records)| && SplitsByStamp(EventsOf(records), k + 1)
    ensures StatesAt(Parsed(PrefixOf(records, k)).events, k, model, bounds)
       == StatesAt(Parsed(records).events, k, model, bounds)
  {
    hide *;
    CutIsThePrefixIff(records, k);
    ParsedLength(records);
    PrefixAgrees(Parsed(PrefixOf(records, k)).events, Parsed(records).events, k);
    StatesSeeNoFurther(Parsed(PrefixOf(records, k)).events, Parsed(records).events, k, model, bounds);
  }
}
