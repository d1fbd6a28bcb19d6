/** How many crash states there are: the exact count per crash point, the linear bound under a fixed
    window, and the exponential worst case the window exists to avoid. */
module Counting {
  import opened Sorting
  import opened Text
  import opened Traces
  import opened Bits
  import opened States
  import opened Legality
  import opened CrashSpace
  import opened Inclusion

  /** Sector boundaries strictly inside a write's payload. */
  function Tears(e: Event): nat {
    if IsWrite(e.call) && e.length > 0 then (e.length - 1) / SECTOR_BYTES else 0
  }

  ghost function SumTears(events: seq<Event>, window: seq<nat>): nat {
    if window == [] then 0
    else (if window[0] < |events| then Tears(events[window[0]]) else 0) + SumTears(events, window[1..])
  }

  lemma PrefixStatesCount(events: seq<Event>, k: nat, persisted: seq<nat>, op: nat)
    ensures |PrefixStates(events, k, persisted, op)| == if op < |events| then Tears(events[op]) else 0
  {}

  // ---------------------------------------------------------------- states of one mask

  /** Tears available to the window operations a mask leaves out. */
  ghost function MissingTears(events: seq<Event>, window: seq<nat>, mask: nat, n: nat): nat
    requires n <= |window|
  {
    if n == 0 then 0 else
      MissingTears(events, window, mask, n - 1)
      + (if Bit(mask, n - 1) || window[n - 1] >= |events| then 0 else Tears(events[window[n - 1]]))
  }

  lemma {:induction false} TornCount(events: seq<Event>, k: nat, persisted: seq<nat>, window: seq<nat>, mask: nat,
        n: nat)
    requires n <= |window|
    requires forall b: nat :: b < |window| ==> (Bit(mask, b) <==> window[b] in persisted)
    ensures |TornStates(events, k, persisted, window, n)| == MissingTears(events, window, mask, n)
  {
    hide Bit, PrefixStates;
    if n > 0 {
      TornCount(events, k, persisted, window, mask, n - 1);
      PrefixStatesCount(events, k, persisted, window[n - 1]);
    }
  }

  lemma MissingFromFront(events: seq<Event>, window: seq<nat>, mask: nat, n: nat)
    requires 1 <= n <= |window|
    ensures MissingTears(events, window, mask, n)
         == (if mask % 2 == 1 || window[0] >= |events| then 0 else Tears(events[window[0]]))
          + MissingTears(events, window[1..], mask / 2, n - 1)
  {
    if n > 1 {
      MissingFromFront(events, window, mask, n - 1);
    } else {
      assert MissingTears(events, window, mask, 0) == 0;
    }
  }

  lemma {:induction false} KeptBits(always: seq<nat>, window: seq<nat>, mask: nat)
    requires |window| <= 30 && Ascending(window) && forall x :: x in always ==> x !in window
    ensures forall b: nat :: b < |window| ==> (Bit(mask, b) <==> window[b] in KeptBy(always, window, mask))
  {
    hide KeptBy, Bit;
    KeptMembers(always, window, mask);
    forall b: nat | b < |window| ensures Bit(mask, b) <==> window[b] in KeptBy(always, window, mask) {
      assert window[b] in window;
      assert MaskHas(mask, b) <==> Bit(mask, b);
    }
  }

  lemma {:induction false} MaskCount(events: seq<Event>, k: nat, bounds: Bounds, mask: nat)
    requires bounds.maxUnpersistedWindow >= 1
    requires |Window(events, k, bounds.maxUnpersistedWindow)| <= 30
    ensures var window := Window(events, k, bounds.maxUnpersistedWindow);
            var most := 1 + if bounds.tornWrites then MissingTears(events, window, mask, |window|) else 0;
            && |MaskStates(events, k, bounds, mask)| <= most
            && (FilesExist(events, ToSet(KeptBy(AlwaysPresent(events, k, bounds.maxUnpersistedWindow), window, mask)))
                ==> |MaskStates(events, k, bounds, mask)| == most)
  {
    hide Window, AlwaysPresent, KeptBy, MissingTears, Bit;
    var w := bounds.maxUnpersistedWindow;
    var window := Window(events, k, w);
    var kept := KeptBy(AlwaysPresent(events, k, w), window, mask);
    IssuedSplit(events, k, w);
    KeptBits(AlwaysPresent(events, k, w), window, mask);
    TornCount(events, k, kept, window, mask, |window|);
    hide TornStates;
  }

  // ---------------------------------------------------------------- summing over masks

  ghost function SumMissing(events: seq<Event>, window: seq<nat>, masks: nat): nat {
    if masks == 0 then 0 else SumMissing(events, window, masks - 1) + MissingTears(events, window, masks - 1, |window|)
  }

  /** Tears of the oldest window operation. */
  ghost function FirstTears(events: seq<Event>, window: seq<nat>): nat
    requires window != []
  {
    if window[0] < |events| then Tears(events[window[0]]) else 0
  }

  lemma {:induction false} MissingPair(events: seq<Event>, window: seq<nat>, j: nat)
    requires window != []
    ensures MissingTears(events, window, 2 * j, |window|)
       == FirstTears(events, window) + MissingTears(events, window[1..], j, |window| - 1)
    ensures MissingTears(events, window, 2 * j + 1, |window|) == MissingTears(events, window[1..], j, |window| - 1)
  {
    MissingFromFront(events, window, 2 * j, |window|);
    MissingFromFront(events, window, 2 * j + 1, |window|);
    assert (2 * j) / 2 == j && (2 * j + 1) / 2 == j;
  }

  lemma {:induction false} SumMissingPairs(events: seq<Event>, window: seq<nat>, half: nat)
    requires window != []
    ensures SumMissing(events, window, 2 * half)
       == half * FirstTears(events, window) + 2 * SumMissing(events, window[1..], half)
  {
    hide MissingTears, FirstTears;
    if half > 0 {
      SumMissingPairs(events, window, half - 1);
      MissingPair(events, window, half - 1);
      Distribute(half - 1, 1, FirstTears(events, window));
      assert SumMissing(events, window, 2 * half)
          == SumMissing(events, window, 2 * half - 1) + MissingTears(events, window, 2 * half - 1, |window|);
      assert SumMissing(events, window, 2 * half - 1)
          == SumMissing(events, window, 2 * half - 2) + MissingTears(events, window, 2 * half - 2, |window|);
    }
  }

  lemma Distribute(a: nat, b: nat, c: nat)
    ensures (a + b) * c == a * c + b * c
  {}

  /** Each tear is available in exactly half of the masks. */
  lemma {:induction false} SumMissingAll(events: seq<Event>, window: seq<nat>)
    ensures 2 * SumMissing(events, window, Pow2(|window|)) == Pow2(|window|) * SumTears(events, window)
  {
    hide MissingTears, FirstTears;
    if window == [] {
      NoWindowNoTears(events);
    } else {
      var half := Pow2(|window| - 1);
      SumMissingPairs(events, window, half);
      SumMissingAll(events, window[1..]);
      FirstOfSum(events, window);
      DoublePow2(|window|);
      hide *;
      HalvesAddUp(SumMissing(events, window, 2 * half), half, FirstTears(events, window),
                  SumMissing(events, window[1..], half), SumTears(events, window[1..]));
    }
  }

  lemma HalvesAddUp(sum: nat, half: nat, first: nat, part: nat, rest: nat)
    requires sum == half * first + 2 * part && 2 * part == half * rest
    ensures 2 * sum == (2 * half) * (first + rest)
  {
    Distribute(first, rest, half);
    Doubling(half, first + rest);
  }

  lemma DoublePow2(n: nat)
    requires n >= 1
    ensures Pow2(n) == 2 * Pow2(n - 1)
  {}

  lemma {:induction false} FirstOfSum(events: seq<Event>, window: seq<nat>)
    requires window != []
    ensures SumTears(events, window) == FirstTears(events, window) + SumTears(events, window[1..])
  {}

  lemma {:induction false} NoWindowNoTears(events: seq<Event>)
    ensures SumMissing(events, [], Pow2(0)) == 0
  {
    assert SumMissing(events, [], 1) == SumMissing(events, [], 0) + MissingTears(events, [], 0, 0);
  }

  lemma {:induction false} MasksCount(events: seq<Event>, k: nat, bounds: Bounds, masks: nat)
    requires bounds.maxUnpersistedWindow >= 1
    requires |Window(events, k, bounds.maxUnpersistedWindow)| <= 30
    ensures var window := Window(events, k, bounds.maxUnpersistedWindow);
            var most := masks + if bounds.tornWrites then SumMissing(events, window, masks) else 0;
            && |MasksUpto(events, k, bounds, masks)| <= most
            && ((forall mask: nat :: FilesExist(events,
                    ToSet(KeptBy(AlwaysPresent(events, k, bounds.maxUnpersistedWindow), window, mask))))
                ==> |MasksUpto(events, k, bounds, masks)| == most)
  {
    hide MaskStates, Window, AlwaysPresent, KeptBy, MissingTears, FilesExist, ToSet;
    if masks > 0 {
      MasksCount(events, k, bounds, masks - 1);
      MaskCount(events, k, bounds, masks - 1);
    }
  }

  /** Without a truncate in the window, the existence filter rejects nothing. */
  lemma NothingFiltered(events: seq<Event>, k: nat, w: nat, mask: nat)
    requires k < |events| && w >= 1
    requires forall i :: i in Window(events, k, w) && i < |events| ==> !IsTruncate(events[i].call)
    ensures FilesExist(events, ToSet(KeptBy(AlwaysPresent(events, k, w), Window(events, k, w), mask)))
  {
    hide Window, AlwaysPresent, KeptBy;
    var always, window := AlwaysPresent(events, k, w), Window(events, k, w);
    var kept := ToSet(KeptBy(always, window, mask));
    MinimalIsLegal(events, k, w);
    KeptMembers(always, window, mask);
    assert forall b :: 0 <= b < |window| ==> window[b] in window;
    forall t | t in kept ensures FileExists(events, kept, t) {
      if t in always {
        assert FileExists(events, ToSet(always), t);
      }
    }
  }

  /** The exact number of states at a crash point whose window of `n` operations holds no truncate:
      `2^n` untorn ones and half as many for each interior sector boundary. With truncates, no more. */
  lemma {:induction false} CountAtPoint(events: seq<Event>, k: nat, model: FilesystemModel, bounds: Bounds)
    requires k < |events| && !model.totalOrder && bounds.maxUnpersistedWindow >= 1
    requires |Window(events, k, bounds.maxUnpersistedWindow)| <= 30
    ensures var window := Window(events, k, bounds.maxUnpersistedWindow);
            var n := |window|;
            var most := Pow2(n) + if bounds.tornWrites && n >= 1 then Pow2(n - 1) * SumTears(events, window) else 0;
            && |StatesAt(events, k, model, bounds)| <= most
            && ((forall i :: i in window && i < |events| ==> !IsTruncate(events[i].call))
                ==> |StatesAt(events, k, model, bounds)| == most)
  {
    var w := bounds.maxUnpersistedWindow;
    var window := Window(events, k, w);
    hide Window, AlwaysPresent, KeptBy, FilesExist, SumMissing, IsTruncate, ToSet, StatesAt, MasksUpto, Pow2, SumTears;
    StatesAreMasks(events, k, model, bounds);
    MasksCount(events, k, bounds, Pow2(|window|));
    MissingInAll(events, window);
    if forall i :: i in window && i < |events| ==> !IsTruncate(events[i].call) {
      forall mask: nat ensures FilesExist(events, ToSet(KeptBy(AlwaysPresent(events, k, w), window, mask))) {
        NothingFiltered(events, k, w, mask);
      }
    }
  }

  lemma {:induction false} StatesAreMasks(events: seq<Event>, k: nat, model: FilesystemModel, bounds: Bounds)
    requires !model.totalOrder && |Window(events, k, bounds.maxUnpersistedWindow)| <= 30
    ensures StatesAt(events, k, model, bounds)
         == MasksUpto(events, k, bounds, Pow2(|Window(events, k, bounds.maxUnpersistedWindow)|))
  {
    hide MasksUpto, Window, PrefixesUpto, Issued, AlwaysPresent, Pow2;
  }

  /** Over all masks, half of them leave out each operation. */
  lemma {:induction false} MissingInAll(events: seq<Event>, window: seq<nat>)
    ensures SumMissing(events, window, Pow2(|window|))
         == if |window| >= 1 then Pow2(|window| - 1) * SumTears(events, window) else 0
  {
    SumMissingAll(events, window);
    if |window| >= 1 {
      DoublePow2(|window|);
      hide *;
      Doubling(Pow2(|window| - 1), SumTears(events, window));
    } else {
      EmptyOrFirst(window);
    }
  }

  lemma Doubling(a: nat, b: nat)
    ensures (2 * a) * b == 2 * (a * b)
  {}

  /** The most states one crash point can have, when no write has more than `tears` interior boundaries. */
  function PerPoint(bounds: Bounds, tears: nat): nat
    requires bounds.maxUnpersistedWindow >= 1
  {
    var w := bounds.maxUnpersistedWindow;
    Pow2(w) + if bounds.tornWrites then Pow2(w - 1) * (w * tears) else 0
  }

  lemma {:induction false} SumTearsBounded(events: seq<Event>, window: seq<nat>, tears: nat)
    requires forall i :: 0 <= i < |events| ==> Tears(events[i]) <= tears
    ensures SumTears(events, window) <= |window| * tears
  {
    hide Tears;
    if window != [] {
      SumTearsBounded(events, window[1..], tears);
      Distribute(1, |window| - 1, tears);
    }
  }

  lemma ProductGrows(a: nat, b: nat, c: nat, d: nat)
    requires a <= c && b <= d
    ensures a * b <= c * d
  {
    assert a * b <= c * b;
    assert c * b <= c * d;
  }

  lemma PointIsBounded(events: seq<Event>, k: nat, model: FilesystemModel, bounds: Bounds,
        tears: nat)
    requires k < |events| && 1 <= bounds.maxUnpersistedWindow <= 30
    requires forall i :: 0 <= i < |events| ==> Tears(events[i]) <= tears
    ensures |StatesAt(events, k, model, bounds)| <= PerPoint(bounds, tears)
  {
    var w := bounds.maxUnpersistedWindow;
    if model.totalOrder {
      hide *;
      JournalExact(events, k, model, bounds);
      Pow2Grows(w);
      PerPointIsAtLeast(bounds, tears);
    } else {
      CountIsBounded(events, k, model, bounds, tears);
    }
  }

  lemma CountIsBounded(events: seq<Event>, k: nat, model: FilesystemModel, bounds: Bounds, tears: nat)
    requires k < |events| && !model.totalOrder && 1 <= bounds.maxUnpersistedWindow <= 30
    requires forall i :: 0 <= i < |events| ==> Tears(events[i]) <= tears
    ensures |StatesAt(events, k, model, bounds)| <= PerPoint(bounds, tears)
  {
    hide *;
    var window := Window(events, k, bounds.maxUnpersistedWindow);
    WindowIsBounded(events, k, bounds.maxUnpersistedWindow);
    SumTearsBounded(events, window, tears);
    MostAtPoint(|window|, bounds, SumTears(events, window), tears);
    CountAtPoint(events, k, model, bounds);
  }

  lemma PerPointIsAtLeast(bounds: Bounds, tears: nat)
    requires bounds.maxUnpersistedWindow >= 1
    ensures PerPoint(bounds, tears) >= Pow2(bounds.maxUnpersistedWindow)
  {}

  lemma MostAtPoint(n: nat, bounds: Bounds, sum: nat, tears: nat)
    requires bounds.maxUnpersistedWindow >= 1 && n <= bounds.maxUnpersistedWindow && sum <= n * tears
    ensures Pow2(n) + (if bounds.tornWrites && n >= 1 then Pow2(n - 1) * sum else 0) <= PerPoint(bounds, tears)
  {
    var w := bounds.maxUnpersistedWindow;
    hide Pow2;
    Pow2Monotone(n, w);
    if n >= 1 {
      Pow2Monotone(n - 1, w - 1);
      ProductGrows(n, tears, w, tears);
      ProductGrows(Pow2(n - 1), sum, Pow2(w - 1), w * tears);
    }
  }

  /** Under a window of `w` and writes of bounded size the total is linear in the crash points, torn states
      included and under either kind of model. */
  lemma {:induction false} LinearInCrashPoints(events: seq<Event>, model: FilesystemModel, bounds: Bounds,
        points: seq<nat>, tears: nat)
    requires 1 <= bounds.maxUnpersistedWindow <= 30
    requires forall i :: 0 <= i < |events| ==> Tears(events[i]) <= tears
    requires forall k :: k in points ==> k < |events|
    ensures |Enumerated(events, model, bounds, points)| <= |points| * PerPoint(bounds, tears)
  {
    hide StatesAt, PerPoint, Tears;
    if points != [] {
      var rest := points[..|points| - 1];
      var k := points[|points| - 1];
      assert points == rest + [k];
      assert k in points && forall x :: x in rest ==> x in points;
      LinearInCrashPoints(events, model, bounds, rest, tears);
      PointIsBounded(events, k, model, bounds, tears);
      Distribute(|rest|, 1, PerPoint(bounds, tears));
    }
  }

  // ---------------------------------------------------------------- the worst case

  /** Every event is a successful mutation, none a truncate, so nothing is ever pinned. */
  ghost predicate NeverSyncs(events: seq<Event>) {
    forall i :: 0 <= i < |events| ==> Succeeded(events[i]) && !IsTruncate(events[i].call)
  }

  lemma {:induction false} AllFree(events: seq<Event>, k: nat, n: nat)
    requires NeverSyncs(events) && k < |events| && n <= k + 1
    ensures FreeUpto(events, k, n) == AllPoints(n)
  {
    if n > 0 {
      AllFree(events, k, n - 1);
      UnsyncedIsFree(events, k, n - 1);
      hide NeverSyncs, IsFree, AllPoints, Ascending;
      OnePointMore(n - 1);
    }
  }

  lemma UnsyncedIsFree(events: seq<Event>, k: nat, i: nat)
    requires NeverSyncs(events) && k < |events| && i <= k
    ensures IsFree(events, k, i)
  {}

  lemma OnePointMore(n: nat)
    ensures AllPoints(n + 1) == AllPoints(n) + [n]
  {}

  lemma UnsyncedWindow(events: seq<Event>, k: nat, w: nat)
    requires NeverSyncs(events) && k < |events| <= w
    ensures |Window(events, k, w)| == k + 1
    ensures forall i :: i in Window(events, k, w) && i < |events| ==> !IsTruncate(events[i].call)
  {
    AllFree(events, k, k + 1);
  }

  ghost function UnboundedTotal(events: seq<Event>, model: FilesystemModel, n: nat): nat
    requires n <= |events|
  {
    |Enumerated(events, model, Bounds(false, |events|), AllPoints(n))|
  }

  lemma TotalStep(events: seq<Event>, model: FilesystemModel, n: nat)
    requires 1 <= n <= |events|
    ensures UnboundedTotal(events, model, n)
         == UnboundedTotal(events, model, n - 1) + |StatesAt(events, n - 1, model, Bounds(false, |events|))|
  {
    hide StatesAt, AllPoints;
    OnePointMore(n - 1);
    EnumeratedSnoc(events, model, Bounds(false, |events|), AllPoints(n - 1), n - 1);
  }

  lemma {:induction false} TotalUpto(events: seq<Event>, model: FilesystemModel, n: nat)
    requires NeverSyncs(events) && !model.totalOrder && n <= |events|
    ensures n <= 30 ==> UnboundedTotal(events, model, n) == Pow2(n + 1) - 2
    ensures n >= 31 ==> UnboundedTotal(events, model, n) < Pow2(n + 1) - 2
  {
    hide StatesAt, Window, UnboundedTotal;
    if n == 0 {
      assert UnboundedTotal(events, model, 0) == 0 by { EmptyTotal(events, model); }
    } else {
      TotalUpto(events, model, n - 1);
      TotalStep(events, model, n);
      UnsyncedWindow(events, n - 1, |events|);
      UnsyncedPoint(events, n - 1, model);
    }
  }

  lemma EmptyTotal(events: seq<Event>, model: FilesystemModel)
    ensures UnboundedTotal(events, model, 0) == 0
  {}

  /** One crash point of a trace that never syncs: `2^(k+1)` states, until the mask's shift wraps. */
  lemma {:induction false} UnsyncedPoint(events: seq<Event>, k: nat, model: FilesystemModel)
    requires NeverSyncs(events) && !model.totalOrder && k < |events|
    ensures k + 1 <= 30 ==> |StatesAt(events, k, model, Bounds(false, |events|))| == Pow2(k + 1)
    ensures k + 1 == 31 ==> |StatesAt(events, k, model, Bounds(false, |events|))| == 0
    ensures |StatesAt(events, k, model, Bounds(false, |events|))| <= Pow2(k + 1)
  {
    hide MasksUpto, Window, PrefixesUpto, Issued, AlwaysPresent, Pow2;
    var bounds := Bounds(false, |events|);
    UnsyncedWindow(events, k, |events|);
    if k + 1 <= 30 {
      CountAtPoint(events, k, model, bounds);
    }
    WholeMasksCount(events, k, bounds, ShiftedOne(k + 1));
    Pow2Monotone((k + 1) % 32, k + 1);
    assert ShiftedOne(k + 1) <= Pow2(k + 1);
  }

  lemma {:induction false} WholeMasksCount(events: seq<Event>, k: nat, bounds: Bounds, masks: nat)
    requires !bounds.tornWrites
    ensures |MasksUpto(events, k, bounds, masks)| <= masks
  {
    hide AlwaysPresent, Window, KeptBy, FilesExist;
    if masks > 0 { WholeMasksCount(events, k, bounds, masks - 1); }
  }

  /** With the bounds off, a trace of `n` unsynced mutations has `2^(n+1) - 2` states over all its crash
      points if and only if `n` is at most 30. */
  lemma {:induction false} UnboundedCount(events: seq<Event>, model: FilesystemModel)
    requires NeverSyncs(events) && !model.totalOrder
    ensures |Enumerated(events, model, Bounds(false, |events|), AllPoints(|events|))| == Pow2(|events| + 1) - 2
       <==> |events| <= 30
  {
    hide Enumerated;
    TotalUpto(events, model, |events|);
  }

  // ---------------------------------------------------------------- the measured workload

  /** One event of the synthetic workload: a few files, a sync every fifth operation, a rename every twentieth. */
  function SyntheticEvent(index: nat, operations: nat, withPersistence: bool): Event {
    var file := "/db/file-" + [['0', '1', '2'][index % 3]];
    var digest := PadStart(Decimal(index), 64);
    var write := Event(index, index + operations, Write, 1, file, "", index * 1024, 1024, 1024, digest);
    if index % 5 == 4 && withPersistence then write.(call := Fsync, length := 0, returnValue := 0, digest := "")
    else if index % 20 == 19 then
      write.(call := Rename, path := file + ".tmp", path2 := file, length := 0, returnValue := 0, digest := "")
    else write
  }

  lemma SyntheticCalls(index: nat, operations: nat, withPersistence: bool)
    ensures var e := SyntheticEvent(index, operations, withPersistence);
            && (!withPersistence ==> Succeeded(e) && !IsTruncate(e.call))
            && (withPersistence ==> (Persisted(e) <==> index % 5 == 4))
  {
    hide PadStart, Decimal;
  }

  /** One event of each kind, in full. */
  lemma SyntheticExamples(n: nat)
    ensures SyntheticEvent(5, n, true)
         == Event(5, 5 + n, Write, 1, "/db/file-2", "", 5120, 1024, 1024, seq(63, _ => '0') + "5")
    ensures SyntheticEvent(9, n, true) == Event(9, 9 + n, Fsync, 1, "/db/file-0", "", 9216, 0, 0, "")
    ensures SyntheticEvent(9, n, false)
         == Event(9, 9 + n, Write, 1, "/db/file-0", "", 9216, 1024, 1024, seq(63, _ => '0') + "9")
    ensures SyntheticEvent(19, n, false)
         == Event(19, 19 + n, Rename, 1, "/db/file-1.tmp", "/db/file-1", 19456, 0, 0, "")
  {
    hide Decimal, PadStart;
    PaddedDigits();
    assert "/db/file-" + ['0'] == "/db/file-0" && "/db/file-" + ['1'] == "/db/file-1";
    assert "/db/file-" + ['2'] == "/db/file-2" && "/db/file-1" + ".tmp" == "/db/file-1.tmp";
  }

  lemma PaddedDigits()
    ensures PadStart(Decimal(5), 64) == seq(63, _ => '0') + "5"
    ensures PadStart(Decimal(9), 64) == seq(63, _ => '0') + "9"
  {
    assert Decimal(5) == "5" && Decimal(9) == "9";
    hide Decimal;
  }

  method SyntheticTrace(operations: nat, withPersistence: bool) returns (trace: Trace)
    ensures |trace.events| == operations && trace.markers == []
    ensures forall i :: 0 <= i < operations ==> trace.events[i] == SyntheticEvent(i, operations, withPersistence)
    ensures !withPersistence ==> NeverSyncs(trace.events)
    ensures withPersistence ==> forall i :: 0 <= i < operations ==> (Persisted(trace.events[i]) <==> i % 5 == 4)
  {
    hide PadStart, Decimal, IsMutating, IsPersistence, IsTruncate;
    var events: seq<Event> := [];
    for index := 0 to operations
      invariant |events| == index
      invariant forall i :: 0 <= i < index ==> events[i] == SyntheticEvent(i, operations, withPersistence)
    {
      events := events + [SyntheticEvent(index, operations, withPersistence)];
    }
    hide SyntheticEvent;
    forall i: nat | i < operations
      ensures !withPersistence ==> Succeeded(events[i]) && !IsTruncate(events[i].call)
      ensures withPersistence ==> (Persisted(events[i]) <==> i % 5 == 4)
    {
      SyntheticCalls(i, operations, withPersistence);
    }
    trace := Trace(events, []);
  }

  /** The unbounded curve: every crash point, no window cap, no torn writes. */
  method MeasureUnbounded(operations: nat, model: FilesystemModel) returns (states: nat)
    requires !model.totalOrder
    ensures states == Pow2(operations + 1) - 2 <==> operations <= 30
  {
    var trace := SyntheticTrace(operations, false);
    var all := EnumerateCrashStates(trace.events, model, Bounds(false, operations), None);
    UnboundedCount(trace.events, model);
    states := |all|;
  }
}
