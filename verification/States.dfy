/** Crash-state enumeration: the loops of the enumerator, proved against the functions they compute. */
module States {
  import opened Sorting
  import opened Traces
  import opened Bits

  /** The persistence flags of one filesystem. The enumerator consults `totalOrder` alone. */
  datatype FilesystemModel = FilesystemModel(
    totalOrder: bool,
    orderedAppendRename: bool,
    fsyncPersistsDirEntry: bool,
    atomicBlockOverwrite: bool,
    reordersDirectoryOps: bool
  )

  datatype Bounds = Bounds(tornWrites: bool, maxUnpersistedWindow: nat)

  /** An operation on disk as a prefix of its payload. */
  datatype Torn = Torn(op: nat, bytes: nat)

  datatype CrashState = CrashState(crashPoint: nat, persisted: seq<nat>, partial: seq<Torn>)

  const SECTOR_BYTES: nat := 512

  // ---------------------------------------------------------------- pinning

  /** Event `s` is a returned persistence call and `j` an earlier mutation of the same file. */
  predicate Pins(events: seq<Event>, s: nat, j: nat) {
    && j < s < |events|
    && Persisted(events[s])
    && IsMutating(events[j].call)
    && events[j].path == events[s].path
  }

  predicate IsPinned(events: seq<Event>, k: nat, j: nat) {
    exists s: nat :: s <= k && Pins(events, s, j)
  }

  function PinnedSet(events: seq<Event>, k: nat): set<nat> {
    set j: nat | j < k && IsPinned(events, k, j)
  }

  /** The same in the fields of the two events. */
  predicate SyncsPathOf(events: seq<Event>, s: nat, j: nat) {
    && j < s < |events|
    && events[s].call in {Fsync, Fdatasync, SyncFileRange} && events[s].returnValue >= 0
    && events[j].call in {Write, Pwrite, Writev, Truncate, Ftruncate, Mkdir, Unlink, Link, Rename}
    && events[j].path == events[s].path
  }

  method PinnedBy(events: seq<Event>, upto: nat) returns (pinned: set<nat>)
    requires upto < |events|
    ensures pinned == PinnedSet(events, upto)
    ensures forall j: nat :: j in pinned <==> exists s: nat :: s <= upto && SyncsPathOf(events, s, j)
  {
    pinned := {};
    for i := 0 to upto + 1
      invariant forall j: nat :: j in pinned <==> exists s: nat :: s < i && Pins(events, s, j)
    {
      if !IsPersistence(events[i].call) || events[i].returnValue < 0 {
        continue;
      }
      ghost var before := pinned;
      for j := 0 to i
        invariant forall x: nat :: x in pinned <==> x in before || (x < j && Pins(events, i, x))
      {
        if IsMutating(events[j].call) && events[j].path == events[i].path {
          pinned := pinned + {j};
        }
      }
    }
    assert forall s: nat, j: nat :: Pins(events, s, j) <==> SyncsPathOf(events, s, j);
  }

  // ---------------------------------------------------------------- the unpersisted window

  /** A successful mutation at or before the crash point that no persistence call has forced. */
  predicate IsFree(events: seq<Event>, k: nat, i: nat) {
    i <= k && i < |events| && Succeeded(events[i]) && !IsPinned(events, k, i)
  }

  function FreeUpto(events: seq<Event>, k: nat, n: nat): (r: seq<nat>)
    ensures Ascending(r)
    ensures forall i: nat :: i in r <==> i < n && IsFree(events, k, i)
  {
    if n == 0 then [] else
      var r := FreeUpto(events, k, n - 1);
      AppendAscending(r, n - 1);
      r + (if IsFree(events, k, n - 1) then [n - 1] else [])
  }

  function Free(events: seq<Event>, k: nat): seq<nat> { FreeUpto(events, k, k + 1) }

  /** `free.slice(-w)`, which is the whole of `free` when `w` is zero. */
  function NewestSlice(free: seq<nat>, w: nat): seq<nat> {
    if w == 0 || |free| <= w then free else free[|free| - w..]
  }

  /** `free.slice(0, Math.max(0, free.length - w))`. */
  function OldestSlice(free: seq<nat>, w: nat): seq<nat> {
    if |free| <= w then [] else free[..|free| - w]
  }

  function Window(events: seq<Event>, k: nat, w: nat): seq<nat> { NewestSlice(Free(events, k), w) }

  function Older(events: seq<Event>, k: nat, w: nat): seq<nat> { OldestSlice(Free(events, k), w) }

  /** The elements of `s` below `n`, in order: `[...s].sort((a, b) => a - b)`. */
  function InOrder(s: set<nat>, n: nat): (r: seq<nat>)
    ensures Ascending(r)
    ensures forall i: nat :: i in r <==> i < n && i in s
  {
    if n == 0 then [] else
      var r := InOrder(s, n - 1);
      AppendAscending(r, n - 1);
      r + (if n - 1 in s then [n - 1] else [])
  }

  function ToSet(s: seq<nat>): set<nat> { set x | x in s }

  function AlwaysPresent(events: seq<Event>, k: nat, w: nat): seq<nat> {
    InOrder(PinnedSet(events, k) + ToSet(Older(events, k, w)), k + 1)
  }

  /** Everything issued by the crash point, in program order. */
  function Issued(events: seq<Event>, k: nat, w: nat): seq<nat> {
    InOrder(ToSet(AlwaysPresent(events, k, w)) + ToSet(Window(events, k, w)), k + 1)
  }

  // ---------------------------------------------------------------- torn writes

  function SectorPrefixes(e: Event): seq<nat> {
    if !IsWrite(e.call) then [] else
      var sectors := (e.length + SECTOR_BYTES - 1) / SECTOR_BYTES;
      if sectors == 0 then [] else seq(sectors - 1, i requires i >= 0 => (i + 1) * SECTOR_BYTES)
  }

  method StrictSectorPrefixes(e: Event) returns (prefixes: seq<nat>)
    ensures prefixes == SectorPrefixes(e)
  {
    if e.call != Write && e.call != Pwrite && e.call != Writev {
      return [];
    }
    var sectors := (e.length + SECTOR_BYTES - 1) / SECTOR_BYTES;
    prefixes := [];
    var sector := 1;
    while sector < sectors
      invariant 1 <= sector && (sector <= sectors || sector == 1)
      invariant prefixes == seq(sector - 1, i requires i >= 0 => (i + 1) * SECTOR_BYTES)
    {
      prefixes := prefixes + [sector * SECTOR_BYTES];
      sector := sector + 1;
    }
  }

  // ---------------------------------------------------------------- existence filter

  /** `j` is an earlier successful mutation of the file that `t` needs. */
  predicate Creates(events: seq<Event>, j: nat, t: nat) {
    j < t < |events| && Succeeded(events[j]) && events[j].path == events[t].path
  }

  /** If `t` resizes a file with earlier mutations, at least one of those is kept. */
  ghost predicate FileExists(events: seq<Event>, kept: set<nat>, t: nat) {
    t < |events| && IsTruncate(events[t].call) && (exists j: nat :: Creates(events, j, t))
    ==> exists j: nat :: j in kept && Creates(events, j, t)
  }

  /** No truncate is kept whose file had earlier mutations of which none is kept. */
  ghost predicate FilesExist(events: seq<Event>, kept: set<nat>) {
    forall t: nat :: t in kept ==> FileExists(events, kept, t)
  }

  method ExistsOnDisk(events: seq<Event>, persisted: seq<nat>) returns (ok: bool)
    requires forall i :: 0 <= i < |persisted| ==> persisted[i] < |events|
    ensures ok <==> FilesExist(events, ToSet(persisted))
  {
    for n := 0 to |persisted|
      invariant forall m :: 0 <= m < n ==> FileExists(events, ToSet(persisted), persisted[m])
    {
      var t := persisted[n];
      if events[t].call != Truncate && events[t].call != Ftruncate {
        continue;
      }
      var earlier, earlierPersisted := false, false;
      for j := 0 to t
        invariant earlier <==> exists c: nat :: c < j && Creates(events, c, t)
        invariant earlierPersisted <==> exists c: nat :: c < j && c in persisted && Creates(events, c, t)
      {
        if events[j].path != events[t].path {
          continue;
        }
        if !IsMutating(events[j].call) || events[j].returnValue < 0 {
          continue;
        }
        earlier := true;
        assert Creates(events, j, t);
        if j in persisted {
          earlierPersisted := true;
        }
      }
      if earlier && !earlierPersisted {
        assert t in ToSet(persisted);
        return false;
      }
    }
    return true;
  }

  // ---------------------------------------------------------------- one mask

  /** The window operations whose bit is set in `mask`, up to window position `n`. */
  function PickedUpto(window: seq<nat>, mask: nat, n: nat): seq<nat>
    requires n <= |window|
  {
    if n == 0 then [] else
      PickedUpto(window, mask, n - 1) + (if MaskHas(mask, n - 1) then [window[n - 1]] else [])
  }

  function KeptBy(always: seq<nat>, window: seq<nat>, mask: nat): seq<nat> {
    SortBy(always + PickedUpto(window, mask, |window|), Identity)
  }

  /** States that hold `persisted` and a strict sector prefix of `op`. */
  function PrefixStates(events: seq<Event>, k: nat, persisted: seq<nat>, op: nat): seq<CrashState> {
    if op >= |events| then [] else
      var prefixes := SectorPrefixes(events[op]);
      seq(|prefixes|, i requires 0 <= i < |prefixes| => CrashState(k, persisted, [Torn(op, prefixes[i])]))
  }

  function TornStates(events: seq<Event>, k: nat, persisted: seq<nat>, window: seq<nat>, n: nat): seq<CrashState>
    requires n <= |window|
  {
    if n == 0 then [] else
      TornStates(events, k, persisted, window, n - 1)
      + (if window[n - 1] in persisted then [] else PrefixStates(events, k, persisted, window[n - 1]))
  }

  ghost function MaskStates(events: seq<Event>, k: nat, bounds: Bounds, mask: nat): seq<CrashState> {
    var window := Window(events, k, bounds.maxUnpersistedWindow);
    var kept := KeptBy(AlwaysPresent(events, k, bounds.maxUnpersistedWindow), window, mask);
    if !FilesExist(events, ToSet(kept)) then [] else
      [CrashState(k, kept, [])]
      + (if bounds.tornWrites then TornStates(events, k, kept, window, |window|) else [])
  }

  // ---------------------------------------------------------------- one crash point

  ghost function MasksUpto(events: seq<Event>, k: nat, bounds: Bounds, n: nat): seq<CrashState> {
    if n == 0 then [] else
      MasksUpto(events, k, bounds, n - 1) + MaskStates(events, k, bounds, n - 1)
  }

  /** The prefixes of `issued` shorter than `n` that contain all of `always`. */
  ghost function PrefixesUpto(k: nat, always: seq<nat>, issued: seq<nat>, n: nat): seq<CrashState>
    requires n <= |issued| + 1
  {
    if n == 0 then [] else
      PrefixesUpto(k, always, issued, n - 1)
      + (if forall i :: i in always ==> i in issued[..n - 1] then [CrashState(k, issued[..n - 1], [])] else [])
  }

  ghost function StatesAt(events: seq<Event>, k: nat, model: FilesystemModel, bounds: Bounds): seq<CrashState> {
    var w := bounds.maxUnpersistedWindow;
    if model.totalOrder then
      var issued := Issued(events, k, w);
      PrefixesUpto(k, AlwaysPresent(events, k, w), issued, |issued| + 1)
    else
      MasksUpto(events, k, bounds, ShiftedOne(|Window(events, k, w)|))
  }

  // ---------------------------------------------------------------- the whole trace

  ghost function Enumerated(events: seq<Event>, model: FilesystemModel, bounds: Bounds,
        points: seq<nat>): seq<CrashState> {
    if points == [] then [] else
      Enumerated(events, model, bounds, points[..|points| - 1])
      + StatesAt(events, points[|points| - 1], model, bounds)
  }

  /** Every crash point of a trace of `n` events. */
  function AllPoints(n: nat): (r: seq<nat>)
    ensures |r| == n && forall i :: 0 <= i < n ==> r[i] == i
    ensures forall i: nat :: i in r <==> i < n
  {
    var r := seq(n, i requires 0 <= i => i);
    assert forall i: nat :: i < n ==> i in r by {
      forall i: nat | i < n ensures i in r { assert r[i] == i; }
    }
    r
  }

  /** `options.crashPoints ?? every crash point`. */
  function ChosenPoints(events: seq<Event>, points: Option<seq<nat>>): seq<nat> {
    if points.Some? then points.value else AllPoints(|events|)
  }

  method EnumerateCrashStates(events: seq<Event>, model: FilesystemModel, bounds: Bounds, points: Option<seq<nat>>)
    returns (states: seq<CrashState>)
    requires points.Some? ==> forall k :: k in points.value ==> k < |events|
    ensures states == Enumerated(events, model, bounds, ChosenPoints(events, points))
  {
    hide StatesAt, Enumerated;
    var crashPoints := ChosenPoints(events, points);
    assert forall p :: 0 <= p < |crashPoints| ==> crashPoints[p] in crashPoints && crashPoints[p] < |events|;
    states := [];
    EnumeratedNothing(events, model, bounds);
    for p := 0 to |crashPoints|
      invariant states == Enumerated(events, model, bounds, crashPoints[..p])
    {
      var here := EnumerateAt(events, crashPoints[p], model, bounds);
      EnumeratedSnoc(events, model, bounds, crashPoints[..p], crashPoints[p]);
      assert crashPoints[..p + 1] == crashPoints[..p] + [crashPoints[p]];
      states := states + here;
    }
    assert crashPoints[..|crashPoints|] == crashPoints;
  }

  lemma {:induction false} EnumeratedNothing(events: seq<Event>, model: FilesystemModel, bounds: Bounds)
    ensures Enumerated(events, model, bounds, []) == []
  {}

  lemma {:induction false} EnumeratedSnoc(events: seq<Event>, model: FilesystemModel, bounds: Bounds,
        points: seq<nat>, k: nat)
    ensures Enumerated(events, model, bounds, points + [k])
         == Enumerated(events, model, bounds, points) + StatesAt(events, k, model, bounds)
  {
    assert (points + [k])[..|points|] == points;
  }

  method EnumerateAt(events: seq<Event>, crashPoint: nat, model: FilesystemModel, bounds: Bounds)
    returns (states: seq<CrashState>)
    requires crashPoint < |events|
    ensures states == StatesAt(events, crashPoint, model, bounds)
  {
    states := [];
    var pinned := PinnedBy(events, crashPoint);
    var free := CollectFree(events, crashPoint, pinned);
    var window := NewestSlice(free, bounds.maxUnpersistedWindow);
    var older := OldestSlice(free, bounds.maxUnpersistedWindow);
    var alwaysPresent := InOrder(pinned + ToSet(older), crashPoint + 1);

    if model.totalOrder {
      var issued := InOrder(ToSet(alwaysPresent) + ToSet(window), crashPoint + 1);
      states := EnumerateInitialSegments(crashPoint, alwaysPresent, issued);
      return;
    }

    AlwaysBounded(events, crashPoint, bounds.maxUnpersistedWindow);
    var masks := ShiftedOne(|window|);
    for mask := 0 to masks
      invariant states == MasksUpto(events, crashPoint, bounds, mask)
    {
      var here := EnumerateMask(events, crashPoint, bounds, alwaysPresent, window, mask);
      states := states + here;
    }
  }

  method CollectFree(events: seq<Event>, crashPoint: nat, pinned: set<nat>) returns (free: seq<nat>)
    requires crashPoint < |events|
    requires pinned == PinnedSet(events, crashPoint)
    ensures free == Free(events, crashPoint)
  {
    free := [];
    for i := 0 to crashPoint + 1
      invariant free == FreeUpto(events, crashPoint, i)
    {
      if !IsMutating(events[i].call) || events[i].returnValue < 0 {
        continue;
      }
      assert i in pinned <==> IsPinned(events, crashPoint, i);
      if i !in pinned {
        free := free + [i];
      }
    }
  }

  /** The total-order branch: prefixes of the issued operations. */
  method EnumerateInitialSegments(crashPoint: nat, alwaysPresent: seq<nat>, issued: seq<nat>)
    returns (states: seq<CrashState>)
    ensures states == PrefixesUpto(crashPoint, alwaysPresent, issued, |issued| + 1)
  {
    states := [];
    for take := 0 to |issued| + 1
      invariant states == PrefixesUpto(crashPoint, alwaysPresent, issued, take)
    {
      var persisted := issued[..take];
      if forall index :: index in alwaysPresent ==> index in persisted {
        states := states + [CrashState(crashPoint, persisted, [])];
      }
    }
  }

  method EnumerateMask(events: seq<Event>, crashPoint: nat, bounds: Bounds, alwaysPresent: seq<nat>,
        window: seq<nat>, mask: nat)
    returns (states: seq<CrashState>)
    requires alwaysPresent == AlwaysPresent(events, crashPoint, bounds.maxUnpersistedWindow)
    requires window == Window(events, crashPoint, bounds.maxUnpersistedWindow)
    requires forall i :: i in alwaysPresent || i in window ==> i < |events|
    ensures states == MaskStates(events, crashPoint, bounds, mask)
  {
    hide AlwaysPresent, Window, TornStates, FilesExist, MaskHas;
    var persisted: seq<nat> := alwaysPresent;
    assert forall b :: 0 <= b < |window| ==> window[b] in window;
    for bit := 0 to |window|
      invariant persisted == alwaysPresent + PickedUpto(window, mask, bit)
      invariant forall i :: i in persisted ==> i < |events|
    {
      if MaskHas(mask, bit) {
        persisted := persisted + [window[bit]];
      }
    }
    persisted := SortBy(persisted, Identity);
    assert forall i :: 0 <= i < |persisted| ==> persisted[i] in persisted;

    var ok := ExistsOnDisk(events, persisted);
    if !ok {
      return [];
    }
    states := [CrashState(crashPoint, persisted, [])];
    if !bounds.tornWrites {
      return;
    }
    var torn := EnumerateTorn(events, crashPoint, persisted, window);
    states := states + torn;
  }

  method EnumerateTorn(events: seq<Event>, crashPoint: nat, persisted: seq<nat>, window: seq<nat>)
    returns (states: seq<CrashState>)
    requires forall i :: i in window ==> i < |events|
    ensures states == TornStates(events, crashPoint, persisted, window, |window|)
  {
    hide PrefixStates;
    assert forall n :: 0 <= n < |window| ==> window[n] in window;
    states := [];
    for n := 0 to |window|
      invariant states == TornStates(events, crashPoint, persisted, window, n)
    {
      var op := window[n];
      if op in persisted {
        continue;
      }
      var cut := EnumeratePrefixes(events, crashPoint, persisted, op);
      states := states + cut;
    }
  }

  method EnumeratePrefixes(events: seq<Event>, crashPoint: nat, persisted: seq<nat>, op: nat)
    returns (states: seq<CrashState>)
    requires op < |events|
    ensures states == PrefixStates(events, crashPoint, persisted, op)
  {
    states := [];
    var prefixes := StrictSectorPrefixes(events[op]);
    for i := 0 to |prefixes|
      invariant states == PrefixStates(events, crashPoint, persisted, op)[..i]
    {
      states := states + [CrashState(crashPoint, persisted, [Torn(op, prefixes[i])])];
    }
  }

  lemma AlwaysBounded(events: seq<Event>, k: nat, w: nat)
    requires k < |events|
    ensures forall i :: i in AlwaysPresent(events, k, w) ==> i <= k
    ensures forall i :: i in Window(events, k, w) ==> i <= k
  {
    forall i | i in Window(events, k, w) ensures i <= k {
      assert i in Free(events, k);
    }
  }
}
