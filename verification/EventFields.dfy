/** The crash-state space read off the events themselves: which calls changed a file, which were synced, and which
    states a crash may therefore leave. */
module EventFields {
  import opened Sorting
  import opened Bits
  import opened Traces
  import opened States
  import opened Legality
  import opened CrashSpace
  import opened Inclusion

  // ---------------------------------------------------------------- what the fields of an event say

  /** Event `i` is a call that changes a file or the tree. */
  ghost predicate Changes(events: seq<Event>, i: nat) {
    i < |events| && events[i].call in {Write, Pwrite, Writev, Truncate, Ftruncate, Mkdir, Unlink, Link, Rename}
  }

  /** It is one that returned success. */
  ghost predicate Changed(events: seq<Event>, i: nat) {
    Changes(events, i) && events[i].returnValue >= 0
  }

  /** A sync of the path of event `i`, issued after it and by event `k`, returned success. */
  ghost predicate SyncedBy(events: seq<Event>, k: nat, i: nat) {
    i < |events| && exists s: nat :: SyncOf(events, s, events[i].path) && i < s <= k
  }

  ghost predicate SyncOf(events: seq<Event>, s: nat, path: string) {
    && s < |events| && events[s].call in {Fsync, Fdatasync, SyncFileRange}
    && events[s].returnValue >= 0 && events[s].path == path
  }

  /** A change that succeeded by `k` and was not synced by then. */
  ghost predicate Loose(events: seq<Event>, k: nat, i: nat) {
    i <= k && Changed(events, i) && !SyncedBy(events, k, i)
  }

  /** The loose changes issued after event `i`. */
  ghost function LooseAfter(events: seq<Event>, k: nat, i: int): set<nat> {
    set j: nat | i < j <= k && Loose(events, k, j)
  }

  lemma PinnedInFields(events: seq<Event>, k: nat, i: nat)
    ensures IsPinned(events, k, i) <==> Changes(events, i) && SyncedBy(events, k, i)
  {
    if IsPinned(events, k, i) {
      var s: nat :| s <= k && Pins(events, s, i);
      assert SyncOf(events, s, events[i].path);
    }
    if Changes(events, i) && SyncedBy(events, k, i) {
      var s: nat :| SyncOf(events, s, events[i].path) && i < s <= k;
      assert Pins(events, s, i);
    }
  }

  lemma FreeInFields(events: seq<Event>, k: nat, i: nat)
    ensures IsFree(events, k, i) <==> Loose(events, k, i)
  {
    PinnedInFields(events, k, i);
  }

  lemma NewerInFields(events: seq<Event>, k: nat, i: nat)
    ensures NewerFree(events, k, i) == |LooseAfter(events, k, i)|
  {
    forall j: nat ensures IsFree(events, k, j) <==> Loose(events, k, j) {
      FreeInFields(events, k, j);
    }
    hide IsFree, Loose;
    assert LooseAfter(events, k, i) == set j: nat | i < j <= k && IsFree(events, k, j);
  }

  lemma FreeCount(events: seq<Event>, k: nat)
    ensures |Free(events, k)| == |LooseAfter(events, k, -1)|
  {
    var free := Free(events, k);
    forall j: nat ensures IsFree(events, k, j) <==> Loose(events, k, j) {
      FreeInFields(events, k, j);
    }
    AscendingCardinality(free);
    assert ToSet(free) == LooseAfter(events, k, -1);
  }

  // ---------------------------------------------------------------- the floor and the ceiling

  /** A change synced by the crash point is whole in every state, under every model and bounds. */
  lemma SyncedIsInEveryState(events: seq<Event>, k: nat, model: FilesystemModel, bounds: Bounds, st: CrashState,
        i: nat)
    requires st in StatesAt(events, k, model, bounds)
    requires Changes(events, i) && SyncedBy(events, k, i)
    ensures i in st.persisted && forall t :: t in st.partial ==> t.op != i
  {
    PinnedInFields(events, k, i);
    hide StatesAt, IsPinned, Changes, SyncedBy;
    PinnedIsWhole(events, k, model, bounds, st, i);
  }

  /** Nothing else is in the first state a reordering model lists, as long as the bound covers what is loose;
      the last state holds every change that succeeded. */
  lemma UnsyncedIsMissingOnce(events: seq<Event>, k: nat, model: FilesystemModel, bounds: Bounds, i: nat)
    requires k < |events| && !model.totalOrder && Changed(events, i) && i <= k
    requires |LooseAfter(events, k, -1)| <= 30 && |LooseAfter(events, k, -1)| <= bounds.maxUnpersistedWindow
    requires bounds.maxUnpersistedWindow >= 1
    ensures var states := StatesAt(events, k, model, bounds);
            && |states| > 0
            && (i in states[0].persisted <==> SyncedBy(events, k, i))
            && states[0].partial == [] && states[|states| - 1].partial == []
            && i in states[|states| - 1].persisted
  {
    var w := bounds.maxUnpersistedWindow;
    FreeCount(events, k);
    PinnedInFields(events, k, i);
    FreeInFields(events, k, i);
    if IsFree(events, k, i) {
      CoveredIsInWindow(events, k, w, i);
    }
    assert |Window(events, k, w)| <= 30;
    hide IsPinned, IsFree, InWindow, StatesAt, Window, AlwaysPresent, Issued, SyncedBy, LooseAfter, Changed;
    ExtremesListed(events, k, model, bounds);
    AlwaysMembers(events, k, w);
    IssuedMembers(events, k, w);
  }

  // ---------------------------------------------------------------- the whole space

  /** What is on disk whole: in order, nothing unissued or failed and unsynced, everything synced, and everything
      loose but older than the newest `w`. */
  ghost predicate PossibleWholes(events: seq<Event>, k: nat, w: nat, persisted: seq<nat>) {
    && (forall a, b :: 0 <= a < b < |persisted| ==> persisted[a] < persisted[b])
    && (forall i :: i in persisted ==> Loose(events, k, i) || (Changes(events, i) && SyncedBy(events, k, i)))
    && (forall i: nat :: Changes(events, i) && SyncedBy(events, k, i) ==> i in persisted)
    && (forall i: nat :: Loose(events, k, i) && |LooseAfter(events, k, i)| >= w ==> i in persisted)
  }

  /** A resize is not there without its file: if the path had changed before, one of those changes is there. */
  ghost predicate ResizedFilesExist(events: seq<Event>, persisted: seq<nat>) {
    forall t :: t in persisted && t < |events| && events[t].call in {Truncate, Ftruncate} ==>
      (forall j: nat :: !ChangedBefore(events, j, t)) || exists j: nat :: j in persisted && ChangedBefore(events, j, t)
  }

  ghost predicate ChangedBefore(events: seq<Event>, j: nat, t: nat) {
    j < t < |events| && Changed(events, j) && events[j].path == events[t].path
  }

  /** At most one operation is there in part: a loose write among the newest `w`, not there whole, cut at a
      multiple of 512 strictly inside it. */
  ghost predicate PossibleTear(events: seq<Event>, k: nat, bounds: Bounds, st: CrashState) {
    st.partial == [] || (
      && bounds.tornWrites && |st.partial| == 1
      && var op, bytes := st.partial[0].op, st.partial[0].bytes;
      && Loose(events, k, op) && |LooseAfter(events, k, op)| < bounds.maxUnpersistedWindow
      && op !in st.persisted
      && events[op].call in {Write, Pwrite, Writev}
      && 0 < bytes < events[op].length && bytes % 512 == 0
    )
  }

  ghost predicate Possible(events: seq<Event>, k: nat, bounds: Bounds, st: CrashState) {
    && st.crashPoint == k
    && PossibleWholes(events, k, bounds.maxUnpersistedWindow, st.persisted)
    && ResizedFilesExist(events, st.persisted)
    && PossibleTear(events, k, bounds, st)
  }

  lemma WholesInFields(events: seq<Event>, k: nat, w: nat, persisted: seq<nat>)
    ensures PossibleWholes(events, k, w, persisted)
       <==> && Ascending(persisted)
            && (forall i :: i in persisted ==> IsPinned(events, k, i) || IsFree(events, k, i))
            && (forall i: nat :: IsPinned(events, k, i) ==> i in persisted)
            && (forall i: nat :: IsFree(events, k, i) && !InWindow(events, k, w, i) ==> i in persisted)
  {
    forall i: nat
      ensures IsPinned(events, k, i) <==> Changes(events, i) && SyncedBy(events, k, i)
      ensures IsFree(events, k, i) <==> Loose(events, k, i)
      ensures InWindow(events, k, w, i) <==> Loose(events, k, i) && |LooseAfter(events, k, i)| < w
    {
      PinnedInFields(events, k, i);
      FreeInFields(events, k, i);
      NewerInFields(events, k, i);
    }
    hide IsPinned, IsFree, InWindow, Loose, LooseAfter, Changes, SyncedBy;
  }

  lemma ResizesInFields(events: seq<Event>, persisted: seq<nat>)
    ensures ResizedFilesExist(events, persisted) <==> FilesExist(events, ToSet(persisted))
  {
    forall j: nat, t: nat ensures Creates(events, j, t) <==> ChangedBefore(events, j, t) {}
    hide Creates, ChangedBefore;
    forall t: nat | t in persisted
      ensures FileExists(events, ToSet(persisted), t) <==>
              (t < |events| && events[t].call in {Truncate, Ftruncate} ==>
                 (forall j: nat :: !ChangedBefore(events, j, t))
                 || exists j: nat :: j in persisted && ChangedBefore(events, j, t))
    {
      assert forall j: nat :: j in ToSet(persisted) <==> j in persisted;
    }
  }

  lemma TearInFields(events: seq<Event>, k: nat, bounds: Bounds, st: CrashState)
    ensures PossibleTear(events, k, bounds, st) <==> LegalTear(events, k, bounds, ToSet(st.persisted), st.partial)
  {
    if |st.partial| == 1 {
      FreeInFields(events, k, st.partial[0].op);
      NewerInFields(events, k, st.partial[0].op);
      hide IsFree, NewerFree, LooseAfter, SyncedBy;
    }
  }

  lemma PossibleIsLegal(events: seq<Event>, k: nat, bounds: Bounds, st: CrashState)
    ensures Possible(events, k, bounds, st) <==> LegalState(events, k, bounds, st)
  {
    var w := bounds.maxUnpersistedWindow;
    WholesInFields(events, k, w, st.persisted);
    ResizesInFields(events, st.persisted);
    TearInFields(events, k, bounds, st);
    hide PossibleWholes, ResizedFilesExist, PossibleTear, LegalTear, FilesExist, IsPinned, IsFree, InWindow, Ascending;
    assert forall i: nat :: i in ToSet(st.persisted) <==> i in st.persisted;
  }

  /** A reordering crash point lists exactly the possible states, while at most 30 loose changes are in range. */
  lemma ListedIffPossible(events: seq<Event>, k: nat, model: FilesystemModel, bounds: Bounds, st: CrashState)
    requires !model.totalOrder && bounds.maxUnpersistedWindow >= 1
    requires bounds.maxUnpersistedWindow <= 30 || |LooseAfter(events, k, -1)| <= 30
    ensures st in StatesAt(events, k, model, bounds) <==> Possible(events, k, bounds, st)
  {
    FreeCount(events, k);
    assert |Window(events, k, bounds.maxUnpersistedWindow)| <= 30;
    hide StatesAt, Possible, LegalState, Window;
    PossibleIsLegal(events, k, bounds, st);
    ReorderingMember(events, k, model, bounds, st);
  }

  /** A total-order crash point lists exactly the possible states that keep, with a change, every issued one
      before it, and tear nothing. */
  lemma JournalListedIffPossible(events: seq<Event>, k: nat, model: FilesystemModel, bounds: Bounds, st: CrashState)
    requires model.totalOrder
    ensures st in StatesAt(events, k, model, bounds) <==>
            && st.crashPoint == k && st.partial == []
            && PossibleWholes(events, k, bounds.maxUnpersistedWindow, st.persisted)
            && forall i: nat, j: nat :: (
                 i in st.persisted && j < i && (Loose(events, k, j) || (Changes(events, j) && SyncedBy(events, k, j)))
                 ==> j in st.persisted)
  {
    var w := bounds.maxUnpersistedWindow;
    WholesInFields(events, k, w, st.persisted);
    forall i: nat
      ensures IsPinned(events, k, i) || IsFree(events, k, i)
         <==> Loose(events, k, i) || (Changes(events, i) && SyncedBy(events, k, i))
    {
      PinnedInFields(events, k, i);
      FreeInFields(events, k, i);
    }
    hide StatesAt, PossibleWholes, IsPinned, IsFree, InWindow, Loose, Changes, SyncedBy, Ascending;
    JournalMember(events, k, model, bounds, st);
    assert forall i: nat :: i in ToSet(st.persisted) <==> i in st.persisted;
  }

  // ---------------------------------------------------------------- one crash point in full

  /** Two writes of different files, of 1024 and 1537 bytes, nothing synced. */
  ghost predicate TwoWrites(events: seq<Event>) {
    && |events| >= 2
    && events[0].call == Pwrite && events[0].length == 1024 && events[0].returnValue >= 0
    && events[1].call == Pwrite && events[1].length == 1537 && events[1].returnValue >= 0
  }

  lemma TwoLoose(events: seq<Event>)
    requires TwoWrites(events)
    ensures Window(events, 1, 2) == [0, 1] && AlwaysPresent(events, 1, 2) == []
  {
    forall i: nat
      ensures IsFree(events, 1, i) <==> i == 0 || i == 1
      ensures !IsPinned(events, 1, i)
    {
      assert forall s: nat :: s <= 1 ==> !Pins(events, s, i);
    }
    hide IsFree, IsPinned;
    AscendingIsUnique(Free(events, 1), [0, 1]);
    AscendingIsUnique(AlwaysPresent(events, 1, 2), []);
  }

  /** The mask's two lowest digits spell out `persisted`. */
  ghost predicate Spells(mask: nat, persisted: seq<nat>) {
    persisted == if MaskHas(mask, 0) then if MaskHas(mask, 1) then [0, 1] else [0]
                 else if MaskHas(mask, 1) then [1] else []
  }

  lemma {:induction false} PickedOfTwo(mask: nat, persisted: seq<nat>)
    requires Spells(mask, persisted)
    ensures PickedUpto([0, 1], mask, 2) == persisted && Ascending(persisted)
  {
    hide MaskHas;
    assert PickedUpto([0, 1], mask, 0) == [];
    assert PickedUpto([0, 1], mask, 1) == if MaskHas(mask, 0) then [0] else [];
  }

  lemma KeptOfTwo(mask: nat, persisted: seq<nat>)
    requires Spells(mask, persisted)
    ensures KeptBy([], [0, 1], mask) == persisted
  {
    hide Spells, PickedUpto, MaskHas;
    PickedOfTwo(mask, persisted);
    assert [] + persisted == persisted;
    SortedIsFixed(persisted, Identity);
  }

  lemma MaskDigits()
    ensures Spells(0, []) && Spells(1, [0]) && Spells(2, [1]) && Spells(3, [0, 1])
  {}

  lemma TwoPrefixes(events: seq<Event>, persisted: seq<nat>)
    requires TwoWrites(events)
    ensures PrefixStates(events, 1, persisted, 0) == [CrashState(1, persisted, [Torn(0, 512)])]
    ensures PrefixStates(events, 1, persisted, 1)
         == [CrashState(1, persisted, [Torn(1, 512)]), CrashState(1, persisted, [Torn(1, 1024)]),
             CrashState(1, persisted, [Torn(1, 1536)])]
  {}

  lemma {:induction false} TornExamples(events: seq<Event>, persisted: seq<nat>)
    requires TwoWrites(events)
    ensures TornStates(events, 1, persisted, [0, 1], 2)
         == (if 0 in persisted then [] else PrefixStates(events, 1, persisted, 0))
            + if 1 in persisted then [] else PrefixStates(events, 1, persisted, 1)
  {
    hide PrefixStates;
    assert TornStates(events, 1, persisted, [0, 1], 0) == [];
  }

  /** The states of one mask: what it keeps, and then what it misses in part. */
  lemma MaskExample(events: seq<Event>, mask: nat, persisted: seq<nat>)
    requires TwoWrites(events)
    requires Spells(mask, persisted)
    ensures MaskStates(events, 1, Bounds(true, 2), mask)
         == [CrashState(1, persisted, [])]
            + (if 0 in persisted then [] else [CrashState(1, persisted, [Torn(0, 512)])])
            + (if 1 in persisted then [] else
                 [CrashState(1, persisted, [Torn(1, 512)]), CrashState(1, persisted, [Torn(1, 1024)]),
                  CrashState(1, persisted, [Torn(1, 1536)])])
  {
    hide MaskHas, KeptBy, Window, AlwaysPresent, TornStates, PrefixStates, IsMutating, IsTruncate;
    TwoLoose(events);
    KeptOfTwo(mask, persisted);
    NothingResized(events, persisted);
    TornExamples(events, persisted);
    TwoPrefixes(events, persisted);
  }

  lemma NothingResized(events: seq<Event>, persisted: seq<nat>)
    requires TwoWrites(events) && forall i :: i in persisted ==> i < 2
    ensures FilesExist(events, ToSet(persisted))
  {
    assert !IsTruncate(events[0].call) && !IsTruncate(events[1].call);
  }

  lemma FirstMasks(events: seq<Event>)
    requires TwoWrites(events)
    ensures MaskStates(events, 1, Bounds(true, 2), 0)
         == [CrashState(1, [], []), CrashState(1, [], [Torn(0, 512)]), CrashState(1, [], [Torn(1, 512)]),
             CrashState(1, [], [Torn(1, 1024)]), CrashState(1, [], [Torn(1, 1536)])]
    ensures MaskStates(events, 1, Bounds(true, 2), 1)
         == [CrashState(1, [0], []), CrashState(1, [0], [Torn(1, 512)]), CrashState(1, [0], [Torn(1, 1024)]),
             CrashState(1, [0], [Torn(1, 1536)])]
  {
    MaskDigits();
    hide MaskStates, Spells;
    MaskExample(events, 0, []);
    MaskExample(events, 1, [0]);
  }

  lemma LastMasks(events: seq<Event>)
    requires TwoWrites(events)
    ensures MaskStates(events, 1, Bounds(true, 2), 2) == [CrashState(1, [1], []), CrashState(1, [1], [Torn(0, 512)])]
    ensures MaskStates(events, 1, Bounds(true, 2), 3) == [CrashState(1, [0, 1], [])]
  {
    MaskDigits();
    hide MaskStates, Spells;
    MaskExample(events, 2, [1]);
    MaskExample(events, 3, [0, 1]);
  }

  lemma {:induction false} FourMasks(events: seq<Event>, bounds: Bounds)
    ensures MasksUpto(events, 1, bounds, 4)
         == MaskStates(events, 1, bounds, 0) + MaskStates(events, 1, bounds, 1) + MaskStates(events, 1, bounds, 2)
            + MaskStates(events, 1, bounds, 3)
  {
    hide MaskStates;
    assert MasksUpto(events, 1, bounds, 0) == [];
    assert MasksUpto(events, 1, bounds, 1) == MaskStates(events, 1, bounds, 0);
    assert MasksUpto(events, 1, bounds, 2) == MaskStates(events, 1, bounds, 0) + MaskStates(events, 1, bounds, 1);
    assert MasksUpto(events, 1, bounds, 3) == MasksUpto(events, 1, bounds, 2) + MaskStates(events, 1, bounds, 2);
  }

  /** The states of that crash point, in the order they are listed. */
  lemma EnumerationExample(events: seq<Event>, model: FilesystemModel)
    requires TwoWrites(events) && !model.totalOrder
    ensures StatesAt(events, 1, model, Bounds(true, 2))
         == [CrashState(1, [], []), CrashState(1, [], [Torn(0, 512)]), CrashState(1, [], [Torn(1, 512)]),
             CrashState(1, [], [Torn(1, 1024)]), CrashState(1, [], [Torn(1, 1536)])]
            + [CrashState(1, [0], []), CrashState(1, [0], [Torn(1, 512)]), CrashState(1, [0], [Torn(1, 1024)]),
               CrashState(1, [0], [Torn(1, 1536)])]
            + [CrashState(1, [1], []), CrashState(1, [1], [Torn(0, 512)])]
            + [CrashState(1, [0, 1], [])]
  {
    TwoLoose(events);
    assert ShiftedOne(2) == 4;
    hide MaskStates, MasksUpto, Window, Issued, PrefixesUpto;
    FourMasks(events, Bounds(true, 2));
    FirstMasks(events);
    LastMasks(events);
  }
}
