/** The shape of the crash-state space: its extremes, its order, and how it moves with the model, the
    bounds, the trace and the crash point. */
module CrashSpace {
  import opened Sorting
  import opened Traces
  import opened Bits
  import opened States
  import opened Legality

  // ---------------------------------------------------------------- what holds of every listed state

  /** Whatever the model and bounds: a listed state holds every pinned operation, holds only pinned or
      successful issued operations, and tears at most one operation, which it otherwise lacks. */
  ghost predicate WellFormed(events: seq<Event>, k: nat, w: nat, st: CrashState) {
    && st.crashPoint == k
    && (forall i :: i in AlwaysPresent(events, k, w) ==> i in st.persisted)
    && (forall i :: i in st.persisted ==> IsPinned(events, k, i) || IsFree(events, k, i))
    && |st.partial| <= 1
    && (forall t :: t in st.partial ==>
        IsFree(events, k, t.op) && t.op in Window(events, k, w) && t.op !in st.persisted)
  }

  lemma {:induction false} PrefixesMember(k: nat, always: seq<nat>, issued: seq<nat>, n: nat, st: CrashState)
    requires n <= |issued| + 1
    ensures st in PrefixesUpto(k, always, issued, n) <==>
            exists take: nat :: take < n && st == CrashState(k, issued[..take], [])
                && (forall i :: i in always ==> i in issued[..take])
  {
    if n > 0 {
      PrefixesMember(k, always, issued, n - 1, st);
    }
  }

  lemma WindowIsFree(events: seq<Event>, k: nat, w: nat)
    ensures forall x :: x in Window(events, k, w) ==> IsFree(events, k, x)
  {
    hide IsFree;
    assert forall x :: x in Window(events, k, w) ==> x in Free(events, k);
  }

  lemma MaskWellFormed(events: seq<Event>, k: nat, bounds: Bounds, mask: nat, st: CrashState)
    requires st in MaskStates(events, k, bounds, mask)
    ensures WellFormed(events, k, bounds.maxUnpersistedWindow, st)
  {
    hide MaskStates, AlwaysPresent, FilesExist, Window, IsPinned, IsFree, KeptBy, MaskHas, InWindow, Ascending;
    var w := bounds.maxUnpersistedWindow;
    var window := Window(events, k, w);
    MaskMembers(events, k, bounds, mask, st);
    AlwaysMembers(events, k, w);
    KeptMembers(AlwaysPresent(events, k, w), window, mask);
    WindowIsFree(events, k, w);
    assert forall b :: 0 <= b < |window| ==> window[b] in window;
  }

  lemma ListedWellFormed(events: seq<Event>, k: nat, model: FilesystemModel, bounds: Bounds,
        st: CrashState)
    requires st in StatesAt(events, k, model, bounds)
    ensures WellFormed(events, k, bounds.maxUnpersistedWindow, st)
  {
    hide AlwaysPresent, MaskStates, Issued, IsPinned, IsFree;
    var w := bounds.maxUnpersistedWindow;
    if model.totalOrder {
      var issued := Issued(events, k, w);
      PrefixesMember(k, AlwaysPresent(events, k, w), issued, |issued| + 1, st);
      IssuedMembers(events, k, w);
      var take: nat :| take < |issued| + 1 && st == CrashState(k, issued[..take], []);
      forall i | i in st.persisted ensures IsPinned(events, k, i) || IsFree(events, k, i) {
        assert i in issued;
      }
    } else {
      var n := ShiftedOne(|Window(events, k, w)|);
      MasksUptoMembers(events, k, bounds, n, st);
      var mask: nat :| mask < n && st in MaskStates(events, k, bounds, mask);
      MaskWellFormed(events, k, bounds, mask, st);
    }
  }

  /** The durability floor: a pinned operation is whole in every state, under every model and bound. */
  lemma PinnedIsWhole(events: seq<Event>, k: nat, model: FilesystemModel, bounds: Bounds,
        st: CrashState, i: nat)
    requires IsPinned(events, k, i)
    requires st in StatesAt(events, k, model, bounds)
    ensures i in st.persisted
    ensures forall t :: t in st.partial ==> t.op != i
  {
    hide StatesAt;
    ListedWellFormed(events, k, model, bounds, st);
    AlwaysMembers(events, k, bounds.maxUnpersistedWindow);
  }

  /** The floor only rises with the crash point. */
  lemma PinnedMonotone(events: seq<Event>, k: nat, later: nat, i: nat)
    requires k <= later && IsPinned(events, k, i)
    ensures IsPinned(events, later, i)
  {
    var s: nat :| s <= k && Pins(events, s, i);
    assert s <= later && Pins(events, s, i);
  }

  // ---------------------------------------------------------------- extremes and union

  /** A pinned or older truncate has an earlier mutation of its file that is pinned or older too. */
  lemma CreatorComesAlong(events: seq<Event>, k: nat, w: nat, j: nat, t: nat)
    requires Creates(events, j, t) && IsMutating(events[t].call)
    requires t <= k
    ensures IsPinned(events, k, j) || IsFree(events, k, j)
    ensures IsPinned(events, k, t) ==> IsPinned(events, k, j)
    ensures IsFree(events, k, t) && !InWindow(events, k, w, t) && IsFree(events, k, j) ==> !InWindow(events, k, w, j)
  {
    if IsPinned(events, k, t) {
      var s: nat :| s <= k && Pins(events, s, t);
      assert Pins(events, s, j);
    }
    var newerT := set x: nat | t < x <= k && IsFree(events, k, x);
    var newerJ := set x: nat | j < x <= k && IsFree(events, k, x);
    assert newerT <= newerJ;
    SubsetCardinality(newerT, newerJ);
  }

  /** Pinned plus older-than-window is itself legal. */
  lemma MinimalIsLegal(events: seq<Event>, k: nat, w: nat)
    requires k < |events|
    ensures LegalSet(events, k, w, ToSet(AlwaysPresent(events, k, w)))
  {
    AlwaysMembers(events, k, w);
    var kept := ToSet(AlwaysPresent(events, k, w));
    hide AlwaysPresent;
    forall t: nat | t in kept && t < |events| && IsTruncate(events[t].call) && exists j: nat :: Creates(events, j, t)
      ensures exists j: nat :: j in kept && Creates(events, j, t)
    {
      var j: nat :| Creates(events, j, t);
      BoundedByPoint(events, k, t);
      CreatorComesAlong(events, k, w, j, t);
      assert j in kept;
    }
  }

  lemma BoundedByPoint(events: seq<Event>, k: nat, i: nat)
    requires IsPinned(events, k, i) || IsFree(events, k, i)
    ensures i <= k && i < |events| && IsMutating(events[i].call)
  {
    if IsPinned(events, k, i) {
      var s: nat :| s <= k && Pins(events, s, i);
    }
  }

  /** So is everything issued. */
  lemma FullIsLegal(events: seq<Event>, k: nat, w: nat)
    ensures LegalSet(events, k, w, ToSet(Issued(events, k, w)))
  {
    IssuedMembers(events, k, w);
    var kept := ToSet(Issued(events, k, w));
    hide Issued;
    forall t: nat | t in kept && t < |events| && IsTruncate(events[t].call) && exists j: nat :: Creates(events, j, t)
      ensures exists j: nat :: j in kept && Creates(events, j, t)
    {
      var j: nat :| Creates(events, j, t);
      BoundedByPoint(events, k, t);
      CreatorComesAlong(events, k, w, j, t);
      assert j in kept;
    }
  }

  /** Legal sets are closed under union. */
  lemma UnionIsLegal(events: seq<Event>, k: nat, w: nat, a: set<nat>, b: set<nat>)
    requires LegalSet(events, k, w, a) && LegalSet(events, k, w, b)
    ensures LegalSet(events, k, w, a + b)
  {
    hide InWindow, IsFree, IsPinned, Creates;
    forall t | t in a + b ensures FileExists(events, a + b, t) {
      assert t in a ==> FileExists(events, a, t);
      assert t in b ==> FileExists(events, b, t);
    }
  }

  // ---------------------------------------------------------------- first and last state listed

  lemma {:induction false} MasksUptoStartsWith(events: seq<Event>, k: nat, bounds: Bounds, n: nat)
    requires n >= 1 && |MaskStates(events, k, bounds, 0)| > 0
    ensures |MasksUpto(events, k, bounds, n)| > 0
    ensures MasksUpto(events, k, bounds, n)[0] == MaskStates(events, k, bounds, 0)[0]
  {
    hide MaskStates;
    if n > 1 {
      MasksUptoStartsWith(events, k, bounds, n - 1);
    } else {
      assert MasksUpto(events, k, bounds, 0) == [];
    }
  }

  lemma ZeroMaskKeepsAlways(always: seq<nat>, window: seq<nat>)
    requires Ascending(always)
    ensures KeptBy(always, window, 0) == always
  {
    var picked := PickedUpto(window, 0, |window|);
    PickedMembers(window, 0, |window|);
    forall b: nat ensures !MaskHas(0, b) { ZeroHasNoBits(b % 32); }
    assert forall x :: x !in picked;
    EmptyOrFirst(picked);
    assert always + picked == always;
    SortedIsFixed(always, Identity);
  }

  lemma {:induction false} NothingToTear(events: seq<Event>, k: nat, persisted: seq<nat>, window: seq<nat>, n: nat)
    requires n <= |window|
    requires forall x :: x in window ==> x in persisted
    ensures TornStates(events, k, persisted, window, n) == []
  {
    if n > 0 {
      NothingToTear(events, k, persisted, window, n - 1);
      assert window[n - 1] in window;
    }
  }

  /** How the issued operations divide. */
  lemma IssuedSplit(events: seq<Event>, k: nat, w: nat)
    requires w >= 1
    ensures forall x :: x in Issued(events, k, w) <==> x in AlwaysPresent(events, k, w) || x in Window(events, k, w)
    ensures forall x :: x in AlwaysPresent(events, k, w) ==> x !in Window(events, k, w)
    ensures Ascending(Issued(events, k, w)) && Ascending(AlwaysPresent(events, k, w)) && Ascending(Window(events, k, w))
  {
    hide IsPinned, NewerFree, Window;
    IssuedMembers(events, k, w);
    AlwaysMembers(events, k, w);
    WindowMembers(events, k, w);
  }

  lemma {:induction false} AllOnesKeepsAll(always: seq<nat>, window: seq<nat>)
    requires |window| <= 30
    ensures forall x :: x in KeptBy(always, window, Pow2(|window|) - 1) <==> x in always || x in window
  {
    hide KeptBy, Pow2, Bit;
    var mask := Pow2(|window|) - 1;
    KeptMembers(always, window, mask);
    forall b: nat | b < |window| ensures MaskHas(mask, b) {
      AllOnes(|window|, b);
    }
  }

  lemma AllOnesKeepsIssued(events: seq<Event>, k: nat, w: nat)
    requires w >= 1 && |Window(events, k, w)| <= 30
    ensures KeptBy(AlwaysPresent(events, k, w), Window(events, k, w), Pow2(|Window(events, k, w)|) - 1)
       == Issued(events, k, w)
  {
    hide Window, AlwaysPresent, Issued, KeptBy, MaskHas, Ascending;
    var window := Window(events, k, w);
    var always := AlwaysPresent(events, k, w);
    IssuedSplit(events, k, w);
    AllOnesKeepsAll(always, window);
    KeptMembers(always, window, Pow2(|window|) - 1);
    AscendingIsUnique(KeptBy(always, window, Pow2(|window|) - 1), Issued(events, k, w));
  }

  lemma FirstMask(events: seq<Event>, k: nat, bounds: Bounds)
    requires k < |events|
    ensures |MaskStates(events, k, bounds, 0)| > 0
    ensures MaskStates(events, k, bounds, 0)[0]
       == CrashState(k, AlwaysPresent(events, k, bounds.maxUnpersistedWindow), [])
  {
    hide AlwaysPresent, Window, KeptBy;
    var w := bounds.maxUnpersistedWindow;
    MinimalIsLegal(events, k, w);
    assert Ascending(AlwaysPresent(events, k, w)) by { AlwaysAscending(events, k, w); }
    ZeroMaskKeepsAlways(AlwaysPresent(events, k, w), Window(events, k, w));
    MaskStartsUntorn(events, k, bounds, 0);
  }

  lemma AlwaysAscending(events: seq<Event>, k: nat, w: nat)
    ensures Ascending(AlwaysPresent(events, k, w))
  {}

  lemma LastMask(events: seq<Event>, k: nat, bounds: Bounds)
    requires bounds.maxUnpersistedWindow >= 1
    requires |Window(events, k, bounds.maxUnpersistedWindow)| <= 30
    ensures MaskStates(events, k, bounds, Pow2(|Window(events, k, bounds.maxUnpersistedWindow)|) - 1)
         == [CrashState(k, Issued(events, k, bounds.maxUnpersistedWindow), [])]
  {
    hide AlwaysPresent, Window, KeptBy, Issued, Ascending, Pow2;
    var w := bounds.maxUnpersistedWindow;
    var window := Window(events, k, w);
    AllOnesKeepsIssued(events, k, w);
    FullIsLegal(events, k, w);
    IssuedSplit(events, k, w);
    NothingToTear(events, k, Issued(events, k, w), window, |window|);
    hide TornStates;
  }

  /** The first state listed keeps nothing unpinned in the window; the last keeps everything. */
  lemma ExtremesListed(events: seq<Event>, k: nat, model: FilesystemModel, bounds: Bounds)
    requires k < |events| && !model.totalOrder && bounds.maxUnpersistedWindow >= 1
    requires |Window(events, k, bounds.maxUnpersistedWindow)| <= 30
    ensures var states := StatesAt(events, k, model, bounds);
            && |states| > 0
            && states[0] == CrashState(k, AlwaysPresent(events, k, bounds.maxUnpersistedWindow), [])
            && states[|states| - 1] == CrashState(k, Issued(events, k, bounds.maxUnpersistedWindow), [])
  {
    hide MaskStates, Window, AlwaysPresent, Issued, PrefixesUpto;
    var n := Pow2(|Window(events, k, bounds.maxUnpersistedWindow)|);
    FirstMask(events, k, bounds);
    LastMask(events, k, bounds);
    MasksUptoStartsWith(events, k, bounds, n);
    assert MasksUpto(events, k, bounds, n)
           == MasksUpto(events, k, bounds, n - 1) + MaskStates(events, k, bounds, n - 1);
    hide MasksUpto, Pow2;
    assert StatesAt(events, k, model, bounds) == MasksUpto(events, k, bounds, n);
    hide StatesAt;
  }

  lemma MaskStartsUntorn(events: seq<Event>, k: nat, bounds: Bounds, mask: nat)
    ensures var w := bounds.maxUnpersistedWindow;
            var kept := KeptBy(AlwaysPresent(events, k, w), Window(events, k, w), mask);
            FilesExist(events, ToSet(kept)) ==>
              |MaskStates(events, k, bounds, mask)| > 0
                  && MaskStates(events, k, bounds, mask)[0] == CrashState(k, kept, [])
  {}

  // ---------------------------------------------------------------- exactly when the listing is right

  ghost predicate Exact(events: seq<Event>, k: nat, model: FilesystemModel, bounds: Bounds) {
    && (forall st :: st in StatesAt(events, k, model, bounds) <==> LegalState(events, k, bounds, st))
    && NoDuplicates(StatesAt(events, k, model, bounds))
  }

  /** What the bound and the window's size must satisfy. */
  predicate FitsMask(w: nat, size: nat) {
    if w == 0 then size % 32 == 0 else size <= 30
  }

  /** A mask below `2^31` cannot select window position 31. */
  lemma Position31Dropped(always: seq<nat>, window: seq<nat>, mask: nat)
    requires |window| >= 32 && mask < Pow2(31)
    requires Ascending(window) && forall x :: x in always ==> x !in window
    ensures window[31] !in KeptBy(always, window, mask)
  {
    hide KeptBy, Pow2, Bit;
    KeptMembers(always, window, mask);
    HighBitsClear(mask, 31, 31);
    assert window[31] in window;
    assert !MaskHas(mask, 31);
  }

  /** `1 << n` wraps at 31, so with more window operations than mask bits the full state is missing. */
  lemma FullMissing(events: seq<Event>, k: nat, model: FilesystemModel, bounds: Bounds)
    requires !model.totalOrder && bounds.maxUnpersistedWindow >= 1
    requires |Window(events, k, bounds.maxUnpersistedWindow)| >= 31
    ensures CrashState(k, Issued(events, k, bounds.maxUnpersistedWindow), []) !in StatesAt(events, k, model, bounds)
  {
    hide Window, AlwaysPresent, Issued, MaskStates, MasksUpto, PrefixesUpto, Pow2, Bit, KeptBy, LegalState, Ascending;
    var w := bounds.maxUnpersistedWindow;
    var window := Window(events, k, w);
    var full := CrashState(k, Issued(events, k, w), []);
    MasksUptoMembers(events, k, bounds, ShiftedOne(|window|), full);
    if mask: nat :| mask < ShiftedOne(|window|) && full in MaskStates(events, k, bounds, mask) {
      MaskSound(events, k, bounds, mask, full);
      IssuedSplit(events, k, w);
      Pow2Monotone(|window| % 32, 31);
      Position31Dropped(AlwaysPresent(events, k, w), window, mask);
      assert false;
    }
  }

  lemma RepeatedPick(always: seq<nat>, window: seq<nat>)
    requires Ascending(always) && |window| >= 1
    requires forall x :: x in window ==> x in always
    ensures !Ascending(KeptBy(always, window, 1))
    ensures ToSet(KeptBy(always, window, 1)) == ToSet(always)
  {
    assert MaskHas(1, 0);
    hide MaskHas, Ascending;
    KeptMembers(always, window, 1);
    PickedHasLength(window, 1, |window|);
    assert forall b :: 0 <= b < |window| ==> window[b] in window;
    assert forall x :: x in KeptBy(always, window, 1) <==> x in always;
    if Ascending(KeptBy(always, window, 1)) {
      AscendingIsUnique(KeptBy(always, window, 1), always);
      assert false;
    }
  }

  /** With a bound of zero everything free is always present, and so is the whole window. */
  lemma ZeroBoundCovers(events: seq<Event>, k: nat)
    ensures forall x :: x in Window(events, k, 0) ==> x in AlwaysPresent(events, k, 0)
    ensures Window(events, k, 0) == Free(events, k)
  {
    hide IsFree;
    ZeroWindow(events, k);
    AlwaysMembers(events, k, 0);
  }

  /** With a bound of zero the picked operations are already present, so a non-zero mask repeats them. */
  lemma ZeroBoundRepeats(events: seq<Event>, k: nat, bounds: Bounds)
    requires k < |events| && bounds.maxUnpersistedWindow == 0 && |Free(events, k)| >= 1
    ensures exists st :: st in MaskStates(events, k, bounds, 1) && !Ascending(st.persisted)
  {
    hide Window, AlwaysPresent, KeptBy, Ascending, Free;
    var window := Window(events, k, 0);
    var always := AlwaysPresent(events, k, 0);
    var kept := KeptBy(always, window, 1);
    ZeroBoundCovers(events, k);
    AlwaysAscending(events, k, 0);
    RepeatedPick(always, window);
    MinimalIsLegal(events, k, 0);
    MaskStartsUntorn(events, k, bounds, 1);
    assert CrashState(k, kept, []) in MaskStates(events, k, bounds, 1);
  }

  lemma {:induction false} PickedHasLength(window: seq<nat>, mask: nat, n: nat)
    requires 1 <= n <= |window| && MaskHas(mask, 0)
    ensures |PickedUpto(window, mask, n)| >= 1
  {
    if n > 1 { PickedHasLength(window, mask, n - 1); }
  }

  lemma ZeroBoundSingle(events: seq<Event>, k: nat, bounds: Bounds)
    requires k < |events| && bounds.maxUnpersistedWindow == 0
    ensures MaskStates(events, k, bounds, 0) == [CrashState(k, AlwaysPresent(events, k, 0), [])]
  {
    hide Window, AlwaysPresent, KeptBy, Ascending, Free;
    var window := Window(events, k, 0);
    var always := AlwaysPresent(events, k, 0);
    ZeroBoundCovers(events, k);
    AlwaysAscending(events, k, 0);
    MinimalIsLegal(events, k, 0);
    ZeroMaskKeepsAlways(always, window);
    NothingToTear(events, k, always, window, |window|);
    hide TornStates;
  }

  lemma ZeroBoundExact(events: seq<Event>, k: nat, model: FilesystemModel, bounds: Bounds)
    requires k < |events| && !model.totalOrder && bounds.maxUnpersistedWindow == 0 && |Free(events, k)| % 32 == 0
    ensures Exact(events, k, model, bounds)
  {
    hide MaskStates, AlwaysPresent, Window, Issued, PrefixesUpto, LegalState, Free;
    var only := CrashState(k, AlwaysPresent(events, k, 0), []);
    ZeroBoundCovers(events, k);
    ZeroBoundSingle(events, k, bounds);
    assert MasksUpto(events, k, bounds, 0) == [];
    assert StatesAt(events, k, model, bounds) == [only];
    hide StatesAt, MasksUpto;
    forall st ensures st in [only] <==> LegalState(events, k, bounds, st) {
      ZeroBoundLegal(events, k, bounds, st);
    }
  }

  lemma ZeroBoundLegal(events: seq<Event>, k: nat, bounds: Bounds, st: CrashState)
    requires k < |events| && bounds.maxUnpersistedWindow == 0
    ensures LegalState(events, k, bounds, st) <==> st == CrashState(k, AlwaysPresent(events, k, 0), [])
  {
    ZeroWindow(events, k);
    AlwaysMembers(events, k, 0);
    MinimalIsLegal(events, k, 0);
    hide AlwaysPresent, FilesExist, IsFree, IsPinned, NewerFree;
    if LegalState(events, k, bounds, st) {
      forall x ensures x in st.persisted <==> x in AlwaysPresent(events, k, 0) {
        assert x in st.persisted <==> x in ToSet(st.persisted);
      }
      AscendingIsUnique(st.persisted, AlwaysPresent(events, k, 0));
    }
  }

  /** The enumerator lists exactly the legal states, each once, if and only if the window fits its mask. */
  lemma ExactIffFits(events: seq<Event>, k: nat, model: FilesystemModel, bounds: Bounds)
    requires k < |events| && !model.totalOrder
    ensures Exact(events, k, model, bounds)
       <==> FitsMask(bounds.maxUnpersistedWindow, |Window(events, k, bounds.maxUnpersistedWindow)|)
  {
    hide StatesAt, Window, LegalState, NoDuplicates, Free;
    var w := bounds.maxUnpersistedWindow;
    var size := |Window(events, k, w)|;
    if w >= 1 {
      if size <= 30 {
        ReorderingExact(events, k, model, bounds);
      } else {
        FullMissing(events, k, model, bounds);
        IssuedIsLegalState(events, k, bounds);
      }
    } else {
      ZeroBoundCovers(events, k);
      if size % 32 == 0 {
        ZeroBoundExact(events, k, model, bounds);
      } else {
        ZeroBoundInexact(events, k, model, bounds);
      }
    }
  }

  lemma IssuedIsLegalState(events: seq<Event>, k: nat, bounds: Bounds)
    ensures LegalState(events, k, bounds, CrashState(k, Issued(events, k, bounds.maxUnpersistedWindow), []))
  {
    FullIsLegal(events, k, bounds.maxUnpersistedWindow);
  }

  lemma ZeroBoundInexact(events: seq<Event>, k: nat, model: FilesystemModel, bounds: Bounds)
    requires k < |events| && !model.totalOrder && bounds.maxUnpersistedWindow == 0 && |Free(events, k)| % 32 != 0
    ensures !Exact(events, k, model, bounds)
  {
    hide Window, AlwaysPresent, MaskStates, LegalSet, LegalTear, Free, Ascending, Pow2, Issued, PrefixesUpto;
    ZeroBoundCovers(events, k);
    var size := |Free(events, k)|;
    if size % 32 == 31 {
      assert StatesAt(events, k, model, bounds) == [];
      ZeroBoundLegal(events, k, bounds, CrashState(k, AlwaysPresent(events, k, 0), []));
    } else {
      ZeroBoundRepeats(events, k, bounds);
      var st :| st in MaskStates(events, k, bounds, 1) && !Ascending(st.persisted);
      Pow2Grows(size % 32);
      MasksUptoMembers(events, k, bounds, ShiftedOne(size), st);
      assert st in StatesAt(events, k, model, bounds);
    }
  }
}
