/** How the set of crash states moves: journal within reordering, small windows within large ones, more
    syncs within fewer, and no dependence on anything after the crash point. */
module Inclusion {
  import opened Sorting
  import opened Traces
  import opened Bits
  import opened States
  import opened Legality
  import opened CrashSpace

  // ---------------------------------------------------------------- total order

  /** Whole operations a data-journaling crash at `k` may leave: an initial segment of what was issued. */
  ghost predicate LegalPrefix(events: seq<Event>, k: nat, w: nat, kept: set<nat>) {
    && (forall i: nat :: IsPinned(events, k, i) ==> i in kept)
    && (forall i: nat :: IsFree(events, k, i) && !InWindow(events, k, w, i) ==> i in kept)
    && (forall i: nat :: i in kept ==> IsPinned(events, k, i) || IsFree(events, k, i))
    && (forall i: nat, j: nat :: i in kept && j < i && (IsPinned(events, k, j) || IsFree(events, k, j)) ==> j in kept)
  }

  ghost predicate LegalJournalState(events: seq<Event>, k: nat, w: nat, st: CrashState) {
    && st.crashPoint == k
    && st.partial == []
    && Ascending(st.persisted)
    && LegalPrefix(events, k, w, ToSet(st.persisted))
  }

  /** A downward-closed part of an ascending sequence is a prefix of it. */
  lemma DownwardClosedIsPrefix(issued: seq<nat>, part: seq<nat>)
    requires Ascending(issued) && Ascending(part)
    requires forall x :: x in part ==> x in issued
    requires forall x, y :: x in part && y in issued && y < x ==> y in part
    ensures |part| <= |issued| && part == issued[..|part|]
  {
    if part != [] {
      FirstIsLeast(issued, part[0]);
      assert part[0] in part;
      assert issued[0] in part;
      FirstIsLeast(part, issued[0]);
      forall x | x in part[1..] ensures x in issued[1..] {
        OtherThanFirst(part, x);
        OtherThanFirst(issued, x);
      }
      forall x, y | x in part[1..] && y in issued[1..] && y < x ensures y in part[1..] {
        OtherThanFirst(part, x);
        OtherThanFirst(issued, y);
        OtherThanFirst(part, y);
      }
      DownwardClosedIsPrefix(issued[1..], part[1..]);
      assert part == [part[0]] + part[1..] && issued == [issued[0]] + issued[1..];
    }
  }

  lemma FirstIsLeast(s: seq<nat>, x: nat)
    requires Ascending(s) && x in s
    ensures s[0] in s && s[0] <= x
  {}

  lemma OtherThanFirst(s: seq<nat>, x: nat)
    requires Ascending(s) && s != []
    ensures x in s[1..] <==> x in s && x != s[0]
  {
    assert s == [s[0]] + s[1..];
  }

  lemma JournalMember(events: seq<Event>, k: nat, model: FilesystemModel, bounds: Bounds,
        st: CrashState)
    requires model.totalOrder
    ensures st in StatesAt(events, k, model, bounds) <==> LegalJournalState(events, k, bounds.maxUnpersistedWindow, st)
  {
    hide AlwaysPresent, Issued, IsPinned, IsFree, InWindow, MasksUpto;
    var w := bounds.maxUnpersistedWindow;
    var always := AlwaysPresent(events, k, w);
    var issued := Issued(events, k, w);
    PrefixesMember(k, always, issued, |issued| + 1, st);
    IssuedMembers(events, k, w);
    AlwaysMembers(events, k, w);
    assert Ascending(issued) by { IssuedAscending(events, k, w); }
    hide PrefixesUpto;
    if take: nat :| (
         take < |issued| + 1 && st == CrashState(k, issued[..take], [])
         && forall i :: i in always ==> i in issued[..take]) {
      PrefixIsLegal(events, k, w, issued, take);
    }
    if LegalJournalState(events, k, w, st) {
      LegalIsPrefix(events, k, w, issued, st);
      forall i | i in always ensures i in st.persisted { assert i in ToSet(st.persisted); }
      assert st == CrashState(k, issued[..|st.persisted|], []);
    }
  }

  lemma LegalIsPrefix(events: seq<Event>, k: nat, w: nat, issued: seq<nat>, st: CrashState)
    requires Ascending(issued)
    requires forall i: nat :: i in issued <==> IsPinned(events, k, i) || IsFree(events, k, i)
    requires LegalJournalState(events, k, w, st)
    ensures |st.persisted| <= |issued| && st.persisted == issued[..|st.persisted|]
  {
    hide IsPinned, IsFree, InWindow, Ascending;
    forall x | x in st.persisted ensures x in issued { assert x in ToSet(st.persisted); }
    forall x, y | x in st.persisted && y in issued && y < x ensures y in st.persisted {
      assert x in ToSet(st.persisted);
      assert y in ToSet(st.persisted);
    }
    DownwardClosedIsPrefix(issued, st.persisted);
  }

  lemma IssuedAscending(events: seq<Event>, k: nat, w: nat)
    ensures Ascending(Issued(events, k, w))
  {}

  lemma PrefixIsLegal(events: seq<Event>, k: nat, w: nat, issued: seq<nat>, take: nat)
    requires take <= |issued| && Ascending(issued)
    requires forall i: nat :: i in issued <==> IsPinned(events, k, i) || IsFree(events, k, i)
    requires forall i: nat :: IsPinned(events, k, i) || (IsFree(events, k, i) && !InWindow(events, k, w, i)) ==>
               i in issued[..take]
    ensures Ascending(issued[..take]) && LegalPrefix(events, k, w, ToSet(issued[..take]))
  {
    hide IsPinned, IsFree, InWindow;
    var kept := ToSet(issued[..take]);
    forall i: nat, j: nat | i in kept && j < i && (IsPinned(events, k, j) || IsFree(events, k, j))
      ensures j in kept
    {
      var p :| 0 <= p < take && issued[p] == i;
      var q :| 0 <= q < |issued| && issued[q] == j;
      assert q < p;
      assert issued[..take][q] == j;
    }
  }

  lemma {:induction false} PrefixesNoDuplicates(k: nat, always: seq<nat>, issued: seq<nat>, n: nat)
    requires n <= |issued| + 1
    ensures NoDuplicates(PrefixesUpto(k, always, issued, n))
    ensures forall i, j :: 0 <= i < j < |PrefixesUpto(k, always, issued, n)| ==>
              PrefixesUpto(k, always, issued, n)[i].persisted < PrefixesUpto(k, always, issued, n)[j].persisted
  {
    if n > 0 {
      PrefixesNoDuplicates(k, always, issued, n - 1);
      var before := PrefixesUpto(k, always, issued, n - 1);
      forall i | 0 <= i < |before| ensures before[i].persisted < issued[..n - 1] {
        PrefixesMember(k, always, issued, n - 1, before[i]);
        var take: nat :| take < n - 1 && before[i] == CrashState(k, issued[..take], []);
        assert issued[..n - 1][..take] == issued[..take];
      }
    }
  }

  lemma {:induction false} PrefixesCount(k: nat, always: seq<nat>, issued: seq<nat>, n: nat)
    requires n <= |issued| + 1 && Ascending(always)
    ensures |PrefixesUpto(k, always, issued, n)| <= if n <= |always| then 0 else n - |always|
  {
    if n > 0 {
      PrefixesCount(k, always, issued, n - 1);
      if forall i :: i in always ==> i in issued[..n - 1] {
        AscendingCardinality(always);
        SequenceCardinality(issued[..n - 1]);
        SubsetCardinality(ToSet(always), ToSet(issued[..n - 1]));
      }
    }
  }

  lemma SequenceCardinality(s: seq<nat>)
    ensures |ToSet(s)| <= |s|
  {
    if s != [] {
      var rest := s[..|s| - 1];
      SequenceCardinality(rest);
      assert s == rest + [s[|s| - 1]];
      assert ToSet(s) == ToSet(rest) + {s[|s| - 1]};
    }
  }

  lemma IssuedLength(events: seq<Event>, k: nat, w: nat)
    ensures |Issued(events, k, w)| <= |AlwaysPresent(events, k, w)| + w
  {
    var always, window, issued := AlwaysPresent(events, k, w), Window(events, k, w), Issued(events, k, w);
    assert Ascending(issued) by { IssuedAscending(events, k, w); }
    AscendingCardinality(issued);
    if w == 0 {
      ZeroBoundCovers(events, k);
      hide AlwaysPresent, Window;
      SequenceCardinality(always);
      assert ToSet(issued) <= ToSet(always);
      SubsetCardinality(ToSet(issued), ToSet(always));
    } else {
      assert |window| <= w;
      IssuedSplit(events, k, w);
      hide AlwaysPresent, Window, Issued;
      SequenceCardinality(always + window);
      assert ToSet(issued) <= ToSet(always + window);
      SubsetCardinality(ToSet(issued), ToSet(always + window));
    }
  }

  /** A total-order model lists exactly the initial segments above the floor: at most `w + 1` of them,
      each a strict extension of the one before. */
  lemma JournalExact(events: seq<Event>, k: nat, model: FilesystemModel, bounds: Bounds)
    requires model.totalOrder
    ensures var states := StatesAt(events, k, model, bounds);
            && (forall st :: st in states <==> LegalJournalState(events, k, bounds.maxUnpersistedWindow, st))
            && |states| <= bounds.maxUnpersistedWindow + 1
            && (forall i, j :: 0 <= i < j < |states| ==> states[i].persisted < states[j].persisted)
  {
    hide AlwaysPresent, Issued, PrefixesUpto, MasksUpto, LegalJournalState;
    var w := bounds.maxUnpersistedWindow;
    var always := AlwaysPresent(events, k, w);
    var issued := Issued(events, k, w);
    forall st ensures st in StatesAt(events, k, model, bounds) <==> LegalJournalState(events, k, w, st) {
      JournalMember(events, k, model, bounds, st);
    }
    PrefixesNoDuplicates(k, always, issued, |issued| + 1);
    AlwaysAscending(events, k, w);
    PrefixesCount(k, always, issued, |issued| + 1);
    IssuedLength(events, k, w);
  }

  /** Every journal state is a legal state of the reordering space. */
  lemma JournalIsLegal(events: seq<Event>, k: nat, bounds: Bounds, st: CrashState)
    requires LegalJournalState(events, k, bounds.maxUnpersistedWindow, st)
    ensures LegalState(events, k, bounds, st)
  {
    var kept := ToSet(st.persisted);
    var w := bounds.maxUnpersistedWindow;
    hide InWindow;
    forall t: nat | t in kept && t < |events| && IsTruncate(events[t].call) && exists j: nat :: Creates(events, j, t)
      ensures exists j: nat :: j in kept && Creates(events, j, t)
    {
      var j: nat :| Creates(events, j, t);
      BoundedByPoint(events, k, t);
      CreatorComesAlong(events, k, w, j, t);
      assert j in kept;
    }
  }

  /** The journal model's states are among the reordering model's, for the same trace and bounds. */
  lemma JournalWithinReordering(events: seq<Event>, k: nat, journal: FilesystemModel,
        reordering: FilesystemModel, bounds: Bounds, st: CrashState)
    requires journal.totalOrder && !reordering.totalOrder
    requires 1 <= bounds.maxUnpersistedWindow
    requires |Window(events, k, bounds.maxUnpersistedWindow)| <= 30
    requires st in StatesAt(events, k, journal, bounds)
    ensures st in StatesAt(events, k, reordering, bounds)
  {
    hide StatesAt, Window, LegalState, LegalJournalState;
    JournalMember(events, k, journal, bounds, st);
    JournalIsLegal(events, k, bounds, st);
    ReorderingMember(events, k, reordering, bounds, st);
  }

  // ---------------------------------------------------------------- larger bounds

  predicate Widens(narrow: Bounds, wide: Bounds) {
    && (narrow.tornWrites ==> wide.tornWrites)
    && narrow.maxUnpersistedWindow <= wide.maxUnpersistedWindow
  }

  lemma LegalWhenWider(events: seq<Event>, k: nat, narrow: Bounds, wide: Bounds, st: CrashState)
    requires Widens(narrow, wide)
    ensures LegalState(events, k, narrow, st) ==> LegalState(events, k, wide, st)
    ensures LegalJournalState(events, k, narrow.maxUnpersistedWindow, st) ==>
               LegalJournalState(events, k, wide.maxUnpersistedWindow, st)
  {
    hide IsPinned, IsFree, NewerFree, FilesExist, Ascending;
  }

  lemma WindowIsBounded(events: seq<Event>, k: nat, w: nat)
    requires w >= 1
    ensures |Window(events, k, w)| <= w
  {}

  /** A reordering crash point whose window a mask can span; the total-order branch uses no mask. */
  ghost predicate Spans(events: seq<Event>, k: nat, model: FilesystemModel, w: nat) {
    !model.totalOrder ==> |Window(events, k, w)| <= 30
  }

  /** Widening the bounds never loses a state, as long as the wider window still fits a mask. */
  lemma WiderKeeps(events: seq<Event>, k: nat, model: FilesystemModel, narrow: Bounds,
        wide: Bounds, st: CrashState)
    requires Widens(narrow, wide) && Spans(events, k, model, wide.maxUnpersistedWindow)
    requires !model.totalOrder ==> narrow.maxUnpersistedWindow >= 1
    requires st in StatesAt(events, k, model, narrow)
    ensures st in StatesAt(events, k, model, wide)
  {
    hide StatesAt, Window, LegalState, LegalJournalState;
    LegalWhenWider(events, k, narrow, wide, st);
    if model.totalOrder {
      JournalMember(events, k, model, narrow, st);
      JournalMember(events, k, model, wide, st);
    } else {
      ListedIsLegal(events, k, model, narrow, st);
      ReorderingMember(events, k, model, wide, st);
    }
  }

  /** Whatever the size of the window, what a reordering model lists is legal. */
  lemma ListedIsLegal(events: seq<Event>, k: nat, model: FilesystemModel, bounds: Bounds,
        st: CrashState)
    requires !model.totalOrder && bounds.maxUnpersistedWindow >= 1 && st in StatesAt(events, k, model, bounds)
    ensures LegalState(events, k, bounds, st)
  {
    hide MaskStates, MasksUpto, PrefixesUpto, Issued, AlwaysPresent, Window, LegalState;
    var masks := ShiftedOne(|Window(events, k, bounds.maxUnpersistedWindow)|);
    MasksUptoMembers(events, k, bounds, masks, st);
    var mask: nat :| mask < masks && st in MaskStates(events, k, bounds, mask);
    MaskSound(events, k, bounds, mask, st);
  }

  /** And exactly as long as that: once the wider window outgrows the mask, a state is lost. */
  lemma WiderKeepsIff(events: seq<Event>, k: nat, model: FilesystemModel, narrow: Bounds,
        wide: Bounds)
    requires Widens(narrow, wide) && !model.totalOrder && k < |events|
    requires narrow.maxUnpersistedWindow >= 1 && |Window(events, k, narrow.maxUnpersistedWindow)| <= 30
    ensures (forall st :: st in StatesAt(events, k, model, narrow) ==> st in StatesAt(events, k, model, wide))
       <==> |Window(events, k, wide.maxUnpersistedWindow)| <= 30
  {
    hide StatesAt, Window, Issued;
    if |Window(events, k, wide.maxUnpersistedWindow)| <= 30 {
      forall st | st in StatesAt(events, k, model, narrow) ensures st in StatesAt(events, k, model, wide) {
        WiderKeeps(events, k, model, narrow, wide, st);
      }
    } else {
      ExtremesListed(events, k, model, narrow);
      FullMissing(events, k, model, wide);
      IssuedIsFixed(events, k, narrow.maxUnpersistedWindow, wide.maxUnpersistedWindow);
      var states := StatesAt(events, k, model, narrow);
      assert states[|states| - 1] in states;
    }
  }

  /** What was issued does not depend on the bound. */
  lemma IssuedIsFixed(events: seq<Event>, k: nat, w: nat, v: nat)
    ensures Issued(events, k, w) == Issued(events, k, v)
  {
    IssuedMembers(events, k, w);
    IssuedMembers(events, k, v);
    IssuedAscending(events, k, w);
    IssuedAscending(events, k, v);
    hide Issued, IsPinned, IsFree;
    AscendingIsUnique(Issued(events, k, w), Issued(events, k, v));
  }

  lemma {:induction false} EnumeratedMember(events: seq<Event>, model: FilesystemModel, bounds: Bounds,
        points: seq<nat>, st: CrashState)
    ensures st in Enumerated(events, model, bounds, points)
       <==> exists k :: k in points && st in StatesAt(events, k, model, bounds)
  {
    hide StatesAt;
    if points != [] {
      var rest := points[..|points| - 1];
      var k := points[|points| - 1];
      EnumeratedMember(events, model, bounds, rest, st);
      assert points == rest + [k];
      assert forall x :: x in points <==> x in rest || x == k;
    }
  }

  /** A run over chosen crash points with narrow bounds sees only states of the full run with wide ones. */
  lemma {:induction false} FewerPointsAndBounds(events: seq<Event>, model: FilesystemModel, narrow: Bounds,
        wide: Bounds, points: seq<nat>, st: CrashState)
    requires Widens(narrow, wide) && (!model.totalOrder ==> narrow.maxUnpersistedWindow >= 1)
    requires forall k :: k in points ==> k < |events| && Spans(events, k, model, wide.maxUnpersistedWindow)
    requires st in Enumerated(events, model, narrow, points)
    ensures st in Enumerated(events, model, wide, AllPoints(|events|))
  {
    hide StatesAt, Enumerated;
    EnumeratedMember(events, model, narrow, points, st);
    var k :| k in points && st in StatesAt(events, k, model, narrow);
    WiderKeeps(events, k, model, narrow, wide, st);
    assert AllPoints(|events|)[k] == k;
    EnumeratedMember(events, model, wide, AllPoints(|events|), st);
  }

  // ---------------------------------------------------------------- one more sync

  ghost predicate NoFailedMutation(events: seq<Event>) {
    forall i :: 0 <= i < |events| && IsMutating(events[i].call) ==> events[i].returnValue >= 0
  }

  /** `synced` is `events` with one event that was neither mutation nor sync made a successful sync. */
  ghost predicate OneMoreSync(events: seq<Event>, synced: seq<Event>, m: nat) {
    && m < |events| == |synced|
    && synced == events[m := synced[m]]
    && !IsMutating(events[m].call) && !IsPersistence(events[m].call)
    && Persisted(synced[m])
  }

  lemma SyncPinsMore(events: seq<Event>, synced: seq<Event>, m: nat, k: nat, i: nat)
    requires OneMoreSync(events, synced, m)
    ensures IsPinned(events, k, i) ==> IsPinned(synced, k, i)
    ensures IsFree(synced, k, i) ==> IsFree(events, k, i)
    ensures NoFailedMutation(events) && IsPinned(synced, k, i) ==> IsPinned(events, k, i) || IsFree(events, k, i)
  {
    if IsPinned(events, k, i) {
      var s: nat :| s <= k && Pins(events, s, i);
      assert Pins(synced, s, i);
    }
    if IsPinned(synced, k, i) {
      var s: nat :| s <= k && Pins(synced, s, i);
    }
  }

  lemma SyncKeepsFiles(events: seq<Event>, synced: seq<Event>, m: nat, kept: set<nat>)
    requires OneMoreSync(events, synced, m) && FilesExist(synced, kept)
    ensures FilesExist(events, kept)
  {
    forall t | t in kept ensures FileExists(events, kept, t) {
      assert FileExists(synced, kept, t);
      if t < |events| && IsTruncate(events[t].call) {
        forall j: nat ensures Creates(events, j, t) <==> Creates(synced, j, t) {}
      }
    }
  }

  /** Everything unpinned is in the window, in which case nothing counts as older. */
  lemma CoveredIsInWindow(events: seq<Event>, k: nat, w: nat, i: nat)
    requires |Free(events, k)| <= w && IsFree(events, k, i)
    ensures InWindow(events, k, w, i)
  {
    assert i in Free(events, k);
    WindowMembers(events, k, w);
    hide IsFree, InWindow;
  }

  lemma SyncOnlyRestricts(events: seq<Event>, synced: seq<Event>, m: nat, k: nat, bounds: Bounds,
        st: CrashState)
    requires OneMoreSync(events, synced, m) && NoFailedMutation(events)
    requires |Free(events, k)| <= bounds.maxUnpersistedWindow
    ensures LegalState(synced, k, bounds, st) ==> LegalState(events, k, bounds, st)
    ensures LegalJournalState(synced, k, bounds.maxUnpersistedWindow, st) ==>
               LegalJournalState(events, k, bounds.maxUnpersistedWindow, st)
  {
    var w := bounds.maxUnpersistedWindow;
    forall i: nat
      ensures IsPinned(events, k, i) ==> IsPinned(synced, k, i)
      ensures IsFree(synced, k, i) ==> IsFree(events, k, i)
      ensures IsPinned(synced, k, i) ==> IsPinned(events, k, i) || IsFree(events, k, i)
      ensures IsFree(events, k, i) ==> InWindow(events, k, w, i)
      ensures IsPinned(events, k, i) || IsFree(events, k, i) ==> IsPinned(synced, k, i) || IsFree(synced, k, i)
    {
      SyncPinsMore(events, synced, m, k, i);
      if IsFree(events, k, i) {
        CoveredIsInWindow(events, k, w, i);
      }
    }
    assert FilesExist(synced, ToSet(st.persisted)) ==> FilesExist(events, ToSet(st.persisted)) by {
      if FilesExist(synced, ToSet(st.persisted)) { SyncKeepsFiles(events, synced, m, ToSet(st.persisted)); }
    }
    hide IsPinned, NewerFree, FilesExist, Ascending;
    assert forall i: nat :: InWindow(synced, k, w, i) ==> InWindow(events, k, w, i);
    forall op: nat | IsFree(synced, k, op) ensures synced[op] == events[op] {}
    hide IsFree, InWindow;
  }

  /** Adding a successful sync never adds a crash state, torn or total-order states included. */
  lemma SyncNeverAddsStates(events: seq<Event>, synced: seq<Event>, m: nat, k: nat,
        model: FilesystemModel, bounds: Bounds, st: CrashState)
    requires OneMoreSync(events, synced, m) && NoFailedMutation(events)
    requires |Free(events, k)| <= bounds.maxUnpersistedWindow && Spans(events, k, model, bounds.maxUnpersistedWindow)
    requires !model.totalOrder ==> bounds.maxUnpersistedWindow >= 1
    requires st in StatesAt(synced, k, model, bounds)
    ensures st in StatesAt(events, k, model, bounds)
  {
    hide StatesAt, Window, LegalState, LegalJournalState;
    SyncOnlyRestricts(events, synced, m, k, bounds, st);
    if model.totalOrder {
      JournalMember(synced, k, model, bounds, st);
      JournalMember(events, k, model, bounds, st);
    } else {
      ListedIsLegal(synced, k, model, bounds, st);
      ReorderingMember(events, k, model, bounds, st);
    }
  }
}
