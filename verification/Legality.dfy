/** What a legal crash state is, without reference to masks, sorts or loops, and the theorem that the
    enumerator lists exactly those states, each once. */
module Legality {
  import opened Sorting
  import opened Traces
  import opened Bits
  import opened States

  // ---------------------------------------------------------------- definitions

  /** How many unpinned successful mutations were issued after `i`, by crash point `k`. */
  ghost function NewerFree(events: seq<Event>, k: nat, i: nat): nat {
    |set j: nat | i < j <= k && IsFree(events, k, j)|
  }

  /** `i` is among the newest `w` unpinned successful mutations. */
  ghost predicate InWindow(events: seq<Event>, k: nat, w: nat, i: nat) {
    IsFree(events, k, i) && NewerFree(events, k, i) < w
  }

  /** The sets of whole operations a crash at `k` may leave on disk. */
  ghost predicate LegalSet(events: seq<Event>, k: nat, w: nat, kept: set<nat>) {
    // a returned persistence call is a durability floor
    && (forall i: nat :: IsPinned(events, k, i) ==> i in kept)
    // anything older than the newest w unpinned operations is on disk
    && (forall i: nat :: IsFree(events, k, i) && !InWindow(events, k, w, i) ==> i in kept)
    // and nothing else is, beyond pinned and successful operations already issued
    && (forall i: nat :: i in kept ==> IsPinned(events, k, i) || IsFree(events, k, i))
    // a resized file has something on disk
    && FilesExist(events, kept)
  }

  /** At most one operation is torn: a missing write of the window, cut at a sector boundary. */
  ghost predicate LegalTear(events: seq<Event>, k: nat, bounds: Bounds, kept: set<nat>, partial: seq<Torn>) {
    partial == [] || (
      && bounds.tornWrites
      && |partial| == 1
      && var t := partial[0];
      && t.op < |events|
      && InWindow(events, k, bounds.maxUnpersistedWindow, t.op)
      && t.op !in kept
      && IsWrite(events[t.op].call)
      && t.bytes % SECTOR_BYTES == 0
      && 0 < t.bytes < events[t.op].length
    )
  }

  ghost predicate LegalState(events: seq<Event>, k: nat, bounds: Bounds, st: CrashState) {
    && st.crashPoint == k
    && Ascending(st.persisted)
    && LegalSet(events, k, bounds.maxUnpersistedWindow, ToSet(st.persisted))
    && LegalTear(events, k, bounds, ToSet(st.persisted), st.partial)
  }

  // ---------------------------------------------------------------- window, older, always

  lemma AscendingCardinality(s: seq<nat>)
    requires Ascending(s)
    ensures |ToSet(s)| == |s|
  {
    if s != [] {
      var rest := s[..|s| - 1];
      AscendingCardinality(rest);
      assert s == rest + [s[|s| - 1]];
      assert ToSet(s) == ToSet(rest) + {s[|s| - 1]};
    }
  }

  lemma NewerIsSuffixLength(events: seq<Event>, k: nat, p: nat)
    requires p < |Free(events, k)|
    ensures NewerFree(events, k, Free(events, k)[p]) == |Free(events, k)| - 1 - p
  {
    var free := Free(events, k);
    var suffix := free[p + 1..];
    AscendingCardinality(suffix);
    forall j: nat
      ensures j in ToSet(suffix) <==> free[p] < j <= k && IsFree(events, k, j)
    {
      if free[p] < j <= k && IsFree(events, k, j) {
        assert j in free;
        var q :| 0 <= q < |free| && free[q] == j;
        assert q > p;
        assert j == suffix[q - p - 1];
      }
      if j in suffix {
        assert j in free;
      }
    }
    assert ToSet(suffix) == set j: nat | free[p] < j <= k && IsFree(events, k, j);
  }

  lemma SliceMember(free: seq<nat>, w: nat, p: nat)
    requires Ascending(free) && p < |free| && w >= 1
    ensures free[p] in NewestSlice(free, w) <==> |free| - 1 - p < w
    ensures free[p] in OldestSlice(free, w) <==> |free| - 1 - p >= w
  {
    assert forall q :: 0 <= q < |free| && free[q] == free[p] ==> q == p;
    if |free| > w {
      var cut := |free| - w;
      assert p < cut ==> free[..cut][p] == free[p];
      assert p >= cut ==> free[cut..][p - cut] == free[p];
    }
  }

  /** With a non-zero bound, slicing splits the free operations at the newest `w`. */
  lemma WindowMembers(events: seq<Event>, k: nat, w: nat)
    requires w >= 1
    ensures forall i: nat :: i in Window(events, k, w) <==> InWindow(events, k, w, i)
    ensures forall i: nat :: i in Older(events, k, w) <==> IsFree(events, k, i) && !InWindow(events, k, w, i)
    ensures Ascending(Window(events, k, w))
  {
    var free := Free(events, k);
    forall i: nat
      ensures i in Window(events, k, w) <==> InWindow(events, k, w, i)
      ensures i in Older(events, k, w) <==> IsFree(events, k, i) && !InWindow(events, k, w, i)
    {
      hide IsFree, NewerFree, Ascending;
      if IsFree(events, k, i) {
        assert i in free;
        var p :| 0 <= p < |free| && free[p] == i;
        NewerIsSuffixLength(events, k, p);
        SliceMember(free, w, p);
      } else {
        assert i !in free;
      }
    }
  }

  /** A bound of zero leaves every free operation both in the window and always present. */
  lemma ZeroWindow(events: seq<Event>, k: nat)
    ensures Window(events, k, 0) == Free(events, k)
    ensures forall i: nat :: i in Older(events, k, 0) <==> IsFree(events, k, i)
    ensures forall i: nat :: !InWindow(events, k, 0, i)
  {
    var free := Free(events, k);
    assert free[..|free|] == free;
  }

  lemma AlwaysMembers(events: seq<Event>, k: nat, w: nat)
    ensures forall i: nat :: (i in AlwaysPresent(events, k, w)
                              <==> IsPinned(events, k, i) || (IsFree(events, k, i) && !InWindow(events, k, w, i)))
  {
    if w == 0 { ZeroWindow(events, k); } else { WindowMembers(events, k, w); }
    forall i: nat | IsPinned(events, k, i) ensures i < k {
      var s: nat :| s <= k && Pins(events, s, i);
    }
  }

  lemma IssuedMembers(events: seq<Event>, k: nat, w: nat)
    ensures forall i: nat :: i in Issued(events, k, w) <==> IsPinned(events, k, i) || IsFree(events, k, i)
  {
    AlwaysMembers(events, k, w);
    if w == 0 { ZeroWindow(events, k); } else { WindowMembers(events, k, w); }
    forall i: nat | IsPinned(events, k, i) ensures i < k {
      var s: nat :| s <= k && Pins(events, s, i);
    }
  }

  // ---------------------------------------------------------------- what a mask keeps

  lemma {:induction false} PickedMembers(window: seq<nat>, mask: nat, n: nat)
    requires n <= |window|
    ensures forall x :: (x in PickedUpto(window, mask, n)
                         <==> exists b: nat :: b < n && MaskHas(mask, b) && window[b] == x)
    ensures Ascending(window) ==> Ascending(PickedUpto(window, mask, n))
  {
    if n > 0 {
      PickedMembers(window, mask, n - 1);
      if Ascending(window) {
        AppendAscending(PickedUpto(window, mask, n - 1), window[n - 1]);
      }
    }
  }

  lemma KeptMembers(always: seq<nat>, window: seq<nat>, mask: nat)
    ensures forall x :: (x in KeptBy(always, window, mask)
                         <==> x in always || exists b: nat :: b < |window| && MaskHas(mask, b) && window[b] == x)
    ensures Ascending(always) && Ascending(window) && (forall x :: x in always ==> x !in window)
      ==> Ascending(KeptBy(always, window, mask))
  {
    var picked := PickedUpto(window, mask, |window|);
    PickedMembers(window, mask, |window|);
    if Ascending(always) && Ascending(window) && (forall x :: x in always ==> x !in window) {
      forall i, j | 0 <= i < j < |always + picked|
        ensures Identity((always + picked)[i]) != Identity((always + picked)[j])
      {
        if i < |always| <= j {
          assert always[i] in always;
          assert picked[j - |always|] in picked;
        }
      }
      SortIsStrict(always + picked, Identity);
    }
  }

  lemma Disjoint(events: seq<Event>, k: nat, w: nat)
    requires w >= 1
    ensures forall x :: x in AlwaysPresent(events, k, w) ==> x !in Window(events, k, w)
  {
    AlwaysMembers(events, k, w);
    WindowMembers(events, k, w);
  }

  // ---------------------------------------------------------------- torn states

  lemma PrefixMembers(e: Event, bytes: nat)
    ensures bytes in SectorPrefixes(e)
      <==> IsWrite(e.call) && bytes % SECTOR_BYTES == 0 && 0 < bytes < e.length
  {
    if IsWrite(e.call) && bytes % SECTOR_BYTES == 0 && 0 < bytes < e.length {
      var i := bytes / SECTOR_BYTES - 1;
      assert SectorPrefixes(e)[i] == bytes;
    }
  }

  ghost predicate TearOf(events: seq<Event>, k: nat, persisted: seq<nat>, op: nat, st: CrashState) {
    && op < |events|
    && st.crashPoint == k && st.persisted == persisted
    && |st.partial| == 1 && st.partial[0].op == op
    && IsWrite(events[op].call)
    && st.partial[0].bytes % SECTOR_BYTES == 0
    && 0 < st.partial[0].bytes < events[op].length
  }

  lemma PrefixStatesMembers(events: seq<Event>, k: nat, persisted: seq<nat>, op: nat, st: CrashState)
    ensures st in PrefixStates(events, k, persisted, op) <==> TearOf(events, k, persisted, op, st)
    ensures NoDuplicates(PrefixStates(events, k, persisted, op))
  {
    if op < |events| {
      var prefixes := SectorPrefixes(events[op]);
      var states := PrefixStates(events, k, persisted, op);
      if TearOf(events, k, persisted, op, st) {
        PrefixMembers(events[op], st.partial[0].bytes);
        var i :| 0 <= i < |prefixes| && prefixes[i] == st.partial[0].bytes;
        assert states[i] == st;
      }
      if st in states {
        var i :| 0 <= i < |states| && states[i] == st;
        PrefixMembers(events[op], prefixes[i]);
      }
      forall i, j | 0 <= i < j < |states| ensures states[i] != states[j] {
        assert states[i].partial[0].bytes == (i + 1) * SECTOR_BYTES;
        assert states[j].partial[0].bytes == (j + 1) * SECTOR_BYTES;
      }
    }
  }

  lemma {:induction false} TornMembers(events: seq<Event>, k: nat, persisted: seq<nat>, window: seq<nat>, n: nat,
        st: CrashState)
    requires n <= |window|
    ensures st in TornStates(events, k, persisted, window, n)
      <==> exists b: nat :: b < n && window[b] !in persisted && TearOf(events, k, persisted, window[b], st)
  {
    hide PrefixStates, TearOf;
    if n > 0 {
      TornMembers(events, k, persisted, window, n - 1, st);
      PrefixStatesMembers(events, k, persisted, window[n - 1], st);
    }
  }

  lemma AppendNoDuplicates<T>(a: seq<T>, b: seq<T>)
    requires NoDuplicates(a) && NoDuplicates(b)
    requires forall i :: 0 <= i < |a| ==> a[i] !in b
    ensures NoDuplicates(a + b)
  {
    forall i, j | 0 <= i < j < |a + b| ensures (a + b)[i] != (a + b)[j] {
      if i < |a| <= j { assert a[i] !in b; assert b[j - |a|] in b; }
    }
  }

  lemma {:induction false} TornNoDuplicates(events: seq<Event>, k: nat, persisted: seq<nat>, window: seq<nat>, n: nat)
    requires n <= |window| && Ascending(window)
    ensures NoDuplicates(TornStates(events, k, persisted, window, n))
  {
    hide PrefixStates;
    if n > 0 {
      TornNoDuplicates(events, k, persisted, window, n - 1);
      var before := TornStates(events, k, persisted, window, n - 1);
      var op := window[n - 1];
      if op !in persisted {
        var here := PrefixStates(events, k, persisted, op);
        forall i | 0 <= i < |before| ensures before[i] !in here {
          TornMembers(events, k, persisted, window, n - 1, before[i]);
          PrefixStatesMembers(events, k, persisted, op, before[i]);
        }
        PrefixStatesMembers(events, k, persisted, op, CrashState(0, [], []));
        AppendNoDuplicates(before, here);
      }
    }
  }

  // ---------------------------------------------------------------- one mask

  lemma MaskMembers(events: seq<Event>, k: nat, bounds: Bounds, mask: nat, st: CrashState)
    ensures var w := bounds.maxUnpersistedWindow;
      var window := Window(events, k, w);
      var kept := KeptBy(AlwaysPresent(events, k, w), window, mask);
      st in MaskStates(events, k, bounds, mask) <==>
        && FilesExist(events, ToSet(kept))
        && (st == CrashState(k, kept, [])
            || (bounds.tornWrites && exists b: nat ::
                b < |window| && window[b] !in kept && TearOf(events, k, kept, window[b], st)))
  {
    hide KeptBy, AlwaysPresent, Window, FilesExist, TornStates, TearOf;
    var w := bounds.maxUnpersistedWindow;
    var window := Window(events, k, w);
    var kept := KeptBy(AlwaysPresent(events, k, w), window, mask);
    TornMembers(events, k, kept, window, |window|, st);
  }

  lemma MaskNoDuplicates(events: seq<Event>, k: nat, bounds: Bounds, mask: nat)
    requires bounds.maxUnpersistedWindow >= 1
    ensures NoDuplicates(MaskStates(events, k, bounds, mask))
  {
    var w := bounds.maxUnpersistedWindow;
    var window := Window(events, k, w);
    var kept := KeptBy(AlwaysPresent(events, k, w), window, mask);
    WindowMembers(events, k, w);
    TornNoDuplicates(events, k, kept, window, |window|);
    TornMembers(events, k, kept, window, |window|, CrashState(k, kept, []));
    if FilesExist(events, ToSet(kept)) && bounds.tornWrites {
      AppendNoDuplicates([CrashState(k, kept, [])], TornStates(events, k, kept, window, |window|));
    }
  }

  /** Every state of a mask is legal. */
  lemma MaskSound(events: seq<Event>, k: nat, bounds: Bounds, mask: nat, st: CrashState)
    requires bounds.maxUnpersistedWindow >= 1
    requires st in MaskStates(events, k, bounds, mask)
    ensures LegalState(events, k, bounds, st)
    ensures st.persisted == KeptBy(AlwaysPresent(events, k, bounds.maxUnpersistedWindow),
            Window(events, k, bounds.maxUnpersistedWindow), mask)
  {
    var w := bounds.maxUnpersistedWindow;
    var window := Window(events, k, w);
    var always := AlwaysPresent(events, k, w);
    var kept := KeptBy(always, window, mask);
    MaskMembers(events, k, bounds, mask, st);
    AlwaysMembers(events, k, w);
    WindowMembers(events, k, w);
    Disjoint(events, k, w);
    KeptMembers(always, window, mask);
    if st.partial != [] {
      var b: nat :| b < |window| && window[b] !in kept && TearOf(events, k, kept, window[b], st);
      assert window[b] in window;
    }
    forall i: nat | i in kept ensures IsPinned(events, k, i) || IsFree(events, k, i) {
      if i !in always {
        var b: nat :| b < |window| && MaskHas(mask, b) && window[b] == i;
        assert i in window;
      }
    }
  }

  lemma KeptMember(always: seq<nat>, window: seq<nat>, mask: nat, persisted: seq<nat>, x: nat)
    requires forall b: nat :: b < |window| ==> (MaskHas(mask, b) <==> window[b] in persisted)
    requires x in always ==> x in persisted
    requires x in persisted ==> x in always || x in window
    ensures x in KeptBy(always, window, mask) <==> x in persisted
  {
    hide KeptBy, MaskHas, Ascending;
    KeptMembers(always, window, mask);
    if x in persisted && x !in always {
      var b: nat :| b < |window| && window[b] == x;
      assert MaskHas(mask, b);
    }
  }

  /** The mask that spells out a set's window operations keeps exactly that set. */
  lemma {:induction false} MaskSelects(always: seq<nat>, window: seq<nat>, persisted: seq<nat>)
    requires |window| <= 30
    requires Ascending(always) && Ascending(window) && Ascending(persisted)
    requires forall x :: x in always ==> x !in window && x in persisted
    requires forall x :: x in persisted ==> x in always || x in window
    ensures KeptBy(always, window, MaskOf(window, ToSet(persisted))) == persisted
  {
    hide MaskOf, KeptBy, Ascending, Bit, Pow2;
    var mask := MaskOf(window, ToSet(persisted));
    MaskOfSelects(window, ToSet(persisted));
    forall b: nat | b < |window| ensures MaskHas(mask, b) <==> window[b] in persisted {
      assert b % 32 == b;
      assert window[b] in ToSet(persisted) <==> window[b] in persisted;
    }
    hide MaskHas, ToSet;
    KeptMembers(always, window, mask);
    forall x ensures x in KeptBy(always, window, mask) <==> x in persisted {
      KeptMember(always, window, mask, persisted, x);
    }
    AscendingIsUnique(KeptBy(always, window, mask), persisted);
  }

  lemma MaskKeeps(events: seq<Event>, k: nat, w: nat, persisted: seq<nat>)
    requires w >= 1 && |Window(events, k, w)| <= 30
    requires Ascending(persisted) && LegalSet(events, k, w, ToSet(persisted))
    ensures KeptBy(AlwaysPresent(events, k, w), Window(events, k, w), MaskOf(Window(events, k, w), ToSet(persisted)))
       == persisted
  {
    AlwaysMembers(events, k, w);
    WindowMembers(events, k, w);
    hide KeptBy, AlwaysPresent, Window, FilesExist, InWindow, IsFree, IsPinned;
    forall x | x in AlwaysPresent(events, k, w) ensures x in persisted {
      assert x in ToSet(persisted);
    }
    forall x | x in persisted ensures x in AlwaysPresent(events, k, w) || x in Window(events, k, w) {
      assert x in ToSet(persisted);
    }
    MaskSelects(AlwaysPresent(events, k, w), Window(events, k, w), persisted);
  }

  /** Every legal state belongs to the mask that spells out its window operations. */
  lemma MaskComplete(events: seq<Event>, k: nat, bounds: Bounds, st: CrashState)
    requires bounds.maxUnpersistedWindow >= 1
    requires |Window(events, k, bounds.maxUnpersistedWindow)| <= 30
    requires LegalState(events, k, bounds, st)
    ensures st in MaskStates(events, k, bounds,
            MaskOf(Window(events, k, bounds.maxUnpersistedWindow), ToSet(st.persisted)))
  {
    hide MaskOf, KeptBy, AlwaysPresent, Window, MaskStates, FilesExist, InWindow, IsFree, IsPinned;
    var w := bounds.maxUnpersistedWindow;
    var window := Window(events, k, w);
    var mask := MaskOf(window, ToSet(st.persisted));
    MaskKeeps(events, k, w, st.persisted);
    WindowMembers(events, k, w);
    MaskMembers(events, k, bounds, mask, st);
    if st.partial != [] {
      var op := st.partial[0].op;
      assert op in window;
      var b: nat :| b < |window| && window[b] == op;
      assert TearOf(events, k, st.persisted, window[b], st);
    }
  }

  /** Different masks keep different sets. */
  lemma MasksDisjoint(events: seq<Event>, k: nat, bounds: Bounds, m1: nat, m2: nat, st: CrashState)
    requires bounds.maxUnpersistedWindow >= 1
    requires |Window(events, k, bounds.maxUnpersistedWindow)| <= 30
    requires m1 < Pow2(|Window(events, k, bounds.maxUnpersistedWindow)|)
    requires m2 < Pow2(|Window(events, k, bounds.maxUnpersistedWindow)|)
    requires st in MaskStates(events, k, bounds, m1) && st in MaskStates(events, k, bounds, m2)
    ensures m1 == m2
  {
    hide KeptBy, AlwaysPresent, Window, MaskStates, LegalState, Bit, Pow2;
    var w := bounds.maxUnpersistedWindow;
    var window := Window(events, k, w);
    var always := AlwaysPresent(events, k, w);
    MaskSound(events, k, bounds, m1, st);
    MaskSound(events, k, bounds, m2, st);
    WindowMembers(events, k, w);
    Disjoint(events, k, w);
    KeptMembers(always, window, m1);
    KeptMembers(always, window, m2);
    forall b: nat | b < |window| ensures Bit(m1, b) == Bit(m2, b) {
      assert window[b] in window && window[b] !in always;
      assert MaskHas(m1, b) <==> window[b] in st.persisted;
      assert MaskHas(m2, b) <==> window[b] in st.persisted;
    }
    BitsDetermine(m1, m2, |window|);
  }

  // ---------------------------------------------------------------- one crash point

  lemma {:induction false} MasksUptoMembers(events: seq<Event>, k: nat, bounds: Bounds, n: nat, st: CrashState)
    ensures st in MasksUpto(events, k, bounds, n)
       <==> exists mask: nat :: mask < n && st in MaskStates(events, k, bounds, mask)
  {
    hide MaskStates;
    if n > 0 {
      MasksUptoMembers(events, k, bounds, n - 1, st);
    }
  }

  lemma {:induction false} MasksUptoNoDuplicates(events: seq<Event>, k: nat, bounds: Bounds, n: nat)
    requires bounds.maxUnpersistedWindow >= 1
    requires |Window(events, k, bounds.maxUnpersistedWindow)| <= 30
    requires n <= Pow2(|Window(events, k, bounds.maxUnpersistedWindow)|)
    ensures NoDuplicates(MasksUpto(events, k, bounds, n))
  {
    hide MaskStates, Window;
    if n > 0 {
      MasksUptoNoDuplicates(events, k, bounds, n - 1);
      var before := MasksUpto(events, k, bounds, n - 1);
      var here := MaskStates(events, k, bounds, n - 1);
      MaskNoDuplicates(events, k, bounds, n - 1);
      forall i | 0 <= i < |before| ensures before[i] !in here {
        assert before[i] in before;
        MasksUptoMembers(events, k, bounds, n - 1, before[i]);
        if before[i] in here {
          var mask: nat :| mask < n - 1 && before[i] in MaskStates(events, k, bounds, mask);
          MasksDisjoint(events, k, bounds, mask, n - 1, before[i]);
        }
      }
      AppendNoDuplicates(before, here);
    }
  }

  lemma ReorderingMember(events: seq<Event>, k: nat, model: FilesystemModel, bounds: Bounds,
        st: CrashState)
    requires !model.totalOrder && bounds.maxUnpersistedWindow >= 1
    requires |Window(events, k, bounds.maxUnpersistedWindow)| <= 30
    ensures st in StatesAt(events, k, model, bounds) <==> LegalState(events, k, bounds, st)
  {
    hide MaskStates, MasksUpto, PrefixesUpto, Issued, AlwaysPresent, Window, LegalState, MaskOf, Bit, Pow2,
            NoDuplicates, Ascending;
    var window := Window(events, k, bounds.maxUnpersistedWindow);
    var n := Pow2(|window|);
    MasksUptoMembers(events, k, bounds, n, st);
    if mask: nat :| mask < n && st in MaskStates(events, k, bounds, mask) {
      MaskSound(events, k, bounds, mask, st);
    }
    if LegalState(events, k, bounds, st) {
      MaskComplete(events, k, bounds, st);
      MaskOfSelects(window, ToSet(st.persisted));
    }
  }

  /** A reordering model lists exactly the legal states of a crash point, each once. */
  lemma ReorderingExact(events: seq<Event>, k: nat, model: FilesystemModel, bounds: Bounds)
    requires !model.totalOrder && bounds.maxUnpersistedWindow >= 1
    requires |Window(events, k, bounds.maxUnpersistedWindow)| <= 30
    ensures forall st :: st in StatesAt(events, k, model, bounds) <==> LegalState(events, k, bounds, st)
    ensures NoDuplicates(StatesAt(events, k, model, bounds))
  {
    hide MasksUpto, PrefixesUpto, Issued, AlwaysPresent, Window, LegalState, Pow2, NoDuplicates;
    forall st ensures st in StatesAt(events, k, model, bounds) <==> LegalState(events, k, bounds, st) {
      ReorderingMember(events, k, model, bounds, st);
    }
    MasksUptoNoDuplicates(events, k, bounds, Pow2(|Window(events, k, bounds.maxUnpersistedWindow)|));
  }
}
