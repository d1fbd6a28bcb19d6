/** The positive control: a store that announces what it never synced, on a filesystem that may persist a
    rename before the data it names. */
module UnsafeStore {
  import opened Sorting
  import opened Bits
  import opened Text
  import opened Traces
  import opened States
  import opened Legality
  import opened CrashSpace
  import opened Inclusion
  import opened AckLog
  import opened Oracle
  import opened Campaign
  import opened Reader
  import opened Replay
  import opened Recover

  // ---------------------------------------------------------------- the unsafe store's trace

  function KeyOf(i: nat): string { "k" + Decimal(i) }

  function ScratchOf(i: nat): string { KeyOf(i) + ".tmp" }

  const VALUE_BYTES: nat := 4096

  /** The run's own parameters: its thread, the descriptor `open` returned, and the bytes it stores. */
  datatype Setting = Setting(tid: nat, fd: nat, value: nat -> seq<Byte>, hash: Hash)

  function OpenOf(setting: Setting, i: nat, stamp: nat): Event {
    Event(stamp, stamp + 1, Open, setting.tid, ScratchOf(i), "", 0, 0, setting.fd, "")
  }

  function WriteOf(setting: Setting, i: nat, stamp: nat): Event {
    Event(stamp, stamp + 1, Write, setting.tid, ScratchOf(i), "", 0, VALUE_BYTES, VALUE_BYTES,
            setting.hash(setting.value(i)))
  }

  function CloseOf(setting: Setting, i: nat, stamp: nat): Event {
    Event(stamp, stamp + 1, Close, setting.tid, ScratchOf(i), "", 0, 0, 0, "")
  }

  function RenameOf(setting: Setting, i: nat, stamp: nat): Event {
    Event(stamp, stamp + 1, Rename, setting.tid, ScratchOf(i), KeyOf(i), 0, 0, 0, "")
  }

  function BeginOf(setting: Setting, i: nat, stamp: nat): Marker {
    Marker(stamp, setting.tid, Some(i), Begin, "put", KeyOf(i), "", false)
  }

  function AckOf(setting: Setting, i: nat, stamp: nat): Marker {
    Marker(stamp, setting.tid, Some(i), Ack, "put", KeyOf(i), setting.hash(setting.value(i)), true)
  }

  /** What one operation records, its stamps counting from `base`. */
  function OpRecords(setting: Setting, i: nat, base: nat): seq<Record> {
    [MarkerRecord(BeginOf(setting, i, base)),
     EventRecord(OpenOf(setting, i, base + 1)),
     EventRecord(WriteOf(setting, i, base + 3)),
     EventRecord(CloseOf(setting, i, base + 5)),
     EventRecord(RenameOf(setting, i, base + 7)),
     MarkerRecord(AckOf(setting, i, base + 9))]
  }

  /** Opening the marker file takes stamp 0; each operation then takes ten. */
  function KvRecords(setting: Setting, n: nat): seq<Record> {
    if n == 0 then [] else KvRecords(setting, n - 1) + OpRecords(setting, n, 10 * n - 9)
  }

  method RunUnsafeKv(setting: Setting, operations: nat) returns (records: seq<Record>, stamps: nat)
    ensures records == KvRecords(setting, operations)
    ensures stamps == 10 * operations + 2
  {
    records := [];
    stamps := 1;
    for i := 1 to operations + 1
      invariant stamps == 10 * i - 9
      invariant records == KvRecords(setting, i - 1)
    {
      var done;
      done, stamps := PutUnsynced(setting, i, stamps);
      records := records + done;
    }
    stamps := stamps + 1;
  }

  /** One operation: announce, open, write, close, rename, announce; nothing is synced. */
  method PutUnsynced(setting: Setting, i: nat, base: nat) returns (records: seq<Record>, stamps: nat)
    ensures records == OpRecords(setting, i, base)
    ensures stamps == base + 10
  {
    hide BeginOf, OpenOf, WriteOf, CloseOf, RenameOf, AckOf;
    records := [MarkerRecord(BeginOf(setting, i, base))];
    stamps := base + 1;
    records := records + [EventRecord(OpenOf(setting, i, stamps))];
    stamps := stamps + 2;
    records := records + [EventRecord(WriteOf(setting, i, stamps))];
    stamps := stamps + 2;
    records := records + [EventRecord(CloseOf(setting, i, stamps))];
    stamps := stamps + 2;
    records := records + [EventRecord(RenameOf(setting, i, stamps))];
    stamps := stamps + 2;
    records := records + [MarkerRecord(AckOf(setting, i, stamps))];
    stamps := stamps + 1;
  }

  /** The first operation, record by record. */
  lemma {:induction false} RecordsInFull(setting: Setting)
    ensures var digest := setting.hash(setting.value(1));
            KvRecords(setting, 1)
            == [MarkerRecord(Marker(1, setting.tid, Some(1), Begin, "put", "k1", "", false)),
                EventRecord(Event(2, 3, Open, setting.tid, "k1.tmp", "", 0, 0, setting.fd, "")),
                EventRecord(Event(4, 5, Write, setting.tid, "k1.tmp", "", 0, 4096, 4096, digest)),
                EventRecord(Event(6, 7, Close, setting.tid, "k1.tmp", "", 0, 0, 0, "")),
                EventRecord(Event(8, 9, Rename, setting.tid, "k1.tmp", "k1", 0, 0, 0, "")),
                MarkerRecord(Marker(10, setting.tid, Some(1), Ack, "put", "k1", digest, true))]
  {
    assert KvRecords(setting, 0) == [];
    assert KeyOf(1) == "k1" && ScratchOf(1) == "k1.tmp";
    hide KeyOf, ScratchOf;
  }

  // ---------------------------------------------------------------- the trace it parses to

  function OpEvents(setting: Setting, i: nat, base: nat): seq<Event> {
    [OpenOf(setting, i, base + 1), WriteOf(setting, i, base + 3), CloseOf(setting, i, base + 5),
            RenameOf(setting, i, base + 7)]
  }

  function OpMarkers(setting: Setting, i: nat, base: nat): seq<Marker> {
    [BeginOf(setting, i, base), AckOf(setting, i, base + 9)]
  }

  function KvEvents(setting: Setting, n: nat): (r: seq<Event>)
    ensures |r| == 4 * n
  {
    if n == 0 then [] else KvEvents(setting, n - 1) + OpEvents(setting, n, 10 * n - 9)
  }

  function KvMarkers(setting: Setting, n: nat): (r: seq<Marker>)
    ensures |r| == 2 * n
  {
    if n == 0 then [] else KvMarkers(setting, n - 1) + OpMarkers(setting, n, 10 * n - 9)
  }

  lemma OpSplits(setting: Setting, i: nat, base: nat)
    ensures EventsOf(OpRecords(setting, i, base)) == OpEvents(setting, i, base)
    ensures MarkersOf(OpRecords(setting, i, base)) == OpMarkers(setting, i, base)
  {
    var r := OpRecords(setting, i, base);
    hide EventsOf, MarkersOf;
    assert r == [r[0]] + ([r[1]] + ([r[2]] + ([r[3]] + ([r[4]] + [r[5]]))));
    RecordsAppend([r[4]], [r[5]]);
    RecordsAppend([r[3]], [r[4]] + [r[5]]);
    RecordsAppend([r[2]], [r[3]] + ([r[4]] + [r[5]]));
    RecordsAppend([r[1]], [r[2]] + ([r[3]] + ([r[4]] + [r[5]])));
    RecordsAppend([r[0]], [r[1]] + ([r[2]] + ([r[3]] + ([r[4]] + [r[5]]))));
    forall x | 0 <= x < 6
      ensures EventsOf([r[x]]) == if r[x].EventRecord? then [r[x].event] else []
      ensures MarkersOf([r[x]]) == if r[x].MarkerRecord? then [r[x].marker] else []
    {
      OneRecord(r[x]);
    }
  }

  lemma {:induction false} RunSplits(setting: Setting, n: nat)
    ensures EventsOf(KvRecords(setting, n)) == KvEvents(setting, n)
    ensures MarkersOf(KvRecords(setting, n)) == KvMarkers(setting, n)
  {
    if n > 0 {
      RunSplits(setting, n - 1);
      hide OpRecords, OpEvents, OpMarkers, EventsOf, MarkersOf;
      RecordsAppend(KvRecords(setting, n - 1), OpRecords(setting, n, 10 * n - 9));
      OpSplits(setting, n, 10 * n - 9);
    }
  }

  lemma {:induction false} RunIsOrdered(setting: Setting, n: nat)
    ensures StrictlySortedBy(KvEvents(setting, n), EventKey) && StrictlySortedBy(KvMarkers(setting, n), MarkerKey)
    ensures forall e :: e in KvEvents(setting, n) ==> e.index < 10 * n
    ensures forall m :: m in KvMarkers(setting, n) ==> m.index <= 10 * n
  {
    hide OpEvents, OpMarkers;
    if n > 0 {
      RunIsOrdered(setting, n - 1);
      OpIsOrdered(setting, n, 10 * n - 9);
      JoinSorted(KvEvents(setting, n - 1), OpEvents(setting, n, 10 * n - 9), EventKey);
      JoinSorted(KvMarkers(setting, n - 1), OpMarkers(setting, n, 10 * n - 9), MarkerKey);
    }
  }

  lemma OpIsOrdered(setting: Setting, i: nat, base: nat)
    ensures StrictlySortedBy(OpEvents(setting, i, base), EventKey)
               && StrictlySortedBy(OpMarkers(setting, i, base), MarkerKey)
    ensures forall e :: e in OpEvents(setting, i, base) ==> base < e.index < base + 9
    ensures forall m :: m in OpMarkers(setting, i, base) ==> base <= m.index <= base + 9
  {}

  /** The run's file parses to its own events and markers. */
  lemma {:induction false} RunParses(setting: Setting, n: nat)
    ensures Parsed(KvRecords(setting, n)) == Trace(KvEvents(setting, n), KvMarkers(setting, n))
    ensures InStampOrder(KvEvents(setting, n))
  {
    RunSplits(setting, n);
    RunIsOrdered(setting, n);
    hide KvEvents, KvMarkers, KvRecords;
    SortedIsFixed(KvEvents(setting, n), EventKey);
    SortedIsFixed(KvMarkers(setting, n), MarkerKey);
  }

  lemma {:induction false} RunStarts(setting: Setting, n: nat)
    requires n >= 2
    ensures KvEvents(setting, n)[..8] == OpEvents(setting, 1, 1) + OpEvents(setting, 2, 11)
  {
    if n == 2 {
      assert KvEvents(setting, 0) == [];
      assert KvEvents(setting, 1) == OpEvents(setting, 1, 1);
    } else {
      RunStarts(setting, n - 1);
      assert KvEvents(setting, n)[..8] == KvEvents(setting, n - 1)[..8];
    }
  }

  // ---------------------------------------------------------------- the positive control

  /** At the fifth event, the second operation's open: the write and the rename of the first are loose. */
  lemma FreeAtSecondOpen(setting: Setting, events: seq<Event>, i: nat)
    requires |events| >= 8 && events[..8] == OpEvents(setting, 1, 1) + OpEvents(setting, 2, 11)
    ensures !IsPinned(events, 4, i)
    ensures IsFree(events, 4, i) <==> i == 1 || i == 3
    ensures events[3] == RenameOf(setting, 1, 8) && events[4] == OpenOf(setting, 2, 12)
  {
    assert forall x :: 0 <= x < 8 ==> events[x] == events[..8][x];
  }

  lemma WindowAtSecondOpen(setting: Setting, events: seq<Event>, w: nat)
    requires |events| >= 8 && events[..8] == OpEvents(setting, 1, 1) + OpEvents(setting, 2, 11)
    requires w >= 2
    ensures Window(events, 4, w) == [1, 3]
  {
    forall i: nat ensures IsFree(events, 4, i) <==> i == 1 || i == 3 { FreeAtSecondOpen(setting, events, i); }
    hide IsFree;
    AscendingIsUnique(Free(events, 4), [1, 3]);
  }

  const EMPTY_NAME: CrashState := CrashState(4, [3], [])

  /** The rename may be on disk without the write. */
  lemma EmptyNameIsListed(setting: Setting, events: seq<Event>, model: FilesystemModel,
        bounds: Bounds)
    requires |events| >= 8 && events[..8] == OpEvents(setting, 1, 1) + OpEvents(setting, 2, 11)
    requires !model.totalOrder && bounds.maxUnpersistedWindow >= 2
    ensures EMPTY_NAME in StatesAt(events, 4, model, bounds)
  {
    var w := bounds.maxUnpersistedWindow;
    WindowAtSecondOpen(setting, events, w);
    WindowMembers(events, 4, w);
    assert InWindow(events, 4, w, 1) by { assert 1 in Window(events, 4, w); }
    forall i: nat ensures !IsPinned(events, 4, i) && (IsFree(events, 4, i) <==> i == 1 || i == 3) {
      FreeAtSecondOpen(setting, events, i);
    }
    FreeAtSecondOpen(setting, events, 3);
    assert FilesExist(events, {3});
    assert ToSet([3]) == {3};
    hide IsPinned, IsFree, InWindow, FilesExist, StatesAt;
    ReorderingMember(events, 4, model, bounds, EMPTY_NAME);
  }

  lemma {:induction false} NothingSelected(d: Disk, events: seq<Event>, store: Store, sel: Selection, from: nat, n: nat)
    requires from <= n <= |events| && forall i: nat :: from <= i < n ==> !Selects(sel, i)
    ensures Replayed(d, events, store, sel, n) == Replayed(d, events, store, sel, from)
  {
    hide Applied;
    if from < n { NothingSelected(d, events, store, sel, from, n - 1); }
  }

  lemma RenameOfNothing(e: Event, store: Store)
    requires e.call == Rename && e.path != e.path2
    ensures Applied(EMPTY_DISK, e, store, None).error.None?
    ensures FileAt(Applied(EMPTY_DISK, e, store, None).disk, e.path2) == Some([])
  {}

  /** It replays to the new name with nothing behind it. */
  lemma {:induction false} EmptyNameReplays(events: seq<Event>, store: Store)
    requires |events| >= 5 && events[3].call == Rename && events[3].path != events[3].path2
    ensures var step := Replayed(EMPTY_DISK, events, store, SelectionOf(EMPTY_NAME), |events|);
            step.error.None? && FileAt(step.disk, events[3].path2) == Some([])
  {
    var sel := SelectionOf(EMPTY_NAME);
    assert sel.torn == map[];
    assert forall i: nat :: Selects(sel, i) <==> i == 3;
    assert Replayed(EMPTY_DISK, events, store, sel, 0) == Step(EMPTY_DISK, None);
    hide Applied, FileAt;
    NothingSelected(EMPTY_DISK, events, store, sel, 0, 3);
    assert Replayed(EMPTY_DISK, events, store, sel, 4) == Applied(EMPTY_DISK, events[3], store, None);
    NothingSelected(EMPTY_DISK, events, store, sel, 4, |events|);
    RenameOfNothing(events[3], store);
  }

  lemma {:induction false} FirstRecord(setting: Setting, n: nat)
    requires n >= 1
    ensures RecordOf(KvMarkers(setting, n), 1)
         == Some(AckedOperation(1, "put", KeyOf(1), setting.hash(setting.value(1)), 1, Some(10), true))
  {
    var markers := KvMarkers(setting, n);
    hide KeyOf;
    assert markers[..|markers| - 1][..|markers| - 2] == KvMarkers(setting, n - 1);
    assert markers[..|markers| - 1][|markers| - 2] == BeginOf(setting, n, 10 * n - 9);
    if n > 1 {
      FirstRecord(setting, n - 1);
    }
  }

  /** The oracle's finding in a state: the first key is there, empty, and its durable value is lost. */
  ghost predicate FindsEmptyKey(trace: Trace, st: CrashState, setting: Setting, store: Store) {
    var step := Replayed(EMPTY_DISK, trace.events, store, SelectionOf(st), |trace.events|);
    var crashStamp := CrashStamp(trace.events, st);
    && step.error.None?
    && FileAt(step.disk, KeyOf(1)) == Some([])
    && Violation(LostAcked, crashStamp, Some(1), KeyOf(1), setting.hash(setting.value(1)), setting.hash([]))
       in Violations(Log(trace.markers), crashStamp, FileKv(step.disk, setting.hash))
  }

  lemma KeyIsAValue()
    ensures IsValueFile(KeyOf(1)) && ScratchOf(1) != KeyOf(1)
  {
    assert KeyOf(1) == "k1";
  }

  lemma EmptyKeyIsReported(trace: Trace, setting: Setting, store: Store)
    requires |trace.events| >= 5 && trace.events[3] == RenameOf(setting, 1, 8) && trace.events[4].index == 12
    requires RecordOf(trace.markers, 1)
          == Some(AckedOperation(1, "put", KeyOf(1), setting.hash(setting.value(1)), 1, Some(10), true))
    requires setting.hash([]) != setting.hash(setting.value(1))
    ensures FindsEmptyKey(trace, EMPTY_NAME, setting, store)
  {
    KeyIsAValue();
    hide Replayed, RecordOf, Log, FileKv, Violations, KeyOf, ScratchOf, FileAt, SelectionOf, IsValueFile;
    EmptyNameReplays(trace.events, store);
    RecordIsListed(trace.markers, 1);
    var step := Replayed(EMPTY_DISK, trace.events, store, SelectionOf(EMPTY_NAME), |trace.events|);
    RecoversItsFiles(step.disk, setting.hash, KeyOf(1));
    var recovery := FileKv(step.disk, setting.hash);
    var r := RecordOf(trace.markers, 1).value;
    assert IsPromised(r, 12) && !Kept(recovery.values, r);
    LossesAreExact(Log(trace.markers), 12, recovery, Loss(r, recovery.values, 12));
  }

  lemma {:induction false} EmptyNameIsEnumerated(setting: Setting, n: nat, model: FilesystemModel, bounds: Bounds)
    requires n >= 2 && !model.totalOrder && bounds.maxUnpersistedWindow >= 2
    ensures EMPTY_NAME in Enumerated(KvEvents(setting, n), model, bounds, AllPoints(4 * n))
  {
    var events := KvEvents(setting, n);
    RunStarts(setting, n);
    EmptyNameIsListed(setting, events, model, bounds);
    hide StatesAt, Enumerated, KvEvents;
    assert AllPoints(4 * n)[4] == 4;
    EnumeratedMember(events, model, bounds, AllPoints(4 * n), EMPTY_NAME);
  }

  lemma {:induction false} SecondOpenOf(setting: Setting, n: nat)
    requires n >= 2
    ensures KvEvents(setting, n)[3] == RenameOf(setting, 1, 8) && KvEvents(setting, n)[4].index == 12
  {
    RunStarts(setting, n);
    assert KvEvents(setting, n)[3] == KvEvents(setting, n)[..8][3];
    assert KvEvents(setting, n)[4] == KvEvents(setting, n)[..8][4];
  }

  /** For two operations or more, on a reordering filesystem with a window of two or more, some state
      leaves the first key empty and the oracle reports its value lost. */
  lemma {:induction false} UnsafeStoreIsCaught(setting: Setting, n: nat, model: FilesystemModel, bounds: Bounds,
        store: Store)
    requires n >= 2 && !model.totalOrder && bounds.maxUnpersistedWindow >= 2
    requires setting.hash([]) != setting.hash(setting.value(1))
    ensures var trace := Parsed(KvRecords(setting, n));
            && EMPTY_NAME in Enumerated(trace.events, model, bounds, AllPoints(|trace.events|))
            && FindsEmptyKey(trace, EMPTY_NAME, setting, store)
  {
    RunParses(setting, n);
    hide *;
    EmptyNameIsEnumerated(setting, n, model, bounds);
    SecondOpenOf(setting, n);
    FirstRecord(setting, n);
    EmptyKeyIsReported(Parsed(KvRecords(setting, n)), setting, store);
  }

  lemma {:induction false} AcksAreTheTenth(setting: Setting, n: nat, m: Marker)
    requires m in KvMarkers(setting, n) && m.phase == Ack
    ensures m.index >= 10
  {
    if n > 0 && m in KvMarkers(setting, n - 1) {
      AcksAreTheTenth(setting, n - 1, m);
    }
  }

  lemma NoPromiseInTime(markers: seq<Marker>, crashStamp: nat)
    requires forall m :: m in markers && m.phase == Ack ==> crashStamp <= m.index
    ensures forall r :: r in Log(markers) ==> !IsPromised(r, crashStamp)
  {
    forall r | r in Log(markers) ensures !IsPromised(r, crashStamp) {
      var op := ListedIsRecord(markers, r);
      RecordIsDescribed(markers, op);
      hide Log, RecordOf;
      var b: nat :| Opens(markers, op, b) && Promises(markers, op, b, r);
      if r.acknowledgedAt.Some? {
        var a: nat :| IsAck(markers, op, a) && r.acknowledgedAt.value == markers[a].index;
        assert markers[a] in markers;
      }
    }
  }

  /** With fewer operations there is no crash point after an acknowledgement, so whatever recovery returns
      in whatever state, the oracle says nothing. */
  lemma {:induction false} ShortRunIsNeverAccused(setting: Setting, n: nat, k: nat, recovery: RecoveryResult)
    requires n <= 1 && k < |Parsed(KvRecords(setting, n)).events|
    ensures var trace := Parsed(KvRecords(setting, n));
            Violations(Log(trace.markers), trace.events[k].index, recovery) == []
  {
    var trace := Parsed(KvRecords(setting, n));
    RunParses(setting, n);
    RunIsOrdered(setting, n);
    assert trace.events[k] in trace.events;
    forall m | m in trace.markers && m.phase == Ack ensures trace.events[k].index <= m.index {
      AcksAreTheTenth(setting, n, m);
    }
    hide Parsed, KvRecords, KvMarkers, KvEvents, Log, Violations, IsPromised;
    NoPromiseInTime(trace.markers, trace.events[k].index);
    SilentIffContractHolds(Log(trace.markers), trace.events[k].index, recovery);
  }

  lemma {:induction false} ShortRunFindsNothing(setting: Setting, n: nat, model: FilesystemModel, bounds: Bounds,
        store: Store, st: CrashState)
    requires n <= 1
    requires var events := Parsed(KvRecords(setting, n)).events;
             st in Enumerated(events, model, bounds, AllPoints(|events|))
    ensures !FindsEmptyKey(Parsed(KvRecords(setting, n)), st, setting, store)
  {
    var trace := Parsed(KvRecords(setting, n));
    hide Parsed, KvRecords, Violations, Log, Enumerated, StatesAt, Replayed, FileKv, FileAt, KeyOf, SelectionOf;
    EnumeratedMember(trace.events, model, bounds, AllPoints(|trace.events|), st);
    var k :| k in AllPoints(|trace.events|) && st in StatesAt(trace.events, k, model, bounds);
    ListedWellFormed(trace.events, k, model, bounds, st);
    var step := Replayed(EMPTY_DISK, trace.events, store, SelectionOf(st), |trace.events|);
    ShortRunIsNeverAccused(setting, n, k, FileKv(step.disk, setting.hash));
  }

  // ---------------------------------------------------------------- and on no other filesystem

  lemma {:induction false} RunBegins(setting: Setting, n: nat)
    requires n >= 1
    ensures KvEvents(setting, n)[..4] == OpEvents(setting, 1, 1)
  {
    if n == 1 {
      assert KvEvents(setting, 0) == [];
    } else {
      RunBegins(setting, n - 1);
      assert KvEvents(setting, n)[..4] == KvEvents(setting, n - 1)[..4];
    }
  }

  lemma {:induction false} FirstOperation(setting: Setting, n: nat)
    requires n >= 1
    ensures var events := KvEvents(setting, n);
            && events[0] == OpenOf(setting, 1, 2) && events[1] == WriteOf(setting, 1, 4)
            && events[2] == CloseOf(setting, 1, 6) && events[3] == RenameOf(setting, 1, 8)
  {
    RunBegins(setting, n);
    var events := KvEvents(setting, n);
    assert forall x :: 0 <= x < 4 ==> events[x] == events[..4][x];
  }

  /** No other operation works on the first key, and no scratch file bears its name. */
  lemma FirstKeyIsItsOwn(i: nat)
    ensures KeyOf(i) == KeyOf(1) <==> i == 1
    ensures ScratchOf(i) != KeyOf(1)
  {
    assert KeyOf(1) == "k1" && |KeyOf(i)| == 1 + |Decimal(i)| && |ScratchOf(i)| == |KeyOf(i)| + 4;
    if i < 10 {
      assert Decimal(i) == [Digit(i)] && KeyOf(i)[1] == Digit(i);
    }
  }

  lemma {:induction false} OthersSpareFirstKey(setting: Setting, n: nat, x: nat)
    requires x < 4 * n && x != 3
    ensures SparesName(KvEvents(setting, n)[x], KeyOf(1)) && !Edits(KvEvents(setting, n)[x], KeyOf(1))
  {
    hide KeyOf, ScratchOf;
    if x < 4 * (n - 1) {
      OthersSpareFirstKey(setting, n - 1, x);
    } else {
      FirstKeyIsItsOwn(n);
      assert KvEvents(setting, n)[x] == OpEvents(setting, n, 10 * n - 9)[x - 4 * (n - 1)];
    }
  }

  lemma {:induction false} NothingIsSynced(setting: Setting, n: nat, x: nat)
    requires x < 4 * n
    ensures !IsPersistence(KvEvents(setting, n)[x].call)
  {
    if x < 4 * (n - 1) {
      NothingIsSynced(setting, n - 1, x);
    }
  }

  lemma {:induction false} NothingIsPinned(setting: Setting, n: nat, k: nat, i: nat)
    ensures !IsPinned(KvEvents(setting, n), k, i)
  {
    forall s: nat | s <= k ensures !Pins(KvEvents(setting, n), s, i) {
      if s < 4 * n { NothingIsSynced(setting, n, s); }
    }
  }

  /** The rename is on disk only with the whole write before it. */
  ghost predicate WritePrecedesRename(st: CrashState) {
    Selects(SelectionOf(st), 3) ==> 1 in st.persisted && 3 in st.persisted && BytesOf(SelectionOf(st), 1) == None
  }

  lemma {:induction false} TornIsPartial(partial: seq<Torn>, i: nat)
    ensures i in TornBytes(partial) ==> exists t :: t in partial && t.op == i
  {
    if partial != [] {
      TornIsPartial(partial[..|partial| - 1], i);
      assert partial[|partial| - 1] in partial;
    }
  }

  lemma {:induction false} TornIsAWrite(setting: Setting, n: nat, k: nat, model: FilesystemModel, bounds: Bounds,
        st: CrashState)
    requires n >= 1 && st in StatesAt(KvEvents(setting, n), k, model, bounds)
    requires model.totalOrder || bounds.maxUnpersistedWindow <= 1
    ensures 3 !in TornBytes(st.partial)
  {
    var events := KvEvents(setting, n);
    TornIsPartial(st.partial, 3);
    FirstOperation(setting, n);
    hide StatesAt, KvEvents, Window, LegalSet, InWindow, LegalPrefix;
    if model.totalOrder {
      JournalMember(events, k, model, bounds, st);
    } else if bounds.maxUnpersistedWindow == 1 {
      ListedIsLegal(events, k, model, bounds, st);
    } else {
      ListedWellFormed(events, k, model, bounds, st);
      ZeroBoundCovers(events, k);
    }
  }

  lemma {:induction false} OrderedWriteComesFirst(setting: Setting, n: nat, k: nat, model: FilesystemModel,
        bounds: Bounds, st: CrashState)
    requires n >= 1 && st in StatesAt(KvEvents(setting, n), k, model, bounds)
    requires model.totalOrder || bounds.maxUnpersistedWindow <= 1
    requires 3 in st.persisted
    ensures 1 in st.persisted
  {
    var events := KvEvents(setting, n);
    FirstOperation(setting, n);
    NothingIsPinned(setting, n, k, 1);
    NothingIsPinned(setting, n, k, 3);
    ListedWellFormed(events, k, model, bounds, st);
    assert IsFree(events, k, 3) && IsFree(events, k, 1);
    assert 3 in ToSet(st.persisted);
    hide StatesAt, KvEvents, IsFree, IsPinned;
    if model.totalOrder {
      JournalMember(events, k, model, bounds, st);
      assert 1 in ToSet(st.persisted);
    } else {
      AlwaysMembers(events, k, bounds.maxUnpersistedWindow);
      NotNewest(events, k, bounds.maxUnpersistedWindow, 1, 3);
    }
  }

  /** With a window of one at most, an operation with a newer free one is not in it. */
  lemma NotNewest(events: seq<Event>, k: nat, w: nat, i: nat, newer: nat)
    requires w <= 1 && i < newer && IsFree(events, k, newer)
    ensures !InWindow(events, k, w, i)
  {
    var later := set j: nat | i < j <= k && IsFree(events, k, j);
    assert newer in later;
    assert |later| >= 1 by { SubsetCardinality({newer}, later); }
  }

  lemma {:induction false} WriteComesFirst(setting: Setting, n: nat, k: nat, model: FilesystemModel, bounds: Bounds,
        st: CrashState)
    requires n >= 1 && st in StatesAt(KvEvents(setting, n), k, model, bounds)
    requires model.totalOrder || bounds.maxUnpersistedWindow <= 1
    ensures WritePrecedesRename(st)
  {
    TornIsAWrite(setting, n, k, model, bounds, st);
    if 3 in st.persisted {
      OrderedWriteComesFirst(setting, n, k, model, bounds, st);
      ListedWellFormed(KvEvents(setting, n), k, model, bounds, st);
      NotTorn(st.partial, 1);
    }
  }

  // ---------------------------------------------------------------- what the first key then holds

  lemma {:induction false} StaysPut(d: Disk, events: seq<Event>, store: Store, sel: Selection, p: string, from: nat,
          n: nat)
    requires from <= n <= |events| && Unshared(Replayed(d, events, store, sel, from).disk, p)
    requires forall i: nat :: from <= i < n ==> SparesName(events[i], p) && !Edits(events[i], p)
    requires Replayed(d, events, store, sel, n).error.None?
    ensures Unshared(Replayed(d, events, store, sel, n).disk, p)
    ensures FileAt(Replayed(d, events, store, sel, n).disk, p) == FileAt(Replayed(d, events, store, sel, from).disk, p)
  {
    hide Unshared, FileAt, Applied, SparesName, Edits;
    if from < n {
      StaysPut(d, events, store, sel, p, from, n - 1);
      if Selects(sel, n - 1) {
        AppliedToFile(Replayed(d, events, store, sel, n - 1).disk, events[n - 1], store, BytesOf(sel, n - 1), p);
      }
    }
  }

  /** A write to a scratch file in the empty directory, renamed. */
  lemma WrittenThenRenamed(w: Event, r: Event, store: Store)
    requires IsWrite(w.call) && w.offset == 0 && w.digest in store
    requires r.call == Rename && r.path == w.path && r.path2 != r.path
    ensures var after := Applied(Applied(EMPTY_DISK, w, store, None).disk, r, store, None).disk;
            && Applied(EMPTY_DISK, w, store, None).error.None?
            && FileAt(after, r.path2) == Some(store[w.digest]) && Unshared(after, r.path2)
  {
    assert Edited([], Put(0, store[w.digest])) == store[w.digest];
    hide Edited;
  }

  lemma {:induction false} FirstFour(events: seq<Event>, store: Store, sel: Selection)
    requires |events| >= 4 && !IsMutating(events[0].call) && !IsMutating(events[2].call)
    requires Selects(sel, 1) && Selects(sel, 3) && BytesOf(sel, 1) == None && events[3].call == Rename
    requires Applied(EMPTY_DISK, events[1], store, None).error.None?
    ensures Replayed(EMPTY_DISK, events, store, sel, 4)
         == Applied(Applied(EMPTY_DISK, events[1], store, None).disk, events[3], store, None)
  {
    var written := Applied(EMPTY_DISK, events[1], store, None);
    IdleCallsDoNothing(EMPTY_DISK, events[0], store, BytesOf(sel, 0));
    IdleCallsDoNothing(written.disk, events[2], store, BytesOf(sel, 2));
    RenameIsNeverTorn(written.disk, events[3], store, BytesOf(sel, 3));
    hide Applied, IsMutating;
    assert Replayed(EMPTY_DISK, events, store, sel, 0) == Step(EMPTY_DISK, None);
    assert Replayed(EMPTY_DISK, events, store, sel, 1) == Step(EMPTY_DISK, None);
    assert Replayed(EMPTY_DISK, events, store, sel, 2) == written;
    assert Replayed(EMPTY_DISK, events, store, sel, 3) == Step(written.disk, None);
  }

  lemma RenameIsNeverTorn(d: Disk, e: Event, store: Store, bytes: Option<nat>)
    requires e.call == Rename
    ensures Applied(d, e, store, bytes) == Applied(d, e, store, None)
  {}

  /** The first key is missing or whole. */
  lemma {:induction false} MissingOrWhole(setting: Setting, n: nat, st: CrashState, store: Store)
    requires n >= 1 && WritePrecedesRename(st)
    requires setting.hash(setting.value(1)) in store && store[setting.hash(setting.value(1))] == setting.value(1)
    requires Replayed(EMPTY_DISK, KvEvents(setting, n), store, SelectionOf(st), 4 * n).error.None?
    ensures FileAt(Replayed(EMPTY_DISK, KvEvents(setting, n), store, SelectionOf(st), 4 * n).disk, KeyOf(1))
            in {None, Some(setting.value(1))}
  {
    if Selects(SelectionOf(st), 3) {
      WholeWhenRenamed(setting, n, st, store);
    } else {
      MissingUnlessRenamed(setting, n, st, store);
    }
  }

  lemma {:induction false} WholeWhenRenamed(setting: Setting, n: nat, st: CrashState, store: Store)
    requires n >= 1 && WritePrecedesRename(st) && Selects(SelectionOf(st), 3)
    requires setting.hash(setting.value(1)) in store && store[setting.hash(setting.value(1))] == setting.value(1)
    requires Replayed(EMPTY_DISK, KvEvents(setting, n), store, SelectionOf(st), 4 * n).error.None?
    ensures FileAt(Replayed(EMPTY_DISK, KvEvents(setting, n), store, SelectionOf(st), 4 * n).disk, KeyOf(1))
         == Some(setting.value(1))
  {
    var events, sel, p := KvEvents(setting, n), SelectionOf(st), KeyOf(1);
    FirstOperation(setting, n);
    FirstKeyIsItsOwn(1);
    WrittenThenRenamed(events[1], events[3], store);
    hide KvEvents, Applied, FileAt, Unshared, KeyOf, ScratchOf, SparesName, Edits, Replayed;
    FirstFour(events, store, sel);
    forall x: nat | 4 <= x < 4 * n ensures SparesName(events[x], p) && !Edits(events[x], p) {
      OthersSpareFirstKey(setting, n, x);
    }
    StaysPut(EMPTY_DISK, events, store, sel, p, 4, 4 * n);
  }

  lemma {:induction false} MissingUnlessRenamed(setting: Setting, n: nat, st: CrashState, store: Store)
    requires !Selects(SelectionOf(st), 3)
    requires Replayed(EMPTY_DISK, KvEvents(setting, n), store, SelectionOf(st), 4 * n).error.None?
    ensures FileAt(Replayed(EMPTY_DISK, KvEvents(setting, n), store, SelectionOf(st), 4 * n).disk, KeyOf(1)) == None
  {
    var events, sel, p := KvEvents(setting, n), SelectionOf(st), KeyOf(1);
    hide KvEvents, KeyOf, SparesName, Edits, Replayed, SelectionOf;
    forall x: nat | x < 4 * n && Selects(sel, x) ensures SparesName(events[x], p) && !Edits(events[x], p) {
      OthersSpareFirstKey(setting, n, x);
    }
    NoEdits(events, store, sel, p, 4 * n);
    FileIsItsEdits(EMPTY_DISK, events, store, sel, p, 4 * n);
  }

  lemma {:induction false} NoEdits(events: seq<Event>, store: Store, sel: Selection, p: string, n: nat)
    requires n <= |events| && forall x: nat :: x < n && Selects(sel, x) ==> !Edits(events[x], p)
    ensures FileEdits(events, store, sel, p, n) == []
  {
    if n > 0 { NoEdits(events, store, sel, p, n - 1); }
  }

  /** The positive control fires exactly when there is a second operation, the filesystem reorders, and the
      window is wide enough to hold a write and its rename: anywhere else the key is missing or whole. */
  lemma {:induction false} CaughtIff(setting: Setting, n: nat, model: FilesystemModel, bounds: Bounds, store: Store)
    requires setting.hash([]) != setting.hash(setting.value(1))
    requires setting.hash(setting.value(1)) in store && store[setting.hash(setting.value(1))] == setting.value(1)
    ensures var trace := Parsed(KvRecords(setting, n));
            (n >= 2 && !model.totalOrder && bounds.maxUnpersistedWindow >= 2
             <==> exists st :: st in Enumerated(trace.events, model, bounds, AllPoints(|trace.events|))
                               && FindsEmptyKey(trace, st, setting, store))
  {
    var trace := Parsed(KvRecords(setting, n));
    if n >= 2 && !model.totalOrder && bounds.maxUnpersistedWindow >= 2 {
      UnsafeStoreIsCaught(setting, n, model, bounds, store);
    } else {
      hide *;
      forall st | st in Enumerated(trace.events, model, bounds, AllPoints(|trace.events|))
        ensures !FindsEmptyKey(trace, st, setting, store)
      {
        if n <= 1 {
          ShortRunFindsNothing(setting, n, model, bounds, store, st);
        } else {
          OrderedRunFindsNothing(setting, n, model, bounds, store, st);
        }
      }
    }
  }

  lemma {:induction false} OrderedRunFindsNothing(setting: Setting, n: nat, model: FilesystemModel, bounds: Bounds,
        store: Store, st: CrashState)
    requires n >= 1 && (model.totalOrder || bounds.maxUnpersistedWindow <= 1)
    requires setting.hash([]) != setting.hash(setting.value(1))
    requires setting.hash(setting.value(1)) in store && store[setting.hash(setting.value(1))] == setting.value(1)
    requires var events := Parsed(KvRecords(setting, n)).events;
             st in Enumerated(events, model, bounds, AllPoints(|events|))
    ensures !FindsEmptyKey(Parsed(KvRecords(setting, n)), st, setting, store)
  {
    var trace := Parsed(KvRecords(setting, n));
    RunParses(setting, n);
    assert |trace.events| == 4 * n;
    hide Parsed, KvRecords, KvEvents, KvMarkers, Violations, Log, Enumerated, StatesAt, Replayed, FileKv, FileAt,
            KeyOf, SelectionOf;
    EnumeratedMember(trace.events, model, bounds, AllPoints(|trace.events|), st);
    var k :| k in AllPoints(|trace.events|) && st in StatesAt(trace.events, k, model, bounds);
    WriteComesFirst(setting, n, k, model, bounds, st);
    if Replayed(EMPTY_DISK, trace.events, store, SelectionOf(st), 4 * n).error.None? {
      MissingOrWhole(setting, n, st, store);
    }
  }
}
