/** The negative control: a store that syncs what it announces is never accused. */
module Controls {
  import opened Sorting
  import opened Bits
  import opened Traces
  import opened States
  import opened CrashSpace
  import opened Inclusion
  import opened AckLog
  import opened Oracle
  import opened CrashPoints
  import opened Sampling
  import opened Campaign
  import opened Reader
  import opened Replay
  import opened Recover
  import Runs
  import Shim

  // ---------------------------------------------------------------- the negative control

  /** Nothing but event `j` changes `key` or moves a name onto it. */
  ghost predicate OnlyWriter(events: seq<Event>, key: string, j: nat) {
    forall i: nat :: i < |events| && i != j && IsMutating(events[i].call) ==>
      events[i].path != key && (events[i].call == Rename || events[i].call == Link ==> events[i].path2 != key)
  }

  /** The promise rests on one whole write of the promised value and a sync of its file that returned
      before the acknowledgement. */
  ghost predicate RestsOn(events: seq<Event>, store: Store, hash: Hash, r: AckedOperation, j: nat, s: nat) {
    && j < s < |events|
    && IsWrite(events[j].call) && events[j].path == r.key && events[j].offset == 0
    && events[j].digest in store && hash(store[events[j].digest]) == r.digest
    && Persisted(events[s]) && events[s].path == r.key
    && r.acknowledgedAt.Some? && events[s].index < r.acknowledgedAt.value
    && OnlyWriter(events, r.key, j)
  }

  ghost predicate Backed(events: seq<Event>, store: Store, hash: Hash, r: AckedOperation) {
    IsValueFile(r.key) && exists j: nat, s: nat :: RestsOn(events, store, hash, r, j, s)
  }

  lemma {:induction false} SingleEdit(events: seq<Event>, store: Store, sel: Selection, p: string, j: nat, n: nat)
    requires n <= |events| && j < |events| && OnlyWriter(events, p, j)
    requires Edits(events[j], p) && Selects(sel, j)
    ensures FileEdits(events, store, sel, p, n) == if n <= j then [] else [EditOf(events[j], store, BytesOf(sel, j))]
  {
    hide EditOf, OnlyWriter, Edits;
    if n > 0 {
      SingleEdit(events, store, sel, p, j, n - 1);
      if n - 1 != j {
        OthersDoNotEdit(events, p, j, n - 1);
      }
    }
  }

  lemma OthersDoNotEdit(events: seq<Event>, p: string, j: nat, i: nat)
    requires OnlyWriter(events, p, j) && i < |events| && i != j
    ensures !Edits(events[i], p)
  {}

  lemma OneWriteFromNothing(payload: seq<Byte>)
    ensures EditedAll([], [Put(0, payload)]) == payload
  {
    assert [Put(0, payload)][..0] == [];
    assert EditedAll([], []) == [];
    assert Edited([], Put(0, payload)) == payload;
  }

  lemma EarlierStamp(events: seq<Event>, a: nat, b: nat)
    requires InStampOrder(events) && a < |events| && b < |events| && events[a].index < events[b].index
    ensures a < b
  {}

  /** In any state at all, a promise so backed reads back. */
  lemma {:induction false} BackedIsKept(events: seq<Event>, k: nat, model: FilesystemModel, bounds: Bounds,
        st: CrashState,
                                       store: Store, hash: Hash, r: AckedOperation)
    requires InStampOrder(events) && k < |events| && st in StatesAt(events, k, model, bounds)
    requires Backed(events, store, hash, r) && IsPromised(r, events[k].index)
    requires Replayed(EMPTY_DISK, events, store, SelectionOf(st), |events|).error.None?
    ensures Kept(FileKv(Replayed(EMPTY_DISK, events, store, SelectionOf(st), |events|).disk, hash).values, r)
  {
    hide StatesAt, Replayed, FileEdits, EditedAll, FileKv, TornBytes;
    var j: nat, s: nat :| RestsOn(events, store, hash, r, j, s);
    EarlierStamp(events, s, k);
    assert Pins(events, s, j);
    PinnedIsWhole(events, k, model, bounds, st, j);
    NotTorn(st.partial, j);
    var sel := SelectionOf(st);
    assert Selects(sel, j) && BytesOf(sel, j) == None;
    SingleEdit(events, store, sel, r.key, j, |events|);
    forall i: nat | i < |events| && Selects(sel, i) ensures SparesName(events[i], r.key) {
      assert i != j && IsMutating(events[i].call) ==> events[i].path != r.key;
    }
    FileIsItsEdits(EMPTY_DISK, events, store, sel, r.key, |events|);
    OneWriteFromNothing(store[events[j].digest]);
    RecoversItsFiles(Replayed(EMPTY_DISK, events, store, sel, |events|).disk, hash, r.key);
  }

  /** A store whose every durable acknowledgement is backed is never accused: no state of any crash point,
      under any model and bound, draws a violation. */
  lemma {:induction false} BackedStoreIsNeverAccused(trace: Trace, k: nat, model: FilesystemModel, bounds: Bounds,
        st: CrashState,
                                                    store: Store, hash: Hash)
    requires InStampOrder(trace.events) && k < |trace.events| && st in StatesAt(trace.events, k, model, bounds)
    requires forall r :: r in Log(trace.markers) && IsPromised(r, trace.events[k].index) ==>
               Backed(trace.events, store, hash, r)
    requires Replayed(EMPTY_DISK, trace.events, store, SelectionOf(st), |trace.events|).error.None?
    ensures Violations(Log(trace.markers), trace.events[k].index,
              FileKv(Replayed(EMPTY_DISK, trace.events, store, SelectionOf(st), |trace.events|).disk, hash)) == []
  {
    hide StatesAt, Replayed, Violations, Log, Backed;
    var recovery := FileKv(Replayed(EMPTY_DISK, trace.events, store, SelectionOf(st), |trace.events|).disk, hash);
    forall r | r in Log(trace.markers) && IsPromised(r, trace.events[k].index) ensures Kept(recovery.values, r) {
      BackedIsKept(trace.events, k, model, bounds, st, store, hash, r);
    }
    SilentIffContractHolds(Log(trace.markers), trace.events[k].index, recovery);
  }

  /** Nor does a campaign accuse it, whatever is selected, bounded and sampled: if every durable promise of the
      trace is backed and recovery reads back the directory each tested state replays to, the run is clean. */
  lemma BackedStoreRunsClean(trace: Trace, options: Options, recover: Recovery, store: Store, hash: Hash)
    requires InStampOrder(trace.events)
    requires forall r :: r in Log(trace.markers) && r.durable && r.acknowledgedAt.Some? ==>
               Backed(trace.events, store, hash, r)
    requires forall i :: 0 <= i < |TestedStates(trace.events, options)| ==>
               RecoversReplay(trace.events, store, hash, TestedStates(trace.events, options)[i],
                              recover(i, TestedStates(trace.events, options)[i]))
    ensures var states := TestedStates(trace.events, options);
            Tally(Reports(trace.events, Log(trace.markers), states, recover, |states|)) == []
  {
    var states := TestedStates(trace.events, options);
    hide *;
    forall i | 0 <= i < |states|
      ensures ContractHolds(Log(trace.markers), CrashStamp(trace.events, states[i]), recover(i, states[i]))
    {
      assert states[i] in states;
      TestedIsListed(trace.events, options, states[i]);
      BackedStoreKeepsContract(trace, options.model, options.bounds, states[i], store, hash, recover(i, states[i]));
    }
    CleanIffContractHolds(trace.events, Log(trace.markers), states, recover);
  }

  /** The state replays to a directory, and this is what the file-per-key store recovers from it. */
  ghost predicate RecoversReplay(events: seq<Event>, store: Store, hash: Hash, st: CrashState,
        recovery: RecoveryResult)
  {
    var step := Replayed(EMPTY_DISK, events, store, SelectionOf(st), |events|);
    step.error.None? && recovery == FileKv(step.disk, hash)
  }

  lemma TestedIsListed(events: seq<Event>, options: Options, st: CrashState)
    requires st in TestedStates(events, options)
    ensures st.crashPoint < |events| && st in StatesAt(events, st.crashPoint, options.model, options.bounds)
  {
    var points := SelectedPoints(events, options.selection);
    hide Enumerated, StatesAt, Sampled, SelectedPoints, Selected;
    SampleIsSubset(Enumerated(events, options.model, options.bounds, points), options.maxStatesPerCrashPoint,
            options.selection.seed, st);
    SelectedInTrace(events, options.selection);
    EnumeratedMember(events, options.model, options.bounds, points, st);
    var k :| k in points && st in StatesAt(events, k, options.model, options.bounds);
    ListedWellFormed(events, k, options.model, options.bounds, st);
  }

  lemma BackedStoreKeepsContract(trace: Trace, model: FilesystemModel, bounds: Bounds, st: CrashState,
        store: Store, hash: Hash, recovery: RecoveryResult)
    requires InStampOrder(trace.events)
    requires forall r :: r in Log(trace.markers) && r.durable && r.acknowledgedAt.Some? ==>
               Backed(trace.events, store, hash, r)
    requires st.crashPoint < |trace.events| && st in StatesAt(trace.events, st.crashPoint, model, bounds)
    requires RecoversReplay(trace.events, store, hash, st, recovery)
    ensures ContractHolds(Log(trace.markers), CrashStamp(trace.events, st), recovery)
  {
    hide StatesAt, Replayed, Log, Backed, FileKv, Violations, ContractHolds, SelectionOf;
    BackedStoreIsNeverAccused(trace, st.crashPoint, model, bounds, st, store, hash);
    SilentIffContractHolds(Log(trace.markers), CrashStamp(trace.events, st), recovery);
  }

  // ---------------------------------------------------------------- from programs to silence

  /** One thread wrote the promised value whole, synced its file, and then drew the acknowledging stamp. */
  ghost predicate DoneInOrder(s: Shim.State, r: AckedOperation, tid: nat, a: nat, b: nat, c: nat, w: Event,
        f: Event, m: Marker) {
    && a < b < c
    && Shim.Did(s, tid, a, EventRecord(w)) && Shim.Did(s, tid, b, EventRecord(f))
        && Shim.Did(s, tid, c, MarkerRecord(m))
    && IsWrite(w.call) && w.path == r.key && w.offset == 0
    && Persisted(f) && f.path == r.key
    && r.acknowledgedAt == Some(m.index)
  }

  /** No other recorded event changes `key` or moves a name onto it. */
  ghost predicate SoleWrite(file: seq<Record>, key: string, w: Event) {
    forall e :: EventRecord(e) in file && e != w && IsMutating(e.call) ==>
      e.path != key && (e.call == Rename || e.call == Link ==> e.path2 != key)
  }

  ghost predicate DisciplinedFor(s: Shim.State, store: Store, hash: Hash, r: AckedOperation) {
    IsValueFile(r.key) && exists tid: nat, a: nat, b: nat, c: nat, w: Event, f: Event, m: Marker ::
      DoneInOrder(s, r, tid, a, b, c, w, f, m) && w.digest in store && hash(store[w.digest]) == r.digest
          && SoleWrite(s.file, r.key, w)
  }

  lemma ProgramOrderStamps(s: Shim.State, r: AckedOperation, tid: nat, a: nat, b: nat, c: nat,
        w: Event, f: Event, m: Marker)
    requires Shim.Inv(s) && DoneInOrder(s, r, tid, a, b, c, w, f, m)
    ensures w.index < f.index < m.index
    ensures EventRecord(w) in s.file && EventRecord(f) in s.file
  {
    assert Shim.InProgramOrder(s.threads[tid], s.counter);
  }

  lemma SoleWriteIsOnlyWriter(file: seq<Record>, key: string, w: Event, j: nat)
    requires UniqueStamps(file) && SoleWrite(file, key, w)
    requires j < |Parsed(file).events| && Parsed(file).events[j] == w
    ensures OnlyWriter(Parsed(file).events, key, j)
  {
    ParsedIsOrdered(file);
    var events := Parsed(file).events;
    hide Parsed;
    forall i: nat | i < |events| && i != j && IsMutating(events[i].call)
      ensures events[i].path != key && (events[i].call == Rename || events[i].call == Link ==> events[i].path2 != key)
    {
      assert events[i] in events;
      assert i < j || j < i;
    }
  }

  lemma DisciplineBacks(s: Shim.State, store: Store, hash: Hash, r: AckedOperation)
    requires Shim.Inv(s) && DisciplinedFor(s, store, hash, r)
    ensures Backed(Parsed(s.file).events, store, hash, r)
  {
    hide Shim.AllCoherent, Shim.AllFit, Shim.AllInProgramOrder, Shim.FileIsWhatWasDone, Shim.Did, SoleWrite, RestsOn,
            UniqueStamps, Parsed;
    var tid: nat, a: nat, b: nat, c: nat, w: Event, f: Event, m: Marker :|
      DoneInOrder(s, r, tid, a, b, c, w, f, m) && w.digest in store && hash(store[w.digest]) == r.digest
          && SoleWrite(s.file, r.key, w);
    ProgramOrderStamps(s, r, tid, a, b, c, w, f, m);
    PromiseRests(s.file, store, hash, r, w, f);
  }

  lemma PromiseRests(file: seq<Record>, store: Store, hash: Hash, r: AckedOperation, w: Event,
        f: Event)
    requires UniqueStamps(file) && SoleWrite(file, r.key, w)
    requires EventRecord(w) in file && EventRecord(f) in file && w.index < f.index
    requires IsWrite(w.call) && w.path == r.key && w.offset == 0 && w.digest in store
               && hash(store[w.digest]) == r.digest
    requires Persisted(f) && f.path == r.key && r.acknowledgedAt.Some? && f.index < r.acknowledgedAt.value
    ensures exists j: nat, x: nat :: RestsOn(Parsed(file).events, store, hash, r, j, x)
  {
    var events := Parsed(file).events;
    ParsedIsOrdered(file);
    hide Parsed, SoleWrite, OnlyWriter, UniqueStamps, StrictlySortedBy;
    assert w in events && f in events;
    var j: nat :| j < |events| && events[j] == w;
    var x: nat :| x < |events| && events[x] == f;
    SoleWriteIsOnlyWriter(file, r.key, w, j);
    EarlierStamp(events, j, x);
    hide InStampOrder;
    assert RestsOn(events, store, hash, r, j, x);
  }

  /** End to end: whatever the interleaving, if every promise in the log was made by a thread that wrote,
      synced and then announced, no crash point, state, model or bound yields a violation. */
  lemma {:induction false} DisciplinedRunIsNeverAccused(actions: seq<Shim.Action>, k: nat, model: FilesystemModel,
        bounds: Bounds, st: CrashState, store: Store, hash: Hash)
    requires var trace := Parsed(Shim.After(Shim.START, actions).file);
             && k < |trace.events| && st in StatesAt(trace.events, k, model, bounds)
             && (forall r :: r in Log(trace.markers) && IsPromised(r, trace.events[k].index)
                   ==> DisciplinedFor(Shim.After(Shim.START, actions), store, hash, r))
             && Replayed(EMPTY_DISK, trace.events, store, SelectionOf(st), |trace.events|).error.None?
    ensures var trace := Parsed(Shim.After(Shim.START, actions).file);
            Violations(Log(trace.markers), trace.events[k].index,
              FileKv(Replayed(EMPTY_DISK, trace.events, store, SelectionOf(st), |trace.events|).disk, hash)) == []
  {
    var s := Shim.After(Shim.START, actions);
    var trace := Parsed(s.file);
    Shim.EveryRunKeepsInv(actions);
    ParsedIsOrdered(s.file);
    hide *;
    forall r | r in Log(trace.markers) && IsPromised(r, trace.events[k].index)
      ensures Backed(trace.events, store, hash, r)
    {
      DisciplineBacks(s, store, hash, r);
    }
    BackedStoreIsNeverAccused(trace, k, model, bounds, st, store, hash);
  }

  /** Such runs exist: one thread, one durable put, and a crash after it. */
  lemma DisciplineIsMet(path: string, store: Store, hash: Hash, digest: string,
        model: FilesystemModel, bounds: Bounds)
    requires IsValueFile(path) && digest in store && hash(store[digest]) == digest
    requires !model.totalOrder && bounds.maxUnpersistedWindow >= 1
    ensures var s := Shim.After(Shim.START, Runs.DurablePutRun(path, digest));
            && |Parsed(s.file).events| == 3
            && AllPromisesDisciplined(s, 2, store, hash)
            && exists st :: st in StatesAt(Parsed(s.file).events, 2, model, bounds)
  {
    var s := Shim.After(Shim.START, Runs.DurablePutRun(path, digest));
    Runs.DurablePutIsARun(path, digest);
    hide *;
    PutTrace(s.file, path, digest);
    PutPromises(s, store, hash, path, digest);
    SomeStateAtSync(Parsed(s.file).events, model, bounds);
  }

  /** Something is promised at the crash point, and all that is, a disciplined thread promised. */
  ghost predicate AllPromisesDisciplined(s: Shim.State, k: nat, store: Store, hash: Hash)
    requires k < |Parsed(s.file).events|
  {
    var trace := Parsed(s.file);
    && (exists r :: r in Log(trace.markers) && IsPromised(r, trace.events[k].index))
    && forall r :: r in Log(trace.markers) && IsPromised(r, trace.events[k].index) ==> DisciplinedFor(s, store, hash, r)
  }

  lemma PutPromises(s: Shim.State, store: Store, hash: Hash, path: string, digest: string)
    requires s.file == [Runs.PutWrite(path, digest), Runs.PutSync(path), Runs.PutAck(path, digest), Runs.PutOpen(path)]
    requires Shim.Did(s, 1, 0, Runs.PutWrite(path, digest)) && Shim.Did(s, 1, 1, Runs.PutSync(path))
    requires Shim.Did(s, 1, 2, Runs.PutAck(path, digest))
    requires IsValueFile(path) && digest in store && hash(store[digest]) == digest
    requires |Parsed(s.file).events| == 3
    ensures AllPromisesDisciplined(s, 2, store, hash)
  {
    PutTrace(s.file, path, digest);
    hide DisciplinedFor, Parsed, Log, IsPromised, Shim.Did, IsValueFile;
    PutIsDisciplined(s, store, hash, path, digest);
    PutIsPromisedOnce(s.file, path, digest);
  }

  lemma PutIsPromisedOnce(file: seq<Record>, path: string, digest: string)
    requires Parsed(file).markers == [Runs.PutAck(path, digest).marker]
    ensures forall x :: (
              x in Log(Parsed(file).markers) <==> x == AckedOperation(1, "put", path, digest, 4, Some(4), true))
    ensures IsPromised(AckedOperation(1, "put", path, digest, 4, Some(4), true), 5)
  {
    hide Parsed, Log;
    PutIsPromised(Runs.PutAck(path, digest).marker, AckedOperation(1, "put", path, digest, 4, Some(4), true));
  }

  lemma PutTrace(file: seq<Record>, path: string, digest: string)
    requires file == [Runs.PutWrite(path, digest), Runs.PutSync(path), Runs.PutAck(path, digest), Runs.PutOpen(path)]
    ensures Parsed(file) == Trace([Runs.PutWrite(path, digest).event, Runs.PutSync(path).event,
            Runs.PutOpen(path).event],
                                  [Runs.PutAck(path, digest).marker])
    ensures |Parsed(file).events| == 3 && Parsed(file).events[2].index == 5
    ensures var events := Parsed(file).events;
            IsMutating(events[0].call) && Persisted(events[1]) && events[1].path == events[0].path
                && !IsMutating(events[2].call)
    ensures Runs.PutAck(path, digest).MarkerRecord?
  {
    hide Parsed;
    PutParses(Runs.PutWrite(path, digest).event, Runs.PutSync(path).event, Runs.PutAck(path, digest).marker,
            Runs.PutOpen(path).event);
  }

  lemma PutIsDisciplined(s: Shim.State, store: Store, hash: Hash, path: string, digest: string)
    requires s.file == [Runs.PutWrite(path, digest), Runs.PutSync(path), Runs.PutAck(path, digest), Runs.PutOpen(path)]
    requires Shim.Did(s, 1, 0, Runs.PutWrite(path, digest)) && Shim.Did(s, 1, 1, Runs.PutSync(path))
    requires Shim.Did(s, 1, 2, Runs.PutAck(path, digest))
    requires IsValueFile(path) && digest in store && hash(store[digest]) == digest
    ensures DisciplinedFor(s, store, hash, AckedOperation(1, "put", path, digest, 4, Some(4), true))
  {
    hide Shim.Did, IsValueFile;
    var r := AckedOperation(1, "put", path, digest, 4, Some(4), true);
    var w, f, m := Runs.PutWrite(path, digest).event, Runs.PutSync(path).event, Runs.PutAck(path, digest).marker;
    assert SoleWrite(s.file, path, w);
    assert DoneInOrder(s, r, 1, 0, 1, 2, w, f, m);
  }

  lemma PutParses(w: Event, f: Event, m: Marker, o: Event)
    requires w.index < f.index < o.index
    ensures Parsed([EventRecord(w), EventRecord(f), MarkerRecord(m), EventRecord(o)]) == Trace([w, f, o], [m])
  {
    var a, b, c, d := EventRecord(w), EventRecord(f), MarkerRecord(m), EventRecord(o);
    OneRecord(a);
    OneMore([a], b);
    OneMore([a, b], c);
    OneMore([a, b, c], d);
    hide EventsOf, MarkersOf, SortBy;
    assert [a] + [b] == [a, b] && [a, b] + [c] == [a, b, c] && [a, b, c] + [d] == [a, b, c, d];
    assert EventsOf([a, b, c, d]) == [w, f, o];
    assert MarkersOf([a, b, c, d]) == [m];
    SortedIsFixed([w, f, o], EventKey);
    SortedIsFixed([m], MarkerKey);
  }

  lemma PutIsPromised(m: Marker, r: AckedOperation)
    requires m.op == Some(1) && m.phase == Ack && m.durable
    requires r == AckedOperation(1, m.kind, m.key, m.digest, m.index, Some(m.index), true)
    ensures forall x :: x in Log([m]) <==> x == r
  {
    assert [m][..0] == [];
    assert forall op :: RecordOf([], op) == None;
    assert forall op :: RecordOf([m], op) == if op == 1 then Some(r) else None;
    RecordIsListed([m], 1);
    forall x | x in Log([m]) ensures x == r {
      var op := ListedIsRecord([m], x);
    }
  }

  lemma SomeStateAtSync(events: seq<Event>, model: FilesystemModel, bounds: Bounds)
    requires |events| == 3 && !model.totalOrder && bounds.maxUnpersistedWindow >= 1
    requires IsMutating(events[0].call) && Persisted(events[1]) && events[1].path == events[0].path
               && !IsMutating(events[2].call)
    ensures exists st :: st in StatesAt(events, 2, model, bounds)
  {
    var w := bounds.maxUnpersistedWindow;
    assert Pins(events, 1, 0);
    forall i: nat ensures !IsFree(events, 2, i) {
      assert i == 0 ==> IsPinned(events, 2, 0);
    }
    hide IsFree;
    AscendingIsUnique(Free(events, 2), []);
    hide StatesAt;
    ExtremesListed(events, 2, model, bounds);
    var states := StatesAt(events, 2, model, bounds);
    assert states[0] in states;
  }
}
