/** Two runs of the protocol, worked out step by step: a durable put, and a write overtaken by the sync of
    its file. */
module Runs {
  import opened Traces
  import opened States
  import opened Reader
  import opened Shim

  // ---------------------------------------------------------------- the theorem has a run to speak of

  /** A thread that runs a traced call by itself leaves one record and has drawn two stamps. */
  lemma {:induction false} CallAlone(s: State, tid: nat, returnValue: int, offset: int)
    requires AllCoherent(s) && tid in s.threads && s.threads[tid].progress.Ready?
    requires Current(s.threads[tid]).Some? && Current(s.threads[tid]).value.Traced?
    ensures var record := Recorded(tid, Current(s.threads[tid]).value,
            Completed(s.counter, s.counter + 1, returnValue, offset));
            After(s, [Submit(tid), Return(tid, returnValue, offset), Complete(tid), Emit(tid)])
            == State(s.counter + 2,
                     s.threads[tid := s.threads[tid].(done := s.threads[tid].done + [Some(record)])],
                     s.file + [record])
  {
    FourSteps(s, Submit(tid), Return(tid, returnValue, offset), Complete(tid), Emit(tid));
    var record := Recorded(tid, Current(s.threads[tid]).value,
            Completed(s.counter, s.counter + 1, returnValue, offset));
    var end := Perform(Perform(Perform(Perform(s, Submit(tid)), Return(tid, returnValue, offset)), Complete(tid)),
            Emit(tid));
    assert end.threads == s.threads[tid := s.threads[tid].(done := s.threads[tid].done + [Some(record)])];
  }

  lemma {:induction false} AnnounceAlone(s: State, tid: nat)
    requires AllCoherent(s) && tid in s.threads && s.threads[tid].progress.Ready?
    requires Current(s.threads[tid]).Some? && Current(s.threads[tid]).value.Announce?
    ensures var record := Recorded(tid, Current(s.threads[tid]).value, Marked(s.counter));
            After(s, [Submit(tid), Emit(tid)])
            == State(s.counter + 1,
                     s.threads[tid := s.threads[tid].(done := s.threads[tid].done + [Some(record)])],
                     s.file + [record])
  {
    TwoSteps(s, Submit(tid), Emit(tid));
    var record := Recorded(tid, Current(s.threads[tid]).value, Marked(s.counter));
    assert Perform(Perform(s, Submit(tid)), Emit(tid)).threads
        == s.threads[tid := s.threads[tid].(done := s.threads[tid].done + [Some(record)])];
  }

  function Alone(counter: nat, program: seq<Instruction>, done: seq<Option<Record>>, file: seq<Record>): State {
    State(counter, map[1 := Thread(program, done, Ready)], file)
  }

  function CallSteps(returnValue: int): seq<Action> { [Submit(1), Return(1, returnValue, 0), Complete(1), Emit(1)] }

  lemma AloneCall(c: nat, program: seq<Instruction>, done: seq<Option<Record>>,
        file: seq<Record>, returnValue: int)
    requires |done| < |program| && program[|done|].Traced?
    ensures var what := program[|done|];
            var e := Event(c, c + 1, what.call, 1, what.path, what.path2, 0, what.length, returnValue, what.digest);
            var record := EventRecord(e);
            After(Alone(c, program, done, file), CallSteps(returnValue))
                == Alone(c + 2, program, done + [Some(record)], file + [record])
  {
    CallAlone(Alone(c, program, done, file), 1, returnValue, 0);
    hide After;
  }

  lemma AloneAnnounce(c: nat, program: seq<Instruction>, done: seq<Option<Record>>,
        file: seq<Record>)
    requires |done| < |program| && program[|done|].Announce?
    ensures var what := program[|done|];
            var record := MarkerRecord(Marker(c, 1, what.op, what.phase, what.kind, what.key, what.digest,
                    what.durable));
            After(Alone(c, program, done, file), [Submit(1), Emit(1)])
                == Alone(c + 1, program, done + [Some(record)], file + [record])
  {
    AnnounceAlone(Alone(c, program, done, file), 1);
    hide After;
  }

  function DurablePut(path: string, digest: string): seq<Instruction> {
    [Traced(Write, path, "", 1, digest), Traced(Fsync, path, "", 0, ""),
     Announce(Some(1), Ack, "put", path, digest, true), Traced(Open, path, "", 0, "")]
  }

  function DurablePutRun(path: string, digest: string): seq<Action> {
    [Spawn(1, DurablePut(path, digest))] + CallSteps(1) + CallSteps(0) + [Submit(1), Emit(1)] + CallSteps(3)
  }

  lemma SpawnAlone(program: seq<Instruction>)
    ensures After(START, [Spawn(1, program)]) == Alone(0, program, [], [])
  {
    assert [Spawn(1, program)][..0] == [];
    AfterNothing();
  }

  function PutWrite(path: string,
        digest: string): Record { EventRecord(Event(0, 1, Write, 1, path, "", 0, 1, 1, digest)) }

  function PutSync(path: string): Record { EventRecord(Event(2, 3, Fsync, 1, path, "", 0, 0, 0, "")) }

  function PutAck(path: string,
        digest: string): Record { MarkerRecord(Marker(4, 1, Some(1), Ack, "put", path, digest, true)) }

  function PutOpen(path: string): Record { EventRecord(Event(5, 6, Open, 1, path, "", 0, 0, 3, "")) }

  /** One more step of a run that is one thread so far. */
  lemma {:induction false} RunOn(before: seq<Action>, steps: seq<Action>, middle: State, end: State)
    requires After(START, before) == middle && AllCoherent(middle) && After(middle, steps) == end
    ensures After(START, before + steps) == end
  {
    AfterTwice(START, before, steps);
  }

  lemma PutWritten(path: string, digest: string)
    ensures var w := PutWrite(path, digest);
            After(START, [Spawn(1, DurablePut(path, digest))] + CallSteps(1))
                == Alone(2, DurablePut(path, digest), [Some(w)], [w])
  {
    var program := DurablePut(path, digest);
    hide After, Perform, CallSteps;
    SpawnAlone(program);
    AloneCall(0, program, [], [], 1);
    RunOn([Spawn(1, program)], CallSteps(1), Alone(0, program, [], []),
          Alone(2, program, [] + [Some(PutWrite(path, digest))], [] + [PutWrite(path, digest)]));
    assert [] + [Some(PutWrite(path, digest))] == [Some(PutWrite(path, digest))]
           && [] + [PutWrite(path, digest)] == [PutWrite(path, digest)];
  }

  lemma PutSynced(path: string, digest: string)
    ensures var w, f := PutWrite(path, digest), PutSync(path);
            After(START, [Spawn(1, DurablePut(path, digest))] + CallSteps(1) + CallSteps(0))
            == Alone(4, DurablePut(path, digest), [Some(w), Some(f)], [w, f])
  {
    var program := DurablePut(path, digest);
    var w, f := PutWrite(path, digest), PutSync(path);
    hide After, Perform, CallSteps;
    PutWritten(path, digest);
    AloneCall(2, program, [Some(w)], [w], 0);
    RunOn([Spawn(1, program)] + CallSteps(1), CallSteps(0), Alone(2, program, [Some(w)], [w]),
          Alone(4, program, [Some(w)] + [Some(f)], [w] + [f]));
    assert [Some(w)] + [Some(f)] == [Some(w), Some(f)] && [w] + [f] == [w, f];
  }

  lemma PutAnnounced(path: string, digest: string)
    ensures var w, f, m := PutWrite(path, digest), PutSync(path), PutAck(path, digest);
            After(START, [Spawn(1, DurablePut(path, digest))] + CallSteps(1) + CallSteps(0) + [Submit(1), Emit(1)])
            == Alone(5, DurablePut(path, digest), [Some(w), Some(f), Some(m)], [w, f, m])
  {
    var program := DurablePut(path, digest);
    var w, f, m := PutWrite(path, digest), PutSync(path), PutAck(path, digest);
    hide After, Perform, CallSteps;
    PutSynced(path, digest);
    AloneAnnounce(4, program, [Some(w), Some(f)], [w, f]);
    RunOn([Spawn(1, program)] + CallSteps(1) + CallSteps(0), [Submit(1), Emit(1)],
          Alone(4, program, [Some(w), Some(f)], [w, f]),
          Alone(5, program, [Some(w), Some(f)] + [Some(m)], [w, f] + [m]));
    assert [Some(w), Some(f)] + [Some(m)] == [Some(w), Some(f), Some(m)] && [w, f] + [m] == [w, f, m];
  }

  /** A put that is written, synced and announced, and one call more to crash at. */
  lemma DurablePutIsARun(path: string, digest: string)
    ensures var s := After(START, DurablePutRun(path, digest));
            && s.file == [PutWrite(path, digest), PutSync(path), PutAck(path, digest), PutOpen(path)]
            && Did(s, 1, 0, PutWrite(path, digest)) && Did(s, 1, 1, PutSync(path)) && Did(s, 1, 2, PutAck(path, digest))
  {
    var program := DurablePut(path, digest);
    var w, f, m, o := PutWrite(path, digest), PutSync(path), PutAck(path, digest), PutOpen(path);
    hide After, Perform, CallSteps;
    PutAnnounced(path, digest);
    AloneCall(5, program, [Some(w), Some(f), Some(m)], [w, f, m], 3);
    RunOn([Spawn(1, program)] + CallSteps(1) + CallSteps(0) + [Submit(1), Emit(1)], CallSteps(3),
          Alone(5, program, [Some(w), Some(f), Some(m)], [w, f, m]),
          Alone(7, program, [Some(w), Some(f), Some(m)] + [Some(o)], [w, f, m] + [o]));
  }

  // ---------------------------------------------------------------- a change still in flight at its sync

  lemma {:induction false} OneStepMore(before: seq<Action>, a: Action, middle: State, end: State)
    requires After(START, before) == middle && AllCoherent(middle) && Perform(middle, a) == end
    ensures After(START, before + [a]) == end
  {
    hide Perform;
    assert (before + [a])[..|before|] == before;
  }

  function Pair(counter: nat, writer: Thread, syncer: Thread, file: seq<Record>): State {
    State(counter, map[1 := writer, 2 := syncer], file)
  }

  /** One thread submits a write; another submits and finishes a sync; the write finishes last. */
  function OverlapRun(path: string): seq<Action> {
    [Spawn(1, [Traced(Write, path, "", 1, "")])] + [Spawn(2, [Traced(Fsync, path, "", 0, "")])]
    + [Submit(1)] + [Submit(2)]
    + [Return(2, 0, 0)] + [Complete(2)] + [Emit(2)]
    + [Return(1, 1, 0)] + [Complete(1)] + [Emit(1)]
  }

  function LateWrite(path: string): Event { Event(0, 3, Write, 1, path, "", 0, 1, 1, "") }

  function EarlySync(path: string): Event { Event(1, 2, Fsync, 2, path, "", 0, 0, 0, "") }

  function Writer(path: string, progress: Progress): Thread { Thread([Traced(Write, path, "", 1, "")], [], progress) }

  function Syncer(path: string, progress: Progress): Thread { Thread([Traced(Fsync, path, "", 0, "")], [], progress) }

  function Synced(path: string): Thread { Syncer(path, Ready).(done := [Some(EventRecord(EarlySync(path)))]) }

  function Written(path: string): Thread { Writer(path, Ready).(done := [Some(EventRecord(LateWrite(path)))]) }

  lemma WriterSubmits(c: nat, path: string, other: Thread, file: seq<Record>)
    requires Coherent(other)
    ensures Perform(Pair(c, Writer(path, Ready), other, file), Submit(1))
       == Pair(c + 1, Writer(path, Submitted(c)), other, file)
  {}

  lemma WriterReturns(c: nat, path: string, other: Thread, file: seq<Record>)
    requires Coherent(other)
    ensures Perform(Pair(c, Writer(path, Submitted(0)), other, file), Return(1, 1, 0))
       == Pair(c, Writer(path, Returned(0, 1, 0)), other, file)
  {}

  lemma WriterCompletes(c: nat, path: string, other: Thread, file: seq<Record>)
    requires Coherent(other)
    ensures Perform(Pair(c, Writer(path, Returned(0, 1, 0)), other, file), Complete(1))
         == Pair(c + 1, Writer(path, Completed(0, c, 1, 0)), other, file)
  {}

  lemma SyncerSubmits(c: nat, path: string, other: Thread, file: seq<Record>)
    requires Coherent(other)
    ensures Perform(Pair(c, other, Syncer(path, Ready), file), Submit(2))
       == Pair(c + 1, other, Syncer(path, Submitted(c)), file)
  {}

  lemma SyncerReturns(c: nat, path: string, other: Thread, file: seq<Record>)
    requires Coherent(other)
    ensures Perform(Pair(c, other, Syncer(path, Submitted(1)), file), Return(2, 0, 0))
       == Pair(c, other, Syncer(path, Returned(1, 0, 0)), file)
  {}

  lemma SyncerCompletes(c: nat, path: string, other: Thread, file: seq<Record>)
    requires Coherent(other)
    ensures Perform(Pair(c, other, Syncer(path, Returned(1, 0, 0)), file), Complete(2))
         == Pair(c + 1, other, Syncer(path, Completed(1, c, 0, 0)), file)
  {}

  lemma WriterEmits(c: nat, path: string, other: Thread, file: seq<Record>)
    requires Coherent(other)
    ensures Perform(Pair(c, Writer(path, Completed(0, 3, 1, 0)), other, file), Emit(1))
         == Pair(c, Written(path), other, file + [EventRecord(LateWrite(path))])
  {
    var r := EventRecord(LateWrite(path));
    assert [] + [Some(r)] == [Some(r)];
    assert Finished(1, Writer(path, Completed(0, 3, 1, 0))) == Written(path);
  }

  lemma SyncerEmits(c: nat, path: string, other: Thread, file: seq<Record>)
    requires Coherent(other)
    ensures Perform(Pair(c, other, Syncer(path, Completed(1, 2, 0, 0)), file), Emit(2))
         == Pair(c, other, Synced(path), file + [EventRecord(EarlySync(path))])
  {
    var r := EventRecord(EarlySync(path));
    assert [] + [Some(r)] == [Some(r)];
    assert Finished(2, Syncer(path, Completed(1, 2, 0, 0))) == Synced(path);
  }

  lemma BothSpawned(path: string)
    ensures After(START, OverlapRun(path)[..2]) == Pair(0, Writer(path, Ready), Syncer(path, Ready), [])
  {
    var a, b := Spawn(1, Writer(path, Ready).program), Spawn(2, Syncer(path, Ready).program);
    SpawnAlone(Writer(path, Ready).program);
    assert Perform(Alone(0, Writer(path, Ready).program, [], []), b)
           == Pair(0, Writer(path, Ready), Syncer(path, Ready), []);
    assert OverlapRun(path)[..2] == [a] + [b];
    hide After, Perform;
    OneStepMore([a], b, Alone(0, Writer(path, Ready).program, [], []),
            Pair(0, Writer(path, Ready), Syncer(path, Ready), []));
  }

  /** The run's n-th step, from one state to the next. */
  lemma RunStep(path: string, n: nat, a: Action, middle: State, end: State)
    requires n < |OverlapRun(path)| && OverlapRun(path)[n] == a
    requires After(START, OverlapRun(path)[..n]) == middle && AllCoherent(middle) && Perform(middle, a) == end
    ensures After(START, OverlapRun(path)[..n + 1]) == end
  {
    hide OverlapRun, After, Perform;
    OneStepMore(OverlapRun(path)[..n], a, middle, end);
    assert OverlapRun(path)[..n] + [a] == OverlapRun(path)[..n + 1];
  }

  lemma OverlapSteps(path: string)
    ensures var run := OverlapRun(path);
            && |run| == 10 && run[2] == Submit(1) && run[3] == Submit(2)
            && run[4] == Return(2, 0, 0) && run[5] == Complete(2) && run[6] == Emit(2)
            && run[7] == Return(1, 1, 0) && run[8] == Complete(1) && run[9] == Emit(1)
  {}

  lemma CoherentPairs(c: nat, path: string, file: seq<Record>, x: nat, p: Progress)
    requires p.Ready? || p.Submitted? || p.Returned? || p.Completed?
    ensures Coherent(Writer(path, p)) && Coherent(Syncer(path, p)) && Coherent(Synced(path))
    ensures AllCoherent(Pair(c, Writer(path, Submitted(x)), Syncer(path, p), file))
    ensures AllCoherent(Pair(c, Writer(path, p), Synced(path), file))
    ensures AllCoherent(Pair(c, Writer(path, Ready), Syncer(path, Ready), file))
  {}

  lemma WriteSubmitted(path: string)
    ensures After(START, OverlapRun(path)[..3]) == Pair(1, Writer(path, Submitted(0)), Syncer(path, Ready), [])
  {
    hide After, Perform, AllCoherent, Coherent, Pair, Writer, Syncer, OverlapRun;
    OverlapSteps(path);
    BothSpawned(path);
    CoherentPairs(0, path, [], 0, Ready);
    WriterSubmits(0, path, Syncer(path, Ready), []);
    RunStep(path, 2, Submit(1), Pair(0, Writer(path, Ready), Syncer(path, Ready), []),
            Pair(1, Writer(path, Submitted(0)), Syncer(path, Ready), []));
  }

  lemma SyncSubmitted(path: string)
    ensures After(START, OverlapRun(path)[..4]) == Pair(2, Writer(path, Submitted(0)), Syncer(path, Submitted(1)), [])
  {
    hide After, Perform, AllCoherent, Coherent, Pair, Writer, Syncer, OverlapRun;
    OverlapSteps(path);
    WriteSubmitted(path);
    CoherentPairs(1, path, [], 0, Ready);
    CoherentPairs(1, path, [], 0, Submitted(0));
    SyncerSubmits(1, path, Writer(path, Submitted(0)), []);
    RunStep(path, 3, Submit(2), Pair(1, Writer(path, Submitted(0)), Syncer(path, Ready), []),
            Pair(2, Writer(path, Submitted(0)), Syncer(path, Submitted(1)), []));
  }

  lemma SyncCompleted(path: string)
    ensures After(START, OverlapRun(path)[..6])
       == Pair(3, Writer(path, Submitted(0)), Syncer(path, Completed(1, 2, 0, 0)), [])
  {
    var writer := Writer(path, Submitted(0));
    hide After, Perform, AllCoherent, Coherent, Pair, Writer, Syncer, OverlapRun;
    OverlapSteps(path);
    SyncSubmitted(path);
    CoherentPairs(2, path, [], 0, Submitted(0));
    CoherentPairs(2, path, [], 0, Submitted(1));
    CoherentPairs(2, path, [], 0, Returned(1, 0, 0));
    SyncerReturns(2, path, writer, []);
    RunStep(path, 4, Return(2, 0, 0), Pair(2, writer, Syncer(path, Submitted(1)), []),
            Pair(2, writer, Syncer(path, Returned(1, 0, 0)), []));
    SyncerCompletes(2, path, writer, []);
    RunStep(path, 5, Complete(2), Pair(2, writer, Syncer(path, Returned(1, 0, 0)), []),
            Pair(3, writer, Syncer(path, Completed(1, 2, 0, 0)), []));
  }

  lemma SyncFinishes(path: string)
    ensures After(START, OverlapRun(path)[..7])
         == Pair(3, Writer(path, Submitted(0)), Synced(path), [EventRecord(EarlySync(path))])
  {
    var writer, f := Writer(path, Submitted(0)), EventRecord(EarlySync(path));
    hide After, Perform, AllCoherent, Coherent, Pair, Writer, Syncer, Synced, OverlapRun;
    OverlapSteps(path);
    SyncCompleted(path);
    CoherentPairs(3, path, [], 0, Submitted(0));
    CoherentPairs(3, path, [], 0, Completed(1, 2, 0, 0));
    SyncerEmits(3, path, writer, []);
    assert [] + [f] == [f];
    RunStep(path, 6, Emit(2), Pair(3, writer, Syncer(path, Completed(1, 2, 0, 0)), []),
            Pair(3, writer, Synced(path), [f]));
  }

  lemma WriteCompleted(path: string)
    ensures After(START, OverlapRun(path)[..9])
         == Pair(4, Writer(path, Completed(0, 3, 1, 0)), Synced(path), [EventRecord(EarlySync(path))])
  {
    var synced, f := Synced(path), EventRecord(EarlySync(path));
    hide After, Perform, AllCoherent, Coherent, Pair, Writer, Syncer, Synced, OverlapRun;
    OverlapSteps(path);
    SyncFinishes(path);
    CoherentPairs(3, path, [f], 0, Submitted(0));
    CoherentPairs(3, path, [f], 0, Returned(0, 1, 0));
    WriterReturns(3, path, synced, [f]);
    RunStep(path, 7, Return(1, 1, 0), Pair(3, Writer(path, Submitted(0)), synced, [f]),
            Pair(3, Writer(path, Returned(0, 1, 0)), synced, [f]));
    WriterCompletes(3, path, synced, [f]);
    RunStep(path, 8, Complete(1), Pair(3, Writer(path, Returned(0, 1, 0)), synced, [f]),
            Pair(4, Writer(path, Completed(0, 3, 1, 0)), synced, [f]));
  }

  lemma WriteFinishesLast(path: string)
    ensures var w, f := EventRecord(LateWrite(path)), EventRecord(EarlySync(path));
            var s := After(START, OverlapRun(path));
            s.file == [f, w] && Did(s, 1, 0, w) && Did(s, 2, 0, f)
  {
    var w, f := EventRecord(LateWrite(path)), EventRecord(EarlySync(path));
    PairDid(path, 4, [f, w]);
    hide After, Perform, AllCoherent, Coherent, Pair, Writer, Syncer, Synced, Written, OverlapRun;
    OverlapSteps(path);
    WriteCompleted(path);
    CoherentPairs(4, path, [f], 0, Completed(0, 3, 1, 0));
    WriterEmits(4, path, Synced(path), [f]);
    assert [f] + [w] == [f, w];
    RunStep(path, 9, Emit(1), Pair(4, Writer(path, Completed(0, 3, 1, 0)), Synced(path), [f]),
            Pair(4, Written(path), Synced(path), [f, w]));
    assert OverlapRun(path)[..10] == OverlapRun(path);
  }

  lemma PairDid(path: string, c: nat, file: seq<Record>)
    ensures var s := Pair(c, Written(path), Synced(path), file);
            s.file == file && Did(s, 1, 0, EventRecord(LateWrite(path))) && Did(s, 2, 0, EventRecord(EarlySync(path)))
  {}

  /** A sync pins by submission stamps alone: this write was still in flight when the sync of its file was
      submitted, and even when that returned, and yet every state from the sync on holds it whole. */
  lemma InFlightWriteIsPinned(path: string, model: FilesystemModel, bounds: Bounds, k: nat, st: CrashState)
    requires var events := Parsed(After(START, OverlapRun(path)).file).events;
             k < |events| && events[k].index >= 1 && st in StatesAt(events, k, model, bounds)
    ensures var s := After(START, OverlapRun(path));
            && Did(s, 1, 0, EventRecord(LateWrite(path))) && Did(s, 2, 0, EventRecord(EarlySync(path)))
            && EarlySync(path).index < EarlySync(path).completionIndex < LateWrite(path).completionIndex
            && HoldsWhole(Parsed(s.file), st, LateWrite(path))
  {
    var s := After(START, OverlapRun(path));
    WriteFinishesLast(path);
    EveryRunKeepsInv(OverlapRun(path));
    hide After, OverlapRun, StatesAt, Parsed, HoldsWhole, Inv;
    SyncedIsWhole(s, LateWrite(path), EarlySync(path), k, model, bounds, st);
  }
}
