/** The interposed calls as a protocol: threads draw stamps from one shared counter and append a record
    when a call has completed. One action is one step of one thread, so a sequence of actions is an
    interleaving. */
module Shim {
  import opened Sorting
  import opened Traces
  import opened States
  import opened Reader
  import opened CrashSpace

  /** What a thread asks for: a traced call, a marker line, or opening or closing the marker file, which
      draws a stamp and records nothing. */
  datatype Instruction =
    | Traced(call: Call, path: string, path2: string, length: nat, digest: string)
    | Announce(op: Option<int>, phase: Phase, kind: string, key: string, digest: string, durable: bool)
    | MarkerHandle

  /** How far the thread's current instruction has come. */
  datatype Progress =
    | Ready
    | Submitted(index: nat)
    | Returned(index: nat, returnValue: int, offset: int)
    | Completed(index: nat, completion: nat, returnValue: int, offset: int)
    | Marked(index: nat)

  /** A thread, the instructions it will execute, and what each finished one recorded. */
  datatype Thread = Thread(program: seq<Instruction>, done: seq<Option<Record>>, progress: Progress)

  datatype State = State(counter: nat, threads: map<nat, Thread>, file: seq<Record>)

  datatype Action =
    | Spawn(tid: nat, program: seq<Instruction>)
    | Submit(tid: nat)
    | Return(tid: nat, returnValue: int, offset: int)
    | Complete(tid: nat)
    | Emit(tid: nat)

  const START: State := State(0, map[], [])

  function Current(th: Thread): Option<Instruction> {
    if |th.done| < |th.program| then Some(th.program[|th.done|]) else None
  }

  predicate Enabled(s: State, a: Action) {
    if a.Spawn? then a.tid !in s.threads else
      && a.tid in s.threads
      && var th := s.threads[a.tid];
         && Current(th).Some?
         && match a
            case Submit(_) => th.progress.Ready?
            case Return(_, _, _) => th.progress.Submitted?
            case Complete(_) => th.progress.Returned?
            case Emit(_) => th.progress.Completed? || th.progress.Marked?
            case _ => false
  }

  /** The record of a finished instruction. */
  function Recorded(tid: nat, what: Instruction, progress: Progress): Record
    requires (what.Traced? && progress.Completed?) || (what.Announce? && progress.Marked?)
  {
    if what.Traced? then
      EventRecord(Event(progress.index, progress.completion, what.call, tid, what.path, what.path2,
                        progress.offset, what.length, progress.returnValue, what.digest))
    else
      MarkerRecord(Marker(progress.index, tid, what.op, what.phase, what.kind, what.key, what.digest, what.durable))
  }

  /** `next_stamp()` on entry to a wrapper. */
  function Stamped(th: Thread, stamp: nat): Thread
    requires Current(th).Some?
  {
    match Current(th).value
    case Traced(_, _, _, _, _) => th.(progress := Submitted(stamp))
    case Announce(_, _, _, _, _, _) => th.(progress := Marked(stamp))
    case MarkerHandle => th.(done := th.done + [None])
  }

  predicate Coherent(th: Thread) {
    && |th.done| <= |th.program|
    && match th.progress
       case Ready => true
       case Marked(_) => Current(th).Some? && Current(th).value.Announce?
       case _ => Current(th).Some? && Current(th).value.Traced?
  }

  function Finished(tid: nat, th: Thread): Thread
    requires Coherent(th) && (th.progress.Completed? || th.progress.Marked?)
  {
    th.(done := th.done + [Some(Recorded(tid, Current(th).value, th.progress))], progress := Ready)
  }

  ghost predicate AllCoherent(s: State) {
    forall tid :: tid in s.threads ==> Coherent(s.threads[tid])
  }

  /** One step. An action that is not enabled does nothing. */
  function Perform(s: State, a: Action): (r: State)
    requires AllCoherent(s)
    ensures AllCoherent(r)
  {
    if !Enabled(s, a) then s else
      match a
      case Spawn(tid, program) => s.(threads := s.threads[tid := Thread(program, [], Ready)])
      case Submit(tid) =>
        State(s.counter + 1, s.threads[tid := Stamped(s.threads[tid], s.counter)], s.file)
      case Return(tid, returnValue, offset) =>
        var returned := Returned(s.threads[tid].progress.index, returnValue, offset);
        s.(threads := s.threads[tid := s.threads[tid].(progress := returned)])
      case Complete(tid) =>
        var p := s.threads[tid].progress;
        State(s.counter + 1,
              s.threads[tid := s.threads[tid].(progress := Completed(p.index, s.counter, p.returnValue, p.offset))],
              s.file)
      case Emit(tid) =>
        var th := s.threads[tid];
        s.(threads := s.threads[tid := Finished(tid, th)],
           file := s.file + [Recorded(tid, Current(th).value, th.progress)])
  }

  /** The state after a sequence of actions. */
  function After(s: State, actions: seq<Action>): (r: State)
    requires AllCoherent(s)
    ensures AllCoherent(r)
  {
    if actions == [] then s else
      Perform(After(s, actions[..|actions| - 1]), actions[|actions| - 1])
  }

  // ---------------------------------------------------------------- what every step keeps

  function FirstStamp(r: Record): nat { RecordIndex(r) }

  function LastStamp(r: Record): nat { if r.EventRecord? then r.event.completionIndex else r.marker.index }

  /** The stamp an unfinished instruction holds. */
  function Pending(th: Thread): Option<nat> { if th.progress.Ready? then None else Some(th.progress.index) }

  ghost predicate Did(s: State, tid: nat, i: nat, r: Record) {
    tid in s.threads && i < |s.threads[tid].done| && s.threads[tid].done[i] == Some(r)
  }

  /** A thread's stamps follow its program: each instruction draws its stamps after all earlier ones have
      drawn theirs. */
  ghost predicate InProgramOrder(th: Thread, counter: nat) {
    && (forall i, j :: 0 <= i < j < |th.done| && th.done[i].Some? && th.done[j].Some?
          ==> LastStamp(th.done[i].value) < FirstStamp(th.done[j].value))
    && (forall i :: 0 <= i < |th.done| && th.done[i].Some? ==>
          && FirstStamp(th.done[i].value) <= LastStamp(th.done[i].value) < counter
          && (Pending(th).Some? ==> LastStamp(th.done[i].value) < Pending(th).value))
    && (Pending(th).Some? ==> Pending(th).value < counter)
    && (th.progress.Completed? ==> th.progress.index < th.progress.completion < counter)
  }

  ghost predicate AllInProgramOrder(s: State) {
    forall tid :: tid in s.threads ==> InProgramOrder(s.threads[tid], s.counter)
  }

  /** Submission stamps are unique, those still in flight included. */
  ghost predicate AllUnique(s: State) {
    && UniqueStamps(s.file)
    && (forall i :: 0 <= i < |s.file| ==> FirstStamp(s.file[i]) < s.counter)
    && (forall tid :: tid in s.threads && Pending(s.threads[tid]).Some? ==>
        HeldAlone(s, tid, Pending(s.threads[tid]).value))
  }

  ghost predicate HeldAlone(s: State, tid: nat, stamp: nat) {
    && stamp < s.counter
    && (forall i :: 0 <= i < |s.file| ==> FirstStamp(s.file[i]) != stamp)
    && (forall u :: u in s.threads && u != tid ==> Pending(s.threads[u]) != Some(stamp))
  }

  /** The file holds the records of finished calls and no others. */
  ghost predicate FileIsWhatWasDone(s: State) {
    && (forall tid, i, r :: Did(s, tid, i, r) ==> r in s.file)
    && (forall r :: r in s.file ==> exists tid, i :: Did(s, tid, i, r))
  }

  /** What is on record of an instruction is that instruction, by that thread. */
  ghost predicate Fits(tid: nat, what: Instruction, record: Option<Record>) {
    match what
    case Traced(call, path, path2, length, digest) =>
      && record.Some? && record.value.EventRecord?
      && var e := record.value.event;
         e.threadId == tid && e.call == call && e.path == path && e.path2 == path2 && e.length == length
             && e.digest == digest
    case Announce(op, phase, kind, key, digest, durable) =>
      record.Some? && record.value.MarkerRecord?
      && record.value.marker == Marker(record.value.marker.index, tid, op, phase, kind, key, digest, durable)
    case MarkerHandle => record.None?
  }

  ghost predicate AllFit(s: State) {
    forall tid, i :: tid in s.threads && 0 <= i < |s.threads[tid].done| && i < |s.threads[tid].program|
                     ==> Fits(tid, s.threads[tid].program[i], s.threads[tid].done[i])
  }

  ghost predicate Inv(s: State) {
    AllCoherent(s) && AllFit(s) && AllInProgramOrder(s) && AllUnique(s) && FileIsWhatWasDone(s)
  }

  lemma OrderOutlivesCounter(th: Thread, counter: nat, later: nat)
    requires InProgramOrder(th, counter) && counter <= later
    ensures InProgramOrder(th, later)
  {}

  lemma StampedInOrder(th: Thread, counter: nat)
    requires Coherent(th) && Current(th).Some? && th.progress.Ready? && InProgramOrder(th, counter)
    ensures InProgramOrder(Stamped(th, counter), counter + 1)
  {}

  lemma ReturnedInOrder(th: Thread, counter: nat, returnValue: int, offset: int)
    requires th.progress.Submitted? && InProgramOrder(th, counter)
    ensures InProgramOrder(th.(progress := Returned(th.progress.index, returnValue, offset)), counter)
  {}

  lemma CompletedInOrder(th: Thread, counter: nat)
    requires th.progress.Returned? && InProgramOrder(th, counter)
    ensures var completed := Completed(th.progress.index, counter, th.progress.returnValue, th.progress.offset);
            InProgramOrder(th.(progress := completed), counter + 1)
  {}

  lemma FinishedInOrder(tid: nat, th: Thread, counter: nat)
    requires Coherent(th) && (th.progress.Completed? || th.progress.Marked?) && InProgramOrder(th, counter)
    ensures InProgramOrder(Finished(tid, th), counter)
  {}

  lemma PerformInProgramOrder(s: State, a: Action)
    requires AllCoherent(s) && AllInProgramOrder(s)
    ensures AllInProgramOrder(Perform(s, a))
  {
    var after := Perform(s, a);
    forall tid | tid in after.threads ensures InProgramOrder(after.threads[tid], after.counter) {
      if tid in s.threads {
        ThreadInOrder(s, a, tid);
      }
    }
  }

  lemma ThreadInOrder(s: State, a: Action, tid: nat)
    requires AllCoherent(s) && tid in s.threads && InProgramOrder(s.threads[tid], s.counter)
    ensures tid in Perform(s, a).threads
    ensures InProgramOrder(Perform(s, a).threads[tid], Perform(s, a).counter)
  {
    var th := s.threads[tid];
    OrderOutlivesCounter(th, s.counter, s.counter + 1);
    hide InProgramOrder, Stamped, Finished, Recorded, Coherent;
    if Enabled(s, a) && a.tid == tid {
      match a
      case Submit(_) => StampedInOrder(th, s.counter);
      case Return(_, returnValue, offset) => ReturnedInOrder(th, s.counter, returnValue, offset);
      case Complete(_) => CompletedInOrder(th, s.counter);
      case Emit(_) => EmitReady(s, a); FinishedInOrder(tid, th, s.counter);
    }
  }

  lemma EmitReady(s: State, a: Action)
    requires AllCoherent(s) && Enabled(s, a) && a.Emit?
    ensures Coherent(s.threads[a.tid]) && (s.threads[a.tid].progress.Completed? || s.threads[a.tid].progress.Marked?)
  {}

  lemma PerformUnique(s: State, a: Action)
    requires AllCoherent(s) && AllUnique(s)
    ensures AllUnique(Perform(s, a))
  {
    var after := Perform(s, a);
    forall tid | tid in after.threads && Pending(after.threads[tid]).Some?
      ensures HeldAlone(after, tid, Pending(after.threads[tid]).value)
    {
    }
  }

  /** A step adds at most one record, to its thread's history and to the file alike. */
  lemma DoneByStep(s: State, a: Action, tid: nat, i: nat, r: Record)
    requires AllCoherent(s)
    ensures Did(s, tid, i, r) ==> Did(Perform(s, a), tid, i, r)
    ensures Did(Perform(s, a), tid, i, r) ==> Did(s, tid, i, r) || Perform(s, a).file == s.file + [r]
  {}

  lemma FileByStep(s: State, a: Action)
    requires AllCoherent(s)
    ensures || Perform(s, a).file == s.file
            || (a.Emit? && a.tid in s.threads && |Perform(s, a).file| == |s.file| + 1
                && Perform(s, a).file[..|s.file|] == s.file
                && Did(Perform(s, a), a.tid, |s.threads[a.tid].done|, Perform(s, a).file[|s.file|]))
  {}

  lemma PerformKeepsFile(s: State, a: Action)
    requires AllCoherent(s) && FileIsWhatWasDone(s)
    ensures FileIsWhatWasDone(Perform(s, a))
  {
    var after := Perform(s, a);
    FileByStep(s, a);
    hide Perform, Did, Coherent;
    forall tid, i, r | Did(after, tid, i, r) ensures r in after.file {
      DoneByStep(s, a, tid, i, r);
    }
    forall r | r in after.file ensures exists tid, i :: Did(after, tid, i, r) {
      if r in s.file {
        var tid, i :| Did(s, tid, i, r);
        DoneByStep(s, a, tid, i, r);
      } else {
        assert r == after.file[|s.file|];
      }
    }
  }

  lemma PerformFits(s: State, a: Action)
    requires AllCoherent(s) && AllFit(s)
    ensures AllFit(Perform(s, a))
  {}

  /** The invariant holds after any interleaving whatever. */
  lemma {:induction false} EveryRunKeepsInv(actions: seq<Action>)
    ensures Inv(After(START, actions))
  {
    if actions != [] {
      var before := After(START, actions[..|actions| - 1]);
      var a := actions[|actions| - 1];
      EveryRunKeepsInv(actions[..|actions| - 1]);
      PerformFits(before, a);
      PerformInProgramOrder(before, a);
      PerformUnique(before, a);
      PerformKeepsFile(before, a);
    }
  }

  // ---------------------------------------------------------------- stamps drawn since

  /** The thread has not yet drawn a stamp for its i-th instruction. */
  ghost predicate NotStarted(s: State, tid: nat, i: nat) {
    tid in s.threads ==> |s.threads[tid].done| < i || (|s.threads[tid].done| == i && s.threads[tid].progress.Ready?)
  }

  ghost predicate DrawnSince(s: State, tid: nat, i: nat, stamp: nat) {
    && stamp <= s.counter
    && (tid in s.threads ==>
          var th := s.threads[tid];
          && (|th.done| == i && Pending(th).Some? ==> stamp <= Pending(th).value)
          && (i < |th.done| && th.done[i].Some? ==> stamp <= FirstStamp(th.done[i].value)))
  }

  lemma StepDrawsSince(s: State, a: Action, tid: nat, i: nat, stamp: nat)
    requires AllCoherent(s) && DrawnSince(s, tid, i, stamp)
    ensures DrawnSince(Perform(s, a), tid, i, stamp)
  {}

  lemma {:induction false} RunDrawsSince(s: State, actions: seq<Action>, tid: nat, i: nat, stamp: nat)
    requires AllCoherent(s) && DrawnSince(s, tid, i, stamp)
    ensures DrawnSince(After(s, actions), tid, i, stamp)
  {
    if actions != [] {
      RunDrawsSince(s, actions[..|actions| - 1], tid, i, stamp);
      StepDrawsSince(After(s, actions[..|actions| - 1]), actions[|actions| - 1], tid, i, stamp);
    }
  }

  lemma {:induction false} DoneStays(s: State, actions: seq<Action>, tid: nat, i: nat, r: Record)
    requires AllCoherent(s) && Did(s, tid, i, r)
    ensures Did(After(s, actions), tid, i, r)
  {
    if actions != [] {
      DoneStays(s, actions[..|actions| - 1], tid, i, r);
      DoneByStep(After(s, actions[..|actions| - 1]), actions[|actions| - 1], tid, i, r);
    }
  }

  /** An instruction started after another finished carries a later stamp, whichever threads ran them. */
  lemma {:induction false} LaterCallsCarryLaterStamps(s: State, actions: seq<Action>, first: Record, ft: nat,
        fi: nat, second: Record, st: nat, si: nat)
    requires Inv(s) && Did(s, ft, fi, first) && NotStarted(s, st, si)
    requires Did(After(s, actions), st, si, second)
    ensures LastStamp(first) < FirstStamp(second)
  {
    assert InProgramOrder(s.threads[ft], s.counter);
    RunDrawsSince(s, actions, st, si, s.counter);
  }

  // ---------------------------------------------------------------- the durability theorem

  /** In the trace the file parses to, the write is present, whole, in the given state. */
  ghost predicate HoldsWhole(trace: Trace, st: CrashState, w: Event) {
    exists j: nat ::
      && j < |trace.events| && trace.events[j] == w && j in st.persisted
      && forall t :: t in st.partial ==> t.op != j
  }

  lemma SyncedIsWhole(s: State, w: Event, f: Event, k: nat, model: FilesystemModel,
        bounds: Bounds, st: CrashState)
    requires Inv(s) && EventRecord(w) in s.file && EventRecord(f) in s.file
    requires IsMutating(w.call) && Persisted(f) && f.path == w.path && w.index < f.index
    requires k < |Parsed(s.file).events| && f.index <= Parsed(s.file).events[k].index
    requires st in StatesAt(Parsed(s.file).events, k, model, bounds)
    ensures HoldsWhole(Parsed(s.file), st, w)
  {
    hide StatesAt, IsPinned, AllCoherent, AllFit, AllInProgramOrder, FileIsWhatWasDone, Parsed;
    var events := Parsed(s.file).events;
    ParsedIsOrdered(s.file);
    hide AllUnique, StrictlySortedBy, UniqueStamps;
    assert w in events && f in events;
    var j: nat :| j < |events| && events[j] == w;
    var x: nat :| x < |events| && events[x] == f;
    assert j < x && x <= k;
    PinnedBySync(events, k, x, j);
    PinnedIsWhole(events, k, model, bounds, st, j);
  }

  lemma PinnedBySync(events: seq<Event>, k: nat, x: nat, j: nat)
    requires x <= k && Pins(events, x, j)
    ensures IsPinned(events, k, j)
  {}

  /** In every interleaving of any number of threads: if a thread changes a file, then syncs it
      successfully, then announces, every state listed at any crash point stamped after the announcement
      holds the change whole, under every model and bound. */
  lemma {:induction false} AnnouncedWriteIsWhole(actions: seq<Action>, tid: nat, a: nat, b: nat, c: nat, w: Event,
        f: Event, m: Marker,
        k: nat, model: FilesystemModel, bounds: Bounds, st: CrashState)
    requires a < b < c
    requires var s := After(START, actions);
             Did(s, tid, a, EventRecord(w)) && Did(s, tid, b, EventRecord(f)) && Did(s, tid, c, MarkerRecord(m))
    requires IsMutating(w.call) && Persisted(f) && f.path == w.path
    requires var events := Parsed(After(START, actions).file).events;
             k < |events| && m.index < events[k].index && st in StatesAt(events, k, model, bounds)
    ensures HoldsWhole(Parsed(After(START, actions).file), st, w)
  {
    var s := After(START, actions);
    EveryRunKeepsInv(actions);
    hide After, StatesAt, Parsed, HoldsWhole, AllFit, AllUnique;
    assert InProgramOrder(s.threads[tid], s.counter);
    SyncedIsWhole(s, w, f, k, model, bounds, st);
  }

  /** The same across threads: the sync is begun after the change's record is out, and the announcement
      after the sync's, each by whichever thread, with anything at all in between and afterwards. */
  lemma {:induction false} HandedOverWriteIsWhole(first: seq<Action>, second: seq<Action>, third: seq<Action>,
        wt: nat, wi: nat, w: Event, ft: nat, fi: nat, f: Event, mt: nat, mi: nat, m: Marker,
        k: nat, model: FilesystemModel, bounds: Bounds, st: CrashState)
    requires var s := After(START, first);
             Did(s, wt, wi, EventRecord(w)) && NotStarted(s, ft, fi)
    requires var s := After(After(START, first), second);
             Did(s, ft, fi, EventRecord(f)) && NotStarted(s, mt, mi)
    requires Did(After(After(After(START, first), second), third), mt, mi, MarkerRecord(m))
    requires IsMutating(w.call) && Persisted(f) && f.path == w.path
    requires var events := Parsed(After(After(After(START, first), second), third).file).events;
             k < |events| && m.index < events[k].index && st in StatesAt(events, k, model, bounds)
    ensures HoldsWhole(Parsed(After(After(After(START, first), second), third).file), st, w)
  {
    var s1 := After(START, first);
    var s2 := After(s1, second);
    var s3 := After(s2, third);
    EveryRunKeepsInv(first);
    AfterTwice(START, first, second);
    EveryRunKeepsInv(first + second);
    AfterTwice(START, first + second, third);
    EveryRunKeepsInv(first + second + third);
    hide After, StatesAt, Parsed, HoldsWhole, Inv, Did, NotStarted;
    HandedOverStamps(s1, second, third, wt, wi, w, ft, fi, f, mt, mi, m);
    SyncedIsWhole(s3, w, f, k, model, bounds, st);
  }

  lemma {:induction false} HandedOverStamps(s: State, second: seq<Action>, third: seq<Action>, wt: nat, wi: nat,
        w: Event, ft: nat, fi: nat, f: Event, mt: nat, mi: nat, m: Marker)
    requires Inv(s) && Inv(After(s, second)) && Inv(After(After(s, second), third))
    requires Did(s, wt, wi, EventRecord(w)) && NotStarted(s, ft, fi)
    requires Did(After(s, second), ft, fi, EventRecord(f)) && NotStarted(After(s, second), mt, mi)
    requires Did(After(After(s, second), third), mt, mi, MarkerRecord(m))
    ensures w.index < f.index < m.index
    ensures EventRecord(w) in After(After(s, second), third).file
    ensures EventRecord(f) in After(After(s, second), third).file
  {
    var s2 := After(s, second);
    hide After, NotStarted, AllFit, AllUnique, AllInProgramOrder, Did;
    LaterCallsCarryLaterStamps(s, second, EventRecord(w), wt, wi, EventRecord(f), ft, fi);
    LaterCallsCarryLaterStamps(s2, third, EventRecord(f), ft, fi, MarkerRecord(m), mt, mi);
    DoneStays(s, second, wt, wi, EventRecord(w));
    DoneStays(s2, third, wt, wi, EventRecord(w));
    DoneStays(s2, third, ft, fi, EventRecord(f));
    StampsInside(s, wt, wi, EventRecord(w));
    StampsInside(s2, ft, fi, EventRecord(f));
  }

  lemma StampsInside(s: State, tid: nat, i: nat, r: Record)
    requires Inv(s) && Did(s, tid, i, r)
    ensures FirstStamp(r) <= LastStamp(r)
  {
    assert InProgramOrder(s.threads[tid], s.counter);
  }

  lemma {:induction false} AfterTwice(s: State, first: seq<Action>, second: seq<Action>)
    requires AllCoherent(s)
    ensures After(After(s, first), second) == After(s, first + second)
  {
    if second == [] {
      assert first + second == first;
    } else {
      var n := |second| - 1;
      AfterTwice(s, first, second[..n]);
      assert (first + second)[..|first + second| - 1] == first + second[..n];
    }
  }

  // ---------------------------------------------------------------- which calls had finished when a sync began

  /** The i-th instruction of the thread is a traced call that has drawn its second stamp, `c`. */
  ghost predicate FinishedWith(s: State, tid: nat, i: nat, c: nat) {
    && tid in s.threads
    && var th := s.threads[tid];
       || (|th.done| == i && th.progress.Completed? && th.progress.completion == c)
       || (i < |th.done| && th.done[i].Some? && th.done[i].value.EventRecord?
           && th.done[i].value.event.completionIndex == c)
  }

  /** The i-th instruction of the thread has drawn its first stamp, `x`. */
  ghost predicate StartedWith(s: State, tid: nat, i: nat, x: nat) {
    && tid in s.threads
    && var th := s.threads[tid];
       || (|th.done| == i && Pending(th) == Some(x))
       || (i < |th.done| && th.done[i].Some? && FirstStamp(th.done[i].value) == x)
  }

  /** At this point of the run the one call has finished and the other has not begun. */
  ghost predicate FinishedFirst(s: State, wt: nat, wi: nat, ft: nat, fi: nat) {
    (exists c: nat :: FinishedWith(s, wt, wi, c)) && NotStarted(s, ft, fi)
  }

  lemma StampsAreDrawn(s: State, tid: nat, i: nat, x: nat)
    requires AllInProgramOrder(s)
    ensures StartedWith(s, tid, i, x) || FinishedWith(s, tid, i, x) ==> x < s.counter
  {
    if tid in s.threads {
      assert InProgramOrder(s.threads[tid], s.counter);
    }
  }

  lemma FinishedByStep(s: State, a: Action, tid: nat, i: nat, c: nat)
    requires AllCoherent(s)
    ensures FinishedWith(s, tid, i, c) ==> FinishedWith(Perform(s, a), tid, i, c)
    ensures FinishedWith(Perform(s, a), tid, i, c) ==>
               FinishedWith(s, tid, i, c) || (a.Complete? && c == s.counter == Perform(s, a).counter - 1)
  {}

  lemma StartedByStep(s: State, a: Action, tid: nat, i: nat, x: nat)
    requires AllCoherent(s)
    ensures StartedWith(Perform(s, a), tid, i, x) ==> StartedWith(s, tid, i, x) || NotStarted(s, tid, i)
  {}

  lemma {:induction false} FinishedStays(s: State, actions: seq<Action>, tid: nat, i: nat, c: nat)
    requires AllCoherent(s) && FinishedWith(s, tid, i, c)
    ensures FinishedWith(After(s, actions), tid, i, c)
  {
    hide FinishedWith, Perform;
    if actions != [] {
      FinishedStays(s, actions[..|actions| - 1], tid, i, c);
      FinishedByStep(After(s, actions[..|actions| - 1]), actions[|actions| - 1], tid, i, c);
    }
  }

  lemma AfterNothing()
    ensures After(START, []) == START
  {}

  /** If one call's second stamp precedes another's first, the run passes through a point between the two. */
  lemma PointBetween(actions: seq<Action>, wt: nat, wi: nat, c: nat, ft: nat, fi: nat, x: nat)
    returns (n: nat)
    requires FinishedWith(After(START, actions), wt, wi, c) && StartedWith(After(START, actions), ft, fi, x) && c < x
    ensures n <= |actions| && FinishedFirst(After(START, actions[..n]), wt, wi, ft, fi)
  {
    hide After, Perform, FinishedWith, StartedWith, NotStarted, FinishedFirst, Inv;
    FinishedAfterSteps(actions, wt, wi, c);
    n := |actions| - 1;
    EveryRunKeepsInv(actions);
    AfterLast(actions);
    LastStepEarlier(After(START, actions[..n]), actions[n], wt, wi, c, ft, fi, x);
    if !NotStarted(After(START, actions[..n]), ft, fi) {
      n := PointBetween(actions[..n], wt, wi, c, ft, fi, x);
      assert actions[..|actions| - 1][..n] == actions[..n];
    } else {
      PointFound(After(START, actions[..n]), wt, wi, c, ft, fi);
    }
  }

  lemma {:induction false} FinishedAfterSteps(actions: seq<Action>, tid: nat, i: nat, c: nat)
    requires FinishedWith(After(START, actions), tid, i, c)
    ensures actions != []
  {
    AfterNothing();
  }

  lemma {:induction false} AfterLast(actions: seq<Action>)
    requires actions != []
    ensures After(START, actions) == Perform(After(START, actions[..|actions| - 1]), actions[|actions| - 1])
  {}

  lemma PointFound(s: State, wt: nat, wi: nat, c: nat, ft: nat, fi: nat)
    requires FinishedWith(s, wt, wi, c) && NotStarted(s, ft, fi)
    ensures FinishedFirst(s, wt, wi, ft, fi)
  {}

  lemma LastStepEarlier(s: State, a: Action, wt: nat, wi: nat, c: nat, ft: nat, fi: nat, x: nat)
    requires AllCoherent(s) && Inv(Perform(s, a)) && c < x
    requires FinishedWith(Perform(s, a), wt, wi, c) && StartedWith(Perform(s, a), ft, fi, x)
    ensures FinishedWith(s, wt, wi, c) && (StartedWith(s, ft, fi, x) || NotStarted(s, ft, fi))
  {
    hide FinishedWith, StartedWith, NotStarted, Perform, AllUnique, AllFit, AllInProgramOrder, FileIsWhatWasDone;
    StampsAreDrawn(Perform(s, a), ft, fi, x);
    FinishedByStep(s, a, wt, wi, c);
    StartedByStep(s, a, ft, fi, x);
  }

  /** A change had finished when a sync was submitted exactly when the run has a point with the one done and
      the other not begun. */
  lemma {:induction false} FinishedBeforeSyncIff(actions: seq<Action>, wt: nat, wi: nat, w: Event, ft: nat, fi: nat,
          f: Event)
    requires Did(After(START, actions), wt, wi, EventRecord(w)) && Did(After(START, actions), ft, fi, EventRecord(f))
    ensures w.completionIndex < f.index
       <==> exists n: nat :: n <= |actions| && FinishedFirst(After(START, actions[..n]), wt, wi, ft, fi)
  {
    assert FinishedWith(After(START, actions), wt, wi, w.completionIndex);
    assert StartedWith(After(START, actions), ft, fi, f.index);
    if w.completionIndex < f.index {
      var n := PointBetween(actions, wt, wi, w.completionIndex, ft, fi, f.index);
    }
    if n: nat :| n <= |actions| && FinishedFirst(After(START, actions[..n]), wt, wi, ft, fi) {
      AfterTheCut(actions, n, wt, wi, w, ft, fi, f);
    }
  }

  lemma {:induction false} AfterTheCut(actions: seq<Action>, n: nat, wt: nat, wi: nat, w: Event, ft: nat, fi: nat,
          f: Event)
    requires Did(After(START, actions), wt, wi, EventRecord(w)) && Did(After(START, actions), ft, fi, EventRecord(f))
    requires n <= |actions| && FinishedFirst(After(START, actions[..n]), wt, wi, ft, fi)
    ensures w.completionIndex < f.index
  {
    var middle := After(START, actions[..n]);
    var c: nat :| FinishedWith(middle, wt, wi, c);
    AfterTwice(START, actions[..n], actions[n..]);
    assert actions == actions[..n] + actions[n..];
    EveryRunKeepsInv(actions[..n]);
    StampsAreDrawn(middle, wt, wi, c);
    FinishedStays(middle, actions[n..], wt, wi, c);
    hide After, Perform;
    RunDrawsSince(middle, actions[n..], ft, fi, middle.counter);
  }

  /** That holds of every change a thread made before its own sync. */
  lemma {:induction false} OwnChangeHadFinished(actions: seq<Action>, tid: nat, a: nat, b: nat, w: Event, f: Event)
    requires a < b
    requires Did(After(START, actions), tid, a, EventRecord(w)) && Did(After(START, actions), tid, b, EventRecord(f))
    ensures w.completionIndex < f.index
  {
    var s := After(START, actions);
    EveryRunKeepsInv(actions);
    hide After;
    assert InProgramOrder(s.threads[tid], s.counter);
  }

  // ---------------------------------------------------------------- the wrappers, run without interruption

  class Recorder {
    var counter: nat
    var threads: map<nat, Thread>
    var file: seq<Record>

    ghost function Now(): State reads this { State(counter, threads, file) }

    ghost predicate Valid() reads this { AllCoherent(Now()) }

    constructor ()
      ensures Valid() && Now() == START
    {
      counter, threads, file := 0, map[], [];
    }

    method NextStamp() returns (stamp: nat)
      modifies this`counter
      ensures stamp == old(counter) && counter == old(counter) + 1
    {
      stamp := counter;
      counter := counter + 1;
    }

    /** The wrapper of a traced call: a stamp, the real call, a second stamp, one record. */
    method Intercept(tid: nat, returnValue: int, offset: int)
      requires Valid() && tid in threads && threads[tid].progress.Ready?
      requires Current(threads[tid]).Some? && Current(threads[tid]).value.Traced?
      modifies this
      ensures Valid()
      ensures Now() == After(old(Now()), [Submit(tid), Return(tid, returnValue, offset), Complete(tid), Emit(tid)])
      ensures counter == old(counter) + 2
      ensures var what := old(Current(threads[tid]).value);
              file == old(file) + [EventRecord(Event(old(counter), old(counter) + 1, what.call, tid, what.path,
                what.path2, offset, what.length, returnValue, what.digest))]
    {
      ghost var start := Now();
      var what := Current(threads[tid]).value;
      var index := NextStamp();
      threads := threads[tid := threads[tid].(progress := Submitted(index))];
      assert Now() == Perform(start, Submit(tid));
      threads := threads[tid := threads[tid].(progress := Returned(index, returnValue, offset))];
      assert Now() == Perform(Perform(start, Submit(tid)), Return(tid, returnValue, offset));
      var completion := NextStamp();
      threads := threads[tid := threads[tid].(progress := Completed(index, completion, returnValue, offset))];
      var record := EventRecord(Event(index, completion, what.call, tid, what.path, what.path2, offset, what.length,
              returnValue, what.digest));
      file := file + [record];
      threads := threads[tid := threads[tid].(done := threads[tid].done + [Some(record)], progress := Ready)];
      FourSteps(start, Submit(tid), Return(tid, returnValue, offset), Complete(tid), Emit(tid));
    }

    /** The wrapper of a marker line: one stamp, one record. */
    method InterceptMarker(tid: nat)
      requires Valid() && tid in threads && threads[tid].progress.Ready?
      requires Current(threads[tid]).Some? && Current(threads[tid]).value.Announce?
      modifies this
      ensures Valid()
      ensures Now() == After(old(Now()), [Submit(tid), Emit(tid)])
      ensures counter == old(counter) + 1
      ensures var what := old(Current(threads[tid]).value);
              file == old(file) + [MarkerRecord(Marker(old(counter), tid, what.op, what.phase, what.kind, what.key,
                what.digest, what.durable))]
    {
      ghost var start := Now();
      var what := Current(threads[tid]).value;
      var index := NextStamp();
      var record := MarkerRecord(Marker(index, tid, what.op, what.phase, what.kind, what.key, what.digest,
              what.durable));
      file := file + [record];
      threads := threads[tid := threads[tid].(done := threads[tid].done + [Some(record)])];
      TwoSteps(start, Submit(tid), Emit(tid));
    }

    /** The wrapper of a call that opens or closes the marker file: one stamp, no record. */
    method InterceptMarkerHandle(tid: nat)
      requires Valid() && tid in threads && threads[tid].progress.Ready?
      requires Current(threads[tid]) == Some(MarkerHandle)
      modifies this
      ensures Valid()
      ensures Now() == After(old(Now()), [Submit(tid)])
      ensures counter == old(counter) + 1 && file == old(file)
    {
      ghost var start := Now();
      var index := NextStamp();
      threads := threads[tid := threads[tid].(done := threads[tid].done + [None])];
      OneStep(start, Submit(tid));
    }
  }

  lemma {:induction false} OneStep(s: State, a: Action)
    requires AllCoherent(s)
    ensures After(s, [a]) == Perform(s, a)
  {
    hide Perform;
    assert [a][..0] == [];
    assert After(s, []) == s;
  }

  lemma {:induction false} TwoSteps(s: State, a: Action, b: Action)
    requires AllCoherent(s)
    ensures After(s, [a, b]) == Perform(Perform(s, a), b)
  {
    hide Perform;
    assert [a, b][..1] == [a];
    assert [a][..0] == [];
    assert After(s, []) == s;
    assert After(s, [a]) == Perform(s, a);
  }

  lemma {:induction false} FourSteps(s: State, a: Action, b: Action, c: Action, d: Action)
    requires AllCoherent(s)
    ensures After(s, [a, b, c, d]) == Perform(Perform(Perform(Perform(s, a), b), c), d)
  {
    hide Perform;
    TwoSteps(s, a, b);
    assert [a, b, c][..2] == [a, b];
    assert [a, b, c, d][..3] == [a, b, c];
  }
}
