/** Where a record comes from: in every run, the steps its thread took for it, whose values it carries. */
module Provenance {
  import opened Traces
  import opened Shim

  // ---------------------------------------------------------------- one step of a run

  /** The thread has `i` instructions behind it and is this far with the next. */
  ghost predicate At(s: State, tid: nat, i: nat, progress: Progress) {
    tid in s.threads && |s.threads[tid].done| == i && s.threads[tid].progress == progress
  }

  /** The n-th action of the run is `a`, taken for the thread's i-th instruction from the given progress. */
  ghost predicate Took(actions: seq<Action>, n: nat, a: Action, i: nat, progress: Progress) {
    && n < |actions| && actions[n] == a
    && At(After(START, actions[..n]), a.tid, i, progress)
    && Enabled(After(START, actions[..n]), a)
  }

  lemma TookEarlier(actions: seq<Action>, n: nat, a: Action, i: nat, progress: Progress)
    requires actions != [] && Took(actions[..|actions| - 1], n, a, i, progress)
    ensures Took(actions, n, a, i, progress) && n < |actions| - 1
    ensures actions[..|actions| - 1][..n] == actions[..n]
  {
    assert actions[..|actions| - 1][..n] == actions[..n];
  }

  lemma TookLast(actions: seq<Action>, a: Action, i: nat, progress: Progress)
    requires actions != [] && actions[|actions| - 1] == a && Enabled(After(START, actions[..|actions| - 1]), a)
    requires At(After(START, actions[..|actions| - 1]), a.tid, i, progress)
    ensures Took(actions, |actions| - 1, a, i, progress)
  {}

  /** The action that brings a thread to this progress, the progress it comes from, and the counter it draws. */
  ghost predicate Brings(a: Action, from: Progress, counter: nat, tid: nat, to: Progress) {
    match to
    case Ready => false
    case Submitted(x) => a == Submit(tid) && from == Ready && counter == x
    case Marked(x) => a == Submit(tid) && from == Ready && counter == x
    case Returned(x, returnValue, offset) => a == Return(tid, returnValue, offset) && from == Submitted(x)
    case Completed(x, c, returnValue, offset) =>
      a == Complete(tid) && from == Returned(x, returnValue, offset) && counter == c
  }

  lemma BroughtByStep(s: State, a: Action, tid: nat, i: nat, to: Progress)
    requires AllCoherent(s) && At(Perform(s, a), tid, i, to) && !to.Ready? && !At(s, tid, i, to)
    ensures Enabled(s, a) && a.tid == tid && tid in s.threads && |s.threads[tid].done| == i
    ensures Brings(a, s.threads[tid].progress, s.counter, tid, to)
  {}

  /** Back to the action that brought a thread where it is. */
  lemma WhenBrought(actions: seq<Action>, tid: nat, i: nat, to: Progress)
    returns (n: nat, a: Action, from: Progress)
    requires At(After(START, actions), tid, i, to) && !to.Ready?
    ensures Took(actions, n, a, i, from) && a.tid == tid
    ensures Brings(a, from, After(START, actions[..n]).counter, tid, to)
  {
    assert actions != [];
    n := |actions| - 1;
    a := actions[n];
    var s := After(START, actions[..n]);
    assert After(START, actions) == Perform(s, a);
    hide After, Perform, Brings, Took, Enabled;
    if At(s, tid, i, to) {
      n, a, from := WhenBrought(actions[..n], tid, i, to);
      TookEarlier(actions, n, a, i, from);
    } else {
      BroughtByStep(s, a, tid, i, to);
      from := s.threads[tid].progress;
      TookLast(actions, a, i, from);
    }
  }

  /** How far the thread was when it emitted the record. */
  function Emitted(r: Record): Progress {
    match r
    case EventRecord(e) => Completed(e.index, e.completionIndex, e.returnValue, e.offset)
    case MarkerRecord(m) => Marked(m.index)
  }

  lemma RecordedByStep(s: State, a: Action, tid: nat, i: nat, r: Record)
    requires AllCoherent(s) && Did(Perform(s, a), tid, i, r)
    ensures Did(s, tid, i, r) || (a == Emit(tid) && Enabled(s, a) && At(s, tid, i, Emitted(r)))
  {}

  lemma NothingDone(tid: nat, i: nat, r: Record)
    ensures !Did(After(START, []), tid, i, r)
  {}

  lemma WhenEmitted(actions: seq<Action>, tid: nat, i: nat, r: Record) returns (n: nat)
    requires Did(After(START, actions), tid, i, r)
    ensures Took(actions, n, Emit(tid), i, Emitted(r))
  {
    NothingDone(tid, i, r);
    n := |actions| - 1;
    var s := After(START, actions[..n]);
    assert After(START, actions) == Perform(s, actions[n]);
    hide After, Perform, At, Took, Enabled, Did, Emitted;
    RecordedByStep(s, actions[n], tid, i, r);
    if Did(s, tid, i, r) {
      n := WhenEmitted(actions[..n], tid, i, r);
      TookEarlier(actions, n, Emit(tid), i, Emitted(r));
    } else {
      TookLast(actions, Emit(tid), i, Emitted(r));
    }
  }

  // ---------------------------------------------------------------- what the thread was asked to do

  /** The run spawned the thread with this as its i-th instruction. */
  ghost predicate Asked(actions: seq<Action>, tid: nat, i: nat, what: Instruction) {
    exists n: nat :: n < |actions| && actions[n].Spawn? && actions[n].tid == tid
      && i < |actions[n].program| && actions[n].program[i] == what
  }

  /** A thread runs the program it was spawned with. */
  lemma {:induction false} ProgramsAreAsked(actions: seq<Action>, tid: nat, i: nat)
    requires tid in After(START, actions).threads && i < |After(START, actions).threads[tid].program|
    ensures Asked(actions, tid, i, After(START, actions).threads[tid].program[i])
  {
    assert actions != [];
    var n := |actions| - 1;
    var s := After(START, actions[..n]);
    if tid in s.threads {
      ProgramsAreAsked(actions[..n], tid, i);
      ProgramStays(s, actions[n], tid);
      assert actions[..n] + [actions[n]] == actions;
    } else {
      assert actions[n].Spawn?;
    }
  }

  lemma ProgramStays(s: State, a: Action, tid: nat)
    requires AllCoherent(s) && tid in s.threads
    ensures tid in Perform(s, a).threads && Perform(s, a).threads[tid].program == s.threads[tid].program
  {}

  lemma {:induction false} DoneAsAsked(actions: seq<Action>, tid: nat, i: nat, r: Record)
    requires Did(After(START, actions), tid, i, r)
    ensures match r
            case EventRecord(e) =>
              e.threadId == tid && Asked(actions, tid, i, Traced(e.call, e.path, e.path2, e.length, e.digest))
            case MarkerRecord(m) =>
              && m.threadId == tid
              && Asked(actions, tid, i, Announce(m.op, m.phase, m.kind, m.key, m.digest, m.durable))
  {
    var s := After(START, actions);
    EveryRunKeepsInv(actions);
    assert Coherent(s.threads[tid]);
    assert Fits(tid, s.threads[tid].program[i], s.threads[tid].done[i]);
    ProgramsAreAsked(actions, tid, i);
    hide After, Asked;
  }

  // ---------------------------------------------------------------- the record of a call

  /** In every run, whatever the interleaving: an event record tells the call its thread was asked for, the
      stamps drawn when the call was submitted and when it completed, and the value and offset the call
      returned with, all for the same instruction and in that order. */
  lemma RecordTellsItsCall(actions: seq<Action>, tid: nat, i: nat, e: Event)
    returns (submit: nat, ret: nat, complete: nat)
    requires Did(After(START, actions), tid, i, EventRecord(e))
    ensures e.threadId == tid && Asked(actions, tid, i, Traced(e.call, e.path, e.path2, e.length, e.digest))
    ensures submit < ret < complete < |actions|
    ensures Took(actions, submit, Submit(tid), i, Ready) && After(START, actions[..submit]).counter == e.index
    ensures Took(actions, ret, Return(tid, e.returnValue, e.offset), i, Submitted(e.index))
    ensures Took(actions, complete, Complete(tid), i, Returned(e.index, e.returnValue, e.offset))
    ensures After(START, actions[..complete]).counter == e.completionIndex
  {
    hide After, Asked, Enabled, At;
    DoneAsAsked(actions, tid, i, EventRecord(e));
    var emit := WhenEmitted(actions, tid, i, EventRecord(e));
    var a: Action, from: Progress;
    complete, a, from := WhenBrought(actions[..emit], tid, i, Emitted(EventRecord(e)));
    TookBefore(actions, emit, complete, a, i, from);
    ret, a, from := WhenBrought(actions[..complete], tid, i, from);
    TookBefore(actions, complete, ret, a, i, from);
    submit, a, from := WhenBrought(actions[..ret], tid, i, from);
    TookBefore(actions, ret, submit, a, i, from);
  }

  lemma TookBefore(actions: seq<Action>, later: nat, n: nat, a: Action, i: nat, from: Progress)
    requires later < |actions| && Took(actions[..later], n, a, i, from)
    ensures n < later && Took(actions, n, a, i, from) && actions[..later][..n] == actions[..n]
  {
    assert actions[..later][..n] == actions[..n];
  }

  /** A marker record tells the announcement its thread was asked for and the stamp drawn for it. */
  lemma MarkerTellsItsLine(actions: seq<Action>, tid: nat, i: nat, m: Marker)
    returns (submit: nat)
    requires Did(After(START, actions), tid, i, MarkerRecord(m))
    ensures m.threadId == tid
    ensures Asked(actions, tid, i, Announce(m.op, m.phase, m.kind, m.key, m.digest, m.durable))
    ensures Took(actions, submit, Submit(tid), i, Ready) && After(START, actions[..submit]).counter == m.index
  {
    hide After, Asked, Enabled, At;
    DoneAsAsked(actions, tid, i, MarkerRecord(m));
    var emit := WhenEmitted(actions, tid, i, MarkerRecord(m));
    var a: Action, from: Progress;
    submit, a, from := WhenBrought(actions[..emit], tid, i, Emitted(MarkerRecord(m)));
    TookBefore(actions, emit, submit, a, i, from);
  }

  // ---------------------------------------------------------------- where the stamps go

  /** The action draws a stamp: it submits a call, a marker or a marker handle, or completes a call. */
  ghost predicate Draws(s: State, a: Action) { Enabled(s, a) && (a.Submit? || a.Complete?) }

  ghost function StampsDrawn(actions: seq<Action>): nat {
    if actions == [] then 0 else
      var before := actions[..|actions| - 1];
      StampsDrawn(before) + if Draws(After(START, before), actions[|actions| - 1]) then 1 else 0
  }

  /** The counter is the number of stamps drawn, and no stamp is drawn but those. */
  lemma {:induction false} CounterCountsStamps(actions: seq<Action>)
    ensures After(START, actions).counter == StampsDrawn(actions)
  {
    if actions != [] {
      CounterCountsStamps(actions[..|actions| - 1]);
    }
  }
}
