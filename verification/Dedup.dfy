/** Root-cause signatures: which operation a violation is blamed on. */
module Dedup {
  import opened Traces
  import opened States
  import opened Legality
  import opened CrashSpace
  import opened AckLog
  import opened Oracle

  datatype Blame = Blame(position: nat, torn: bool)

  /** A successful mutation issued while the operation was in flight. */
  predicate InFlight(e: Event, operation: AckedOperation) {
    && Succeeded(e)
    && operation.beganAt <= e.index
    && (operation.acknowledgedAt.Some? ==> e.index <= operation.acknowledgedAt.value)
  }

  predicate IsTorn(st: CrashState, i: nat) { exists t :: t in st.partial && t.op == i }

  /** The state did not fully persist this in-flight mutation. */
  predicate Blameable(st: CrashState, events: seq<Event>, operation: AckedOperation, i: nat) {
    i < |events| && InFlight(events[i], operation) && (IsTorn(st, i) || i !in st.persisted)
  }

  /** The first blameable event at or after `from`. */
  function FirstBlame(st: CrashState, events: seq<Event>, operation: AckedOperation, from: nat): (r: Option<Blame>)
    ensures r.Some? ==> from <= r.value.position && Blameable(st, events, operation, r.value.position)
    ensures r.Some? ==> (r.value.torn <==> IsTorn(st, r.value.position))
    ensures forall i: nat :: from <= i && (r.Some? ==> i < r.value.position) ==> !Blameable(st, events, operation, i)
    decreases |events| - from
  {
    if from >= |events| then None
    else if Blameable(st, events, operation, from) then Some(Blame(from, IsTorn(st, from)))
    else FirstBlame(st, events, operation, from + 1)
  }

  method EarliestMissing(st: CrashState, events: seq<Event>, operation: AckedOperation) returns (blame: Option<Blame>)
    ensures blame == FirstBlame(st, events, operation, 0)
  {
    var persisted := set i | i in st.persisted;
    var torn := set t | t in st.partial :: t.op;
    for index := 0 to |events|
      invariant FirstBlame(st, events, operation, 0) == FirstBlame(st, events, operation, index)
    {
      var event := events[index];
      if !IsMutating(event.call) || event.returnValue < 0 {
        continue;
      }
      if event.index < operation.beganAt
          || (operation.acknowledgedAt.Some? && event.index > operation.acknowledgedAt.value) {
        continue;
      }
      if index in torn {
        return Some(Blame(index, true));
      }
      if index !in persisted {
        return Some(Blame(index, false));
      }
    }
    return None;
  }

  // ---------------------------------------------------------------- signatures

  function CallName(call: Call): string {
    match call
    case Open => "open" case Close => "close" case Write => "write" case Pwrite => "pwrite" case Writev => "writev"
    case Fsync => "fsync" case Fdatasync => "fdatasync" case SyncFileRange => "sync_file_range"
    case Ftruncate => "ftruncate" case Truncate => "truncate" case Mkdir => "mkdir" case Unlink => "unlink"
    case Link => "link" case Rename => "rename"
  }

  function ClassName(c: ViolationClass): string {
    match c
    case LostAcked => "LOST_ACKED" case CorruptInvariant => "CORRUPT_INVARIANT"
    case RecoveryFailed => "RECOVERY_FAILED" case PhantomUnacked => "PHANTOM_UNACKED"
  }

  /** The path after its last slash. */
  function Basename(path: string): (r: string)
    ensures '/' !in r
    ensures |r| <= |path| && r == path[|path| - |r|..]
    ensures |r| < |path| ==> path[|path| - |r| - 1] == '/'
  {
    if path == [] then [] else
      var last := path[|path| - 1];
      if last == '/' then [] else Basename(path[..|path| - 1]) + [last]
  }

  function Describe(e: Event): string { CallName(e.call) + "@" + Basename(e.path) }

  function BlameText(events: seq<Event>, blame: Option<Blame>): string
    requires blame.Some? ==> blame.value.position < |events|
  {
    if blame.None? then "missing:none"
    else (if blame.value.torn then "torn:" else "missing:") + Describe(events[blame.value.position])
  }

  function SignatureOf(v: Violation, st: CrashState, events: seq<Event>, operation: AckedOperation): string {
    ClassName(v.violationClass) + "|" + BlameText(events, FirstBlame(st, events, operation, 0))
  }

  // ---------------------------------------------------------------- who can be blamed

  lemma StampOrdersEvents(events: seq<Event>, k: nat, i: nat)
    requires InStampOrder(events) && k < |events| && i < |events| && events[i].index <= events[k].index
    ensures i <= k
  {}

  /** With stamps in order, only an unpinned window operation at or before the crash point is blamed. */
  lemma {:induction false} BlameIsInWindow(events: seq<Event>, k: nat, model: FilesystemModel, bounds: Bounds,
        st: CrashState, operation: AckedOperation)
    requires InStampOrder(events) && k < |events|
    requires st in StatesAt(events, k, model, bounds)
    requires operation.acknowledgedAt.Some? && operation.acknowledgedAt.value <= events[k].index
    ensures var blame := FirstBlame(st, events, operation, 0);
            blame.Some? ==>
              && blame.value.position <= k
              && IsFree(events, k, blame.value.position)
              && !IsPinned(events, k, blame.value.position)
              && blame.value.position in Window(events, k, bounds.maxUnpersistedWindow)
  {
    hide StatesAt, AlwaysPresent, Window, IsPinned;
    var w := bounds.maxUnpersistedWindow;
    var blame := FirstBlame(st, events, operation, 0);
    ListedWellFormed(events, k, model, bounds, st);
    if blame.Some? {
      var i := blame.value.position;
      StampOrdersEvents(events, k, i);
      AlwaysMembers(events, k, w);
      if i !in st.persisted && !IsTorn(st, i) {
        assert i !in AlwaysPresent(events, k, w);
        assert IsFree(events, k, i) && InWindow(events, k, w, i);
        assert w >= 1;
        WindowMembers(events, k, w);
      }
    }
  }

  /** Persisting more, with nothing torn, never moves the blame earlier. */
  lemma {:induction false} GrowthMovesBlameLater(events: seq<Event>, small: CrashState, large: CrashState,
        operation: AckedOperation)
    requires small.partial == [] && large.partial == []
    requires forall i :: i in small.persisted ==> i in large.persisted
    ensures var before := FirstBlame(small, events, operation, 0);
            var after := FirstBlame(large, events, operation, 0);
            after.Some? ==> before.Some? && before.value.position <= after.value.position
  {
    var after := FirstBlame(large, events, operation, 0);
    if after.Some? {
      assert Blameable(small, events, operation, after.value.position);
    }
  }

  // ---------------------------------------------------------------- signatures identify what they name

  lemma CallNamesDistinct(a: Call, b: Call)
    requires CallName(a) == CallName(b)
    ensures a == b
  {}

  lemma CallNamePlain(c: Call)
    ensures '@' !in CallName(c) && '/' !in CallName(c)
  {}

  /** Text up to the first separator is determined. */
  lemma SplitAt(a: string, b: string, x: string, y: string, sep: char)
    requires sep !in a && sep !in b
    requires a + [sep] + x == b + [sep] + y
    ensures a == b && x == y
  {
    var s := a + [sep] + x;
    assert s[|a|] == sep && s[|b|] == sep;
    forall i | 0 <= i < |a| ensures s[i] != sep { assert s[i] == a[i] && a[i] in a; }
    forall i | 0 <= i < |b| ensures s[i] != sep { assert s[i] == b[i] && b[i] in b; }
    assert |a| == |b|;
    assert s[..|a|] == a && s[..|b|] == b;
    assert s[|a| + 1..] == x && s[|b| + 1..] == y;
  }

  /** What a signature names: a violation class, and the torn or missing call on a base name. */
  datatype Cause = Cause(violationClass: ViolationClass, blamed: bool, torn: bool, call: Call, name: string)

  ghost function CauseOf(v: Violation, st: CrashState, events: seq<Event>, operation: AckedOperation): Cause {
    var blame := FirstBlame(st, events, operation, 0);
    if blame.None? then Cause(v.violationClass, false, false, Open, "")
    else
      var e := events[blame.value.position];
      Cause(v.violationClass, true, blame.value.torn, e.call, Basename(e.path))
  }

  ghost function CauseText(c: Cause): string {
    ClassName(c.violationClass) + "|" +
    (if !c.blamed then "missing:none"
     else (if c.torn then "torn:" else "missing:") + (CallName(c.call) + "@" + c.name))
  }

  ghost function CallText(c: Cause): string {
    if c.blamed then CallName(c.call) + "@" + c.name else "none"
  }

  lemma CallTextInjective(a: Cause, b: Cause)
    requires CallText(a) == CallText(b)
    ensures a.blamed == b.blamed
    ensures a.blamed ==> a.call == b.call && a.name == b.name
  {
    assert a.blamed ==> CallText(a)[|CallName(a.call)|] == '@';
    assert b.blamed ==> CallText(b)[|CallName(b.call)|] == '@';
    hide CallName;
    assert a.blamed ==> '@' in CallText(a);
    assert b.blamed ==> '@' in CallText(b);
    assert '@' !in "none";
    if a.blamed {
      CallNamePlain(a.call);
      CallNamePlain(b.call);
      SplitAt(CallName(a.call), CallName(b.call), a.name, b.name, '@');
      CallNamesDistinct(a.call, b.call);
    }
  }

  ghost function KindText(c: Cause): string { if c.torn then "torn" else "missing" }

  lemma KindTextPlain(c: Cause)
    ensures ':' !in KindText(c)
    ensures CauseText(c) == ClassName(c.violationClass) + ['|'] + (KindText(c) + [':'] + CallText(c))
            || (!c.blamed && c.torn)
  {
    hide CallName, ClassName;
    if c.blamed || !c.torn {
      assert (if !c.blamed then "missing:none"
             else (if c.torn then "torn:" else "missing:") + (CallName(c.call) + "@" + c.name))
          == KindText(c) + [':'] + CallText(c);
    }
  }

  lemma ClassNamesPlain(a: ViolationClass, b: ViolationClass)
    ensures '|' !in ClassName(a)
    ensures ClassName(a) == ClassName(b) ==> a == b
  {}

  lemma CauseTextInjective(a: Cause, b: Cause)
    requires a.blamed || (!a.torn && a.call == Open && a.name == "")
    requires b.blamed || (!b.torn && b.call == Open && b.name == "")
    requires CauseText(a) == CauseText(b)
    ensures a == b
  {
    KindTextPlain(a);
    KindTextPlain(b);
    ClassNamesPlain(a.violationClass, b.violationClass);
    ClassNamesPlain(b.violationClass, a.violationClass);
    hide ClassName, CallText, CauseText;
    SplitAt(ClassName(a.violationClass), ClassName(b.violationClass),
            KindText(a) + [':'] + CallText(a), KindText(b) + [':'] + CallText(b), '|');
    SplitAt(KindText(a), KindText(b), CallText(a), CallText(b), ':');
    CallTextInjective(a, b);
    assert a.torn == b.torn by {
      assert |KindText(a)| == |KindText(b)|;
    }
  }

  /** Two violations share a signature exactly when they share class, torn flag, call and base name. */
  lemma SignatureIdentifiesCause(v: Violation, st: CrashState, operation: AckedOperation,
        v': Violation, st': CrashState, operation': AckedOperation, events: seq<Event>)
    ensures SignatureOf(v, st, events, operation) == SignatureOf(v', st', events, operation')
       <==> CauseOf(v, st, events, operation) == CauseOf(v', st', events, operation')
  {
    var a := CauseOf(v, st, events, operation);
    var b := CauseOf(v', st', events, operation');
    hide FirstBlame, CallName, ClassName, Basename;
    assert SignatureOf(v, st, events, operation) == CauseText(a);
    assert SignatureOf(v', st', events, operation') == CauseText(b);
    hide SignatureOf, CauseText;
    if CauseText(a) == CauseText(b) {
      CauseTextInjective(a, b);
    }
  }

  // ---------------------------------------------------------------- blame in the fields of the events

  /** Event `i` changed a file while the operation was in flight, and the state does not have it whole. */
  ghost predicate Missed(st: CrashState, events: seq<Event>, operation: AckedOperation, i: nat) {
    && i < |events|
    && events[i].call in {Write, Pwrite, Writev, Truncate, Ftruncate, Mkdir, Unlink, Link, Rename}
    && events[i].returnValue >= 0
    && operation.beganAt <= events[i].index
    && (operation.acknowledgedAt.Some? ==> events[i].index <= operation.acknowledgedAt.value)
    && (TornIn(st, i) || i !in st.persisted)
  }

  ghost predicate TornIn(st: CrashState, i: nat) {
    exists t :: 0 <= t < |st.partial| && st.partial[t].op == i
  }

  /** The blame falls on the first such event, torn or missing as it is, and on none where there is none. */
  lemma {:induction false} BlameIsTheFirstMissed(st: CrashState, events: seq<Event>, operation: AckedOperation)
    ensures match FirstBlame(st, events, operation, 0)
            case None => forall i: nat :: !Missed(st, events, operation, i)
            case Some(blame) =>
              && Missed(st, events, operation, blame.position)
              && (forall i: nat :: i < blame.position ==> !Missed(st, events, operation, i))
              && (blame.torn <==> TornIn(st, blame.position))
  {
    forall i: nat ensures Missed(st, events, operation, i) <==> Blameable(st, events, operation, i) {
      TornEitherWay(st, i);
    }
    var blame := FirstBlame(st, events, operation, 0);
    if blame.Some? {
      TornEitherWay(st, blame.value.position);
    }
    hide FirstBlame, Missed, Blameable;
  }

  lemma TornEitherWay(st: CrashState, i: nat)
    ensures TornIn(st, i) <==> IsTorn(st, i)
  {
    if t :| 0 <= t < |st.partial| && st.partial[t].op == i {
      assert st.partial[t] in st.partial;
    }
  }

  /** What is written of it: the class, whether the event is torn or missing, its call, and the part of its path
      after the last slash. */
  lemma SignatureInFull(v: Violation, st: CrashState, events: seq<Event>, operation: AckedOperation, i: nat,
        directory: string, name: string)
    requires Missed(st, events, operation, i) && forall j: nat :: j < i ==> !Missed(st, events, operation, j)
    requires events[i].path == directory + name && '/' !in name
    requires directory == "" || directory[|directory| - 1] == '/'
    ensures SignatureOf(v, st, events, operation)
         == ClassName(v.violationClass) + "|"
            + ((if TornIn(st, i) then "torn:" else "missing:") + (CallName(events[i].call) + "@" + name))
  {
    BlameIsTheFirstMissed(st, events, operation);
    BasenameOf(directory, name);
    hide TornIn, FirstBlame, CallName, ClassName, Basename;
    assert FirstBlame(st, events, operation, 0).value.position == i;
  }

  lemma SignatureOfNothing(v: Violation, st: CrashState, events: seq<Event>, operation: AckedOperation)
    requires forall i: nat :: !Missed(st, events, operation, i)
    ensures SignatureOf(v, st, events, operation) == ClassName(v.violationClass) + "|" + "missing:none"
  {
    BlameIsTheFirstMissed(st, events, operation);
    hide Missed, FirstBlame, ClassName;
  }

  /** Calls and classes go by the names the trace format and the report give them. */
  lemma NamesAreTheFormats()
    ensures CallName(Write) == "write" && CallName(Pwrite) == "pwrite" && CallName(Writev) == "writev"
    ensures CallName(Truncate) == "truncate" && CallName(Ftruncate) == "ftruncate"
    ensures CallName(Mkdir) == "mkdir" && CallName(Unlink) == "unlink"
    ensures CallName(Link) == "link" && CallName(Rename) == "rename"
    ensures ClassName(LostAcked) == "LOST_ACKED" && ClassName(CorruptInvariant) == "CORRUPT_INVARIANT"
    ensures ClassName(RecoveryFailed) == "RECOVERY_FAILED" && ClassName(PhantomUnacked) == "PHANTOM_UNACKED"
  {}

  lemma {:induction false} BasenameOf(directory: string, name: string)
    requires '/' !in name && (directory == "" || directory[|directory| - 1] == '/')
    ensures Basename(directory + name) == name
  {
    var path := directory + name;
    var r := Basename(path);
    hide Basename;
    assert path[|path| - |name|..] == name;
    NotLonger(path, r, name);
    NotLonger(path, name, r);
  }

  /** A part after a slash that has no slash of its own is no longer than another. */
  lemma NotLonger(path: string, a: string, b: string)
    requires '/' !in a && |a| <= |path| && a == path[|path| - |a|..]
    requires |b| <= |path| && (|b| < |path| ==> path[|path| - |b| - 1] == '/')
    ensures |a| <= |b|
  {
    forall k | |path| - |a| <= k < |path| ensures path[k] != '/' {
      assert a[k - (|path| - |a|)] == path[k];
    }
  }
}
