/** Replaying a trace, or the part of it a crash state kept, onto a directory of files. */
module Replay {
  import opened Traces
  import opened Bits
  import opened States
  import opened Legality
  import opened CrashSpace

  /** Captured payloads by digest. */
  type Store = map<string, seq<Byte>>

  /** A directory: each name leads to a file, and two names may lead to the same one. */
  datatype Directory = Directory(names: map<string, nat>, files: seq<seq<Byte>>)

  type Disk = d: Directory | Linked(d) witness Directory(map[], [])

  ghost predicate Linked(d: Directory) {
    forall p :: p in d.names ==> d.names[p] < |d.files|
  }

  const EMPTY_DISK: Disk := Directory(map[], [])

  datatype ReplayError = PayloadMissing | OffsetRefused | NameTaken

  /** The directory as a call leaves it, and the exception it raised if it raised one. */
  datatype Step = Step(disk: Disk, error: Option<ReplayError>)

  // ---------------------------------------------------------------- one file's contents

  /** What one call does to the bytes of its file. */
  datatype Edit = Put(offset: nat, payload: seq<Byte>) | Resize(length: nat)

  function Max(a: nat, b: nat): nat { if a < b then b else a }

  /** `pwrite` and `ftruncate`: a gap reads as zero, and an empty write extends nothing. */
  function Edited(content: seq<Byte>, e: Edit): seq<Byte> {
    match e
    case Put(offset, payload) =>
      if payload == [] then content else
        seq(Max(|content|, offset + |payload|), x requires 0 <= x =>
          if offset <= x < offset + |payload| then payload[x - offset] else if x < |content| then content[x] else 0)
    case Resize(length) =>
      seq(length, x requires 0 <= x => if x < |content| then content[x] else 0)
  }

  function EditedAll(content: seq<Byte>, edits: seq<Edit>): seq<Byte> {
    if edits == [] then content else Edited(EditedAll(content, edits[..|edits| - 1]), edits[|edits| - 1])
  }

  // ---------------------------------------------------------------- one call

  /** `ensureFile`: the name exists afterwards, and its contents are untouched. */
  function Touched(d: Disk, path: string): (r: Disk)
    ensures path in r.names
  {
    if path in d.names then d else Directory(d.names[path := |d.files|], d.files + [[]])
  }

  function EditedAt(d: Disk, path: string, e: Edit): Disk
    requires path in d.names
  {
    d.(files := d.files[d.names[path] := Edited(d.files[d.names[path]], e)])
  }

  /** `rename`: the target name is replaced, except that two names of one file both stay. */
  function Renamed(d: Disk, from: string, to: string): Disk
    requires from in d.names
  {
    if to in d.names && d.names[to] == d.names[from] then d
    else d.(names := d.names[to := d.names[from]] - {from})
  }

  /** The payload that reaches the disk, cut to `bytes` when the call is torn. */
  function Reached(payload: seq<Byte>, bytes: Option<nat>): seq<Byte> {
    if bytes.Some? && bytes.value < |payload| then payload[..bytes.value] else payload
  }

  function Written(d: Disk, e: Event, store: Store, bytes: Option<nat>): Step {
    if e.digest !in store then Step(d, Some(PayloadMissing))
    else if e.offset < 0 then Step(Touched(d, e.path), Some(OffsetRefused))
    else Step(EditedAt(Touched(d, e.path), e.path, Put(e.offset, Reached(store[e.digest], bytes))), None)
  }

  function LinkedTo(d: Disk, from: string, to: string): Step
    requires from in d.names
  {
    if to in d.names then Step(d, Some(NameTaken)) else Step(d.(names := d.names[to := d.names[from]]), None)
  }

  function Applied(d: Disk, e: Event, store: Store, bytes: Option<nat>): Step {
    match e.call
    case Write | Pwrite | Writev => Written(d, e, store, bytes)
    case Truncate | Ftruncate => Step(EditedAt(Touched(d, e.path), e.path, Resize(e.length)), None)
    case Mkdir => Step(d, if e.path in d.names then Some(NameTaken) else None)
    case Rename => Step(Renamed(Touched(d, e.path), e.path, e.path2), None)
    case Link => LinkedTo(Touched(d, e.path), e.path, e.path2)
    case Unlink => Step(d.(names := d.names - {e.path}), None)
    case _ => Step(d, None)
  }

  // ---------------------------------------------------------------- a whole replay

  /** Which calls take part, and how many bytes of each torn one. */
  datatype Selection = Selection(whole: set<nat>, torn: map<nat, nat>)

  predicate Selects(sel: Selection, i: nat) { i in sel.whole || i in sel.torn }

  function BytesOf(sel: Selection, i: nat): Option<nat> { if i in sel.torn then Some(sel.torn[i]) else None }

  function TornBytes(partial: seq<Torn>): map<nat, nat> {
    if partial == [] then map[] else
      TornBytes(partial[..|partial| - 1])[partial[|partial| - 1].op := partial[|partial| - 1].bytes]
  }

  function SelectionOf(st: CrashState): Selection { Selection(ToSet(st.persisted), TornBytes(st.partial)) }

  /** The first `n` calls replayed; an exception ends the replay where it stands. */
  function Replayed(d: Disk, events: seq<Event>, store: Store, sel: Selection, n: nat): Step
    requires n <= |events|
  {
    if n == 0 then Step(d, None) else
      var before := Replayed(d, events, store, sel, n - 1);
      if before.error.Some? || !Selects(sel, n - 1) then before
      else Applied(before.disk, events[n - 1], store, BytesOf(sel, n - 1))
  }

  /** Every call that did not fail. */
  function ReplayedTrace(d: Disk, events: seq<Event>, store: Store, n: nat): Step
    requires n <= |events|
  {
    if n == 0 then Step(d, None) else
      var before := ReplayedTrace(d, events, store, n - 1);
      if before.error.Some? || events[n - 1].returnValue < 0 then before
      else Applied(before.disk, events[n - 1], store, None)
  }

  // ---------------------------------------------------------------- the directory in place

  class FileSystem {
    var names: map<string, nat>
    var files: seq<seq<Byte>>

    ghost predicate Valid() reads this { Linked(Directory(names, files)) }

    ghost function State(): Disk
      requires Valid()
      reads this
    { Directory(names, files) }

    constructor ()
      ensures Valid() && State() == EMPTY_DISK
    {
      names, files := map[], [];
    }

    method EnsureFile(path: string)
      requires Valid()
      modifies this
      ensures Valid() && State() == Touched(old(State()), path)
    {
      if path !in names {
        names := names[path := |files|];
        files := files + [[]];
      }
    }

    method ApplyWrite(event: Event, store: Store, bytes: Option<nat>) returns (error: Option<ReplayError>)
      requires Valid()
      modifies this
      ensures Valid() && Step(State(), error) == Written(old(State()), event, store, bytes)
    {
      if event.digest !in store {
        return Some(PayloadMissing);
      }
      var payload := store[event.digest];
      if bytes.Some? && bytes.value < |payload| {
        payload := payload[..bytes.value];
      }
      EnsureFile(event.path);
      if event.offset < 0 {
        return Some(OffsetRefused);
      }
      WriteAt(names[event.path], payload, event.offset);
      return None;
    }

    /** One positional write of a whole buffer. */
    method WriteAt(file: nat, payload: seq<Byte>, offset: nat)
      requires Valid() && file < |files|
      modifies this`files
      ensures Valid() && files == old(files)[file := Edited(old(files[file]), Put(offset, payload))]
    {
      if payload == [] {
        return;
      }
      var content := files[file];
      if |content| < offset {
        content := content + seq(offset - |content|, _ => 0);
      }
      var rest := if offset + |payload| < |content| then content[offset + |payload|..] else [];
      var after := content[..offset] + payload + rest;
      assert after == Edited(old(files[file]), Put(offset, payload));
      files := files[file := after];
    }

    method SetLength(file: nat, length: nat)
      requires Valid() && file < |files|
      modifies this`files
      ensures Valid() && files == old(files)[file := Edited(old(files[file]), Resize(length))]
    {
      var content := files[file];
      var after := if length <= |content| then content[..length] else content + seq(length - |content|, _ => 0);
      assert after == Edited(content, Resize(length));
      files := files[file := after];
    }

    method MoveName(from: string, to: string)
      requires Valid() && from in names
      modifies this`names
      ensures Valid() && State() == Renamed(old(State()), from, to)
    {
      if to in names && names[to] == names[from] {
        return;
      }
      names := names[to := names[from]] - {from};
    }

    method ApplySelected(event: Event, store: Store, bytes: Option<nat>) returns (error: Option<ReplayError>)
      requires Valid()
      modifies this
      ensures Valid() && Step(State(), error) == Applied(old(State()), event, store, bytes)
    {
      error := None;
      match event.call {
        case Write => error := ApplyWrite(event, store, bytes);
        case Pwrite => error := ApplyWrite(event, store, bytes);
        case Writev => error := ApplyWrite(event, store, bytes);
        case Truncate =>
          EnsureFile(event.path);
          SetLength(names[event.path], event.length);
        case Ftruncate =>
          EnsureFile(event.path);
          SetLength(names[event.path], event.length);
        case Mkdir =>
          if event.path in names {
            error := Some(NameTaken);
          }
        case Rename =>
          EnsureFile(event.path);
          MoveName(event.path, event.path2);
        case Link =>
          EnsureFile(event.path);
          if event.path2 in names {
            error := Some(NameTaken);
          } else {
            names := names[event.path2 := names[event.path]];
          }
        case Unlink =>
          names := names - {event.path};
        case _ =>
      }
    }

    method ReplaySelection(events: seq<Event>, store: Store, st: CrashState) returns (error: Option<ReplayError>)
      requires Valid()
      modifies this
      ensures Valid()
      ensures Step(State(), error) == Replayed(old(State()), events, store, SelectionOf(st), |events|)
    {
      hide Applied;
      var tornBytes: map<nat, nat> := map[];
      for n := 0 to |st.partial|
        invariant tornBytes == TornBytes(st.partial[..n])
        invariant unchanged(this)
      {
        assert st.partial[..n + 1][..n] == st.partial[..n];
        tornBytes := tornBytes[st.partial[n].op := st.partial[n].bytes];
      }
      assert st.partial[..|st.partial|] == st.partial;
      var whole := ToSet(st.persisted);
      for index := 0 to |events|
        invariant Valid()
        invariant Step(State(), None) == Replayed(old(State()), events, store, SelectionOf(st), index)
      {
        if index !in whole && index !in tornBytes {
          continue;
        }
        error := ApplySelected(events[index], store, if index in tornBytes then Some(tornBytes[index]) else None);
        if error.Some? {
          StopsAt(old(State()), events, store, SelectionOf(st), index + 1);
          return;
        }
      }
      return None;
    }

    method ReplayTrace(events: seq<Event>, store: Store) returns (error: Option<ReplayError>)
      requires Valid()
      modifies this
      ensures Valid()
      ensures Step(State(), error) == ReplayedTrace(old(State()), events, store, |events|)
    {
      hide Applied;
      for index := 0 to |events|
        invariant Valid()
        invariant Step(State(), None) == ReplayedTrace(old(State()), events, store, index)
      {
        if events[index].returnValue < 0 {
          continue;
        }
        error := ApplySelected(events[index], store, None);
        if error.Some? {
          TraceStopsAt(old(State()), events, store, index + 1);
          return;
        }
      }
      return None;
    }
  }

  lemma {:induction false} StopsAt(d: Disk, events: seq<Event>, store: Store, sel: Selection, n: nat)
    requires n <= |events| && Replayed(d, events, store, sel, n).error.Some?
    ensures Replayed(d, events, store, sel, |events|) == Replayed(d, events, store, sel, n)
    decreases |events| - n
  {
    hide Applied;
    if n < |events| { StopsAt(d, events, store, sel, n + 1); }
  }

  lemma {:induction false} TraceStopsAt(d: Disk, events: seq<Event>, store: Store, n: nat)
    requires n <= |events| && ReplayedTrace(d, events, store, n).error.Some?
    ensures ReplayedTrace(d, events, store, |events|) == ReplayedTrace(d, events, store, n)
    decreases |events| - n
  {
    hide Applied;
    if n < |events| { TraceStopsAt(d, events, store, n + 1); }
  }

  // ---------------------------------------------------------------- last writer wins, byte by byte

  /** The edit makes the file longer than `x`. */
  predicate Reaches(e: Edit, x: nat) {
    match e
    case Put(offset, payload) => payload != [] && x < offset + |payload|
    case Resize(length) => x < length
  }

  /** The edit makes the file no longer than `x`. */
  predicate Cuts(e: Edit, x: nat) { e.Resize? && e.length <= x }

  /** The edit puts a byte of its payload at `x`. */
  predicate Covers(e: Edit, x: nat) { e.Put? && e.offset <= x < e.offset + |e.payload| }

  /** Edit `j` is the last to put or cut byte `x`. */
  ghost predicate DecidesByte(edits: seq<Edit>, j: nat, x: nat) {
    && j < |edits|
    && (Covers(edits[j], x) || Cuts(edits[j], x))
    && forall i :: j < i < |edits| ==> !Covers(edits[i], x) && !Cuts(edits[i], x)
  }

  /** Edit `j` takes the file past `x` and none after it cuts it back. */
  ghost predicate DecidesLength(edits: seq<Edit>, j: nat, x: nat) {
    && j < |edits| && Reaches(edits[j], x)
    && forall i :: j < i < |edits| ==> !Cuts(edits[i], x)
  }

  ghost predicate Untouched(edits: seq<Edit>, x: nat) {
    forall i :: 0 <= i < |edits| ==> !Covers(edits[i], x) && !Cuts(edits[i], x)
  }

  ghost predicate NeverCut(edits: seq<Edit>, x: nat) {
    forall i :: 0 <= i < |edits| ==> !Cuts(edits[i], x)
  }

  /** Which positions a file has: those some edit reaches with no later cut, or that it always had. */
  lemma {:induction false} LengthIsDecided(content: seq<Byte>, edits: seq<Edit>, x: nat)
    ensures x < |EditedAll(content, edits)|
       <==> (exists j: nat :: DecidesLength(edits, j, x)) || (x < |content| && NeverCut(edits, x))
  {
    if edits != [] {
      var n := |edits| - 1;
      var rest := edits[..n];
      LengthIsDecided(content, rest, x);
      if Cuts(edits[n], x) {
        forall j: nat ensures !DecidesLength(edits, j, x) { assert j < n ==> Cuts(edits[n], x); }
        assert !NeverCut(edits, x);
      } else {
        forall j: nat ensures DecidesLength(edits, j, x)
            <==> (j == n && Reaches(edits[n], x)) || DecidesLength(rest, j, x) {
          assert j < n ==> edits[j] == rest[j];
        }
        assert Reaches(edits[n], x) ==> DecidesLength(edits, n, x);
        assert (exists j: nat :: DecidesLength(edits, j, x))
               <==> Reaches(edits[n], x) || exists j: nat :: DecidesLength(rest, j, x);
        assert NeverCut(edits, x) <==> NeverCut(rest, x);
        assert x < |EditedAll(content, edits)| <==> x < |EditedAll(content, rest)| || Reaches(edits[n], x);
      }
    }
  }

  lemma OneEdit(content: seq<Byte>, e: Edit, x: nat)
    ensures x < |Edited(content, e)| <==> Reaches(e, x) || (x < |content| && !Cuts(e, x))
    ensures x < |Edited(content, e)| ==>
              Edited(content, e)[x] == if Covers(e, x) then e.payload[x - e.offset]
                  else if x < |content| then content[x] else 0
  {}

  lemma {:induction false} DecidedByteValue(content: seq<Byte>, edits: seq<Edit>, j: nat, x: nat)
    requires DecidesByte(edits, j, x)
    ensures if x < |EditedAll(content, edits)|
            then EditedAll(content, edits)[x] == if edits[j].Put? then edits[j].payload[x - edits[j].offset] else 0
            else edits[j].Resize?
  {
    var n := |edits| - 1;
    var before := EditedAll(content, edits[..n]);
    OneEdit(before, edits[n], x);
    assert EditedAll(content, edits) == Edited(before, edits[n]);
    hide EditedAll, Edited;
    if j < n {
      assert DecidesByte(edits[..n], j, x);
      DecidedByteValue(content, edits[..n], j, x);
    }
  }

  lemma {:induction false} UntouchedByteValue(content: seq<Byte>, edits: seq<Edit>, x: nat)
    requires Untouched(edits, x)
    ensures if x < |EditedAll(content, edits)|
            then EditedAll(content, edits)[x] == if x < |content| then content[x] else 0
            else x >= |content|
  {
    if edits != [] {
      var n := |edits| - 1;
      OneEdit(EditedAll(content, edits[..n]), edits[n], x);
      UntouchedByteValue(content, edits[..n], x);
    }
  }

  lemma SomeDecision(edits: seq<Edit>, x: nat)
    ensures Untouched(edits, x) || exists j: nat :: DecidesByte(edits, j, x)
  {
    if edits != [] {
      var n := |edits| - 1;
      if Covers(edits[n], x) || Cuts(edits[n], x) {
        assert DecidesByte(edits, n, x);
      } else {
        SomeDecision(edits[..n], x);
        if j: nat :| DecidesByte(edits[..n], j, x) {
          assert DecidesByte(edits, j, x);
        }
      }
    }
  }

  /** Which byte stands there: the payload byte of the last edit to decide it, zero where that edit was a
      cut or nothing was ever put, else the byte that was there to begin with. */
  lemma {:induction false} ByteIsDecided(content: seq<Byte>, edits: seq<Edit>, x: nat)
    requires x < |EditedAll(content, edits)|
    ensures Untouched(edits, x) || exists j: nat :: DecidesByte(edits, j, x)
    ensures forall j: nat :: DecidesByte(edits, j, x) ==>
              EditedAll(content, edits)[x] == if edits[j].Put? then edits[j].payload[x - edits[j].offset] else 0
    ensures Untouched(edits, x) ==> EditedAll(content, edits)[x] == if x < |content| then content[x] else 0
  {
    SomeDecision(edits, x);
    forall j: nat | DecidesByte(edits, j, x)
      ensures EditedAll(content, edits)[x] == if edits[j].Put? then edits[j].payload[x - edits[j].offset] else 0
    {
      DecidedByteValue(content, edits, j, x);
    }
    if Untouched(edits, x) {
      UntouchedByteValue(content, edits, x);
    }
  }

  // ---------------------------------------------------------------- a file's own calls

  function EditOf(e: Event, store: Store, bytes: Option<nat>): Edit
    requires IsWrite(e.call) || IsTruncate(e.call)
  {
    if IsTruncate(e.call) then Resize(e.length)
    else Put(if e.offset < 0 then 0 else e.offset, Reached(if e.digest in store then store[e.digest] else [], bytes))
  }

  predicate Edits(e: Event, p: string) { (IsWrite(e.call) || IsTruncate(e.call)) && e.path == p }

  /** The edits the selection makes to `p`, in order: a torn write puts a prefix of its payload. */
  function FileEdits(events: seq<Event>, store: Store, sel: Selection, p: string, n: nat): seq<Edit>
    requires n <= |events|
  {
    if n == 0 then [] else
      FileEdits(events, store, sel, p, n - 1)
      + (if Selects(sel, n - 1) && Edits(events[n - 1], p) then [EditOf(events[n - 1], store, BytesOf(sel, n - 1))]
          else [])
  }

  function FileAt(d: Disk, p: string): Option<seq<Byte>> {
    if p in d.names then Some(d.files[d.names[p]]) else None
  }

  function ContentOf(file: Option<seq<Byte>>): seq<Byte> { if file.Some? then file.value else [] }

  /** `p` shares its file with no other name. */
  ghost predicate Unshared(d: Disk, p: string) {
    p in d.names ==> forall q :: q in d.names && q != p ==> d.names[q] != d.names[p]
  }

  /** The call renames, links and unlinks other names only. */
  predicate SparesName(e: Event, p: string) {
    && (e.call == Rename || e.call == Link ==> e.path != p && e.path2 != p)
    && (e.call == Unlink ==> e.path != p)
  }

  lemma TouchedFile(d: Disk, path: string, p: string)
    ensures Unshared(d, p) ==> Unshared(Touched(d, path), p)
    ensures FileAt(Touched(d, path), p) == if p == path then Some(ContentOf(FileAt(d, p))) else FileAt(d, p)
  {}

  lemma EditedFile(d: Disk, path: string, e: Edit, p: string)
    requires path in d.names && Unshared(d, p)
    ensures Unshared(EditedAt(d, path, e), p)
    ensures FileAt(EditedAt(d, path, e), p) == if p == path then Some(Edited(ContentOf(FileAt(d, p)), e))
               else FileAt(d, p)
  {}

  lemma RenamedFile(d: Disk, from: string, to: string, p: string)
    requires from in d.names && Unshared(d, p) && p != from && p != to
    ensures Unshared(Renamed(d, from, to), p)
    ensures FileAt(Renamed(d, from, to), p) == FileAt(d, p)
  {}

  lemma LinkedFile(d: Disk, from: string, to: string, p: string)
    requires from in d.names && Unshared(d, p) && p != from && p != to
    ensures Unshared(LinkedTo(d, from, to).disk, p)
    ensures FileAt(LinkedTo(d, from, to).disk, p) == FileAt(d, p)
  {}

  /** One call, seen from a name that it may edit but not move. */
  lemma AppliedToFile(d: Disk, e: Event, store: Store, bytes: Option<nat>, p: string)
    requires Unshared(d, p) && SparesName(e, p) && Applied(d, e, store, bytes).error.None?
    ensures Unshared(Applied(d, e, store, bytes).disk, p)
    ensures FileAt(Applied(d, e, store, bytes).disk, p)
         == if Edits(e, p) then Some(Edited(ContentOf(FileAt(d, p)), EditOf(e, store, bytes))) else FileAt(d, p)
  {
    hide Unshared, FileAt, Edited, Touched, Renamed;
    var touched := Touched(d, e.path);
    TouchedFile(d, e.path, p);
    match e.call
    case Write | Pwrite | Writev => EditedFile(touched, e.path, Put(e.offset, Reached(store[e.digest], bytes)), p);
    case Truncate | Ftruncate => EditedFile(touched, e.path, Resize(e.length), p);
    case Rename => RenamedFile(touched, e.path, e.path2, p);
    case Link => LinkedFile(touched, e.path, e.path2, p);
    case Unlink => UnlinkedFile(d, e.path, p);
    case _ =>
  }

  lemma UnlinkedFile(d: Disk, path: string, p: string)
    requires Unshared(d, p) && p != path
    ensures Unshared(d.(names := d.names - {path}), p)
    ensures FileAt(d.(names := d.names - {path}), p) == FileAt(d, p)
  {}

  /** A replay leaves in each file exactly the edits selected on it, whatever else was selected: a name
      that is not renamed, linked or unlinked depends only on the writes and truncates of its own path. */
  lemma {:induction false} FileIsItsEdits(d: Disk, events: seq<Event>, store: Store, sel: Selection, p: string, n: nat)
    requires n <= |events| && Unshared(d, p)
    requires forall i: nat :: i < n && Selects(sel, i) ==> SparesName(events[i], p)
    requires Replayed(d, events, store, sel, n).error.None?
    ensures Unshared(Replayed(d, events, store, sel, n).disk, p)
    ensures FileAt(Replayed(d, events, store, sel, n).disk, p)
         == var edits := FileEdits(events, store, sel, p, n);
            if edits == [] then FileAt(d, p) else Some(EditedAll(ContentOf(FileAt(d, p)), edits))
  {
    hide Unshared, FileAt, Edited, EditedAll, Applied, SparesName;
    if n > 0 {
      FileIsItsEdits(d, events, store, sel, p, n - 1);
      assert FileEdits(events, store, sel, p, n - 1) + [] == FileEdits(events, store, sel, p, n - 1);
      if Selects(sel, n - 1) {
        AppliedToFile(Replayed(d, events, store, sel, n - 1).disk, events[n - 1], store, BytesOf(sel, n - 1), p);
        if Edits(events[n - 1], p) {
          var before := FileEdits(events, store, sel, p, n - 1);
          var e := EditOf(events[n - 1], store, BytesOf(sel, n - 1));
          SnocEdit(ContentOf(FileAt(d, p)), before, e);
          assert FileEdits(events, store, sel, p, n) == before + [e];
          assert before == [] ==> EditedAll(ContentOf(FileAt(d, p)), before) == ContentOf(FileAt(d, p));
        }
      }
    }
  }

  lemma {:induction false} SnocEdit(content: seq<Byte>, edits: seq<Edit>, e: Edit)
    ensures EditedAll(content, edits + [e]) == Edited(EditedAll(content, edits), e)
    ensures EditedAll(content, []) == content
  {
    assert (edits + [e])[..|edits|] == edits;
  }

  // ---------------------------------------------------------------- what happens to names

  /** A rename carries the file over, its contents whatever they were, and takes the old name away unless
      both names already led to that file. Every other name keeps its file. */
  lemma RenameCarriesOver(d: Disk, e: Event, store: Store)
    requires e.call == Rename
    ensures var after := Applied(d, e, store, None);
            && after.error.None?
            && FileAt(after.disk, e.path2) == Some(ContentOf(FileAt(d, e.path)))
            && (e.path in after.disk.names
                <==> e.path == e.path2
                     || (e.path in d.names && e.path2 in d.names && d.names[e.path] == d.names[e.path2]))
            && forall q :: q != e.path && q != e.path2 ==> FileAt(after.disk, q) == FileAt(d, q)
  {}

  /** A link fails exactly when the new name is taken; otherwise both names lead to one file, so what is
      then written through one is read through the other. */
  lemma LinkShares(d: Disk, e: Event, store: Store, edit: Edit)
    requires e.call == Link
    ensures var after := Applied(d, e, store, None);
            && (after.error.Some? <==> e.path2 in d.names || e.path == e.path2)
            && (after.error.None? ==>
                  && e.path in after.disk.names && e.path2 in after.disk.names
                  && FileAt(after.disk, e.path2) == Some(ContentOf(FileAt(d, e.path)))
                  && FileAt(EditedAt(after.disk, e.path, edit), e.path2)
                  == Some(Edited(ContentOf(FileAt(d, e.path)), edit)))
  {}

  /** An unlink takes one name away, missing or not, and no contents. */
  lemma UnlinkTakesOneName(d: Disk, e: Event, store: Store)
    requires e.call == Unlink
    ensures var after := Applied(d, e, store, None);
            && after.error.None? && FileAt(after.disk, e.path) == None
            && forall q :: q != e.path ==> FileAt(after.disk, q) == FileAt(d, q)
  {}

  // ---------------------------------------------------------------- against the full replay

  lemma IdleCallsDoNothing(d: Disk, e: Event, store: Store, bytes: Option<nat>)
    requires !IsMutating(e.call)
    ensures Applied(d, e, store, bytes) == Step(d, None)
  {}

  predicate SameCall(a: Event, b: Event) { b == a.(returnValue := b.returnValue) }

  lemma ReturnsDoNotMatter(d: Disk, a: Event, b: Event, store: Store, bytes: Option<nat>)
    requires SameCall(a, b)
    ensures Applied(d, a, store, bytes) == Applied(d, b, store, bytes)
  {}

  /** Selecting the mutations that succeeded in `told`, whole, replays as `told` does. */
  lemma {:induction false} SelectingAllIsTheTrace(d: Disk, events: seq<Event>, told: seq<Event>, store: Store,
        sel: Selection, n: nat)
    requires n <= |events| == |told| && sel.torn == map[]
    requires forall i: nat :: i < n ==> SameCall(events[i], told[i])
    requires forall i: nat :: i < n && IsMutating(events[i].call) ==> (i in sel.whole <==> Succeeded(told[i]))
    ensures Replayed(d, events, store, sel, n) == ReplayedTrace(d, told, store, n)
  {
    hide Applied, IsMutating;
    if n > 0 {
      SelectingAllIsTheTrace(d, events, told, store, sel, n - 1);
      var before := Replayed(d, events, store, sel, n - 1).disk;
      assert SameCall(events[n - 1], told[n - 1]);
      ReturnsDoNotMatter(before, events[n - 1], told[n - 1], store, None);
      if !IsMutating(events[n - 1].call) {
        IdleCallsDoNothing(before, events[n - 1], store, None);
      }
    }
  }

  lemma LastPrefix(k: nat, always: seq<nat>, issued: seq<nat>)
    requires forall i :: i in always ==> i in issued
    ensures var states := PrefixesUpto(k, always, issued, |issued| + 1);
            |states| > 0 && states[|states| - 1] == CrashState(k, issued, [])
  {
    assert issued[..|issued|] == issued;
  }

  lemma LastListed(events: seq<Event>, k: nat, model: FilesystemModel, bounds: Bounds)
    requires k < |events| && bounds.maxUnpersistedWindow >= 1
    requires model.totalOrder || |Window(events, k, bounds.maxUnpersistedWindow)| <= 30
    ensures var states := StatesAt(events, k, model, bounds);
            |states| > 0 && states[|states| - 1] == CrashState(k, Issued(events, k, bounds.maxUnpersistedWindow), [])
  {
    hide Window, AlwaysPresent, Issued, PrefixesUpto, MasksUpto;
    var w := bounds.maxUnpersistedWindow;
    if model.totalOrder {
      IssuedSplit(events, k, w);
      LastPrefix(k, AlwaysPresent(events, k, w), Issued(events, k, w));
    } else {
      ExtremesListed(events, k, model, bounds);
    }
  }

  /** The event as the enumerator takes it: a mutation that was pinned counts, whatever it returned. */
  ghost function TakenAs(events: seq<Event>, k: nat, i: nat): Event
    requires i < |events|
  {
    if IsPinned(events, k, i) && events[i].returnValue < 0 then events[i].(returnValue := 0) else events[i]
  }

  ghost function Taken(events: seq<Event>, k: nat): seq<Event> {
    seq(|events|, i requires 0 <= i < |events| => TakenAs(events, k, i))
  }

  lemma IssuedIsWhatSucceeded(events: seq<Event>, w: nat, i: nat)
    requires i < |events| && IsMutating(events[i].call)
    ensures i in Issued(events, |events| - 1, w) <==> Succeeded(Taken(events, |events| - 1)[i])
  {
    IssuedMembers(events, |events| - 1, w);
    hide Issued, IsPinned;
  }

  /** The last state of the last crash point is the run itself, with every pinned mutation taken to have
      succeeded: it replays to the very directory, or the very exception, that trace replays to. */
  lemma LastStateIsTheRun(d: Disk, events: seq<Event>, store: Store, model: FilesystemModel,
        bounds: Bounds)
    requires events != [] && bounds.maxUnpersistedWindow >= 1
    requires model.totalOrder || |Window(events, |events| - 1, bounds.maxUnpersistedWindow)| <= 30
    ensures var states := Enumerated(events, model, bounds, AllPoints(|events|));
            && |states| > 0
            && Replayed(d, events, store, SelectionOf(states[|states| - 1]), |events|)
            == ReplayedTrace(d, Taken(events, |events| - 1), store, |events|)
    ensures (forall j: nat :: IsPinned(events, |events| - 1, j) ==> Succeeded(events[j])) ==>
               Taken(events, |events| - 1) == events
  {
    var k := |events| - 1;
    var w := bounds.maxUnpersistedWindow;
    var points := AllPoints(|events|);
    LastListed(events, k, model, bounds);
    hide StatesAt, Window, Replayed, ReplayedTrace, IsPinned;
    assert Enumerated(events, model, bounds, points)
        == Enumerated(events, model, bounds, points[..k]) + StatesAt(events, k, model, bounds);
    hide Enumerated, AllPoints;
    var last := CrashState(k, Issued(events, k, w), []);
    forall i: nat | i < |events| && IsMutating(events[i].call)
      ensures i in ToSet(last.persisted) <==> Succeeded(Taken(events, k)[i])
    {
      IssuedIsWhatSucceeded(events, w, i);
    }
    hide Issued, IsMutating;
    SelectingAllIsTheTrace(d, events, Taken(events, k), store, SelectionOf(last), |events|);
  }

  lemma OneWrite(e: Event, store: Store)
    requires IsWrite(e.call)
    ensures var step := Applied(EMPTY_DISK, e, store, None);
            if e.digest !in store then step == Step(EMPTY_DISK, Some(PayloadMissing))
            else if e.offset < 0 then step.error == Some(OffsetRefused) && FileAt(step.disk, e.path) == Some([])
            else step.error == None && FileAt(step.disk, e.path) == Some(Edited([], Put(e.offset, store[e.digest])))
  {}

  lemma {:induction false} PinnedAlone(written: Event, sync: Event, store: Store, model: FilesystemModel,
        bounds: Bounds, st: CrashState)
    requires IsWrite(written.call) && Persisted(sync) && sync.path == written.path
    requires st in StatesAt([written, sync], 1, model, bounds)
    ensures Replayed(EMPTY_DISK, [written, sync], store, SelectionOf(st), 2)
       == Applied(EMPTY_DISK, written, store, None)
  {
    var events := [written, sync];
    assert Pins(events, 1, 0);
    PinnedIsWhole(events, 1, model, bounds, st, 0);
    var sel := SelectionOf(st);
    NotTorn(st.partial, 0);
    IdleCallsDoNothing(Applied(EMPTY_DISK, written, store, None).disk, sync, store, BytesOf(sel, 1));
    hide StatesAt, Applied, TornBytes;
    assert Selects(sel, 0) && BytesOf(sel, 0) == None;
    assert Replayed(EMPTY_DISK, events, store, sel, 0) == Step(EMPTY_DISK, None);
    assert Replayed(EMPTY_DISK, events, store, sel, 1) == Applied(EMPTY_DISK, written, store, None);
  }

  lemma {:induction false} FailedAloneIsNothing(failed: Event, sync: Event, store: Store)
    requires failed.returnValue < 0 && Persisted(sync)
    ensures ReplayedTrace(EMPTY_DISK, [failed, sync], store, 2) == Step(EMPTY_DISK, None)
  {
    IdleCallsDoNothing(EMPTY_DISK, sync, store, None);
    hide Applied;
    assert ReplayedTrace(EMPTY_DISK, [failed, sync], store, 0) == Step(EMPTY_DISK, None);
    assert ReplayedTrace(EMPTY_DISK, [failed, sync], store, 1) == Step(EMPTY_DISK, None);
  }

  /** So a positional write that failed, pinned by a later sync, puts bytes on disk, or at the least a file,
      that the run never made. */
  lemma {:induction false} FailedWriteIsReplayed(failed: Event, sync: Event, store: Store, model: FilesystemModel,
        bounds: Bounds, st: CrashState)
    requires failed.call == Pwrite && failed.returnValue < 0 && failed.offset >= 0 && failed.digest in store
    requires Persisted(sync) && sync.path == failed.path
    requires st in StatesAt([failed, sync], 1, model, bounds)
    ensures var step := Replayed(EMPTY_DISK, [failed, sync], store, SelectionOf(st), 2);
            step.error == None && FileAt(step.disk, failed.path)
                == Some(Edited([], Put(failed.offset, store[failed.digest])))
    ensures ReplayedTrace(EMPTY_DISK, [failed, sync], store, 2) == Step(EMPTY_DISK, None)
  {
    PinnedAlone(failed, sync, store, model, bounds, st);
    OneWrite(failed, store);
    FailedAloneIsNothing(failed, sync, store);
  }

  /** A plain or vectored write that failed is recorded without an offset, as minus one, so every state that
      keeps it raises where the trace itself replays to the end: for want of the offset, or of the payload
      where none was stored. */
  lemma {:induction false} FailedWriteStopsReplay(failed: Event, sync: Event, store: Store, model: FilesystemModel,
        bounds: Bounds, st: CrashState)
    requires (failed.call == Write || failed.call == Writev) && failed.returnValue < 0 && failed.offset == -1
    requires Persisted(sync) && sync.path == failed.path
    requires st in StatesAt([failed, sync], 1, model, bounds)
    ensures Replayed(EMPTY_DISK, [failed, sync], store, SelectionOf(st), 2).error
         == Some(if failed.digest in store then OffsetRefused else PayloadMissing)
    ensures ReplayedTrace(EMPTY_DISK, [failed, sync], store, 2) == Step(EMPTY_DISK, None)
  {
    PinnedAlone(failed, sync, store, model, bounds, st);
    OneWrite(failed, store);
    FailedAloneIsNothing(failed, sync, store);
  }

  lemma {:induction false} NotTorn(partial: seq<Torn>, i: nat)
    requires forall t :: t in partial ==> t.op != i
    ensures i !in TornBytes(partial)
  {
    if partial != [] {
      NotTorn(partial[..|partial| - 1], i);
      assert partial[|partial| - 1] in partial;
    }
  }
}
