/** What a replay leaves on disk, in the fields of the events and the bytes of their payloads. */
module ReplayFields {
  import opened Sorting
  import opened Bits
  import opened Traces
  import opened States
  import opened Replay

  // ---------------------------------------------------------------- one call

  /** A put reaches from its offset to its end, gaps read as zero, and an empty one does nothing. */
  lemma PutInBytes(content: seq<Byte>, offset: nat, payload: seq<Byte>)
    ensures payload == [] ==> Edited(content, Put(offset, payload)) == content
    ensures payload != [] ==>
              var after := Edited(content, Put(offset, payload));
              && |after| == (if |content| < offset + |payload| then offset + |payload| else |content|)
              && after[offset..offset + |payload|] == payload
              && (forall x :: 0 <= x < |content| && !(offset <= x < offset + |payload|) ==> after[x] == content[x])
              && (forall x :: |content| <= x < offset ==> after[x] == 0)
  {
    if payload != [] {
      var after := Edited(content, Put(offset, payload));
      assert after[offset..offset + |payload|] == payload;
    }
  }

  /** A resize keeps what fits and fills up with zeros. */
  lemma ResizeInBytes(content: seq<Byte>, length: nat)
    ensures var after := Edited(content, Resize(length));
            && |after| == length
            && (forall x :: 0 <= x < length && x < |content| ==> after[x] == content[x])
            && (forall x :: |content| <= x < length ==> after[x] == 0)
  {}

  /** When a write raises: its payload was never stored, or it has no offset to go to. Nothing but its own name
      is there that was not there before, and no contents change. */
  lemma WriteRaisesIff(d: Disk, e: Event, store: Store, bytes: Option<nat>)
    requires e.call in {Write, Pwrite, Writev}
    ensures var step := Applied(d, e, store, bytes);
            && (step.error == Some(PayloadMissing) <==> e.digest !in store)
            && (step.error == Some(OffsetRefused) <==> e.digest in store && e.offset < 0)
            && (step.error == None <==> e.digest in store && e.offset >= 0)
            && (e.digest !in store ==> step.disk == d)
            && (step.error.Some? ==> forall q :: q in d.names ==> FileAt(step.disk, q) == FileAt(d, q))
            && (step.error.Some? ==> forall q :: q in step.disk.names ==> q in d.names || q == e.path)
  {}

  /** Making a directory changes no file, and fails where a file has its name. */
  lemma MkdirInBytes(d: Disk, e: Event, store: Store, bytes: Option<nat>)
    requires e.call == Mkdir
    ensures Applied(d, e, store, bytes).disk == d
    ensures Applied(d, e, store, bytes).error.Some? <==> e.path in d.names
  {}

  // ---------------------------------------------------------------- which edits a file sees

  /** What call `i` does to its file: a whole write puts its stored payload at its offset, a torn one the first
      bytes of it, a truncate sets the length. */
  ghost predicate Does(edit: Edit, e: Event, store: Store, sel: Selection, i: nat) {
    match edit
    case Put(offset, payload) =>
      && e.call in {Write, Pwrite, Writev}
      && (e.offset >= 0 ==> offset == e.offset)
      && (e.digest in store ==>
            && payload <= store[e.digest]
            && (i !in sel.torn ==> payload == store[e.digest])
            && (i in sel.torn ==>
                  |payload| == if sel.torn[i] < |store[e.digest]| then sel.torn[i] else |store[e.digest]|))
    case Resize(length) => e.call in {Truncate, Ftruncate} && length == e.length
  }

  lemma EditDoes(e: Event, store: Store, sel: Selection, i: nat)
    requires IsWrite(e.call) || IsTruncate(e.call)
    ensures Does(EditOf(e, store, BytesOf(sel, i)), e, store, sel, i)
  {}

  /** The calls the edits of `p` come from: in order, every selected write and truncate of that path. */
  ghost predicate ComeFrom(edits: seq<Edit>, at: seq<nat>, events: seq<Event>, store: Store, sel: Selection, p: string,
        n: nat)
    requires n <= |events|
  {
    && |at| == |edits|
    && (forall x, y :: 0 <= x < y < |at| ==> at[x] < at[y])
    && (forall i: nat :: i in at <==>
          && i < n && (i in sel.whole || i in sel.torn) && events[i].path == p
          && events[i].call in {Write, Pwrite, Writev, Truncate, Ftruncate})
    && (forall x :: 0 <= x < |at| ==> at[x] < n && Does(edits[x], events[at[x]], store, sel, at[x]))
  }

  /** The edits a replay makes to a file are those calls, one for one. */
  lemma EditsAreCalls(events: seq<Event>, store: Store, sel: Selection, p: string, n: nat)
    returns (at: seq<nat>)
    requires n <= |events|
    ensures ComeFrom(FileEdits(events, store, sel, p, n), at, events, store, sel, p, n)
  {
    hide FileEdits, Does, EditOf, ComeFrom;
    if n == 0 {
      at := [];
      NoCalls(events, store, sel, p);
    } else {
      at := EditsAreCalls(events, store, sel, p, n - 1);
      var edits := FileEdits(events, store, sel, p, n - 1);
      if Selects(sel, n - 1) && Edits(events[n - 1], p) {
        EditDoes(events[n - 1], store, sel, n - 1);
        OneMoreCall(edits, at, EditOf(events[n - 1], store, BytesOf(sel, n - 1)), events, store, sel, p, n);
        FileEditsSnoc(events, store, sel, p, n);
        at := at + [n - 1];
      } else {
        FileEditsSnoc(events, store, sel, p, n);
        NoMoreCall(edits, at, events, store, sel, p, n);
      }
    }
  }

  lemma {:induction false} NoCalls(events: seq<Event>, store: Store, sel: Selection, p: string)
    ensures FileEdits(events, store, sel, p, 0) == [] && ComeFrom([], [], events, store, sel, p, 0)
  {}

  lemma NoMoreCall(edits: seq<Edit>, at: seq<nat>, events: seq<Event>, store: Store, sel: Selection, p: string, n: nat)
    requires 1 <= n <= |events| && ComeFrom(edits, at, events, store, sel, p, n - 1)
    requires !(Selects(sel, n - 1) && Edits(events[n - 1], p))
    ensures ComeFrom(edits, at, events, store, sel, p, n)
  {
    hide Does;
  }

  lemma FileEditsSnoc(events: seq<Event>, store: Store, sel: Selection, p: string, n: nat)
    requires 1 <= n <= |events|
    ensures FileEdits(events, store, sel, p, n)
         == if Selects(sel, n - 1) && Edits(events[n - 1], p)
            then FileEdits(events, store, sel, p, n - 1) + [EditOf(events[n - 1], store, BytesOf(sel, n - 1))]
            else FileEdits(events, store, sel, p, n - 1)
  {}

  lemma OneMoreCall(edits: seq<Edit>, at: seq<nat>, edit: Edit, events: seq<Event>, store: Store, sel: Selection,
        p: string, n: nat)
    requires 1 <= n <= |events| && ComeFrom(edits, at, events, store, sel, p, n - 1)
    requires (n - 1 in sel.whole || n - 1 in sel.torn) && events[n - 1].path == p
    requires events[n - 1].call in {Write, Pwrite, Writev, Truncate, Ftruncate}
    requires Does(edit, events[n - 1], store, sel, n - 1)
    ensures ComeFrom(edits + [edit], at + [n - 1], events, store, sel, p, n)
  {
    hide Does;
    assert forall x :: 0 <= x < |at| ==> at[x] in at;
  }

  // ---------------------------------------------------------------- a file of one write

  /** The call leaves this name and its contents alone. */
  ghost predicate LeavesAlone(e: Event, p: string) {
    && (e.call in {Write, Pwrite, Writev, Truncate, Ftruncate, Unlink} ==> e.path != p)
    && (e.call in {Rename, Link} ==> e.path != p && e.path2 != p)
  }

  /** Event `i` is a write to `p` that the state has whole or in part, and nothing else the state has goes near
      that name. */
  ghost predicate OnlyWriteOf(events: seq<Event>, st: CrashState, p: string, i: nat) {
    && i < |events| && events[i].call in {Write, Pwrite, Writev} && events[i].path == p
    && forall j: nat :: j < |events| && j != i && (j in st.persisted || exists t :: t in st.partial && t.op == j)
         ==> LeavesAlone(events[j], p)
  }

  /** The bytes of one write in an otherwise empty file: zeros up to the offset, then the payload's first
      `reach` bytes. */
  ghost predicate HoldsFirst(content: seq<Byte>, offset: nat, payload: seq<Byte>, reach: nat) {
    && reach <= |payload|
    && |content| == (if reach == 0 then 0 else offset + reach)
    && (forall x :: 0 <= x < |content| && x < offset ==> content[x] == 0)
    && (forall x :: offset <= x < |content| ==> content[x] == payload[x - offset])
  }

  lemma {:induction false} OnePutAlone(edits: seq<Edit>, offset: nat, payload: seq<Byte>, reach: nat)
    requires |edits| == 1 && edits[0].Put? && edits[0].offset == offset
    requires reach <= |payload| && edits[0].payload == payload[..reach]
    ensures HoldsFirst(EditedAll([], edits), offset, payload, reach)
  {
    assert edits[..0] == [];
    assert EditedAll([], []) == [];
    assert EditedAll([], edits) == Edited([], edits[0]);
  }

  lemma TornBytesOfOne(op: nat, bytes: nat)
    ensures TornBytes([Torn(op, bytes)]) == map[op := bytes]
  {
    assert [Torn(op, bytes)][..0] == [];
    assert TornBytes([]) == map[];
  }

  lemma OneCall(at: seq<nat>, i: nat)
    requires forall x, y :: 0 <= x < y < |at| ==> at[x] < at[y]
    requires forall j: nat :: j in at <==> j == i
    ensures at == [i]
  {
    AscendingIsUnique(at, [i]);
  }

  /** How much of the payload of call `i` a selection lets through. */
  function Reach(sel: Selection, i: nat, size: nat): nat {
    if i in sel.torn && sel.torn[i] < size then sel.torn[i] else size
  }

  lemma OthersSpare(events: seq<Event>, st: CrashState, i: nat)
    requires i < |events| && OnlyWriteOf(events, st, events[i].path, i)
    requires OnlySelects(st, i)
    ensures forall j: nat :: j < |events| && Selects(SelectionOf(st), j) ==> SparesName(events[j], events[i].path)
    ensures forall j: nat :: j < |events| && Selects(SelectionOf(st), j) && j != i ==>
               !(events[j].path == events[i].path && events[j].call in {Write, Pwrite, Writev, Truncate, Ftruncate})
  {
    hide SelectionOf;
  }

  /** The replay selects event `i`, and otherwise only what the state names. */
  ghost predicate OnlySelects(st: CrashState, i: nat) {
    && Selects(SelectionOf(st), i)
    && forall j: nat :: Selects(SelectionOf(st), j) && j != i ==>
         j in st.persisted || exists t :: t in st.partial && t.op == j
  }

  lemma {:induction false} OneEditOf(events: seq<Event>, store: Store, st: CrashState, i: nat)
    requires i < |events| && OnlyWriteOf(events, st, events[i].path, i) && OnlySelects(st, i)
    ensures var edits := FileEdits(events, store, SelectionOf(st), events[i].path, |events|);
            |edits| == 1 && Does(edits[0], events[i], store, SelectionOf(st), i)
  {
    OthersSpare(events, st, i);
    hide FileEdits, SelectionOf, Does, SparesName;
    var at := EditsAreCalls(events, store, SelectionOf(st), events[i].path, |events|);
    hide OnlyWriteOf, LeavesAlone;
    OneCall(at, i);
  }

  lemma {:induction false} OneWriteReplayed(events: seq<Event>, store: Store, st: CrashState, i: nat)
    requires i < |events| && OnlyWriteOf(events, st, events[i].path, i) && OnlySelects(st, i)
    requires events[i].offset >= 0 && events[i].digest in store
    requires Replayed(EMPTY_DISK, events, store, SelectionOf(st), |events|).error == None
    ensures var d := Replayed(EMPTY_DISK, events, store, SelectionOf(st), |events|).disk;
            var payload := store[events[i].digest];
            && events[i].path in d.names
            && HoldsFirst(d.files[d.names[events[i].path]], events[i].offset, payload,
                          Reach(SelectionOf(st), i, |payload|))
  {
    var p, sel := events[i].path, SelectionOf(st);
    var payload := store[events[i].digest];
    var edits := FileEdits(events, store, sel, p, |events|);
    OneEditOf(events, store, st, i);
    OthersSpare(events, st, i);
    hide Replayed, FileEdits, EditedAll, SelectionOf, HoldsFirst, SparesName, OnlyWriteOf, OnlySelects;
    OnePutAlone(edits, events[i].offset, payload, Reach(sel, i, |payload|));
    FileIsItsEdits(EMPTY_DISK, events, store, sel, p, |events|);
  }

  /** A torn write puts on disk the first bytes of its payload, no more of them than were stored. */
  lemma {:induction false} TornWriteIsAPrefix(events: seq<Event>, store: Store, st: CrashState, i: nat, bytes: nat)
    requires i < |events| && st.partial == [Torn(i, bytes)] && OnlyWriteOf(events, st, events[i].path, i)
    requires events[i].offset >= 0 && events[i].digest in store
    requires Replayed(EMPTY_DISK, events, store, SelectionOf(st), |events|).error == None
    ensures var d := Replayed(EMPTY_DISK, events, store, SelectionOf(st), |events|).disk;
            var payload := store[events[i].digest];
            && events[i].path in d.names
            && HoldsFirst(d.files[d.names[events[i].path]], events[i].offset, payload,
                          if bytes < |payload| then bytes else |payload|)
  {
    TornBytesOfOne(i, bytes);
    hide TornBytes, Replayed, HoldsFirst;
    OneWriteReplayed(events, store, st, i);
  }

  /** A whole one puts all of it. */
  lemma {:induction false} WholeWriteIsAll(events: seq<Event>, store: Store, st: CrashState, i: nat)
    requires i < |events| && i in st.persisted && OnlyWriteOf(events, st, events[i].path, i)
    requires st.partial == [] && events[i].offset >= 0 && events[i].digest in store
    requires Replayed(EMPTY_DISK, events, store, SelectionOf(st), |events|).error == None
    ensures var d := Replayed(EMPTY_DISK, events, store, SelectionOf(st), |events|).disk;
            var payload := store[events[i].digest];
            && events[i].path in d.names
            && HoldsFirst(d.files[d.names[events[i].path]], events[i].offset, payload, |payload|)
  {
    assert TornBytes(st.partial) == map[];
    hide TornBytes, Replayed, HoldsFirst;
    OneWriteReplayed(events, store, st, i);
  }
}
