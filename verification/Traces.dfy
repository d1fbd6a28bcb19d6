/** Trace format v1 as the reader hands it on: events and markers, each in stamp order. */
module Traces {
  datatype Option<+T> = None | Some(value: T)

  datatype Call =
    | Open | Close
    | Write | Pwrite | Writev
    | Fsync | Fdatasync | SyncFileRange
    | Ftruncate | Truncate
    | Mkdir | Unlink | Link | Rename

  /** One intercepted call. `index` and `completionIndex` are the stamps on either side of it. */
  datatype Event = Event(
    index: nat,
    completionIndex: nat,
    call: Call,
    threadId: nat,
    path: string,
    path2: string,
    offset: int,
    length: nat,
    returnValue: int,
    digest: string
  )

  datatype Phase = Begin | Ack | OtherPhase

  /** A driver marker, its `key=value` fields already split. */
  datatype Marker = Marker(
    index: nat,
    threadId: nat,
    op: Option<int>,
    phase: Phase,
    kind: string,
    key: string,
    digest: string,
    durable: bool
  )

  datatype Record = EventRecord(event: Event) | MarkerRecord(marker: Marker)

  datatype Trace = Trace(events: seq<Event>, markers: seq<Marker>)

  /** Calls that change file contents or the directory tree. */
  predicate IsMutating(call: Call) {
    call in {Write, Pwrite, Writev, Truncate, Ftruncate, Mkdir, Unlink, Link, Rename}
  }

  predicate IsPersistence(call: Call) {
    call in {Fsync, Fdatasync, SyncFileRange}
  }

  predicate IsWrite(call: Call) {
    call in {Write, Pwrite, Writev}
  }

  predicate IsTruncate(call: Call) {
    call in {Truncate, Ftruncate}
  }

  /** A mutation whose call returned success. */
  predicate Succeeded(e: Event) {
    IsMutating(e.call) && e.returnValue >= 0
  }

  /** A persistence call that returned success. */
  predicate Persisted(e: Event) {
    IsPersistence(e.call) && e.returnValue >= 0
  }

  /** Submission stamps strictly increase along the trace. */
  ghost predicate InStampOrder(events: seq<Event>) {
    forall i, j :: 0 <= i < j < |events| ==> events[i].index < events[j].index
  }
}
