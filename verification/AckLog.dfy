/** The acknowledgement log: what the driver promised and when, folded from the marker channel. */
module AckLog {
  import opened Sorting
  import opened Traces

  datatype AckedOperation = AckedOperation(
    op: int,
    kind: string,
    key: string,
    digest: string,
    beganAt: nat,
    acknowledgedAt: Option<nat>,
    durable: bool
  )

  function BeganKey(r: AckedOperation): int { r.beganAt }

  // ---------------------------------------------------------------- the fold

  function Opened(m: Marker, op: int): AckedOperation {
    AckedOperation(op, m.kind, m.key, "", m.index, None, false)
  }

  function Acknowledged(r: AckedOperation, m: Marker): AckedOperation {
    r.(digest := m.digest, acknowledgedAt := Some(m.index), durable := m.durable)
  }

  predicate Concerns(m: Marker, op: int) { m.op == Some(op) && (m.phase == Begin || m.phase == Ack) }

  /** The record of one operation after the given markers. */
  function RecordOf(markers: seq<Marker>, op: int): Option<AckedOperation> {
    if markers == [] then None else
      var before := RecordOf(markers[..|markers| - 1], op);
      var m := markers[|markers| - 1];
      if !Concerns(m, op) then before
      else if m.phase == Begin then Some(Opened(m, op))
      else Some(Acknowledged(if before.Some? then before.value else Opened(m, op), m))
  }

  /** Operation numbers in order of first appearance: the key order of the `Map`. */
  function OpsOf(markers: seq<Marker>): seq<int> {
    if markers == [] then [] else
      var before := OpsOf(markers[..|markers| - 1]);
      var m := markers[|markers| - 1];
      if m.op.Some? && Concerns(m, m.op.value) && m.op.value !in before then before + [m.op.value] else before
  }

  lemma {:induction false} OpsHaveRecords(markers: seq<Marker>)
    ensures NoDuplicates(OpsOf(markers))
    ensures forall op :: op in OpsOf(markers) <==> RecordOf(markers, op).Some?
  {
    if markers != [] { OpsHaveRecords(markers[..|markers| - 1]); }
  }

  function Records(markers: seq<Marker>, ops: seq<int>): seq<AckedOperation>
    requires forall op :: op in ops ==> RecordOf(markers, op).Some?
  {
    seq(|ops|, i requires 0 <= i < |ops| => assert ops[i] in ops; RecordOf(markers, ops[i]).value)
  }

  function Log(markers: seq<Marker>): seq<AckedOperation> {
    OpsHaveRecords(markers);
    SortBy(Records(markers, OpsOf(markers)), BeganKey)
  }

  method ParseAckLog(trace: Trace) returns (log: seq<AckedOperation>)
    ensures log == Log(trace.markers)
  {
    var markers := trace.markers;
    var operations: map<int, AckedOperation> := map[];
    var order: seq<int> := [];
    for i := 0 to |markers|
      invariant order == OpsOf(markers[..i])
      invariant forall op :: op in operations <==> op in order
      invariant forall op :: RecordOf(markers[..i], op) == if op in operations then Some(operations[op]) else None
    {
      assert markers[..i + 1][..i] == markers[..i];
      var marker := markers[i];
      if marker.op.None? {
        continue;
      }
      var op := marker.op.value;
      if marker.phase == Begin {
        if op !in operations {
          order := order + [op];
        }
        operations := operations[op := Opened(marker, op)];
        continue;
      }
      if marker.phase == Ack {
        var record := if op in operations then operations[op] else Opened(marker, op);
        record := record.(digest := marker.digest);
        record := record.(acknowledgedAt := Some(marker.index));
        record := record.(durable := marker.durable);
        if op !in operations {
          order := order + [op];
        }
        operations := operations[op := record];
      }
    }
    assert markers[..|markers|] == markers;
    OpsHaveRecords(markers);
    hide RecordOf, OpsOf;
    var values := ValuesInOrder(operations, order);
    assert values == Records(markers, order);
    log := SortBy(values, BeganKey);
  }

  /** `[...operations.values()]`, the map's keys standing in the given order. */
  function ValuesInOrder(operations: map<int, AckedOperation>, order: seq<int>): (values: seq<AckedOperation>)
    requires forall op :: op in order ==> op in operations
    ensures |values| == |order|
    ensures forall i :: 0 <= i < |order| ==> order[i] in operations && values[i] == operations[order[i]]
  {
    if order == [] then [] else
      var last := order[|order| - 1];
      assert last in order;
      ValuesInOrder(operations, order[..|order| - 1]) + [operations[last]]
  }

  // ---------------------------------------------------------------- what a record means

  ghost predicate IsBegin(markers: seq<Marker>, op: int, p: nat) {
    p < |markers| && markers[p].op == Some(op) && markers[p].phase == Begin
  }

  ghost predicate IsAck(markers: seq<Marker>, op: int, p: nat) {
    p < |markers| && markers[p].op == Some(op) && markers[p].phase == Ack
  }

  /** The marker a record dates from: the operation's last begin, or, with no begin, its first ack. */
  ghost predicate Opens(markers: seq<Marker>, op: int, b: nat) {
    if IsBegin(markers, op, b) then
      forall p: nat :: IsBegin(markers, op, p) ==> p <= b
    else
      && IsAck(markers, op, b)
      && (forall p: nat :: !IsBegin(markers, op, p))
      && (forall p: nat :: IsAck(markers, op, p) ==> b <= p)
  }

  /** The promise a record carries: its operation's last ack, if that came no earlier than its opening. */
  ghost predicate Promises(markers: seq<Marker>, op: int, b: nat, r: AckedOperation) {
    match r.acknowledgedAt
    case None =>
      && (forall p: nat :: IsAck(markers, op, p) ==> p < b)
      && !r.durable && r.digest == ""
    case Some(stamp) =>
      exists a: nat ::
        && b <= a && IsAck(markers, op, a)
        && (forall p: nat :: IsAck(markers, op, p) ==> p <= a)
        && stamp == markers[a].index && r.durable == markers[a].durable && r.digest == markers[a].digest
  }

  ghost predicate Describes(markers: seq<Marker>, op: int, r: AckedOperation) {
    && r.op == op
    && exists b: nat ::
      && Opens(markers, op, b)
      && r.beganAt == markers[b].index && r.key == markers[b].key && r.kind == markers[b].kind
      && Promises(markers, op, b, r)
  }

  lemma EarlierMarkers(markers: seq<Marker>, op: int)
    requires markers != []
    ensures forall p: nat :: (
              IsBegin(markers, op, p) <==>
              IsBegin(markers[..|markers| - 1], op, p) || (p == |markers| - 1 && IsBegin(markers, op, p)))
    ensures forall p: nat :: (
              IsAck(markers, op, p) <==>
              IsAck(markers[..|markers| - 1], op, p) || (p == |markers| - 1 && IsAck(markers, op, p)))
  {}

  /** The fold computes exactly the described record. */
  lemma {:induction false} RecordIsDescribed(markers: seq<Marker>, op: int)
    ensures match RecordOf(markers, op)
            case None => forall p: nat :: !IsBegin(markers, op, p) && !IsAck(markers, op, p)
            case Some(r) => Describes(markers, op, r)
  {
    if markers != [] {
      var rest := markers[..|markers| - 1];
      var last: nat := |markers| - 1;
      RecordIsDescribed(rest, op);
      EarlierMarkers(markers, op);
      if RecordOf(markers, op).Some? {
        var r := RecordOf(markers, op).value;
        if IsBegin(markers, op, last) {
          assert Opens(markers, op, last) && Promises(markers, op, last, r);
        } else if RecordOf(rest, op).None? {
          assert Opens(markers, op, last) && Promises(markers, op, last, r);
        } else {
          ExtendRecord(markers, op, r);
        }
      }
    }
  }

  lemma {:induction false} ExtendRecord(markers: seq<Marker>, op: int, r: AckedOperation)
    requires markers != [] && !IsBegin(markers, op, |markers| - 1)
    requires RecordOf(markers, op) == Some(r)
    requires RecordOf(markers[..|markers| - 1], op).Some?
    requires Describes(markers[..|markers| - 1], op, RecordOf(markers[..|markers| - 1], op).value)
    ensures Describes(markers, op, r)
  {
    var rest := markers[..|markers| - 1];
    var last: nat := |markers| - 1;
    var before := RecordOf(rest, op).value;
    EarlierMarkers(markers, op);
    var b: nat :| Opens(rest, op, b) && before.beganAt == rest[b].index && before.key == rest[b].key
        && before.kind == rest[b].kind
      && Promises(rest, op, b, before);
    assert Opens(markers, op, b);
    if IsAck(markers, op, last) {
      assert Promises(markers, op, b, r);
    } else {
      PromiseCarriesOver(markers, op, b, before);
    }
  }

  lemma PromiseCarriesOver(markers: seq<Marker>, op: int, b: nat, r: AckedOperation)
    requires markers != [] && !IsAck(markers, op, |markers| - 1)
    requires Promises(markers[..|markers| - 1], op, b, r)
    ensures Promises(markers, op, b, r)
  {
    var rest := markers[..|markers| - 1];
    EarlierMarkers(markers, op);
    hide IsBegin;
    if r.acknowledgedAt.Some? {
      var a: nat :| b <= a && IsAck(rest, op, a) && (forall p: nat :: IsAck(rest, op, p) ==> p <= a)
        && r.acknowledgedAt.value == rest[a].index && r.durable == rest[a].durable && r.digest == rest[a].digest;
      assert IsAck(markers, op, a);
    }
  }

  // ---------------------------------------------------------------- the log

  ghost predicate MarkersInOrder(markers: seq<Marker>) {
    forall i, j :: 0 <= i < j < |markers| ==> markers[i].index < markers[j].index
  }

  lemma {:induction false} RecordIsListed(markers: seq<Marker>, op: int)
    requires RecordOf(markers, op).Some?
    ensures RecordOf(markers, op).value in Log(markers)
  {
    OpsHaveRecords(markers);
    hide RecordOf, OpsOf;
    var ops := OpsOf(markers);
    var values := Records(markers, ops);
    assert op in ops;
    var i :| 0 <= i < |ops| && ops[i] == op;
    assert values[i] == RecordOf(markers, op).value && values[i] in values;
  }

  lemma ListedIsRecord(markers: seq<Marker>, r: AckedOperation) returns (op: int)
    requires r in Log(markers)
    ensures RecordOf(markers, op) == Some(r)
  {
    OpsHaveRecords(markers);
    hide RecordOf, OpsOf;
    var ops := OpsOf(markers);
    var values := Records(markers, ops);
    assert r in values;
    var i :| 0 <= i < |values| && values[i] == r;
    assert ops[i] in ops;
    op := ops[i];
  }

  /** An operation's record is dated by one of its own markers. */
  lemma RecordStamp(markers: seq<Marker>, op: int) returns (b: nat)
    requires RecordOf(markers, op).Some?
    ensures RecordOf(markers, op).value.op == op
    ensures b < |markers| && markers[b].op == Some(op) && RecordOf(markers, op).value.beganAt == markers[b].index
  {
    RecordIsDescribed(markers, op);
    b :| Opens(markers, op, b) && RecordOf(markers, op).value.beganAt == markers[b].index;
  }

  lemma {:induction false} RecordsDistinct(markers: seq<Marker>)
    requires MarkersInOrder(markers)
    requires forall op :: op in OpsOf(markers) ==> RecordOf(markers, op).Some?
    ensures DistinctKeys(Records(markers, OpsOf(markers)), BeganKey)
  {
    OpsHaveRecords(markers);
    var ops := OpsOf(markers);
    var values := Records(markers, ops);
    hide RecordOf, OpsOf;
    forall i, j | 0 <= i < j < |values| ensures BeganKey(values[i]) != BeganKey(values[j]) {
      assert ops[i] in ops && ops[j] in ops;
      var b := RecordStamp(markers, ops[i]);
      var c := RecordStamp(markers, ops[j]);
      assert b < c || c < b;
    }
  }

  /** The log holds one record per operation number, in order of beginning; a durable record is an
      acknowledged one, and no acknowledgement precedes its beginning. */
  lemma LogLaws(markers: seq<Marker>)
    requires MarkersInOrder(markers)
    ensures StrictlySortedBy(Log(markers), BeganKey)
    ensures forall i, j :: 0 <= i < j < |Log(markers)| ==> Log(markers)[i].beganAt < Log(markers)[j].beganAt
    ensures forall i, j :: 0 <= i < j < |Log(markers)| ==> Log(markers)[i].op != Log(markers)[j].op
    ensures forall r :: r in Log(markers) ==> Describes(markers, r.op, r)
    ensures forall r :: r in Log(markers) && r.durable ==> r.acknowledgedAt.Some?
    ensures forall r :: r in Log(markers) && r.acknowledgedAt.Some? ==> r.beganAt <= r.acknowledgedAt.value
    ensures forall p: nat, op: int :: IsBegin(markers, op, p) || IsAck(markers, op, p) ==>
              exists r :: r in Log(markers) && r.op == op
  {
    OpsHaveRecords(markers);
    RecordsDistinct(markers);
    var log := Log(markers);
    SortIsStrict(Records(markers, OpsOf(markers)), BeganKey);
    hide Log, RecordOf, OpsOf;
    forall r | r in log ensures RecordOf(markers, r.op) == Some(r) && Describes(markers, r.op, r) {
      var op := ListedIsRecord(markers, r);
      var b := RecordStamp(markers, op);
      RecordIsDescribed(markers, op);
    }
    forall i, j | 0 <= i < j < |log| ensures log[i].op != log[j].op {
      assert log[i] in log && log[j] in log;
      assert BeganKey(log[i]) < BeganKey(log[j]);
    }
    forall r | r in log && r.acknowledgedAt.Some? ensures r.beganAt <= r.acknowledgedAt.value {
      AckFollowsBegin(markers, r);
    }
    forall p: nat, op: int | IsBegin(markers, op, p) || IsAck(markers, op, p)
      ensures exists r :: r in log && r.op == op
    {
      RecordIsDescribed(markers, op);
      var b := RecordStamp(markers, op);
      RecordIsListed(markers, op);
    }
  }

  lemma AckFollowsBegin(markers: seq<Marker>, r: AckedOperation)
    requires MarkersInOrder(markers) && Describes(markers, r.op, r) && r.acknowledgedAt.Some?
    ensures r.beganAt <= r.acknowledgedAt.value
  {
    var b: nat :| Opens(markers, r.op, b) && r.beganAt == markers[b].index && Promises(markers, r.op, b, r);
    var a: nat :| b <= a && IsAck(markers, r.op, a) && r.acknowledgedAt.value == markers[a].index;
    assert b == a || markers[b].index < markers[a].index;
  }
}
