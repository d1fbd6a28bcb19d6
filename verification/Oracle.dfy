/** The durability contract: what a recovered database may not have lost. */
module Oracle {
  import opened Traces
  import opened AckLog

  datatype ViolationClass = LostAcked | CorruptInvariant | RecoveryFailed | PhantomUnacked

  datatype RecoveryResult =
    | Recovered(integrityOk: bool, values: map<string, string>, detail: Option<string>)
    | Refused(reason: string)

  datatype Violation = Violation(
    violationClass: ViolationClass,
    crashStamp: nat,
    op: Option<int>,
    key: string,
    expected: string,
    actual: string
  )

  const ABSENT: string := "<absent>"

  /** The driver announced this operation durable strictly before the crash. */
  predicate IsPromised(r: AckedOperation, crashStamp: nat) {
    r.durable && r.acknowledgedAt.Some? && r.acknowledgedAt.value < crashStamp
  }

  function PromisedBefore(ackLog: seq<AckedOperation>, crashStamp: nat): (promised: seq<AckedOperation>)
    ensures forall r :: r in promised <==> r in ackLog && IsPromised(r, crashStamp)
  {
    if ackLog == [] then [] else
      var last := ackLog[|ackLog| - 1];
      assert ackLog == ackLog[..|ackLog| - 1] + [last];
      PromisedBefore(ackLog[..|ackLog| - 1], crashStamp) + (if IsPromised(last, crashStamp) then [last] else [])
  }

  /** Where the promised operations stand in the log. */
  ghost function PromisedPositions(ackLog: seq<AckedOperation>, crashStamp: nat): (positions: seq<nat>)
    ensures forall i, j :: 0 <= i < j < |positions| ==> positions[i] < positions[j]
    ensures forall p: nat :: p in positions <==> p < |ackLog| && IsPromised(ackLog[p], crashStamp)
  {
    if ackLog == [] then [] else
      var rest := PromisedPositions(ackLog[..|ackLog| - 1], crashStamp);
      assert forall i :: 0 <= i < |rest| ==> rest[i] in rest;
      rest + (if IsPromised(ackLog[|ackLog| - 1], crashStamp) then [|ackLog| - 1] else [])
  }

  /** The filter keeps every promised operation, as often as it stands in the log, in the log's order. */
  lemma {:induction false} PromisedInOrder(ackLog: seq<AckedOperation>, crashStamp: nat)
    ensures var promised, positions := PromisedBefore(ackLog, crashStamp), PromisedPositions(ackLog, crashStamp);
            && |promised| == |positions|
            && forall i :: 0 <= i < |promised| ==> positions[i] in positions && promised[i] == ackLog[positions[i]]
  {
    if ackLog != [] {
      PromisedInOrder(ackLog[..|ackLog| - 1], crashStamp);
    }
  }

  /** The recovered database holds the promised value. */
  predicate Kept(values: map<string, string>, r: AckedOperation) {
    r.key in values && values[r.key] == r.digest
  }

  function Loss(r: AckedOperation, values: map<string, string>, crashStamp: nat): Violation {
    Violation(LostAcked, crashStamp, Some(r.op), r.key, r.digest, if r.key in values then values[r.key] else ABSENT)
  }

  function Losses(promised: seq<AckedOperation>, values: map<string, string>, crashStamp: nat): seq<Violation> {
    if promised == [] then [] else
      var last := promised[|promised| - 1];
      Losses(promised[..|promised| - 1], values, crashStamp)
      + (if Kept(values, last) then [] else [Loss(last, values, crashStamp)])
  }

  function RefusalViolation(reason: string, crashStamp: nat): Violation {
    Violation(RecoveryFailed, crashStamp, None, "", "<opens and recovers>", reason)
  }

  function IntegrityViolation(detail: Option<string>, crashStamp: nat): Violation {
    Violation(CorruptInvariant, crashStamp, None, "", "<integrity check passes>",
              if detail.Some? then detail.value else "<integrity check failed>")
  }

  function Violations(ackLog: seq<AckedOperation>, crashStamp: nat, recovery: RecoveryResult): seq<Violation> {
    var promised := PromisedBefore(ackLog, crashStamp);
    if promised == [] then [] else
      match recovery
      case Refused(reason) => [RefusalViolation(reason, crashStamp)]
      case Recovered(integrityOk, values, detail) =>
        (if integrityOk then [] else [IntegrityViolation(detail, crashStamp)]) + Losses(promised, values, crashStamp)
  }

  method CheckOracle(ackLog: seq<AckedOperation>, crashStamp: nat,
        recovery: RecoveryResult) returns (violations: seq<Violation>)
    ensures violations == Violations(ackLog, crashStamp, recovery)
  {
    violations := [];
    var promised := PromisedBefore(ackLog, crashStamp);
    if |promised| == 0 {
      return;
    }
    if recovery.Refused? {
      violations := violations + [Violation(RecoveryFailed, crashStamp, None, "", "<opens and recovers>",
              recovery.reason)];
      return;
    }
    if !recovery.integrityOk {
      violations := violations + [Violation(CorruptInvariant, crashStamp, None, "", "<integrity check passes>",
                                            if recovery.detail.Some? then recovery.detail.value
                                                else "<integrity check failed>")];
    }
    var losses := CollectLosses(promised, recovery.values, crashStamp);
    violations := violations + losses;
  }

  method CollectLosses(promised: seq<AckedOperation>, values: map<string, string>,
        crashStamp: nat) returns (losses: seq<Violation>)
    ensures losses == Losses(promised, values, crashStamp)
  {
    losses := [];
    for i := 0 to |promised|
      invariant losses == Losses(promised[..i], values, crashStamp)
    {
      assert promised[..i + 1][..i] == promised[..i];
      var operation := promised[i];
      var known := operation.key in values;
      if !known || values[operation.key] != operation.digest {
        losses := losses + [Violation(LostAcked, crashStamp, Some(operation.op), operation.key, operation.digest,
                                      if known then values[operation.key] else ABSENT)];
      }
    }
    assert promised[..|promised|] == promised;
  }

  // ---------------------------------------------------------------- what is reported, and when

  lemma {:induction false} LossesMembers(promised: seq<AckedOperation>, values: map<string, string>,
        crashStamp: nat, v: Violation)
    ensures v in Losses(promised, values, crashStamp)
       <==> exists r :: r in promised && !Kept(values, r) && v == Loss(r, values, crashStamp)
  {
    if promised != [] {
      var rest := promised[..|promised| - 1];
      var last := promised[|promised| - 1];
      assert promised == rest + [last];
      LossesMembers(rest, values, crashStamp, v);
    }
  }

  /** Every operation promised before the crash is readable with its digest, and the integrity check
      passes. A crash that was promised nothing demands nothing. */
  ghost predicate ContractHolds(ackLog: seq<AckedOperation>, crashStamp: nat, recovery: RecoveryResult) {
    (exists r :: r in ackLog && IsPromised(r, crashStamp)) ==>
      && recovery.Recovered?
      && recovery.integrityOk
      && forall r :: r in ackLog && IsPromised(r, crashStamp) ==> Kept(recovery.values, r)
  }

  /** The oracle is silent exactly when the contract holds. */
  lemma SilentIffContractHolds(ackLog: seq<AckedOperation>, crashStamp: nat,
        recovery: RecoveryResult)
    ensures Violations(ackLog, crashStamp, recovery) == [] <==> ContractHolds(ackLog, crashStamp, recovery)
  {
    var promised := PromisedBefore(ackLog, crashStamp);
    if promised != [] {
      assert promised[0] in promised;
      if recovery.Recovered? {
        var losses := Losses(promised, recovery.values, crashStamp);
        forall r | r in promised && !Kept(recovery.values, r) ensures losses != [] {
          LossesMembers(promised, recovery.values, crashStamp, Loss(r, recovery.values, crashStamp));
        }
        if losses != [] {
          LossesMembers(promised, recovery.values, crashStamp, losses[0]);
        }
      }
    }
  }

  /** A loss is reported for exactly the promised operations the recovered database does not keep. */
  lemma LossesAreExact(ackLog: seq<AckedOperation>, crashStamp: nat, recovery: RecoveryResult,
        v: Violation)
    requires v.violationClass == LostAcked
    ensures v in Violations(ackLog, crashStamp, recovery)
       <==> recovery.Recovered?
            && exists r :: (
              r in ackLog && IsPromised(r, crashStamp) && !Kept(recovery.values, r)
              && v == Loss(r, recovery.values, crashStamp))
  {
    var promised := PromisedBefore(ackLog, crashStamp);
    if recovery.Recovered? {
      LossesMembers(promised, recovery.values, crashStamp, v);
      if r :| (
           r in ackLog && IsPromised(r, crashStamp) && !Kept(recovery.values, r)
           && v == Loss(r, recovery.values, crashStamp)) {
        assert r in promised;
      }
    }
  }

  lemma {:induction false} LossesAreLosses(promised: seq<AckedOperation>, values: map<string, string>, crashStamp: nat)
    ensures |Losses(promised, values, crashStamp)| <= |promised|
    ensures forall i :: 0 <= i < |Losses(promised, values, crashStamp)| ==>
               Losses(promised, values, crashStamp)[i].violationClass == LostAcked
  {
    if promised != [] {
      LossesAreLosses(promised[..|promised| - 1], values, crashStamp);
    }
  }

  /** A database that will not open is one violation however much it had promised; a failed integrity check
      is one violation ahead of the losses; phantom values are never reported. */
  lemma {:induction false} OneViolationPerCause(ackLog: seq<AckedOperation>, crashStamp: nat, recovery: RecoveryResult)
    requires exists r :: r in ackLog && IsPromised(r, crashStamp)
    ensures var found := Violations(ackLog, crashStamp, recovery);
            match recovery
            case Refused(reason) =>
              |found| == 1 && found[0].violationClass == RecoveryFailed && found[0].actual == reason
            case Recovered(integrityOk, _, _) =>
              && (!integrityOk ==> found != [])
              && |found| <= |PromisedBefore(ackLog, crashStamp)| + (if integrityOk then 0 else 1)
              && forall i :: 0 <= i < |found| ==>
                   found[i].violationClass == if i == 0 && !integrityOk then CorruptInvariant else LostAcked
  {
    var promised := PromisedBefore(ackLog, crashStamp);
    var r :| r in ackLog && IsPromised(r, crashStamp);
    assert r in promised;
    if recovery.Recovered? {
      LossesAreLosses(promised, recovery.values, crashStamp);
    }
  }

  // ---------------------------------------------------------------- can the contract be met at all

  /** No two promised operations bind one key to different values. */
  ghost predicate PromisesAgree(ackLog: seq<AckedOperation>, crashStamp: nat) {
    forall a, b :: a in ackLog && b in ackLog && IsPromised(a, crashStamp) && IsPromised(b, crashStamp) ==>
      a.key == b.key ==> a.digest == b.digest
  }

  ghost function Bindings(promised: seq<AckedOperation>): map<string, string> {
    if promised == [] then map[] else
      Bindings(promised[..|promised| - 1])[promised[|promised| - 1].key := promised[|promised| - 1].digest]
  }

  lemma {:induction false} BindingsKeep(promised: seq<AckedOperation>)
    requires forall a, b :: a in promised && b in promised && a.key == b.key ==> a.digest == b.digest
    ensures forall r :: r in promised ==> Kept(Bindings(promised), r)
  {
    if promised != [] {
      var rest := promised[..|promised| - 1];
      assert promised == rest + [promised[|promised| - 1]];
      BindingsKeep(rest);
    }
  }

  /** Some recovery satisfies the oracle if and only if the promises agree: a workload that durably
      overwrites a key with a new value is reported whatever the database recovers. */
  lemma SatisfiableIffPromisesAgree(ackLog: seq<AckedOperation>, crashStamp: nat)
    ensures (exists recovery :: Violations(ackLog, crashStamp, recovery) == []) <==> PromisesAgree(ackLog, crashStamp)
  {
    hide Violations;
    if PromisesAgree(ackLog, crashStamp) {
      var promised := PromisedBefore(ackLog, crashStamp);
      BindingsKeep(promised);
      var recovery := Recovered(true, Bindings(promised), None);
      hide Bindings;
      SilentIffContractHolds(ackLog, crashStamp, recovery);
    }
    if recovery :| Violations(ackLog, crashStamp, recovery) == [] {
      SilentIffContractHolds(ackLog, crashStamp, recovery);
    }
  }

  /** For a fixed recovery, a later crash reports at least the same class, operation and key. */
  lemma LaterCrashReportsMore(ackLog: seq<AckedOperation>, early: nat, late: nat,
        recovery: RecoveryResult, v: Violation)
    requires early <= late
    requires v in Violations(ackLog, early, recovery)
    ensures v.(crashStamp := late) in Violations(ackLog, late, recovery)
  {
    var before := PromisedBefore(ackLog, early);
    var after := PromisedBefore(ackLog, late);
    assert forall r :: r in before ==> r in after;
    assert before[0] in before;
    if recovery.Recovered? && v.violationClass == LostAcked {
      LossesMembers(before, recovery.values, early, v);
      LossesMembers(after, recovery.values, late, v.(crashStamp := late));
    } else if recovery.Recovered? {
      LossesMembers(before, recovery.values, early, v);
    }
  }

  // ---------------------------------------------------------------- the report in the log's own fields

  /** The operation was acknowledged as durable before the crash, and the database does not read back its
      digest under its key. */
  ghost predicate IsLost(r: AckedOperation, crashStamp: nat, values: map<string, string>) {
    && r.durable && r.acknowledgedAt.Some? && r.acknowledgedAt.value < crashStamp
    && (r.key in values ==> values[r.key] != r.digest)
  }

  /** What is said of it. */
  ghost predicate ReportsLoss(v: Violation, r: AckedOperation, crashStamp: nat, values: map<string, string>) {
    && v.violationClass == LostAcked && v.crashStamp == crashStamp
    && v.op == Some(r.op) && v.key == r.key && v.expected == r.digest
    && v.actual == if r.key in values then values[r.key] else "<absent>"
  }

  /** The losses, one for each lost operation and in the log's order. */
  ghost predicate ReportsLosses(found: seq<Violation>, at: seq<nat>, ackLog: seq<AckedOperation>, crashStamp: nat,
        values: map<string, string>)
  {
    && |at| == |found|
    && (forall x, y :: 0 <= x < y < |at| ==> at[x] < at[y])
    && (forall p: nat :: p in at <==> p < |ackLog| && IsLost(ackLog[p], crashStamp, values))
    && (forall x :: 0 <= x < |at| ==> at[x] < |ackLog| && ReportsLoss(found[x], ackLog[at[x]], crashStamp, values))
  }

  lemma NoMoreLost(found: seq<Violation>, at: seq<nat>, rest: seq<AckedOperation>, last: AckedOperation,
        crashStamp: nat, values: map<string, string>)
    requires ReportsLosses(found, at, rest, crashStamp, values) && !IsLost(last, crashStamp, values)
    ensures ReportsLosses(found, at, rest + [last], crashStamp, values)
  {
    hide IsLost, ReportsLoss;
  }

  lemma OneMoreLost(found: seq<Violation>, at: seq<nat>, rest: seq<AckedOperation>, last: AckedOperation,
        v: Violation, crashStamp: nat, values: map<string, string>)
    requires ReportsLosses(found, at, rest, crashStamp, values)
    requires IsLost(last, crashStamp, values) && ReportsLoss(v, last, crashStamp, values)
    ensures ReportsLosses(found + [v], at + [|rest|], rest + [last], crashStamp, values)
  {
    hide IsLost, ReportsLoss;
    assert forall x :: 0 <= x < |at| ==> at[x] in at;
  }

  lemma LossesAreReported(ackLog: seq<AckedOperation>, crashStamp: nat, values: map<string, string>)
    returns (at: seq<nat>)
    ensures ReportsLosses(Losses(PromisedBefore(ackLog, crashStamp), values, crashStamp), at, ackLog, crashStamp,
              values)
  {
    if ackLog == [] {
      at := [];
    } else {
      var rest, last := ackLog[..|ackLog| - 1], ackLog[|ackLog| - 1];
      assert ackLog == rest + [last];
      hide *;
      at := LossesAreReported(rest, crashStamp, values);
      at := LossOfLast(rest, last, at, crashStamp, values);
    }
  }

  lemma LossOfLast(rest: seq<AckedOperation>, last: AckedOperation, before: seq<nat>,
        crashStamp: nat, values: map<string, string>)
    returns (at: seq<nat>)
    requires ReportsLosses(Losses(PromisedBefore(rest, crashStamp), values, crashStamp), before, rest, crashStamp,
               values)
    ensures ReportsLosses(Losses(PromisedBefore(rest + [last], crashStamp), values, crashStamp), at, rest + [last],
              crashStamp, values)
  {
    hide PromisedBefore, Losses, ReportsLosses;
    var promised := PromisedBefore(rest, crashStamp);
    var found := Losses(promised, values, crashStamp);
    at := before;
    PromisedSnoc(rest, last, crashStamp);
    if IsLost(last, crashStamp, values) {
      LossesSnoc(promised, last, values, crashStamp);
      OneMoreLost(found, at, rest, last, Loss(last, values, crashStamp), crashStamp, values);
      at := at + [|rest|];
    } else {
      LossesSnoc(promised, last, values, crashStamp);
      NoMoreLost(found, at, rest, last, crashStamp, values);
    }
  }

  lemma {:induction false} PromisedSnoc(rest: seq<AckedOperation>, last: AckedOperation, crashStamp: nat)
    ensures PromisedBefore(rest + [last], crashStamp)
         == if IsPromised(last, crashStamp) then PromisedBefore(rest, crashStamp) + [last]
            else PromisedBefore(rest, crashStamp)
  {
    assert (rest + [last])[..|rest|] == rest;
  }

  lemma {:induction false} LossesSnoc(promised: seq<AckedOperation>, r: AckedOperation, values: map<string, string>,
        crashStamp: nat)
    ensures Losses(promised + [r], values, crashStamp)
         == if Kept(values, r) then Losses(promised, values, crashStamp)
            else Losses(promised, values, crashStamp) + [Loss(r, values, crashStamp)]
  {
    assert (promised + [r])[..|promised|] == promised;
  }

  /** Some operation was acknowledged as durable before the crash. */
  ghost predicate AnyPromise(ackLog: seq<AckedOperation>, crashStamp: nat) {
    exists r :: r in ackLog && r.durable && r.acknowledgedAt.Some? && r.acknowledgedAt.value < crashStamp
  }

  /** The whole report: nothing without a promise; of a database that will not open, only that; otherwise the
      failed integrity check, if it failed, and then the losses. */
  lemma ReportInFull(ackLog: seq<AckedOperation>, crashStamp: nat, recovery: RecoveryResult)
    returns (at: seq<nat>)
    ensures !AnyPromise(ackLog, crashStamp) ==> Violations(ackLog, crashStamp, recovery) == []
    ensures AnyPromise(ackLog, crashStamp) ==>
              match recovery
              case Refused(reason) =>
                Violations(ackLog, crashStamp, recovery)
                == [Violation(RecoveryFailed, crashStamp, None, "", "<opens and recovers>", reason)]
              case Recovered(integrityOk, values, detail) =>
                exists losses ::
                  && ReportsLosses(losses, at, ackLog, crashStamp, values)
                  && Violations(ackLog, crashStamp, recovery)
                     == (if integrityOk then [] else
                           [Violation(CorruptInvariant, crashStamp, None, "", "<integrity check passes>",
                                      if detail.Some? then detail.value else "<integrity check failed>")]) + losses
  {
    var promised := PromisedBefore(ackLog, crashStamp);
    assert promised != [] ==> promised[0] in promised;
    at := [];
    if recovery.Recovered? {
      at := LossesAreReported(ackLog, crashStamp, recovery.values);
    }
    if AnyPromise(ackLog, crashStamp) {
      var r :| r in ackLog && r.durable && r.acknowledgedAt.Some? && r.acknowledgedAt.value < crashStamp;
      assert r in promised;
    }
    hide PromisedBefore, Losses, ReportsLosses;
  }
}
