/** The campaign loop: every sampled state recovered and judged, violations folded into findings by
    signature, one image kept per finding. */
module Campaign {
  import opened Traces
  import opened States
  import opened CrashSpace
  import opened Inclusion
  import opened CrashPoints
  import opened Sampling
  import opened AckLog
  import opened Oracle
  import opened Dedup

  /** The target's own recovery, run on the image of the i-th state: any function at all. */
  type Recovery = (nat, CrashState) -> RecoveryResult

  datatype Finding = Finding(signature: string, violation: Violation, occurrences: nat, state: CrashState, image: nat)

  /** One violation as the loop meets it. */
  datatype Report = Report(signature: string, violation: Violation, state: CrashState, image: nat)

  // ---------------------------------------------------------------- what the loop meets

  function CrashStamp(events: seq<Event>, st: CrashState): nat {
    if st.crashPoint < |events| then events[st.crashPoint].index else 0
  }

  /** `ackLog.find(entry => entry.op === op)`. */
  function Find(ackLog: seq<AckedOperation>, op: Option<int>): Option<AckedOperation> {
    if ackLog == [] then None
    else if Some(ackLog[0].op) == op then Some(ackLog[0])
    else Find(ackLog[1..], op)
  }

  /** The operation a violation is charged to; one without an operation spans the whole run so far. */
  function OperationFor(ackLog: seq<AckedOperation>, v: Violation, crashStamp: nat): AckedOperation {
    var found := Find(ackLog, v.op);
    if found.Some? then found.value else AckedOperation(-1, "", "", "", 0, Some(crashStamp), false)
  }

  function ReportOf(events: seq<Event>, ackLog: seq<AckedOperation>, st: CrashState, image: nat, v: Violation): Report {
    Report(SignatureOf(v, st, events, OperationFor(ackLog, v, CrashStamp(events, st))), v, st, image)
  }

  function ReportsAt(events: seq<Event>, ackLog: seq<AckedOperation>, st: CrashState, image: nat,
        violations: seq<Violation>): seq<Report> {
    seq(|violations|, i requires 0 <= i < |violations| => ReportOf(events, ackLog, st, image, violations[i]))
  }

  function ViolationsAt(events: seq<Event>, ackLog: seq<AckedOperation>, states: seq<CrashState>, recover: Recovery,
        i: nat): seq<Violation>
    requires i < |states|
  {
    Violations(ackLog, CrashStamp(events, states[i]), recover(i, states[i]))
  }

  function Reports(events: seq<Event>, ackLog: seq<AckedOperation>, states: seq<CrashState>, recover: Recovery,
        n: nat): seq<Report>
    requires n <= |states|
  {
    if n == 0 then [] else
      Reports(events, ackLog, states, recover, n - 1)
      + ReportsAt(events, ackLog, states[n - 1], n - 1, ViolationsAt(events, ackLog, states, recover, n - 1))
  }

  /** A violation is charged to the logged operation of its number; one that names none, or none that is
      logged, to an operation in flight from the start of the run to the crash. */
  lemma ChargedOperation(ackLog: seq<AckedOperation>, v: Violation, crashStamp: nat)
    requires forall i, j :: 0 <= i < j < |ackLog| ==> ackLog[i].op != ackLog[j].op
    ensures var operation := OperationFor(ackLog, v, crashStamp);
            && (forall r :: r in ackLog && v.op == Some(r.op) ==> operation == r)
            && ((forall r :: r in ackLog ==> v.op != Some(r.op)) ==>
                  operation.beganAt == 0 && operation.acknowledgedAt == Some(crashStamp))
  {
    if r :| r in ackLog && v.op == Some(r.op) {
      FindFinds(ackLog, r);
      assert forall q :: q in ackLog && v.op == Some(q.op) ==> q.op == r.op;
      forall q | q in ackLog && v.op == Some(q.op) ensures Find(ackLog, v.op) == Some(q) {
        FindFinds(ackLog, q);
      }
    } else {
      FindMisses(ackLog, v.op);
    }
  }

  lemma {:induction false} FindFinds(ackLog: seq<AckedOperation>, r: AckedOperation)
    requires r in ackLog
    requires forall i, j :: 0 <= i < j < |ackLog| ==> ackLog[i].op != ackLog[j].op
    ensures Find(ackLog, Some(r.op)) == Some(r)
  {
    if ackLog[0] != r {
      assert ackLog == [ackLog[0]] + ackLog[1..];
      FindFinds(ackLog[1..], r);
    }
  }

  lemma {:induction false} FindMisses(ackLog: seq<AckedOperation>, op: Option<int>)
    requires forall r :: r in ackLog ==> op != Some(r.op)
    ensures Find(ackLog, op) == None
  {
    if ackLog != [] {
      assert ackLog[0] in ackLog;
      FindMisses(ackLog[1..], op);
    }
  }

  /** What the loop meets: for each state, in order, each violation the oracle finds in its recovery at the
      stamp of its crash point, signed for the operation it is charged to. */
  lemma {:induction false} ReportsAreJudgements(events: seq<Event>, ackLog: seq<AckedOperation>,
        states: seq<CrashState>, recover: Recovery, n: nat, r: Report)
    requires n <= |states| && forall i :: 0 <= i < |states| ==> states[i].crashPoint < |events|
    ensures r in Reports(events, ackLog, states, recover, n) <==>
            && r.image < n && r.state == states[r.image]
            && var crashStamp := events[r.state.crashPoint].index;
               && r.violation in Violations(ackLog, crashStamp, recover(r.image, r.state))
               && var operation := OperationFor(ackLog, r.violation, crashStamp);
                  r.signature == SignatureOf(r.violation, r.state, events, operation)
  {
    hide Violations, SignatureOf, OperationFor;
    if n > 0 {
      ReportsAreJudgements(events, ackLog, states, recover, n - 1, r);
      var st := states[n - 1];
      var violations := ViolationsAt(events, ackLog, states, recover, n - 1);
      var here := ReportsAt(events, ackLog, st, n - 1, violations);
      if r in here {
        var i :| 0 <= i < |here| && here[i] == r;
        assert violations[i] in violations;
      }
      if r.image == n - 1 && r.violation in violations && r == ReportOf(events, ackLog, st, n - 1, r.violation) {
        var i :| 0 <= i < |violations| && violations[i] == r.violation;
        assert here[i] == r;
      }
    }
  }

  // ---------------------------------------------------------------- folding into findings

  /** Where a signature sits in the findings, or their number if it is new. */
  function Position(findings: seq<Finding>, signature: string): (p: nat)
    ensures p <= |findings|
    ensures p < |findings| ==> findings[p].signature == signature
  {
    if findings == [] then 0
    else if findings[0].signature == signature then 0
    else 1 + Position(findings[1..], signature)
  }

  lemma {:induction false} PositionIsFirst(findings: seq<Finding>, signature: string)
    ensures forall q :: 0 <= q < Position(findings, signature) ==> findings[q].signature != signature
  {
    if findings != [] && findings[0].signature != signature {
      PositionIsFirst(findings[1..], signature);
    }
  }

  function Fold(findings: seq<Finding>, r: Report): seq<Finding> {
    var p := Position(findings, r.signature);
    if p < |findings| then findings[p := findings[p].(occurrences := findings[p].occurrences + 1)]
    else findings + [Finding(r.signature, r.violation, 1, r.state, r.image)]
  }

  function Tally(reports: seq<Report>): seq<Finding> {
    if reports == [] then [] else Fold(Tally(reports[..|reports| - 1]), reports[|reports| - 1])
  }

  lemma TallyNothing()
    ensures Tally([]) == []
  {}

  lemma {:induction false} TallySnoc(reports: seq<Report>, r: Report)
    ensures Tally(reports + [r]) == Fold(Tally(reports), r)
  {
    assert (reports + [r])[..|reports|] == reports;
  }

  function Images(findings: seq<Finding>): set<nat> { set f | f in findings :: f.image }

  method TestStates(events: seq<Event>, ackLog: seq<AckedOperation>, states: seq<CrashState>, recover: Recovery)
    returns (statesTested: nat, findings: seq<Finding>, images: set<nat>)
    ensures statesTested == |states|
    ensures findings == Tally(Reports(events, ackLog, states, recover, |states|))
    ensures images == Images(findings)
  {
    hide Tally, Violations, ReportsAt, ReportOf;
    statesTested, findings, images := 0, [], {};
    assert Tally([]) == [] by { TallyNothing(); }
    for index := 0 to |states|
      invariant statesTested == index
      invariant findings == Tally(Reports(events, ackLog, states, recover, index))
      invariant images == Images(findings)
      invariant forall f :: f in findings ==> f.image < index
    {
      var st := states[index];
      images := images + {index};
      var recovery := recover(index, st);
      statesTested := statesTested + 1;
      var crashStamp := CrashStamp(events, st);
      var violations := CheckOracle(ackLog, crashStamp, recovery);
      findings := Charge(events, ackLog, st, index, crashStamp, violations, findings,
              Reports(events, ackLog, states, recover, index));
      var isEvidence := exists f :: f in findings && f.image == index;
      if !isEvidence {
        images := images - {index};
      }
    }
  }

  /** The inner loop over one state's violations. */
  method Charge(events: seq<Event>, ackLog: seq<AckedOperation>, st: CrashState, index: nat, crashStamp: nat,
                violations: seq<Violation>, found: seq<Finding>, ghost before: seq<Report>)
    returns (findings: seq<Finding>)
    requires crashStamp == CrashStamp(events, st)
    requires found == Tally(before)
    requires forall f :: f in found ==> f.image < index
    ensures findings == Tally(before + ReportsAt(events, ackLog, st, index, violations))
    ensures Images(findings) == Images(found) + (if exists f :: f in findings && f.image == index then {index} else {})
    ensures index !in Images(found)
    ensures forall f :: f in findings ==> f.image <= index
  {
    hide Tally, Fold, FirstBlame, OperationFor, ClassName, BlameText;
    findings := found;
    ghost var reports := ReportsAt(events, ackLog, st, index, violations);
    assert before + reports[..0] == before;
    for i := 0 to |violations|
      invariant findings == Tally(before + reports[..i])
      invariant Images(found) <= Images(findings) <= Images(found) + {index}
    {
      var violation := violations[i];
      var operation := OperationFor(ackLog, violation, crashStamp);
      var blame := EarliestMissing(st, events, operation);
      var signature := ClassName(violation.violationClass) + "|" + BlameText(events, blame);
      assert reports[i] == Report(signature, violation, st, index);
      assert before + reports[..i + 1] == (before + reports[..i]) + [reports[i]];
      TallySnoc(before + reports[..i], reports[i]);
      FoldImages(findings, reports[i]);
      findings := Note(findings, signature, violation, st, index);
    }
    assert reports[..|violations|] == reports;
    forall f | f in findings ensures f.image <= index {
      assert f.image in Images(findings);
    }
  }

  /** `findings.get(signature)`: count the finding, or add it with this state as its evidence. */
  method Note(found: seq<Finding>, signature: string, violation: Violation, st: CrashState,
        index: nat) returns (findings: seq<Finding>)
    ensures findings == Fold(found, Report(signature, violation, st, index))
  {
    var p := Position(found, signature);
    if p == |found| {
      findings := found + [Finding(signature, violation, 1, st, index)];
    } else {
      findings := found[p := found[p].(occurrences := found[p].occurrences + 1)];
    }
  }

  lemma FoldImages(findings: seq<Finding>, r: Report)
    ensures Images(findings) <= Images(Fold(findings, r)) <= Images(findings) + {r.image}
  {
    var after := Fold(findings, r);
    forall f | f in findings ensures f.image in Images(after) {
      var i :| 0 <= i < |findings| && findings[i] == f;
      assert after[i].image == f.image && after[i] in after;
    }
    forall f | f in after ensures f.image in Images(findings) + {r.image} {
      var i :| 0 <= i < |after| && after[i] == f;
      if i < |findings| { assert findings[i] in findings && findings[i].image == f.image; }
    }
  }

  // ---------------------------------------------------------------- conservation and first evidence

  function TotalOccurrences(findings: seq<Finding>): nat {
    if findings == [] then 0 else TotalOccurrences(findings[..|findings| - 1]) + findings[|findings| - 1].occurrences
  }

  function CountOf(reports: seq<Report>, signature: string): nat {
    if reports == [] then 0 else
      CountOf(reports[..|reports| - 1], signature) + (if reports[|reports| - 1].signature == signature then 1 else 0)
  }

  lemma TotalAfterIncrement(findings: seq<Finding>, p: nat)
    requires p < |findings|
    ensures TotalOccurrences(findings[p := findings[p].(occurrences := findings[p].occurrences + 1)])
       == TotalOccurrences(findings) + 1
  {
    var after := findings[p := findings[p].(occurrences := findings[p].occurrences + 1)];
    var last := |findings| - 1;
    if p == last {
      assert after[..last] == findings[..last];
    } else {
      TotalAfterIncrement(findings[..last], p);
      assert after[..last] == findings[..last][p := findings[p].(occurrences := findings[p].occurrences + 1)];
    }
  }

  /** Nothing is lost or counted twice: the occurrences sum to the violations met. */
  lemma {:induction false} OccurrencesAreConserved(reports: seq<Report>)
    ensures TotalOccurrences(Tally(reports)) == |reports|
  {
    if reports != [] {
      var rest := reports[..|reports| - 1];
      var r := reports[|reports| - 1];
      OccurrencesAreConserved(rest);
      var before := Tally(rest);
      assert Tally(reports) == Fold(before, r);
      hide Tally;
      FoldCountsOne(before, r);
    }
  }

  lemma {:induction false} FoldCountsOne(findings: seq<Finding>, r: Report)
    ensures TotalOccurrences(Fold(findings, r)) == TotalOccurrences(findings) + 1
  {
    var p := Position(findings, r.signature);
    if p < |findings| {
      TotalAfterIncrement(findings, p);
    } else {
      var after := findings + [Finding(r.signature, r.violation, 1, r.state, r.image)];
      assert after[..|after| - 1] == findings;
    }
  }

  /** `f` was made from the first report of its signature and counts them all. */
  ghost predicate Accounts(reports: seq<Report>, f: Finding) {
    && f.occurrences == CountOf(reports, f.signature)
    && exists p :: 0 <= p < |reports|
        && reports[p] == Report(f.signature, f.violation, f.state, f.image)
        && forall q :: 0 <= q < p ==> reports[q].signature != f.signature
  }

  lemma {:induction false} CountZero(reports: seq<Report>, signature: string)
    ensures CountOf(reports, signature) == 0 <==> forall p :: 0 <= p < |reports| ==> reports[p].signature != signature
  {
    if reports != [] {
      CountZero(reports[..|reports| - 1], signature);
    }
  }

  lemma AccountsStep(reports: seq<Report>, f: Finding)
    requires reports != [] && Accounts(reports[..|reports| - 1], f)
    ensures var again := if reports[|reports| - 1].signature == f.signature then 1 else 0;
            Accounts(reports, f.(occurrences := f.occurrences + again))
  {
    var rest := reports[..|reports| - 1];
    var p :| 0 <= p < |rest| && rest[p] == Report(f.signature, f.violation, f.state, f.image)
      && forall q :: 0 <= q < p ==> rest[q].signature != f.signature;
    assert reports[p] == rest[p];
  }

  /** Findings have distinct signatures, one for every signature met, each from the first state that
      produced it. */
  ghost predicate Faithful(reports: seq<Report>, findings: seq<Finding>) {
    && DistinctSignatures(findings)
    && AllAccount(reports, findings)
    && AllCovered(reports, findings)
  }

  ghost predicate AllAccount(reports: seq<Report>, findings: seq<Finding>) {
    forall i :: 0 <= i < |findings| ==> Accounts(reports, findings[i])
  }

  ghost predicate AllCovered(reports: seq<Report>, findings: seq<Finding>) {
    forall p :: 0 <= p < |reports| ==> HasSignature(findings, reports[p].signature)
  }

  ghost predicate DistinctSignatures(findings: seq<Finding>) {
    forall i, j :: 0 <= i < j < |findings| ==> findings[i].signature != findings[j].signature
  }

  ghost predicate HasSignature(findings: seq<Finding>, signature: string) {
    exists i :: 0 <= i < |findings| && findings[i].signature == signature
  }

  lemma {:induction false} TallyIsFaithful(reports: seq<Report>)
    ensures Faithful(reports, Tally(reports))
  {
    if reports != [] {
      TallyIsFaithful(reports[..|reports| - 1]);
      FoldIsFaithful(reports, Tally(reports[..|reports| - 1]));
    }
  }

  lemma FoldIsFaithful(reports: seq<Report>, before: seq<Finding>)
    requires reports != [] && Faithful(reports[..|reports| - 1], before)
    ensures Faithful(reports, Fold(before, reports[|reports| - 1]))
  {
    hide DistinctSignatures, AllAccount, AllCovered, Fold;
    FoldKeepsDistinct(before, reports[|reports| - 1]);
    FoldKeepsAccounts(reports, before);
    FoldCovers(reports, before);
  }

  lemma FoldKeepsAccounts(reports: seq<Report>, before: seq<Finding>)
    requires reports != [] && Faithful(reports[..|reports| - 1], before)
    ensures AllAccount(reports, Fold(before, reports[|reports| - 1]))
  {
    var r := reports[|reports| - 1];
    hide DistinctSignatures, Accounts, AllCovered, Fold;
    FoldGrows(before, r);
    forall i | 0 <= i < |before| ensures Accounts(reports, Fold(before, r)[i]) {
      OldFinding(reports, before, i);
    }
    if |Fold(before, r)| > |before| {
      LastFinding(reports, before);
    }
  }

  lemma OldFinding(reports: seq<Report>, before: seq<Finding>, i: nat)
    requires reports != [] && i < |before|
    requires DistinctSignatures(before)
    requires Accounts(reports[..|reports| - 1], before[i])
    ensures i < |Fold(before, reports[|reports| - 1])|
    ensures Accounts(reports, Fold(before, reports[|reports| - 1])[i])
  {
    hide DistinctSignatures, Accounts, Fold;
    AccountsStep(reports, before[i]);
    FoldAt(before, reports[|reports| - 1], i);
  }

  lemma LastFinding(reports: seq<Report>, before: seq<Finding>)
    requires reports != [] && AllCovered(reports[..|reports| - 1], before)
    requires |Fold(before, reports[|reports| - 1])| > |before|
    ensures Accounts(reports, Fold(before, reports[|reports| - 1])[|before|])
  {
    var r := reports[|reports| - 1];
    hide Accounts, AllCovered, Fold;
    FoldAppends(before, r);
    NewFinding(reports[..|reports| - 1], r, before);
    assert reports == reports[..|reports| - 1] + [r];
  }

  lemma FoldCovers(reports: seq<Report>, before: seq<Finding>)
    requires reports != [] && AllCovered(reports[..|reports| - 1], before)
    ensures AllCovered(reports, Fold(before, reports[|reports| - 1]))
  {
    var rest := reports[..|reports| - 1];
    hide HasSignature, Fold;
    forall p | 0 <= p < |reports| ensures HasSignature(Fold(before, reports[|reports| - 1]), reports[p].signature) {
      if p < |rest| {
        assert reports[p] == rest[p];
      }
      KeepsSignatures(before, reports[|reports| - 1], reports[p].signature);
    }
  }

  /** Folding a report in counts it at the finding of its signature and nowhere else. */
  lemma FoldAt(findings: seq<Finding>, r: Report, i: nat)
    requires DistinctSignatures(findings) && i < |findings|
    ensures i < |Fold(findings, r)|
    ensures Fold(findings, r)[i]
         == findings[i].(occurrences := findings[i].occurrences + if r.signature == findings[i].signature then 1 else 0)
  {
    var p := Position(findings, r.signature);
    PositionIsFirst(findings, r.signature);
    assert p < i ==> findings[p].signature != findings[i].signature;
  }

  lemma FoldGrows(findings: seq<Finding>, r: Report)
    ensures |findings| <= |Fold(findings, r)| <= |findings| + 1
  {}

  lemma {:induction false} FoldAppends(findings: seq<Finding>, r: Report)
    requires |Fold(findings, r)| > |findings|
    ensures Position(findings, r.signature) == |findings|
    ensures Fold(findings, r) == findings + [Finding(r.signature, r.violation, 1, r.state, r.image)]
  {}

  lemma KeepsSignatures(findings: seq<Finding>, r: Report, signature: string)
    ensures HasSignature(findings, signature) || signature == r.signature ==> HasSignature(Fold(findings, r), signature)
  {
    var after := Fold(findings, r);
    assert after[Position(findings, r.signature)].signature == r.signature;
    if i :| 0 <= i < |findings| && findings[i].signature == signature {
      assert after[i].signature == signature;
    }
  }

  lemma FoldKeepsDistinct(findings: seq<Finding>, r: Report)
    requires DistinctSignatures(findings)
    ensures DistinctSignatures(Fold(findings, r))
  {
    PositionIsFirst(findings, r.signature);
    assert forall i :: 0 <= i < |findings| ==> Fold(findings, r)[i].signature == findings[i].signature;
  }

  lemma {:induction false} NewFinding(rest: seq<Report>, r: Report, before: seq<Finding>)
    requires AllCovered(rest, before)
    requires Position(before, r.signature) == |before|
    ensures Accounts(rest + [r], Finding(r.signature, r.violation, 1, r.state, r.image))
  {
    PositionIsFirst(before, r.signature);
    forall p | 0 <= p < |rest| ensures rest[p].signature != r.signature {
      assert HasSignature(before, rest[p].signature);
      var i :| 0 <= i < |before| && before[i].signature == rest[p].signature;
      assert before[i].signature != r.signature;
    }
    CountZero(rest, r.signature);
    assert (rest + [r])[..|rest|] == rest;
    assert (rest + [r])[|rest|] == r;
  }

  // ---------------------------------------------------------------- the whole run

  datatype Options = Options(
    model: FilesystemModel,
    selection: SelectionOptions,
    bounds: Bounds,
    maxStatesPerCrashPoint: nat
  )

  /** The states a run tests: enumerated at the selected crash points, then sampled. */
  ghost function TestedStates(events: seq<Event>, options: Options): seq<CrashState> {
    Sampled(Enumerated(events, options.model, options.bounds, SelectedPoints(events, options.selection)),
            options.maxStatesPerCrashPoint, options.selection.seed)
  }

  method RunCampaign(trace: Trace, options: Options, recover: Recovery)
    returns (crashPointsTested: nat, statesTested: nat, findings: seq<Finding>, images: set<nat>)
    ensures crashPointsTested == |SelectedPoints(trace.events, options.selection)|
    ensures var points := SelectedPoints(trace.events, options.selection);
            var states := Sampled(Enumerated(trace.events, options.model, options.bounds, points),
                    options.maxStatesPerCrashPoint, options.selection.seed);
            && statesTested == |states|
            && findings == Tally(Reports(trace.events, Log(trace.markers), states, recover, |states|))
    ensures images == Images(findings)
  {
    var ackLog := ParseAckLog(trace);
    var crashPoints := SelectCrashPoints(trace, options.selection);
    SelectionIsUnique(trace.events, options.selection, crashPoints);
    var all := EnumerateCrashStates(trace.events, options.model, options.bounds, Some(crashPoints));
    var states := SampleStates(all, options.maxStatesPerCrashPoint, options.selection.seed);
    statesTested, findings, images := TestStates(trace.events, ackLog, states, recover);
    crashPointsTested := |crashPoints|;
  }

  /** Bounds only lose states: whatever a run tests is a state of the same trace under any wider bounds,
      with every crash point enumerated and nothing sampled away. */
  lemma {:induction false} TestedIsEnumerated(events: seq<Event>, options: Options, wide: Bounds, st: CrashState)
    requires Widens(options.bounds, wide) && (!options.model.totalOrder ==> options.bounds.maxUnpersistedWindow >= 1)
    requires forall k :: k in SelectedPoints(events, options.selection) ==>
               Spans(events, k, options.model, wide.maxUnpersistedWindow)
    requires st in TestedStates(events, options)
    ensures st in Enumerated(events, options.model, wide, AllPoints(|events|))
  {
    hide Enumerated, Sampled, SelectedPoints, Selected;
    var points := SelectedPoints(events, options.selection);
    SampleIsSubset(Enumerated(events, options.model, options.bounds, points), options.maxStatesPerCrashPoint,
            options.selection.seed, st);
    SelectedInTrace(events, options.selection);
    FewerPointsAndBounds(events, options.model, options.bounds, wide, points, st);
  }

  lemma SelectedInTrace(events: seq<Event>, options: SelectionOptions)
    ensures forall k :: k in SelectedPoints(events, options) ==> k < |events|
  {}

  lemma {:induction false} NoReportsIff(events: seq<Event>, ackLog: seq<AckedOperation>, states: seq<CrashState>,
        recover: Recovery, n: nat)
    requires n <= |states|
    ensures Reports(events, ackLog, states, recover, n) == []
       <==> forall i :: 0 <= i < n ==> ViolationsAt(events, ackLog, states, recover, i) == []
  {
    hide Violations, ReportOf;
    if n > 0 {
      NoReportsIff(events, ackLog, states, recover, n - 1);
    }
  }

  lemma {:induction false} NoFindingsIff(reports: seq<Report>)
    ensures Tally(reports) == [] <==> reports == []
  {
    if reports != [] {
      OccurrencesAreConserved(reports);
      assert TotalOccurrences([]) == 0;
    }
  }

  /** A run is clean exactly when every state it tested recovered everything promised before its crash. */
  lemma {:induction false} CleanIffContractHolds(events: seq<Event>, ackLog: seq<AckedOperation>,
        states: seq<CrashState>, recover: Recovery)
    ensures Tally(Reports(events, ackLog, states, recover, |states|)) == []
       <==> forall i :: 0 <= i < |states| ==>
              ContractHolds(ackLog, CrashStamp(events, states[i]), recover(i, states[i]))
  {
    hide Tally, Reports, Violations, ContractHolds;
    NoFindingsIff(Reports(events, ackLog, states, recover, |states|));
    NoReportsIff(events, ackLog, states, recover, |states|);
    forall i | 0 <= i < |states|
      ensures ViolationsAt(events, ackLog, states, recover, i) == []
         <==> ContractHolds(ackLog, CrashStamp(events, states[i]), recover(i, states[i]))
    {
      SilentIffContractHolds(ackLog, CrashStamp(events, states[i]), recover(i, states[i]));
    }
  }

  // ---------------------------------------------------------------- blame during a run

  lemma {:induction false} FindNothing(ackLog: seq<AckedOperation>)
    ensures Find(ackLog, None) == None
  {
    if ackLog != [] { FindNothing(ackLog[1..]); }
  }

  /** The operation a violation is charged to was acknowledged no later than the crash. */
  lemma ChargedBeforeCrash(ackLog: seq<AckedOperation>, crashStamp: nat,
        recovery: RecoveryResult, v: Violation)
    requires forall i, j :: 0 <= i < j < |ackLog| ==> ackLog[i].op != ackLog[j].op
    requires v in Violations(ackLog, crashStamp, recovery)
    ensures var operation := OperationFor(ackLog, v, crashStamp);
            operation.acknowledgedAt.Some? && operation.acknowledgedAt.value <= crashStamp
  {
    FindNothing(ackLog);
    if v.violationClass == LostAcked {
      LossesAreExact(ackLog, crashStamp, recovery, v);
      var r :| r in ackLog && IsPromised(r, crashStamp) && recovery.Recovered? && !Kept(recovery.values, r)
          && v == Loss(r, recovery.values, crashStamp);
      FindFinds(ackLog, r);
    } else {
      OtherClassesNameNoOperation(ackLog, crashStamp, recovery, v);
    }
  }

  lemma OtherClassesNameNoOperation(ackLog: seq<AckedOperation>, crashStamp: nat,
        recovery: RecoveryResult, v: Violation)
    requires v in Violations(ackLog, crashStamp, recovery) && v.violationClass != LostAcked
    ensures v.op == None
  {
    var promised := PromisedBefore(ackLog, crashStamp);
    if recovery.Recovered? {
      LossesMembers(promised, recovery.values, crashStamp, v);
    }
  }

  /** For every violation at an enumerated state, whatever recovery returned: the blamed event, if any, is
      a successful mutation of the unpinned window, at or before the crash point, never a pinned one. */
  lemma {:induction false} BlameIsLegitimate(trace: Trace, k: nat, model: FilesystemModel, bounds: Bounds,
        st: CrashState, recovery: RecoveryResult, v: Violation)
    requires InStampOrder(trace.events) && MarkersInOrder(trace.markers) && k < |trace.events|
    requires st in StatesAt(trace.events, k, model, bounds)
    requires v in Violations(Log(trace.markers), trace.events[k].index, recovery)
    ensures var operation := OperationFor(Log(trace.markers), v, CrashStamp(trace.events, st));
            var blame := FirstBlame(st, trace.events, operation, 0);
            blame.Some? ==>
              && blame.value.position <= k
              && Succeeded(trace.events[blame.value.position])
              && !IsPinned(trace.events, k, blame.value.position)
              && blame.value.position in Window(trace.events, k, bounds.maxUnpersistedWindow)
  {
    hide StatesAt, Window, IsPinned, Violations, Log, FirstBlame, OperationFor;
    ListedWellFormed(trace.events, k, model, bounds, st);
    LogLaws(trace.markers);
    ChargedBeforeCrash(Log(trace.markers), trace.events[k].index, recovery, v);
    var operation := OperationFor(Log(trace.markers), v, CrashStamp(trace.events, st));
    BlameIsInWindow(trace.events, k, model, bounds, st, operation);
  }
}
