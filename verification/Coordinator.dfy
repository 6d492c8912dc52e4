/** The resumable run loop: plan order, durable transitions, and nothing completed without validation. */
module Coordinator {
  import opened Options

  datatype CellKey = CellKey(
    candidate: string, shot: string, conditioning: string, cap: string, provider: string, hostLoad: string)

  /** What an executor may hand over. `Foreign` is any value that is not plain JSON: a tuple, a custom
      mapping, a decimal. */
  datatype Json =
    | Null
    | Bool(truth: bool)
    | Number(value: real)
    | NonFinite
    | Text(text: string)
    | List(items: seq<Json>)
    | Object(fields: map<string, Json>)
    | Foreign

  datatype Ref = Ref(cellId: string, attempt: string, manifestSha: string)

  datatype Execution = CommittedExecution(result: Json, ref: Ref) | LegacyResult(result: Json)

  // ----- Validating a result -----

  const STATUSES := ["pass", "fail", "skip"]
  const FAILURE_TYPES := [
    "artifact_missing", "artifact_hash_mismatch", "license_not_permitted", "license_unknown",
    "provider_unavailable", "unsupported_tensor_contract", "wrong_direction", "export_not_reproducible",
    "missing_input", "input_invalid", "conditioning_failure", "cap_unavailable", "out_of_memory",
    "runtime_error", "nonfinite_output", "repeated_run_instability", "quality_gate_failed",
    "operator_cancelled", "not_attempted", "other"]

  const IDENTITY_FIELDS := ["candidate_id", "shot_id", "conditioning_token", "cap_token", "provider", "host_load"]
  const FAILURE_FIELDS := {"type", "message", "retryable", "stage"}

  datatype Refusal =
    | ResultShape | JsonValue | NonFiniteNumber | ResultIdentity | CellMismatch | ResultStatus
    | FailureShape | FailureMissing | FailureType

  /** The key's values in the order of `IDENTITY_FIELDS`. */
  function Fields(c: CellKey): (r: seq<string>) ensures |r| == 6 {
    [c.candidate, c.shot, c.conditioning, c.cap, c.provider, c.hostLoad]
  }

  /** Plain JSON with finite numbers, all the way down. */
  predicate Strict(v: Json) {
    match v
    case NonFinite => false
    case Foreign => false
    case List(items) => forall x <- items :: Strict(x)
    case Object(fields) => forall key <- fields :: Strict(fields[key])
    case _ => true
  }

  /** `_validate_json` */
  method ValidateJson(v: Json) returns (refusal: Option<Refusal>)
    ensures refusal == None <==> Strict(v)
    decreases v
  {
    match v
    case NonFinite => return Some(NonFiniteNumber);
    case Foreign => return Some(JsonValue);
    case List(items) =>
      for i := 0 to |items|
        invariant forall x <- items[..i] :: Strict(x)
      {
        refusal := ValidateJson(items[i]);
        if refusal.Some? { return; }
        assert items[..i + 1] == items[..i] + [items[i]];
      }
      assert items[..|items|] == items;
      return None;
    case Object(fields) =>
      var left := fields.Keys;
      while left != {}
        invariant left <= fields.Keys
        invariant forall key <- fields :: key in left || Strict(fields[key])
        decreases |left|
      {
        var key :| key in left;
        refusal := ValidateJson(fields[key]);
        if refusal.Some? { return; }
        left := left - {key};
      }
      return None;
    case _ => return None;
  }

  predicate NonEmpty(v: Json) { v.Text? && v.text != "" }

  function Field(v: Json, name: string): Option<Json> {
    if v.Object? && name in v.fields then Some(v.fields[name]) else None
  }

  /** A typed failure: these fields and no others, a permitted type, a message, and a boolean
      `retryable` and a non-empty `stage` where it has them. */
  predicate FailureOk(f: Json) {
    && f.Object? && f.fields.Keys <= FAILURE_FIELDS
    && "type" in f.fields && f.fields["type"].Text? && f.fields["type"].text in FAILURE_TYPES
    && "message" in f.fields && NonEmpty(f.fields["message"])
    && ("retryable" in f.fields ==> f.fields["retryable"].Bool?)
    && ("stage" in f.fields ==> NonEmpty(f.fields["stage"]))
  }

  /** `_validate_failure` */
  method ValidateFailure(f: Json) returns (refusal: Option<Refusal>)
    ensures refusal == None <==> FailureOk(f)
  {
    if !f.Object? { return Some(FailureShape); }
    if !(f.fields.Keys <= FAILURE_FIELDS) { return Some(FailureShape); }
    if "type" !in f.fields || "message" !in f.fields { return Some(FailureShape); }
    if !NonEmpty(f.fields["type"]) { return Some(ResultIdentity); }
    if f.fields["type"].text !in FAILURE_TYPES { return Some(FailureType); }
    if !NonEmpty(f.fields["message"]) { return Some(ResultIdentity); }
    if "retryable" in f.fields && !f.fields["retryable"].Bool? { return Some(FailureShape); }
    if "stage" in f.fields && !NonEmpty(f.fields["stage"]) { return Some(ResultIdentity); }
    return None;
  }

  /** A result that may complete `cell`: plain JSON that names exactly this cell, and carries a typed
      failure exactly when it did not pass. */
  predicate ResultOk(result: Json, cell: CellKey) {
    && result.Object? && Strict(result)
    && (forall i | 0 <= i < 6 ::
          Fields(cell)[i] != "" && Field(result, IDENTITY_FIELDS[i]) == Some(Text(Fields(cell)[i])))
    && (exists status <- STATUSES :: Field(result, "status") == Some(Text(status)))
    && (Field(result, "status") == Some(Text("pass")) <==> Field(result, "failure") == None)
    && ("failure" in result.fields ==> FailureOk(result.fields["failure"]))
  }

  /** `_validate_result`, field by field. */
  method ValidateResult(result: Json, cell: CellKey) returns (refusal: Option<Refusal>)
    ensures refusal == None <==> ResultOk(result, cell)
  {
    hide Strict, FailureOk;
    if !result.Object? { return Some(ResultShape); }
    refusal := ValidateJson(result);
    if refusal.Some? { return; }
    for i := 0 to 6
      invariant forall k | 0 <= k < i ::
        Fields(cell)[k] != "" && Field(result, IDENTITY_FIELDS[k]) == Some(Text(Fields(cell)[k]))
    {
      var name := IDENTITY_FIELDS[i];
      if name !in result.fields { FieldRefused(result, cell, i); return Some(ResultIdentity); }
      if !NonEmpty(result.fields[name]) { FieldRefused(result, cell, i); return Some(ResultIdentity); }
      if result.fields[name].text != Fields(cell)[i] { FieldRefused(result, cell, i); return Some(CellMismatch); }
    }
    if "status" !in result.fields { return Some(ResultStatus); }
    var status := result.fields["status"];
    if !status.Text? || status.text !in STATUSES { return Some(ResultStatus); }
    if status.text == "pass" {
      if "failure" in result.fields { return Some(FailureShape); }
      return None;
    }
    if "failure" !in result.fields { return Some(FailureMissing); }
    refusal := ValidateFailure(result.fields["failure"]);
  }

  lemma FieldRefused(result: Json, cell: CellKey, i: nat)
    requires i < 6
    requires match Field(result, IDENTITY_FIELDS[i])
      case None => true
      case Some(v) => !NonEmpty(v) || v.text != Fields(cell)[i]
    ensures !ResultOk(result, cell)
  {
  }

  /** So a result can complete one cell only. */
  lemma ResultNamesOneCell(result: Json, a: CellKey, b: CellKey)
    requires ResultOk(result, a) && ResultOk(result, b)
    ensures a == b
  {
    hide Strict, FailureOk;
    forall i | 0 <= i < 6 ensures Fields(a)[i] == Fields(b)[i] {
      assert Field(result, IDENTITY_FIELDS[i]) == Some(Text(Fields(a)[i]));
      assert Field(result, IDENTITY_FIELDS[i]) == Some(Text(Fields(b)[i]));
    }
    assert Fields(a) == Fields(b);
    assert Fields(a)[0] == a.candidate && Fields(a)[1] == a.shot && Fields(a)[2] == a.conditioning;
    assert Fields(a)[3] == a.cap && Fields(a)[4] == a.provider && Fields(a)[5] == a.hostLoad;
    assert Fields(b)[0] == b.candidate && Fields(b)[1] == b.shot && Fields(b)[2] == b.conditioning;
    assert Fields(b)[3] == b.cap && Fields(b)[4] == b.provider && Fields(b)[5] == b.hostLoad;
  }

  // ----- The state file -----

  datatype Progress = Pending | InProgress | Complete(result: Json, ref: Ref)
  datatype Entry = Entry(cell: CellKey, state: Progress)

  predicate Distinct(plan: seq<CellKey>) {
    forall i, j | 0 <= i < j < |plan| :: plan[i] != plan[j]
  }

  /** One entry per plan cell, in plan order. */
  predicate Matches(entries: seq<Entry>, plan: seq<CellKey>) {
    |entries| == |plan| && forall i | 0 <= i < |plan| :: entries[i].cell == plan[i]
  }

  function Recovered(entries: seq<Entry>): (r: seq<Entry>)
    ensures |r| == |entries|
    ensures forall i | 0 <= i < |entries| ::
      r[i] == if entries[i].state == InProgress then Entry(entries[i].cell, Pending) else entries[i]
  {
    seq(|entries|, i requires 0 <= i < |entries| =>
      if entries[i].state == InProgress then Entry(entries[i].cell, Pending) else entries[i])
  }

  /** The persisted state. A write replaces the file atomically, but may report a failure either
      before the replace or after it. */
  class StateFile {
    const plan: seq<CellKey>
    var entries: seq<Entry>

    /** How often reading or writing the file failed. */
    ghost var faults: nat

    predicate Valid() reads this`entries { plan != [] && Distinct(plan) && Matches(entries, plan) }

    constructor (plan: seq<CellKey>)
      requires plan != [] && Distinct(plan)
      ensures Valid() && this.plan == plan
      ensures forall e <- entries :: e.state == Pending
    {
      this.plan := plan;
      entries := seq(|plan|, i requires 0 <= i < |plan| => Entry(plan[i], Pending));
    }

    method Save(next: seq<Entry>) returns (raised: bool)
      modifies this
      ensures !raised ==> entries == next
      ensures raised ==> entries == next || entries == old(entries)
      ensures faults == old(faults) + if raised then 1 else 0
    {
      raised := Fails();
      if raised { return; }
      entries := next;
      raised := Fails();
    }

    /** Any access to the file may fail. */
    method Fails() returns (raised: bool)
      modifies this`faults
      ensures faults == old(faults) + if raised then 1 else 0
    {
      raised := *;
      if raised { faults := faults + 1; }
    }

    /** `load_state`: interrupted work goes back to pending. */
    method Load() returns (raised: bool)
      requires Valid()
      modifies this
      ensures Valid()
      ensures !raised ==> entries == Recovered(old(entries))
      ensures raised ==> entries == old(entries) || entries == Recovered(old(entries))
      ensures faults == old(faults) + if raised then 1 else 0
    {
      raised := Fails();
      if raised { return; }
      if exists e <- entries :: e.state == InProgress {
        raised := Save(Recovered(entries));
      } else {
        assert entries == Recovered(entries);
      }
    }

    /** `_transition`: one entry, from the expected state only. */
    method Transition(index: nat, from: Progress, to: Progress) returns (raised: bool)
      requires Valid() && index < |plan|
      modifies this
      ensures Valid()
      ensures !raised ==> old(entries)[index].state == from && entries == old(entries)[index := Entry(plan[index], to)]
      ensures raised ==> entries == old(entries) || entries == old(entries)[index := Entry(plan[index], to)]
      ensures raised && entries != old(entries) ==> old(entries)[index].state == from
      ensures old(entries)[index].state == from ==> faults == old(faults) + if raised then 1 else 0
      ensures old(entries)[index].state != from ==> faults == old(faults)
    {
      if entries[index].state != from { return true; }
      raised := Save(entries[index := Entry(plan[index], to)]);
    }
  }

  // ----- The collaborators -----

  /** One call of the executor: what the state file held then, and what came back; nothing when it raised. */
  datatype Answer = Answer(cell: CellKey, persisted: seq<Entry>, execution: Option<Execution>)

  /** The caller's executor: it may answer anything or raise; its calls are what the runs spend. */
  class Executor {
    var calls: seq<CellKey>
    ghost var answers: seq<Answer>

    constructor ()
      ensures calls == [] && answers == []
    {
      calls, answers := [], [];
    }

    method Execute(cell: CellKey, ghost persisted: seq<Entry>) returns (r: Option<Execution>)
      modifies this
      ensures calls == old(calls) + [cell] && answers == old(answers) + [Answer(cell, persisted, r)]
    {
      calls := calls + [cell];
      var raises: bool := *;
      if raises { r := None; } else { r := *; }
      answers := answers + [Answer(cell, persisted, r)];
    }
  }

  /** What the validator was asked and said; raising is refusing. */
  datatype Verdict = Verdict(cell: CellKey, result: Json, ref: Ref, accepted: bool)

  /** The injected store validator: it may accept, refuse or raise. */
  class Validator {
    ghost var verdicts: seq<Verdict>

    constructor ()
      ensures verdicts == []
    {
      verdicts := [];
    }

    method AcceptsRef(cell: CellKey, result: Json, ref: Ref) returns (accepted: bool)
      modifies this
      ensures verdicts == old(verdicts) + [Verdict(cell, result, ref, accepted)]
    {
      accepted := *;
      verdicts := verdicts + [Verdict(cell, result, ref, accepted)];
    }
  }

  /** What was said from some point on. */
  datatype Said = Said(answers: seq<Answer>, verdicts: seq<Verdict>)

  const NOTHING := Said([], [])

  /** The validator accepted exactly this. */
  ghost predicate Accepted(said: Said, cell: CellKey, result: Json, ref: Ref) {
    Verdict(cell, result, ref, true) in said.verdicts
  }

  /** The executor returned exactly this for the cell, while the file showed the cell in progress, and the
      validator accepted it. */
  ghost predicate Proven(said: Said, cell: CellKey, result: Json, ref: Ref) {
    && Accepted(said, cell, result, ref)
    && exists answer <- said.answers ::
         && answer.cell == cell && answer.execution == Some(CommittedExecution(result, ref))
         && Entry(cell, InProgress) in answer.persisted
  }

  /** Everything completed since `before` was proven. */
  ghost predicate AllProven(said: Said, before: seq<Entry>, after: seq<Entry>) {
    |after| == |before| && forall i | 0 <= i < |after| ::
      after[i].state.Complete? && !before[i].state.Complete? ==>
        Proven(said, after[i].cell, after[i].state.result, after[i].state.ref)
  }

  /** What was collected was accepted in the same run. */
  ghost predicate AllAccepted(said: Said, entries: seq<Entry>, n: nat) {
    n <= |entries| && forall i | 0 <= i < n ::
      entries[i].state.Complete? && Accepted(said, entries[i].cell, entries[i].state.result, entries[i].state.ref)
  }

  /** An execution that cannot complete the cell. */
  ghost predicate Useless(said: Said, cell: CellKey, execution: Option<Execution>) {
    || execution == None || execution.value.LegacyResult? || !ResultOk(execution.value.result, cell)
    || Verdict(cell, execution.value.result, execution.value.ref, false) in said.verdicts
  }

  /** A complete entry that does not pass. */
  ghost predicate Spoiled(said: Said, entry: Entry)
    requires entry.state.Complete?
  {
    || !ResultOk(entry.state.result, entry.cell)
    || Verdict(entry.cell, entry.state.result, entry.state.ref, false) in said.verdicts
  }

  /** Why a run stops at entry `at` when no access to the file failed. */
  ghost predicate Excused(said: Said, before: seq<Entry>, at: nat, halt: Halt) {
    && at < |before|
    && match halt
       case NotExecuted => before[at].state.Complete? && Spoiled(said, before[at])
       case Failed => exists answer <- said.answers ::
         answer.cell == before[at].cell && Useless(said, answer.cell, answer.execution)
       case Validated => false
  }

  // ----- One run -----

  datatype Record = Record(cell: CellKey, result: Json)

  /** What became of the entry a run stops at: the executor was not called, it or the validation of its
      result failed, or only the write that completes the entry was left. */
  datatype Halt = NotExecuted | Failed | Validated

  datatype RunOutcome = Records(records: seq<Record>) | Raised(at: nat, halt: Halt)

  /** The cells of the first `k` entries that are not complete, in plan order. */
  function Todo(entries: seq<Entry>, k: nat): seq<CellKey>
    requires k <= |entries|
  {
    if k == 0 then []
    else Todo(entries, k - 1) + if entries[k - 1].state.Complete? then [] else [entries[k - 1].cell]
  }

  /** What one run does to the entries and to the executor, up to the entry it stops at. A cell whose
      execution or validation failed is left in progress. */
  predicate RunRelation(before: seq<Entry>, after: seq<Entry>, spent: seq<CellKey>, stop: nat, halt: Halt,
                        finished: bool) {
    && |after| == |before| && stop <= |before| && (halt != NotExecuted ==> stop < |before|)
    && (finished ==> stop == |before| && halt == NotExecuted)
    && spent == Todo(before, stop) + (if halt != NotExecuted then [before[stop].cell] else [])
    && (forall i | 0 <= i < |before| :: after[i].cell == before[i].cell)
    && (forall i | 0 <= i < |before| && before[i].state.Complete? :: after[i] == before[i])
    && (forall i | 0 <= i < stop :: after[i].state.Complete?)
    && (forall i | stop < i < |before| && !before[i].state.Complete? :: !after[i].state.Complete?)
    && (halt == Failed ==> !before[stop].state.Complete? && after[stop].state == InProgress)
    && (halt == Validated ==> !before[stop].state.Complete? && after[stop].state != Pending)
    && (halt == NotExecuted && stop < |before| && !before[stop].state.Complete? ==> !after[stop].state.Complete?)
  }

  predicate OneInProgress(entries: seq<Entry>) {
    forall i, j | 0 <= i < j < |entries| :: !(entries[i].state == InProgress && entries[j].state == InProgress)
  }

  /** Completed since the run began means validated for its own cell. */
  predicate NewlyValidated(before: seq<Entry>, after: seq<Entry>) {
    |after| == |before| && forall i | 0 <= i < |after| ::
      after[i].state.Complete? && !before[i].state.Complete? ==> ResultOk(after[i].state.result, after[i].cell)
  }

  /** One record for each of the first cells of the plan, in plan order, of a complete and valid entry. */
  predicate Collected(records: seq<Record>, entries: seq<Entry>, plan: seq<CellKey>) {
    && |records| <= |entries| == |plan|
    && forall i | 0 <= i < |records| ::
         && entries[i].state.Complete? && ResultOk(entries[i].state.result, plan[i])
         && records[i] == Record(plan[i], entries[i].state.result)
  }

  lemma NoneCollected(entries: seq<Entry>, plan: seq<CellKey>)
    requires |entries| == |plan|
    ensures Collected([], entries, plan)
  {
  }

  lemma CollectedMore(records: seq<Record>, before: seq<Entry>, now: seq<Entry>, plan: seq<CellKey>, record: Record)
    requires Collected(records, before, plan) && |records| < |before| == |now| &&
      now == before[|records| := now[|records|]]
    requires now[|records|].state.Complete? && ResultOk(now[|records|].state.result, plan[|records|])
    requires record == Record(plan[|records|], now[|records|].state.result)
    ensures Collected(records + [record], now, plan)
  {
  }

  class RunCoordinator {
    const state: StateFile
    const executor: Executor
    const validator: Validator

    constructor (state: StateFile, executor: Executor, validator: Validator)
      ensures this.state == state && this.executor == executor && this.validator == validator
    {
      this.state, this.executor, this.validator := state, executor, validator;
    }

    /** What was said since the logs had these lengths. */
    ghost function Since(answers: nat, verdicts: nat): Said
      requires answers <= |executor.answers| && verdicts <= |validator.verdicts|
      reads executor, validator
    {
      Said(executor.answers[answers..], validator.verdicts[verdicts..])
    }

    /** Resumes, executes what is pending in plan order, and returns one record per cell; a failure
        anywhere stops the run where it is. What becomes complete is what the executor returned for the cell
        and the validator accepted, and every record rests on an acceptance in this very run. */
    method Run() returns (r: RunOutcome)
      requires state.Valid()
      modifies state, executor, validator
      ensures state.Valid() && OneInProgressKept(old(state.entries), state.entries)
      ensures old(executor.calls) <= executor.calls
      ensures RunRelation(old(state.entries), state.entries, executor.calls[|old(executor.calls)|..],
        if r.Records? then |state.plan| else r.at, if r.Records? then NotExecuted else r.halt, r.Records?)
      ensures NewlyValidated(old(state.entries), state.entries)
      ensures r.Records? ==> |r.records| == |state.plan| && Collected(r.records, state.entries, state.plan)
      ensures old(executor.answers) <= executor.answers && old(validator.verdicts) <= validator.verdicts
      ensures var said := Since(|old(executor.answers)|, |old(validator.verdicts)|);
        && AllProven(said, old(state.entries), state.entries)
        && (r.Records? ==> AllAccepted(said, state.entries, |state.plan|))
        && (r.Raised? && state.faults == old(state.faults) ==> Excused(said, old(state.entries), r.at, r.halt))
    {
      hide RunRelation, OneInProgress, NewlyValidated, Reached, Collected, AllProven, AllAccepted, Excused;
      ghost var before, spent := state.entries, executor.calls;
      var raised := state.Load();
      JustLoaded(before, state.entries);
      assert executor.calls[|spent|..] == [];
      NothingNew(before, state.entries);
      assert Since(|executor.answers|, |validator.verdicts|) == NOTHING;
      if raised { return Raised(0, NotExecuted); }
      ghost var done;
      r, done := WorkThrough(before);
      assert executor.calls[|spent|..] == done;
    }

    /** The loop over the plan, after the state was loaded; `done` are the cells it executes. */
    method WorkThrough(ghost before: seq<Entry>) returns (r: RunOutcome, ghost done: seq<CellKey>)
      requires state.Valid() && |before| == |state.plan| && Reached(before, state.entries, 0)
      requires forall i | 0 <= i < |before| :: before[i].cell == state.plan[i]
      requires AllProven(NOTHING, before, state.entries)
      modifies state, executor, validator
      ensures state.Valid() && |state.entries| == |before|
      ensures executor.calls == old(executor.calls) + done
      ensures RunRelation(before, state.entries, done,
        if r.Records? then |before| else r.at, if r.Records? then NotExecuted else r.halt, r.Records?)
      ensures OneInProgress(state.entries) && NewlyValidated(before, state.entries)
      ensures r.Records? ==> |r.records| == |before| && Collected(r.records, state.entries, state.plan)
      ensures old(executor.answers) <= executor.answers && old(validator.verdicts) <= validator.verdicts
      ensures var said := Since(|old(executor.answers)|, |old(validator.verdicts)|);
        && AllProven(said, before, state.entries)
        && (r.Records? ==> AllAccepted(said, state.entries, |before|))
        && (r.Raised? && state.faults == old(state.faults) ==> Excused(said, before, r.at, r.halt))
    {
      hide RunRelation, OneInProgress, NewlyValidated, ResultOk, Reached, Collected;
      hide AllProven, AllAccepted, Excused, Accepted, Fields;
      assert Todo(before, 0) == [];
      hide Todo;
      var records: seq<Record> := [];
      NoneCollected(state.entries, state.plan);
      ghost var a0, v0 := |executor.answers|, |validator.verdicts|;
      assert Since(a0, v0) == NOTHING;
      NoneAccepted(state.entries);
      for index := 0 to |state.plan|
        invariant state.Valid() && |records| == index
        invariant executor.calls == old(executor.calls) + Todo(before, index)
        invariant Reached(before, state.entries, index)
        invariant Collected(records, state.entries, state.plan)
        invariant old(executor.answers) <= executor.answers && old(validator.verdicts) <= validator.verdicts
        invariant AllProven(Since(a0, v0), before, state.entries) && AllAccepted(Since(a0, v0), state.entries, index)
        invariant state.faults == old(state.faults)
      {
        ghost var here, heard, a1, v1 := state.entries, Since(a0, v0), |executor.answers|, |validator.verdicts|;
        Waiting(before, here, index);
        var record, halt := RunCell(index);
        Stopped(before, here, state.entries, index, halt);
        assert executor.answers[a0..] == heard.answers + executor.answers[a1..];
        assert validator.verdicts[v0..] == heard.verdicts + validator.verdicts[v1..];
        SaidMore(heard, Since(a1, v1), Since(a0, v0), before, here, state.entries, index, halt);
        done := Todo(before, index) + (if halt != NotExecuted then [before[index].cell] else []);
        if record == None { return Raised(index, halt), done; }
        CollectedMore(records, here, state.entries, state.plan, record.value);
        records := records + [record.value];
      }
      AllReached(before, state.entries);
      return Records(records), Todo(before, |before|);
    }

    /** One turn of the loop: a complete entry is checked, any other is executed and completed. */
    method RunCell(index: nat) returns (record: Option<Record>, halt: Halt)
      requires state.Valid() && index < |state.plan| && state.entries[index].state != InProgress
      modifies state, executor, validator
      ensures state.Valid()
      ensures executor.calls == old(executor.calls) + if halt != NotExecuted then [state.plan[index]] else []
      ensures state.entries == old(state.entries)[index := state.entries[index]]
      ensures old(state.entries)[index].state.Complete? ==> halt == NotExecuted && state.entries == old(state.entries)
      ensures record.Some? && !old(state.entries)[index].state.Complete? ==> halt == Validated
      ensures halt == NotExecuted && !old(state.entries)[index].state.Complete? ==>
        !state.entries[index].state.Complete?
      ensures halt == Failed ==> state.entries[index].state == InProgress
      ensures halt == Validated ==> state.entries[index].state != Pending
      ensures record.Some? ==>
        && state.entries[index].state.Complete?
        && record.value == Record(state.plan[index], state.entries[index].state.result)
        && ResultOk(state.entries[index].state.result, state.plan[index])
      ensures state.entries[index].state.Complete? && !old(state.entries)[index].state.Complete? ==>
        ResultOk(state.entries[index].state.result, state.plan[index])
      ensures old(executor.answers) <= executor.answers && old(validator.verdicts) <= validator.verdicts
      ensures var said := Since(|old(executor.answers)|, |old(validator.verdicts)|);
        && AllProven(said, old(state.entries), state.entries)
        && (record.Some? ==>
              Accepted(said, state.plan[index], state.entries[index].state.result, state.entries[index].state.ref))
        && (record == None && state.faults == old(state.faults) ==> Excused(said, old(state.entries), index, halt))
      ensures record.Some? ==> state.faults == old(state.faults)
    {
      hide ResultOk;
      var cell, entry := state.plan[index], state.entries[index];
      if entry.state.Complete? {
        var refusal := ValidateResult(entry.state.result, cell);
        if refusal.Some? { return None, NotExecuted; }
        var accepted := validator.AcceptsRef(cell, entry.state.result, entry.state.ref);
        return if accepted then Some(Record(cell, entry.state.result)) else None, NotExecuted;
      }
      var raised := state.Transition(index, Pending, InProgress);
      if raised { return None, NotExecuted; }
      assert state.entries[index] == Entry(cell, InProgress);
      var execution := executor.Execute(cell, state.entries);
      ghost var answer := Answer(cell, state.entries, execution);
      assert executor.answers[|old(executor.answers)|..] == [answer];
      if execution == None || execution.value.LegacyResult? { return None, Failed; }
      var result, ref := execution.value.result, execution.value.ref;
      var refusal := ValidateResult(result, cell);
      if refusal.Some? { return None, Failed; }
      var accepted := validator.AcceptsRef(cell, result, ref);
      assert validator.verdicts[|old(validator.verdicts)|..] == [Verdict(cell, result, ref, accepted)];
      if !accepted { return None, Failed; }
      raised := state.Transition(index, InProgress, Complete(result, ref));
      return if raised then None else Some(Record(cell, result)), Validated;
    }

    /** Complete records without executing anything, or a failure: of the file, at the first incomplete
        entry, or at an entry that does not pass. */
    method CompletedRecords() returns (r: RunOutcome)
      requires state.Valid()
      modifies state, validator
      ensures state.Valid()
      ensures state.entries in {old(state.entries), Recovered(old(state.entries))}
      ensures old(validator.verdicts) <= validator.verdicts
      ensures r.Records? ==>
        && (forall e <- old(state.entries) :: e.state.Complete?)
        && |r.records| == |state.plan|
        && forall i | 0 <= i < |state.plan| ::
             old(state.entries)[i].state.Complete?
             && ResultOk(old(state.entries)[i].state.result, state.plan[i])
             && r.records[i] == Record(state.plan[i], old(state.entries)[i].state.result)
      ensures var said := Since(|executor.answers|, |old(validator.verdicts)|);
        && (r.Records? ==> AllAccepted(said, old(state.entries), |state.plan|))
        && (r.Raised? && state.faults == old(state.faults) ==>
              && r.at < |state.plan|
              && if old(state.entries)[r.at].state.Complete? then Spoiled(said, old(state.entries)[r.at])
                 else forall i | 0 <= i < r.at :: old(state.entries)[i].state.Complete?)
    {
      hide ResultOk;
      var raised := state.Load();
      if raised { return Raised(0, NotExecuted); }
      var entries := state.entries;
      for i := 0 to |entries|
        invariant forall k | 0 <= k < i :: entries[k].state.Complete?
      {
        if !entries[i].state.Complete? { return Raised(i, NotExecuted); }
      }
      assert forall i | 0 <= i < |entries| :: entries[i] == old(state.entries)[i];
      var records: seq<Record> := [];
      for i := 0 to |entries|
        invariant state.entries == entries && |records| == i && old(validator.verdicts) <= validator.verdicts
        invariant state.faults == old(state.faults)
        invariant forall k | 0 <= k < i ::
          && records[k] == Record(state.plan[k], entries[k].state.result)
          && ResultOk(entries[k].state.result, state.plan[k])
          && Accepted(Since(|executor.answers|, |old(validator.verdicts)|), state.plan[k], entries[k].state.result,
                      entries[k].state.ref)
      {
        ghost var heard := validator.verdicts[|old(validator.verdicts)|..];
        var refusal := ValidateResult(entries[i].state.result, state.plan[i]);
        if refusal.Some? { return Raised(i, NotExecuted); }
        var accepted := validator.AcceptsRef(state.plan[i], entries[i].state.result, entries[i].state.ref);
        assert validator.verdicts[|old(validator.verdicts)|..] ==
          heard + [Verdict(state.plan[i], entries[i].state.result, entries[i].state.ref, accepted)];
        if !accepted { return Raised(i, NotExecuted); }
        records := records + [Record(state.plan[i], entries[i].state.result)];
      }
      return Records(records);
    }
  }

  lemma NothingNew(before: seq<Entry>, now: seq<Entry>)
    requires now == before || now == Recovered(before)
    ensures AllProven(NOTHING, before, now)
  {
  }

  lemma NoneAccepted(entries: seq<Entry>)
    ensures AllAccepted(NOTHING, entries, 0)
  {
  }

  /** A turn adds to what was said, and what it completes or collects it has proven. */
  lemma SaidMore(heard: Said, latest: Said, said: Said, before: seq<Entry>, here: seq<Entry>, now: seq<Entry>, k: nat,
                 halt: Halt)
    requires said.answers == heard.answers + latest.answers && said.verdicts == heard.verdicts + latest.verdicts
    requires AllProven(heard, before, here) && AllProven(latest, here, now) && AllAccepted(heard, here, k)
    requires k < |here| && now == here[k := now[k]] && now[k].cell == here[k].cell == before[k].cell
    requires here[k].state.Complete? ==> now[k] == here[k] == before[k]
    ensures AllProven(said, before, now) && AllAccepted(said, now, k)
    ensures now[k].state.Complete? && Accepted(latest, now[k].cell, now[k].state.result, now[k].state.ref) ==>
      AllAccepted(said, now, k + 1)
    ensures Excused(latest, here, k, halt) ==> Excused(said, before, k, halt)
  {
    hide ResultOk;
  }

  /** The loop has dealt with the first `k` entries and not looked at the rest. */
  predicate Reached(before: seq<Entry>, now: seq<Entry>, k: nat) {
    && |now| == |before| && k <= |before|
    && (forall i | 0 <= i < k :: now[i].state.Complete? && now[i].cell == before[i].cell)
    && (forall i | 0 <= i < k :: if before[i].state.Complete? then now[i] == before[i]
         else ResultOk(now[i].state.result, now[i].cell))
    && (forall i | k <= i < |before| :: now[i] == Recovered(before)[i])
  }

  lemma JustLoaded(before: seq<Entry>, now: seq<Entry>)
    requires now == before || now == Recovered(before)
    ensures RunRelation(before, now, [], 0, NotExecuted, false) && OneInProgressKept(before, now) &&
      NewlyValidated(before, now)
    ensures now == Recovered(before) ==> Reached(before, now, 0)
  {
  }

  lemma Waiting(before: seq<Entry>, now: seq<Entry>, k: nat)
    requires Reached(before, now, k) && k < |before|
    ensures now[k].state != InProgress && (now[k].state.Complete? <==> before[k].state.Complete?)
    ensures now[k].cell == before[k].cell && (now[k].state.Complete? ==> now[k] == before[k])
  {
  }

  lemma {:induction false} AllReached(before: seq<Entry>, now: seq<Entry>)
    requires Reached(before, now, |before|)
    ensures RunRelation(before, now, Todo(before, |before|), |before|, NotExecuted, true)
    ensures OneInProgress(now) && NewlyValidated(before, now)
    ensures forall i | 0 <= i < |now| :: now[i].state.Complete?
  {
    hide Todo, ResultOk;
    forall i | 0 <= i < |before| ensures now[i].state.Complete? && now[i].cell == before[i].cell {}
  }

  /** Stopping at an entry, or going past it, keeps the account of the run straight. */
  lemma Stopped(before: seq<Entry>, here: seq<Entry>, now: seq<Entry>, k: nat, halt: Halt)
    requires k < |before| && Reached(before, here, k) && |now| == |here| && now == here[k := now[k]]
    requires now[k].cell == before[k].cell
    requires before[k].state.Complete? ==> halt == NotExecuted && now == here
    requires halt == NotExecuted && !before[k].state.Complete? ==> !now[k].state.Complete?
    requires halt == Failed ==> now[k].state == InProgress
    requires halt == Validated ==> now[k].state != Pending
    requires now[k].state.Complete? && !before[k].state.Complete? ==> ResultOk(now[k].state.result, now[k].cell)
    ensures now[k].state.Complete? && (before[k].state.Complete? || halt == Validated) ==> Reached(before, now, k + 1)
    ensures RunRelation(before, now, Todo(before, k) + (if halt != NotExecuted then [before[k].cell] else []), k, halt,
                        false)
    ensures OneInProgress(now) && NewlyValidated(before, now)
    ensures Todo(before, k + 1) == Todo(before, k) + (if before[k].state.Complete? then [] else [before[k].cell])
  {
    hide ResultOk;
  }

  ghost predicate OneInProgressKept(before: seq<Entry>, after: seq<Entry>) {
    OneInProgress(before) ==> OneInProgress(after)
  }

  // ----- Any sequence of runs -----

  /** One run of a history, with what it started from, left behind and spent. */
  datatype RunStep = RunStep(before: seq<Entry>, after: seq<Entry>, spent: seq<CellKey>, stop: nat, halt: Halt,
                             finished: bool)

  predicate History(plan: seq<CellKey>, runs: seq<RunStep>) {
    && Distinct(plan)
    && (forall k | 0 <= k < |runs| ::
         Matches(runs[k].before, plan)
         && RunRelation(runs[k].before, runs[k].after, runs[k].spent, runs[k].stop, runs[k].halt, runs[k].finished))
    && forall k | 0 < k < |runs| :: runs[k].before == runs[k - 1].after
  }

  /** A complete entry is never touched again, in any later run. */
  lemma {:induction false} CompleteForever(plan: seq<CellKey>, runs: seq<RunStep>, k: nat, j: nat, i: nat)
    requires History(plan, runs) && k <= j < |runs| && i < |plan| && runs[k].before[i].state.Complete?
    ensures runs[j].before[i] == runs[j].after[i] == runs[k].before[i]
    decreases j - k
  {
    if k < j { CompleteForever(plan, runs, k + 1, j, i); }
  }

  lemma {:induction false} TodoMembers(entries: seq<Entry>, plan: seq<CellKey>, k: nat, i: nat)
    requires Matches(entries, plan) && Distinct(plan) && k <= |plan| && i < |plan|
    ensures plan[i] in Todo(entries, k) <==> i < k && !entries[i].state.Complete?
  {
    if k == 0 {
    } else {
      TodoMembers(entries, plan, k - 1, i);
    }
  }

  /** and never executed again. */
  lemma NeverRepeated(plan: seq<CellKey>, runs: seq<RunStep>, k: nat, j: nat, i: nat)
    requires History(plan, runs) && k <= j < |runs| && i < |plan| && runs[k].before[i].state.Complete?
    ensures plan[i] !in runs[j].spent
  {
    CompleteForever(plan, runs, k, j, i);
    TodoMembers(runs[j].before, plan, runs[j].stop, i);
  }

  /** Each run executes a cell at most once, */
  lemma {:induction false} TodoOnce(entries: seq<Entry>, plan: seq<CellKey>, k: nat)
    requires Matches(entries, plan) && Distinct(plan) && k <= |plan|
    ensures forall a, b | 0 <= a < b < |Todo(entries, k)| :: Todo(entries, k)[a] != Todo(entries, k)[b]
  {
    if k == 0 {
    } else {
      TodoOnce(entries, plan, k - 1);
      TodoMembers(entries, plan, k - 1, k - 1);
    }
  }

  /** and over a whole history the executions of a cell that came before its completion are the runs
      that stopped at it: every run that finished a cell, or stopped past it, left it complete. */
  lemma ExecutedAgainOnlyAfterStop(plan: seq<CellKey>, runs: seq<RunStep>, k: nat, j: nat, i: nat)
    requires History(plan, runs) && k < j < |runs| && i < |plan|
    requires plan[i] in runs[k].spent && plan[i] in runs[j].spent
    ensures runs[k].halt != NotExecuted && runs[k].stop == i && !runs[k].after[i].state.Complete?
  {
    TodoMembers(runs[k].before, plan, runs[k].stop, i);
    if runs[k].after[i].state.Complete? {
      assert runs[k + 1].before[i].state.Complete?;
      NeverRepeated(plan, runs, k + 1, j, i);
    }
  }
}
