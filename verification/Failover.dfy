/** Fenced activation of a standby: any number of activations that share one
    activation lock, with failing commands, failing audit writes and crashes. */
module Failover {
  import opened Text

  datatype Label = FenceRequested | FenceVerified | ActivationRequested | ActivationFailed | ActivationReady

  /** What an activation does between taking and releasing the lock. */
  datatype Step = Audit(name: Label) | Fence | VerifyFenced | ProbeLease | Start | Ready | Stop

  datatype Outcome = Ok | Fails | Dies

  datatype Event = Event(pid: nat, step: Step, outcome: Outcome)

  /** Where an activation is: before the lock, about to take a step, returned, or killed. */
  datatype Pc = Locking | At(step: Step) | Returned(success: bool) | Killed

  // ---------- the program of one activation ----------

  const First := At(Audit(FenceRequested))

  function After(step: Step, outcome: Outcome): Pc {
    if outcome == Dies then Killed
    else match step
      case Audit(FenceRequested) => if outcome == Ok then At(Fence) else Returned(false)
      case Fence => if outcome == Ok then At(VerifyFenced) else Returned(false)
      case VerifyFenced => if outcome == Ok then At(Audit(FenceVerified)) else Returned(false)
      case Audit(FenceVerified) => if outcome == Ok then At(ProbeLease) else Returned(false)
      case ProbeLease => if outcome == Ok then At(Audit(ActivationRequested)) else Returned(false)
      case Audit(ActivationRequested) => if outcome == Ok then At(Start) else Returned(false)
      case Start => if outcome == Ok then At(Ready) else At(Stop)
      case Ready => if outcome == Ok then At(Audit(ActivationReady)) else At(Stop)
      case Stop => At(Audit(ActivationFailed))
      case Audit(ActivationFailed) => Returned(false)
      case Audit(ActivationReady) => Returned(outcome == Ok)
  }

  function PcAfter(trace: seq<Event>): Pc {
    if trace == [] then First else After(trace[|trace| - 1].step, trace[|trace| - 1].outcome)
  }

  /** `trace` is a run of the program by activation `p`. */
  ghost predicate Legal(trace: seq<Event>, p: nat) {
    trace != [] ==>
      var last, front := trace[|trace| - 1], trace[..|trace| - 1];
      last.pid == p && Legal(front, p) && PcAfter(front) == At(last.step)
  }

  ghost predicate Ran(trace: seq<Event>, p: nat, answers: nat -> bool) {
    Legal(trace, p) && forall i :: 0 <= i < |trace| ==> trace[i].outcome == if answers(i) then Ok else Fails
  }

  /** The steps as the source takes them, with early returns; `answers(i)` is how
      the i-th step ends. */
  method Activate(p: nat, valid: bool, lockFree: bool, answers: nat -> bool) returns (success: bool, trace: seq<Event>)
    ensures Ran(trace, p, answers)
    ensures if valid && lockFree then PcAfter(trace) == Returned(success) else trace == [] && !success
    ensures success <==> valid && lockFree && trace == NineSteps(p)
    ensures success <==> valid && lockFree && forall i :: 0 <= i < 9 ==> answers(i)
  {
    trace := [];
    if !valid || !lockFree {
      return false, trace;
    }
    var ok: bool;
    SuccessTakesNine(p);
    ok, trace := FenceFirst(p, answers);
    if !ok {
      FailureHasCause(trace, p);
      return false, trace;
    }
    ok, trace := ProbeFirst(p, answers, trace);
    if !ok {
      FailureHasCause(trace, p);
      return false, trace;
    }
    success, trace := StartStandby(p, answers, trace);
    if success {
      SuccessMeansNine(trace, p);
      assert forall i :: 0 <= i < 9 ==> trace[i].outcome == Ok;
    } else {
      FailureHasCause(trace, p);
    }
  }

  /** Fencing and its verification. */
  method FenceFirst(p: nat, answers: nat -> bool) returns (ok: bool, trace: seq<Event>)
    ensures Ran(trace, p, answers) && PcAfter(trace) == if ok then At(Audit(FenceVerified)) else Returned(false)
  {
    ok, trace := Take(p, answers, [], Audit(FenceRequested));
    if !ok { return; }
    ok, trace := Take(p, answers, trace, Fence);
    if !ok { return; }
    ok, trace := Take(p, answers, trace, VerifyFenced);
  }

  /** The lease must be free before the activation is requested. */
  method ProbeFirst(p: nat, answers: nat -> bool, before: seq<Event>) returns (ok: bool, trace: seq<Event>)
    requires Ran(before, p, answers) && PcAfter(before) == At(Audit(FenceVerified))
    ensures Ran(trace, p, answers) && PcAfter(trace) == if ok then At(Start) else Returned(false)
  {
    ok, trace := Take(p, answers, before, Audit(FenceVerified));
    if !ok { return; }
    ok, trace := Take(p, answers, trace, ProbeLease);
    if !ok { return; }
    ok, trace := Take(p, answers, trace, Audit(ActivationRequested));
  }

  /** Start and the readiness check, or else Stop. */
  method StartStandby(p: nat, answers: nat -> bool, before: seq<Event>) returns (ok: bool, trace: seq<Event>)
    requires Ran(before, p, answers) && PcAfter(before) == At(Start)
    ensures Ran(trace, p, answers) && PcAfter(trace) == Returned(ok)
    ensures var n, len := |before|, |trace|;
            && len > n + 2 && trace[n].step == Start
            && if answers(n) && answers(n + 1) then
                 trace[n + 1].step == Ready && trace[n + 2].step == Audit(ActivationReady) && ok == answers(n + 2)
               else
                 !ok && trace[len - 2].step == Stop && trace[len - 1].step == Audit(ActivationFailed)
  {
    ok, trace := Launch(p, answers, before);
    if ok {
      ok, trace := Take(p, answers, trace, Audit(ActivationReady));
    } else {
      trace := StopStandby(p, answers, trace);
    }
  }

  /** Start, and readiness if it succeeds. */
  method Launch(p: nat, answers: nat -> bool, before: seq<Event>) returns (ok: bool, trace: seq<Event>)
    requires Ran(before, p, answers) && PcAfter(before) == At(Start)
    ensures Ran(trace, p, answers) && PcAfter(trace) == At(if ok then Audit(ActivationReady) else Stop)
    ensures var n := |before|;
            && ok == (answers(n) && answers(n + 1)) && |trace| > n && trace[n].step == Start
            && (answers(n) ==> |trace| == n + 2 && trace[n + 1].step == Ready)
  {
    ok, trace := Take(p, answers, before, Start);
    if ok {
      ok, trace := Take(p, answers, trace, Ready);
    }
  }

  /** Stop and the record of the failure, whatever becomes of them. */
  method StopStandby(p: nat, answers: nat -> bool, before: seq<Event>) returns (trace: seq<Event>)
    requires Ran(before, p, answers) && PcAfter(before) == At(Stop)
    ensures Ran(trace, p, answers) && PcAfter(trace) == Returned(false)
    ensures |trace| == |before| + 2 && before == trace[..|before|]
    ensures trace[|before|].step == Stop && trace[|before| + 1].step == Audit(ActivationFailed)
  {
    var ok: bool;
    ok, trace := Take(p, answers, before, Stop);
    ok, trace := Take(p, answers, trace, Audit(ActivationFailed));
  }

  method Take(p: nat, answers: nat -> bool, before: seq<Event>, step: Step) returns (ok: bool, trace: seq<Event>)
    requires Ran(before, p, answers) && PcAfter(before) == At(step)
    ensures Ran(trace, p, answers) && PcAfter(trace) == After(step, if ok then Ok else Fails)
    ensures ok == answers(|before|) && trace == before + [Event(p, step, if ok then Ok else Fails)]
  {
    ok := answers(|before|);
    trace := before + [Event(p, step, if ok then Ok else Fails)];
    LegalNext(before, p, trace[|before|]);
  }

  lemma LegalNext(trace: seq<Event>, p: nat, e: Event)
    requires Legal(trace, p) && e.pid == p && PcAfter(trace) == At(e.step)
    ensures Legal(trace + [e], p) && PcAfter(trace + [e]) == After(e.step, e.outcome)
  {
    assert (trace + [e])[..|trace|] == trace;
  }

  // ---------- what success means ----------

  /** The whole activation, every step of which succeeds. */
  function NineSteps(p: nat): seq<Event> {
    [Event(p, Audit(FenceRequested), Ok), Event(p, Fence, Ok), Event(p, VerifyFenced, Ok),
     Event(p, Audit(FenceVerified), Ok), Event(p, ProbeLease, Ok), Event(p, Audit(ActivationRequested), Ok),
     Event(p, Start, Ok), Event(p, Ready, Ok), Event(p, Audit(ActivationReady), Ok)]
  }

  lemma SuccessTakesNine(p: nat)
    ensures PcAfter(NineSteps(p)) == Returned(true)
  {
  }

  lemma {:induction false} SuccessMeansNine(trace: seq<Event>, p: nat)
    requires Legal(trace, p) && PcAfter(trace) == Returned(true)
    ensures trace == NineSteps(p)
  {
    var last, front := trace[|trace| - 1], trace[..|trace| - 1];
    assert last == Event(p, Audit(ActivationReady), Ok) && PcAfter(front) == At(StepAt(8));
    PathTo(front, p, 8);
    StepsUnrolled(p);
    assert trace == front + [last];
  }

  /** While every step succeeds the nine are taken in their order. */
  lemma {:induction false} SuccessesAreNine(trace: seq<Event>, p: nat)
    requires Legal(trace, p) && forall i :: 0 <= i < |trace| && i < 9 ==> trace[i].outcome == Ok
    ensures |trace| <= 9 && trace == NineSteps(p)[..|trace|]
  {
    if trace != [] {
      var last, front := trace[|trace| - 1], trace[..|trace| - 1];
      SuccessesAreNine(front, p);
      if |front| == 9 { SuccessTakesNine(p); }
      assert trace == front + [last];
    }
  }

  lemma {:induction false} FailureHasCause(trace: seq<Event>, p: nat)
    requires Legal(trace, p) && PcAfter(trace) == Returned(false)
    ensures exists i :: 0 <= i < |trace| && i < 9 && trace[i].outcome != Ok
  {
    if forall i :: 0 <= i < |trace| && i < 9 ==> trace[i].outcome == Ok { SuccessesAreNine(trace, p); }
  }

  // ---------- any number of activations ----------

  datatype Line = Line(pid: nat, name: Label)

  /** `mark` is where the holder's part of the history begins. */
  datatype State = State(procs: map<nat, Pc>, holder: Option<nat>, history: seq<Event>, audit: seq<Line>, mark: nat)

  /** `written` says whether an audit record reached the file; success implies it. */
  datatype Op =
    | Launch(pid: nat)
    | Lock(pid: nat)
    | Exec(pid: nat, outcome: Outcome, written: bool)
    | Kill(pid: nat)

  ghost predicate Enabled(s: State, op: Op) {
    match op
    case Launch(p) => p !in s.procs
    case Lock(p) => p in s.procs && s.procs[p] == Locking
    case Exec(p, outcome, written) => p in s.procs && s.procs[p].At? && (outcome == Ok ==> written)
    case Kill(p) => p in s.procs && (s.procs[p].At? || s.procs[p] == Locking)
  }

  function Next(s: State, op: Op): State
    requires op.Launch? || op.pid in s.procs
    requires op.Exec? ==> s.procs[op.pid].At?
  {
    match op
    case Launch(p) => s.(procs := s.procs[p := Locking])
    case Lock(p) =>
      if s.holder.None? then s.(procs := s.procs[p := First], holder := Some(p), mark := |s.history|)
      else s.(procs := s.procs[p := Returned(false)])
    case Exec(p, outcome, written) =>
      var step := s.procs[p].step;
      var t := s.(
        procs := s.procs[p := After(step, outcome)],
        history := s.history + [Event(p, step, outcome)],
        audit := if step.Audit? && written then s.audit + [Line(p, step.name)] else s.audit);
      if s.holder == Some(p) && !t.procs[p].At? then t.(holder := None) else t
    case Kill(p) =>
      var t := s.(procs := s.procs[p := Killed]);
      if s.holder == Some(p) then t.(holder := None) else t
  }

  // ---------- the invariant ----------

  /** Every Start comes directly after the successful fencing steps of the same
      activation, with no step of another activation in between. */
  ghost predicate Fenced(history: seq<Event>) {
    forall i :: 0 <= i < |history| && history[i].step == Start ==> FencedAt(history, i)
  }

  ghost predicate FencedAt(history: seq<Event>, i: nat)
    requires i < |history|
  {
    var p := history[i].pid;
    i >= 6 && history[i - 6..i] == Fencing(p)
  }

  function Fencing(p: nat): seq<Event> {
    [Event(p, Audit(FenceRequested), Ok), Event(p, Fence, Ok), Event(p, VerifyFenced, Ok),
     Event(p, Audit(FenceVerified), Ok), Event(p, ProbeLease, Ok), Event(p, Audit(ActivationRequested), Ok)]
  }

  /** A failed Start or Ready is followed by the Stop of the same activation,
      unless that activation was killed or is about to stop. */
  ghost predicate Stopped(s: State) {
    forall i :: 0 <= i < |s.history| && s.history[i].step in {Start, Ready} && s.history[i].outcome == Fails
        ==> StoppedAt(s, i)
  }

  ghost predicate StoppedAt(s: State, i: nat)
    requires i < |s.history|
  {
    var p := s.history[i].pid;
    || (i + 1 < |s.history| && s.history[i + 1].pid == p && s.history[i + 1].step == Stop)
    || (p in s.procs && s.procs[p] == Killed)
    || (i + 1 == |s.history| && s.holder == Some(p) && p in s.procs && s.procs[p] == At(Stop))
  }

  predicate Follows(a: Label, b: Label) {
    || (a == FenceRequested && b == FenceVerified)
    || (a == FenceVerified && b == ActivationRequested)
    || (a == ActivationRequested && b in {ActivationFailed, ActivationReady})
  }

  /** The audit file is a concatenation of prefixes of the legal order: a record
      opens a new activation or continues the one written just before it. */
  ghost predicate AuditOk(audit: seq<Line>) {
    forall i :: 0 <= i < |audit| ==>
      audit[i].name == FenceRequested
      || (i > 0 && audit[i - 1].pid == audit[i].pid && Follows(audit[i - 1].name, audit[i].name))
  }

  /** The label of the record written last before a step, when one has been. */
  function LastLabel(step: Step): Option<Label> {
    match step
    case Audit(FenceRequested) => None
    case Fence => Some(FenceRequested)
    case VerifyFenced => Some(FenceRequested)
    case Audit(FenceVerified) => Some(FenceRequested)
    case ProbeLease => Some(FenceVerified)
    case Audit(ActivationRequested) => Some(FenceVerified)
    case _ => Some(ActivationRequested)
  }

  ghost predicate HolderOk(s: State) {
    && (forall p :: p in s.procs && s.procs[p].At? ==> s.holder == Some(p))
    && (s.holder.Some? ==>
          var p := s.holder.value;
          && p in s.procs && s.procs[p].At? && s.mark <= |s.history|
          && Legal(s.history[s.mark..], p) && PcAfter(s.history[s.mark..]) == s.procs[p]
          && (LastLabel(s.procs[p].step).Some? ==>
                s.audit != [] && s.audit[|s.audit| - 1] == Line(p, LastLabel(s.procs[p].step).value)))
  }

  ghost predicate Inv(s: State) {
    HolderOk(s) && Fenced(s.history) && Stopped(s) && AuditOk(s.audit)
  }

  const Empty := State(map[], None, [], [], 0)

  lemma EmptyOk()
    ensures Inv(Empty)
  {
  }

  // ---------- the only way to Start ----------

  function StepAt(n: nat): Step {
    if n == 0 then Audit(FenceRequested) else if n == 1 then Fence else if n == 2 then VerifyFenced
    else if n == 3 then Audit(FenceVerified) else if n == 4 then ProbeLease
    else if n == 5 then Audit(ActivationRequested) else if n == 6 then Start
    else if n == 7 then Ready else Audit(ActivationReady)
  }

  lemma OnlyPredecessor(step: Step, outcome: Outcome, n: nat)
    requires n <= 8 && After(step, outcome) == At(StepAt(n))
    ensures n > 0 && step == StepAt(n - 1) && outcome == Ok
  {
  }

  /** The first `n` steps of an activation, all successful. */
  function StepsTo(p: nat, n: nat): seq<Event> {
    if n == 0 then [] else StepsTo(p, n - 1) + [Event(p, StepAt(n - 1), Ok)]
  }

  lemma {:induction false} PathTo(trace: seq<Event>, p: nat, n: nat)
    requires Legal(trace, p) && PcAfter(trace) == At(StepAt(n)) && n <= 8
    ensures trace == StepsTo(p, n)
    decreases n
  {
    if trace != [] {
      var last, front := trace[|trace| - 1], trace[..|trace| - 1];
      OnlyPredecessor(last.step, last.outcome, n);
      PathTo(front, p, n - 1);
      assert trace == front + [last];
    }
  }

  lemma StepsUnrolled(p: nat)
    ensures StepsTo(p, 6) == Fencing(p) && StepsTo(p, 8) == NineSteps(p)[..8]
  {
    assert StepsTo(p, 1) == NineSteps(p)[..1];
    assert StepsTo(p, 2) == NineSteps(p)[..2];
    assert StepsTo(p, 3) == NineSteps(p)[..3];
    assert StepsTo(p, 4) == NineSteps(p)[..4];
    assert StepsTo(p, 5) == NineSteps(p)[..5];
    assert StepsTo(p, 6) == NineSteps(p)[..6];
    assert StepsTo(p, 7) == NineSteps(p)[..7];
  }

  // ---------- every step keeps it ----------

  lemma {:induction false} ExecKeepsAudit(s: State, op: Op)
    requires Inv(s) && op.Exec? && Enabled(s, op)
    ensures AuditOk(Next(s, op).audit)
  {
    var t := Next(s, op);
    var step := s.procs[op.pid].step;
    assert s.holder == Some(op.pid);
    if step.Audit? && step.name != FenceRequested {
      assert s.audit[|s.audit| - 1] == Line(op.pid, LastLabel(step).value);
      assert Follows(LastLabel(step).value, step.name);
    }
    if step.Audit? && op.written { AuditNext(s.audit, Line(op.pid, step.name)); }
  }

  lemma AuditNext(audit: seq<Line>, line: Line)
    requires AuditOk(audit)
    requires line.name == FenceRequested
             || (audit != [] && audit[|audit| - 1].pid == line.pid && Follows(audit[|audit| - 1].name, line.name))
    ensures AuditOk(audit + [line])
  {
  }

  lemma {:induction false} ExecKeepsHolder(s: State, op: Op)
    requires Inv(s) && op.Exec? && Enabled(s, op)
    ensures HolderOk(Next(s, op))
  {
    var t := Next(s, op);
    var p, step := op.pid, s.procs[op.pid].step;
    var e := Event(p, step, op.outcome);
    assert s.holder == Some(p);
    LegalNext(s.history[s.mark..], p, e);
    assert t.history[s.mark..] == s.history[s.mark..] + [e];
    assert forall q :: q in t.procs && q != p ==> q in s.procs && t.procs[q] == s.procs[q];
    NextLabel(step, op.outcome);
  }

  /** The record written last before the next step. */
  lemma NextLabel(step: Step, outcome: Outcome)
    ensures After(step, outcome).At? ==>
              LastLabel(After(step, outcome).step) == if step.Audit? then Some(step.name) else LastLabel(step)
    ensures After(step, outcome).At? && step.Audit? ==> outcome == Ok
  {
  }

  lemma {:induction false} ExecKeepsFenced(s: State, op: Op)
    requires Inv(s) && op.Exec? && Enabled(s, op)
    ensures Fenced(Next(s, op).history)
  {
    var t := Next(s, op);
    var p, step := op.pid, s.procs[op.pid].step;
    forall i | 0 <= i < |t.history| && t.history[i].step == Start
      ensures FencedAt(t.history, i)
    {
      if i < |s.history| {
        assert FencedAt(s.history, i);
        assert t.history[i - 6..i] == s.history[i - 6..i];
      } else {
        assert s.holder == Some(p);
        PathTo(s.history[s.mark..], p, 6);
        StepsUnrolled(p);
        assert |s.history[s.mark..]| == 6;
        assert t.history[i - 6..i] == s.history[s.mark..];
      }
    }
  }

  lemma {:induction false} ExecKeepsStopped(s: State, op: Op)
    requires Inv(s) && op.Exec? && Enabled(s, op)
    ensures Stopped(Next(s, op))
  {
    var t := Next(s, op);
    forall i | 0 <= i < |t.history| && t.history[i].step in {Start, Ready} && t.history[i].outcome == Fails
      ensures StoppedAt(t, i)
    {
      if i < |s.history| {
        assert StoppedAt(s, i);
        assert t.history[i] == s.history[i];
        if i + 1 < |s.history| { assert t.history[i + 1] == s.history[i + 1]; }
      }
    }
  }

  lemma {:induction false} OtherKeepsStopped(s: State, op: Op)
    requires Inv(s) && !op.Exec? && Enabled(s, op)
    ensures Stopped(Next(s, op))
  {
    var t := Next(s, op);
    forall i | 0 <= i < |t.history| && t.history[i].step in {Start, Ready} && t.history[i].outcome == Fails
      ensures StoppedAt(t, i)
    {
      assert StoppedAt(s, i);
    }
  }

  lemma {:induction false} StepKeeps(s: State, op: Op)
    requires Inv(s) && Enabled(s, op)
    ensures Inv(Next(s, op))
  {
    if op.Exec? {
      ExecKeepsAudit(s, op);
      ExecKeepsHolder(s, op);
      ExecKeepsFenced(s, op);
      ExecKeepsStopped(s, op);
    } else {
      OtherKeepsStopped(s, op);
      if op.Lock? { assert s.history[|s.history|..] == []; }
    }
  }

  function Run(s: State, ops: seq<Op>): Option<State>
    decreases |ops|
  {
    if ops == [] then Some(s)
    else if (ops[0].Launch? || ops[0].pid in s.procs) && (ops[0].Exec? ==> s.procs[ops[0].pid].At?)
    then Run(Next(s, ops[0]), ops[1..]) else None
  }

  ghost predicate EnabledRun(s: State, ops: seq<Op>)
    decreases |ops|
  {
    ops == [] || (Enabled(s, ops[0]) && EnabledRun(Next(s, ops[0]), ops[1..]))
  }

  /** In every run of any number of activations: only the lock holder is between
      steps, every Start is fenced, a failed Start or Ready is stopped, and the
      audit file is a concatenation of prefixes of the legal order. */
  lemma {:induction false} RunKeeps(s: State, ops: seq<Op>)
    requires Inv(s) && EnabledRun(s, ops)
    ensures Run(s, ops).Some? && Inv(Run(s, ops).value)
    decreases |ops|
  {
    if ops != [] {
      StepKeeps(s, ops[0]);
      RunKeeps(Next(s, ops[0]), ops[1..]);
    }
  }

  /** An activation that returned after a failed Start or Ready has attempted Stop. */
  lemma ReturnedHasStopped(s: State, i: nat)
    requires Inv(s) && i < |s.history| && s.history[i].step in {Start, Ready} && s.history[i].outcome == Fails
    requires s.history[i].pid in s.procs && s.procs[s.history[i].pid].Returned?
    ensures i + 1 < |s.history| && s.history[i + 1].pid == s.history[i].pid && s.history[i + 1].step == Stop
  {
    assert StoppedAt(s, i);
  }

  /** Two activations are never between steps at the same time. */
  lemma OneAtATime(s: State, p: nat, q: nat)
    requires Inv(s) && p in s.procs && q in s.procs && s.procs[p].At? && s.procs[q].At?
    ensures p == q
  {
  }

  // ---------- a successful activation in a run ----------

  /** Activations that have not got the lock have taken no step, and the holder's
      steps are the last ones of the history. */
  ghost predicate StepsOwned(s: State) {
    && (forall i :: 0 <= i < |s.history| ==> s.history[i].pid in s.procs && s.procs[s.history[i].pid] != Locking)
    && (s.holder.Some? ==> s.mark <= |s.history|)
    && (forall i :: 0 <= i < |s.history| && s.holder == Some(s.history[i].pid) ==> i >= s.mark)
  }

  /** The steps of activation `p` are the nine, one after the other, from `m` on. */
  ghost predicate TookNine(s: State, p: nat, m: nat) {
    && m + 9 <= |s.history| && s.history[m..m + 9] == NineSteps(p)
    && forall i :: 0 <= i < |s.history| && s.history[i].pid == p ==> m <= i < m + 9
  }

  ghost predicate SuccessesReal(s: State) {
    forall p :: p in s.procs && s.procs[p] == Returned(true) ==> exists m: nat :: TookNine(s, p, m)
  }

  lemma {:induction false} OthersKeepNine(s: State, t: State, p: nat)
    requires (exists m: nat :: TookNine(s, p, m)) && |s.history| <= |t.history| && t.history[..|s.history|] == s.history
    requires forall i :: |s.history| <= i < |t.history| ==> t.history[i].pid != p
    ensures exists m: nat :: TookNine(t, p, m)
  {
    var m: nat :| TookNine(s, p, m);
    assert t.history[m..m + 9] == t.history[..|s.history|][m..m + 9];
    forall i | 0 <= i < |t.history| && t.history[i].pid == p
      ensures m <= i < m + 9
    {
      if i < |s.history| { assert t.history[i] == t.history[..|s.history|][i]; }
    }
    assert TookNine(t, p, m);
  }

  lemma {:induction false} HolderSucceeds(s: State, op: Op)
    requires Inv(s) && StepsOwned(s) && op.Exec? && Enabled(s, op) && Next(s, op).procs[op.pid] == Returned(true)
    ensures exists m: nat :: TookNine(Next(s, op), op.pid, m)
  {
    var t, p := Next(s, op), op.pid;
    var e := Event(p, s.procs[p].step, op.outcome);
    assert s.holder == Some(p);
    LegalNext(s.history[s.mark..], p, e);
    assert t.history[s.mark..] == s.history[s.mark..] + [e];
    SuccessMeansNine(t.history[s.mark..], p);
    assert t.history[s.mark..s.mark + 9] == t.history[s.mark..];
    assert TookNine(t, p, s.mark);
  }

  lemma {:induction false} StepKeepsOwned(s: State, op: Op)
    requires Inv(s) && StepsOwned(s) && Enabled(s, op)
    ensures StepsOwned(Next(s, op))
  {
  }

  lemma {:induction false} StepKeepsSuccesses(s: State, op: Op)
    requires Inv(s) && StepsOwned(s) && SuccessesReal(s) && Enabled(s, op)
    ensures SuccessesReal(Next(s, op))
  {
    var t := Next(s, op);
    assert t.history[..|s.history|] == s.history;
    forall p | p in t.procs && t.procs[p] == Returned(true)
      ensures exists m: nat :: TookNine(t, p, m)
    {
      if p == op.pid && op.Exec? {
        HolderSucceeds(s, op);
      } else {
        OthersKeepNine(s, t, p);
      }
    }
  }

  /** In every run an activation that returned success has taken the nine steps,
      each with success and with no step of another in between, and no other step. */
  lemma {:induction false} SuccessIsReal(s: State, ops: seq<Op>)
    requires Inv(s) && StepsOwned(s) && SuccessesReal(s) && EnabledRun(s, ops)
    ensures Run(s, ops).Some? && SuccessesReal(Run(s, ops).value)
    decreases |ops|
  {
    if ops != [] {
      StepKeeps(s, ops[0]);
      StepKeepsOwned(s, ops[0]);
      StepKeepsSuccesses(s, ops[0]);
      SuccessIsReal(Next(s, ops[0]), ops[1..]);
    }
  }

  lemma EmptySucceeds()
    ensures StepsOwned(Empty) && SuccessesReal(Empty)
  {
  }
}
