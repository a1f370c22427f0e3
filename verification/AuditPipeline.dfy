/** Producers, the bounded queue, the signer thread, the synchronous fallback, shutdown,
    crash and restart of the audit log (core/qihse_audit.c). One step is one hold of
    `audit_mutex`, or one durable effect of `audit_sign_and_write` performed outside it. */
module AuditPipeline {
  import opened Prelude
  import opened AuditChain

  const PENDING_LIMIT := 128

  /** Progress of one `audit_sign_and_write`: append and fsync the line, then publish the tip. */
  datatype Stage = Todo | Appended | Published

  datatype Job = Job(record: Record, stage: Stage)

  datatype Fallback = NoFallback | Waiting(record: Record) | Busy(job: Job)

  datatype State = State(
    up: bool,                 // recovery context ready and writer lock held
    lastHash: Digest,
    queue: seq<Record>,
    inflight: Option<Job>,    // g_signer_inflight
    fallback: Fallback,       // g_sync_fallback
    signerOk: bool,
    signerStop: bool,
    signerAlive: bool,
    log: seq<Entry>,          // the durable audit file
    tip: Option<Digest>,      // the durable integrity-chain file
    issued: seq<Record>       // history: records found at boot, then every record chained since
  )

  const FRESH := State(false, Zero, [], None, NoFallback, false, false, false, [], None, [])

  datatype Step =
    | Boot(signerStarts: bool)
    | Issue(event: Event, memory: bool)
    | FallbackGo
    | FallbackWork
    | SignerTake
    | SignerWork
    | SignerExit
    | StartSigner
    | StopSigner
    | ShutdownDone
    | Crash
    | CrashTorn

  /** What the signer does once it stops waiting on `g_q_cond`. */
  datatype Wake = Sleep | Exit | IdleTick | Work

  /** The wait loop and the three tests after it, in source order; a timed-out wait
      re-evaluates the loop condition. */
  function SignerWake(head: bool, ping: bool, stop: bool): (w: Wake)
    // The branch that expires access buckets on an idle tick is never taken.
    ensures w != IdleTick
    ensures w == Exit <==> stop && !head && !ping
  {
    if !head && !ping && !stop then Sleep
    else if !head && !ping && stop then Exit
    else if !head && !ping then IdleTick
    else Work
  }

  /** The wait of `qihse_audit_flush`, `qihse_audit_init` and the fallback writer is over. */
  predicate Drained(s: State) {
    s.signerOk ==> s.queue == [] && s.inflight.None?
  }

  predicate FlushReturns(s: State) {
    s.fallback.NoFallback? && Drained(s)
  }

  predicate Enabled(s: State, step: Step) {
    match step
    case Boot(_) => FlushReturns(s) && Recover(s.log, s.tip).Resume?
    case Issue(_, _) =>
      && s.up && s.fallback.NoFallback?
      && !(|s.queue| >= PENDING_LIMIT && s.signerOk && !s.signerStop)
    case FallbackGo => s.fallback.Waiting? && Drained(s)
    case FallbackWork => s.fallback.Busy? && (s.fallback.job.stage.Todo? ==> s.up)
    case SignerTake => s.signerAlive && s.inflight.None? && s.queue != []
    case SignerWork => s.signerAlive && s.inflight.Some? && (s.inflight.value.stage.Todo? ==> s.up)
    case SignerExit => s.signerAlive && s.inflight.None? && SignerWake(s.queue != [], false, s.signerStop) == Exit
    case StartSigner => !s.signerOk
    case StopSigner => s.signerOk
    case ShutdownDone => s.signerOk ==> s.signerStop && !s.signerAlive && s.fallback.NoFallback?
    case Crash => true
    case CrashTorn => s.up && (InFlight(s) || FallbackBusy(s))
  }

  predicate InFlight(s: State) { s.inflight.Some? && s.inflight.value.stage.Todo? }

  predicate FallbackBusy(s: State) { s.fallback.Busy? && s.fallback.job.stage.Todo? }

  /** One durable effect of the writer; the third call is the bookkeeping under the lock. */
  function WriterLog(s: State, j: Job): seq<Entry> {
    if j.stage.Todo? then s.log + [LineOf(j.record)] else s.log
  }

  function WriterTip(s: State, j: Job): Option<Digest> {
    if j.stage.Appended? then Some(j.record.Hash()) else s.tip
  }

  function NextStage(j: Job): Option<Job> {
    match j.stage
    case Todo => Some(j.(stage := Appended))
    case Appended => Some(j.(stage := Published))
    case Published => None
  }

  /** Everything but the two files is lost. */
  function Lost(s: State, log: seq<Entry>): State {
    FRESH.(log := log, tip := s.tip, issued := Records(log))
  }

  function Next(s: State, step: Step): State
    requires Enabled(s, step)
  {
    match step
    case Boot(starts) =>
      var r := Recover(s.log, s.tip);
      var s' := s.(up := true, tip := r.tip, log := s.log + [Banner],
                   lastHash := if r.lastHash.Some? then r.lastHash.value else s.lastHash);
      if s.signerOk || !starts then s'
      else s'.(signerOk := true, signerStop := false, signerAlive := true)
    case Issue(event, memory) =>
      var r := Record(s.lastHash, event);
      var s' := s.(lastHash := r.Hash(), issued := s.issued + [r]);
      if s.signerOk && !s.signerStop && memory then s'.(queue := s.queue + [r])
      else s'.(fallback := Waiting(r))
    case FallbackGo => s.(fallback := Busy(Job(s.fallback.record, Todo)))
    case FallbackWork =>
      var j := s.fallback.job;
      s.(log := WriterLog(s, j), tip := WriterTip(s, j),
         fallback := if NextStage(j).Some? then Busy(NextStage(j).value) else NoFallback)
    case SignerTake => s.(inflight := Some(Job(s.queue[0], Todo)), queue := s.queue[1..])
    case SignerWork =>
      var j := s.inflight.value;
      s.(log := WriterLog(s, j), tip := WriterTip(s, j), inflight := NextStage(j))
    case SignerExit => s.(signerAlive := false)
    case StartSigner => s.(signerOk := true, signerStop := false, signerAlive := true)
    case StopSigner => s.(signerStop := true)
    case ShutdownDone => s.(signerOk := false, up := false)
    case Crash => Lost(s, s.log)
    case CrashTorn => Lost(s, s.log + [Garbled])
  }

  function SignerPart(s: State): seq<Record> {
    if InFlight(s) then [s.inflight.value.record] else []
  }

  function FallbackPart(s: State): seq<Record> {
    match s.fallback
    case NoFallback => []
    case Waiting(r) => [r]
    case Busy(j) => if j.stage.Todo? then [j.record] else []
  }

  /** Records chained but not yet in the file, oldest first. */
  function Pending(s: State): seq<Record> {
    SignerPart(s) + s.queue + FallbackPart(s)
  }

  function TipOf(chain: seq<Record>): Option<Digest> {
    if chain == [] then None else Some(Tip(chain))
  }

  function Front(chain: seq<Record>): seq<Record>
    requires chain != []
  {
    chain[..|chain| - 1]
  }

  /** The tip file trails the log by the last record. */
  predicate Lags(s: State) {
    Records(s.log) != [] && s.tip == TipOf(Front(Records(s.log)))
  }

  predicate HalfWritten(s: State) {
    || (s.inflight.Some? && s.inflight.value.stage.Appended?)
    || (s.fallback.Busy? && s.fallback.job.stage.Appended?)
  }

  function HalfWrittenRecord(s: State): Record
    requires HalfWritten(s)
  {
    if s.inflight.Some? && s.inflight.value.stage.Appended? then s.inflight.value.record else s.fallback.job.record
  }

  predicate Torn(s: State) { Garbled in s.log }

  /** The order law: file, then in-flight record, queue and fallback record, is the chain. */
  predicate Ordered(s: State) {
    && Linked(s.issued)
    && Records(s.log) + Pending(s) == s.issued
    && (s.lastHash == Tip(s.issued) || (!s.up && s.lastHash == Zero))
  }

  predicate ThreadsOk(s: State) {
    && |s.queue| <= PENDING_LIMIT
    && (s.signerAlive ==> s.signerOk)
    && (!s.signerAlive ==> s.queue == [] && s.inflight.None?)
    && (s.signerOk && !s.signerAlive ==> s.signerStop)
    && (s.fallback.Busy? ==> s.queue == [] && s.inflight.None?)
  }

  predicate TipOk(s: State) {
    if HalfWritten(s) then
      Lags(s) && Records(s.log)[|Records(s.log)| - 1] == HalfWrittenRecord(s)
    else s.tip == TipOf(Records(s.log)) || (!s.up && Lags(s))
  }

  predicate FilesOk(s: State) {
    if Torn(s) then !s.up && s.queue == [] && s.inflight.None? && s.fallback.NoFallback? else Intact(s.log)
  }

  predicate Shape(s: State) { ThreadsOk(s) && TipOk(s) && FilesOk(s) }

  predicate Inv(s: State) { Ordered(s) && Shape(s) }

  lemma FileIsChain(s: State)
    requires Ordered(s)
    ensures Linked(Records(s.log))
  {
    var chain := Records(s.log);
    assert chain == s.issued[..|chain|];
    LinkedPrefix(s.issued, |chain|);
  }

  /** Recovery, exactly: from a quiescent state it succeeds unless a line was torn or the
      very first record never got its tip published, and it resumes at the last record. */
  lemma RecoveryExact(s: State)
    requires Linked(Records(s.log)) && Shape(s) && !HalfWritten(s)
    ensures Recover(s.log, s.tip).Resume? <==> !Torn(s) && (Records(s.log) == [] || s.tip.Some?)
    ensures Recover(s.log, s.tip).Resume? ==>
              && Recover(s.log, s.tip).tip == TipOf(Records(s.log))
              && Recover(s.log, s.tip).lastHash == TipOf(Records(s.log))
  {
    var chain := Records(s.log);
    if Torn(s) {
      ScanTorn(s.log, s.tip);
    } else {
      ScanLinked(s.log, s.tip);
      if Lags(s) {
        assert chain[|chain| - 1] in chain;
      }
    }
  }

  lemma {:induction false} ScanTorn(log: seq<Entry>, stored: Option<Digest>)
    requires Garbled in log
    ensures ScanLog(log, stored).None?
  {
    var front, last := log[..|log| - 1], log[|log| - 1];
    assert log == front + [last];
    if last != Garbled {
      ScanTorn(front, stored);
    }
  }

  lemma BootKeeps(s: State, starts: bool)
    requires Inv(s) && Enabled(s, Boot(starts))
    ensures Inv(Next(s, Boot(starts)))
  {
    FileIsChain(s);
    RecoveryExact(s);
    RecordsAppend(s.log, Banner);
    assert Pending(s) == [];
    assert Records(s.log) == s.issued;
  }

  lemma IssuePending(s: State, event: Event, memory: bool)
    requires Enabled(s, Issue(event, memory))
    ensures Pending(Next(s, Issue(event, memory))) == Pending(s) + [Record(s.lastHash, event)]
  {
    var r := Record(s.lastHash, event);
    var a, q := SignerPart(s), s.queue;
    assert a + (q + [r]) + [] == (a + q + []) + [r];
    assert (a + q) + [r] == (a + q + []) + [r];
  }

  lemma ConcatAppend(a: seq<Record>, b: seq<Record>, r: Record)
    ensures a + (b + [r]) == (a + b) + [r]
  {}

  lemma IssueOrdered(s: State, event: Event, memory: bool)
    requires Ordered(s) && Enabled(s, Issue(event, memory))
    ensures Ordered(Next(s, Issue(event, memory)))
  {
    var r := Record(s.lastHash, event);
    var s' := Next(s, Issue(event, memory));
    assert s'.issued == s.issued + [r] && s'.log == s.log && s'.lastHash == r.Hash();
    LinkedAppend(s.issued, event);
    IssuePending(s, event, memory);
    ConcatAppend(Records(s.log), Pending(s), r);
    assert Tip(s.issued + [r]) == r.Hash();
  }

  lemma IssueShape(s: State, event: Event, memory: bool)
    requires Shape(s) && Enabled(s, Issue(event, memory))
    ensures Shape(Next(s, Issue(event, memory)))
  {}

  /** Moving the head of the pending records into the file keeps the order. */
  lemma AppendOrdered(s: State, r: Record, rest: seq<Record>)
    requires Records(s.log) + ([r] + rest) == s.issued
    ensures Records(s.log + [LineOf(r)]) + rest == s.issued
  {
    RecordsAppend(s.log, LineOf(r));
    assert Records(s.log) + ([r] + rest) == (Records(s.log) + [r]) + rest;
  }

  lemma FallbackOrdered(s: State)
    requires Ordered(s) && ThreadsOk(s) && Enabled(s, FallbackWork)
    ensures Ordered(Next(s, FallbackWork))
  {
    var j := s.fallback.job;
    var s' := Next(s, FallbackWork);
    if j.stage.Todo? {
      assert Pending(s) == [j.record] + [];
      AppendOrdered(s, j.record, []);
    }
    assert !j.stage.Todo? ==> Pending(s) == [];
    assert Pending(s') == [];
  }

  lemma AppendTip(s: State, r: Record)
    ensures Records(s.log + [LineOf(r)]) == Records(s.log) + [r]
    ensures Front(Records(s.log) + [r]) == Records(s.log)
  {
    RecordsAppend(s.log, LineOf(r));
  }

  lemma FallbackFiles(s: State)
    requires Shape(s) && Enabled(s, FallbackWork)
    ensures ThreadsOk(Next(s, FallbackWork)) && FilesOk(Next(s, FallbackWork))
  {}

  lemma FallbackAppends(s: State)
    requires Shape(s) && Enabled(s, FallbackWork) && s.fallback.job.stage.Todo?
    ensures TipOk(Next(s, FallbackWork))
  {
    AppendTip(s, s.fallback.job.record);
  }

  lemma FallbackPublishes(s: State)
    requires Shape(s) && Enabled(s, FallbackWork) && !s.fallback.job.stage.Todo?
    ensures TipOk(Next(s, FallbackWork))
  {}

  lemma FallbackTip(s: State)
    requires Shape(s) && Enabled(s, FallbackWork)
    ensures TipOk(Next(s, FallbackWork))
  {
    if s.fallback.job.stage.Todo? { FallbackAppends(s); } else { FallbackPublishes(s); }
  }

  lemma FallbackShape(s: State)
    requires Shape(s) && Enabled(s, FallbackWork)
    ensures Shape(Next(s, FallbackWork))
  {
    FallbackFiles(s);
    FallbackTip(s);
  }

  lemma SignerPending(s: State)
    requires Enabled(s, SignerWork)
    ensures Pending(s) == SignerPart(s) + Pending(Next(s, SignerWork))
  {
    var q, b := s.queue, FallbackPart(s);
    assert SignerPart(s) + q + b == SignerPart(s) + ([] + q + b);
  }

  lemma SignerOrdered(s: State)
    requires Ordered(s) && Enabled(s, SignerWork)
    ensures Ordered(Next(s, SignerWork))
  {
    var j := s.inflight.value;
    var rest := Pending(Next(s, SignerWork));
    SignerPending(s);
    if j.stage.Todo? {
      AppendOrdered(s, j.record, rest);
    } else {
      assert [] + rest == rest;
    }
  }

  lemma SignerFiles(s: State)
    requires Shape(s) && Enabled(s, SignerWork)
    ensures ThreadsOk(Next(s, SignerWork)) && FilesOk(Next(s, SignerWork))
  {}

  lemma SignerAppends(s: State)
    requires Shape(s) && Enabled(s, SignerWork) && s.inflight.value.stage.Todo?
    ensures TipOk(Next(s, SignerWork))
  {
    AppendTip(s, s.inflight.value.record);
  }

  lemma SignerPublishes(s: State)
    requires Shape(s) && Enabled(s, SignerWork) && !s.inflight.value.stage.Todo?
    ensures TipOk(Next(s, SignerWork))
  {}

  lemma SignerTip(s: State)
    requires Shape(s) && Enabled(s, SignerWork)
    ensures TipOk(Next(s, SignerWork))
  {
    if s.inflight.value.stage.Todo? { SignerAppends(s); } else { SignerPublishes(s); }
  }

  lemma SignerShape(s: State)
    requires Shape(s) && Enabled(s, SignerWork)
    ensures Shape(Next(s, SignerWork))
  {
    SignerFiles(s);
    SignerTip(s);
  }

  /** Steps that touch neither the files nor the pending records. */
  predicate Quiet(step: Step) {
    step.FallbackGo? || step.SignerTake? || step.SignerExit? || step.StartSigner? || step.StopSigner?
    || step.ShutdownDone?
  }

  lemma QuietPending(s: State, step: Step)
    requires Quiet(step) && Enabled(s, step)
    ensures Pending(Next(s, step)) == Pending(s)
  {
    if step.SignerTake? {
      assert s.queue == [s.queue[0]] + s.queue[1..];
      assert [] + s.queue == [s.queue[0]] + s.queue[1..];
    }
  }

  lemma QuietOrdered(s: State, step: Step)
    requires Quiet(step) && Enabled(s, step) && Ordered(s)
    ensures Ordered(Next(s, step))
  {
    QuietPending(s, step);
  }

  lemma QuietShape(s: State, step: Step)
    requires Quiet(step) && Enabled(s, step) && Shape(s)
    ensures Shape(Next(s, step))
  {}

  lemma CrashOrdered(s: State, log: seq<Entry>)
    requires Ordered(s) && Records(log) == Records(s.log)
    ensures Ordered(Lost(s, log))
  {
    FileIsChain(s);
    assert Pending(Lost(s, log)) == [];
  }

  lemma CrashShape(s: State, log: seq<Entry>)
    requires Shape(s) && Records(log) == Records(s.log)
    requires log == s.log || log == s.log + [Garbled]
    ensures Shape(Lost(s, log))
  {}

  lemma LostKeeps(s: State, log: seq<Entry>)
    requires Inv(s) && Records(log) == Records(s.log) && (log == s.log || log == s.log + [Garbled])
    ensures Inv(Lost(s, log))
  {
    CrashOrdered(s, log);
    CrashShape(s, log);
  }

  lemma CrashKeeps(s: State, torn: bool)
    requires Inv(s) && (torn ==> Enabled(s, CrashTorn))
    ensures Inv(Next(s, if torn then CrashTorn else Crash))
  {
    if torn {
      RecordsAppend(s.log, Garbled);
      assert Records(s.log) + [] == Records(s.log);
      LostKeeps(s, s.log + [Garbled]);
    } else {
      LostKeeps(s, s.log);
    }
  }

  lemma StepKeeps(s: State, step: Step)
    requires Inv(s) && Enabled(s, step)
    ensures Inv(Next(s, step))
  {
    if Quiet(step) {
      QuietOrdered(s, step);
      QuietShape(s, step);
    } else {
      match step
      case Boot(starts) => BootKeeps(s, starts);
      case Issue(event, memory) => IssueOrdered(s, event, memory); IssueShape(s, event, memory);
      case FallbackWork => FallbackOrdered(s); FallbackShape(s);
      case SignerWork => SignerOrdered(s); SignerShape(s);
      case Crash => CrashKeeps(s, false);
      case CrashTorn => CrashKeeps(s, true);
    }
  }

  /** A run: the state after the steps, each taken where it is enabled. */
  predicate IsRun(from: State, steps: seq<Step>, to: State)
    decreases |steps|
  {
    if steps == [] then from == to
    else Enabled(from, steps[0]) && IsRun(Next(from, steps[0]), steps[1..], to)
  }

  /** In every interleaving, from the empty directory on. */
  lemma {:induction false} RunKeeps(from: State, steps: seq<Step>, to: State)
    requires Inv(from) && IsRun(from, steps, to)
    ensures Inv(to)
    decreases |steps|
  {
    if steps != [] {
      StepKeeps(from, steps[0]);
      RunKeeps(Next(from, steps[0]), steps[1..], to);
    }
  }

  lemma StepOnlyAppends(s: State, step: Step)
    requires Enabled(s, step)
    ensures Records(s.log) <= Records(Next(s, step).log)
  {
    RecordsAppend(s.log, Banner);
    RecordsAppend(s.log, Garbled);
    if s.fallback.Busy? { RecordsAppend(s.log, LineOf(s.fallback.job.record)); }
    if s.inflight.Some? { RecordsAppend(s.log, LineOf(s.inflight.value.record)); }
  }

  lemma {:induction false} RunOnlyAppends(from: State, steps: seq<Step>, to: State)
    requires IsRun(from, steps, to)
    ensures Records(from.log) <= Records(to.log)
    decreases |steps|
  {
    if steps != [] {
      StepOnlyAppends(from, steps[0]);
      RunOnlyAppends(Next(from, steps[0]), steps[1..], to);
    }
  }

  /** The chain law over whole runs: whatever the interleaving, the crashes and the restarts,
      the file holds one linked chain, a prefix of what was issued, and the queue is bounded. */
  lemma LogIsOneChain(steps: seq<Step>, s: State)
    requires IsRun(FRESH, steps, s)
    ensures Linked(Records(s.log))
    ensures Records(s.log) + Pending(s) == s.issued && Linked(s.issued)
    ensures |s.queue| <= 128
  {
    assert Pending(FRESH) == [];
    RunKeeps(FRESH, steps, s);
    FileIsChain(s);
  }

  /** The events producers asked to log, in order. */
  function Asked(steps: seq<Step>): seq<Event> {
    if steps == [] then []
    else (if steps[0].Issue? then [steps[0].event] else []) + Asked(steps[1..])
  }

  function Events(chain: seq<Record>): seq<Event> {
    if chain == [] then [] else [chain[0].event] + Events(chain[1..])
  }

  predicate Calm(steps: seq<Step>) {
    forall i :: 0 <= i < |steps| ==> !steps[i].Crash? && !steps[i].CrashTorn?
  }

  lemma {:induction false} EventsAppend(a: seq<Record>, b: seq<Record>)
    ensures Events(a + b) == Events(a) + Events(b)
  {
    if a == [] {
      assert a + b == b;
    } else {
      EventsAppend(a[1..], b);
      assert (a + b)[1..] == a[1..] + b;
    }
  }

  lemma StepIssues(s: State, step: Step)
    requires Enabled(s, step) && !step.Crash? && !step.CrashTorn?
    ensures Events(Next(s, step).issued) == Events(s.issued) + (if step.Issue? then [step.event] else [])
  {
    if step.Issue? {
      var r := Record(s.lastHash, step.event);
      EventsAppend(s.issued, [r]);
      assert Events([r]) == [r.event];
    } else {
      assert Next(s, step).issued == s.issued;
    }
  }

  /** Between crashes exactly the events that were asked for are issued, in the order asked. */
  lemma {:induction false} EveryEventIssued(from: State, steps: seq<Step>, to: State)
    requires IsRun(from, steps, to) && Calm(steps)
    ensures Events(to.issued) == Events(from.issued) + Asked(steps)
    decreases |steps|
  {
    if steps != [] {
      var e := steps[0];
      assert !e.Crash? && !e.CrashTorn? && Calm(steps[1..]);
      StepIssues(from, e);
      EveryEventIssued(Next(from, e), steps[1..], to);
      var first: seq<Event> := if e.Issue? then [e.event] else [];
      assert Events(from.issued) + first + Asked(steps[1..]) == Events(from.issued) + (first + Asked(steps[1..]));
    }
  }

  /** A flush that returns is a durability barrier: whatever was issued before it is in the
      file then, with its tip published, and in every later state, across crashes. */
  lemma FlushIsBarrier(before: seq<Step>, s: State, after: seq<Step>, s': State)
    requires IsRun(FRESH, before, s) && FlushReturns(s)
    requires IsRun(s, after, s')
    ensures Records(s.log) == s.issued
    ensures s.up ==> s.tip == TipOf(s.issued)
    ensures s.issued <= Records(s'.log)
  {
    assert Pending(FRESH) == [];
    RunKeeps(FRESH, before, s);
    assert Pending(s) == [];
    RunOnlyAppends(s, after, s');
  }

  /** After a crash at any point of any run the next start resumes the same chain, unless
      the crash tore a line or hit before the first tip was ever published. */
  lemma CrashThenRestart(steps: seq<Step>, s: State)
    requires IsRun(FRESH, steps, s)
    ensures var c := Next(s, Crash);
            Enabled(c, Boot(true)) <==> !Torn(s) && (Records(s.log) == [] || s.tip.Some?)
    ensures var c := Next(s, Crash);
            Enabled(c, Boot(true)) ==>
              var b := Next(c, Boot(true));
              && Records(b.log) == Records(s.log)
              && b.lastHash == Tip(Records(s.log))
              && b.tip == TipOf(Records(s.log))
  {
    assert Pending(FRESH) == [];
    RunKeeps(FRESH, steps, s);
    CrashKeeps(s, false);
    FileIsChain(s);
    RecoveryExact(Next(s, Crash));
    RecordsAppend(s.log, Banner);
  }
}
