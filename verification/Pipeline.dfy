/** The submit / drain / shutdown protocol of crates/apolysis-daemon/src/pipeline.rs.

    Any number of submitters and any number of callers of `run_writer` interleave. Every atomic access of the source
    is one action: the two loads of `accepting`, taking and dropping the queue mutex, the push or pop made while it is
    held, `notify_one`, the compare-exchange of `writer_started`, the sink's answer, and the two branches of the
    writer's select. `Notify` is one stored permit. The queue is the reference `Ledger` that the code of
    `PriorityQueue.BoundedPriorityQueue` is proved to follow. */
module Pipeline {
  import opened Common
  import opened PriorityQueue

  datatype DaemonRecord = DaemonRecord(sessionId: string, priority: Priority, payload: string)

  type Queue = Ledger<DaemonRecord>

  function ToEntry(r: DaemonRecord): Entry<DaemonRecord> {
    Entry(r.priority, r)
  }

  /** Where a call of `submit` stands. `Locked`, `Admitted` and `Pushed` hold the queue mutex. */
  datatype SubmitPc =
    | Checked(record: DaemonRecord)    // first load of `accepting` saw true
    | Locked(record: DaemonRecord)     // mutex taken
    | Admitted(record: DaemonRecord)   // second load saw true
    | Pushed(outcome: PushOutcome)     // record offered to the queue
    | Released(outcome: PushOutcome)   // mutex dropped, notify_one still to come

  datatype Reply = Closed | Outcome(outcome: PushOutcome)

  datatype Answer = Answer(caller: nat, reply: Reply)

  datatype SinkOutcome = Written | Failed | Errored

  /** Where a writer that passed the start gate stands. `Popping` and `Popped` hold the queue mutex. */
  datatype WriterPc =
    | Ready
    | Popping
    | PoppedOne(got: Option<Entry<DaemonRecord>>)
    | Sinking(entry: Entry<DaemonRecord>)
    | Empty
    | Parked
    | ReturnedOk(depth: nat, accepted: nat)
    | ReturnedErr(entry: Entry<DaemonRecord>)

  datatype Writer =
    | Rejected
    | Running(pc: WriterPc, stopping: bool, written: nat, failed: nat)

  datatype Holder = SubmitterHolds(caller: nat) | WriterHolds(caller: nat)

  datatype State = State(
    queue: Queue,
    accepting: bool,
    writerStarted: bool,
    permit: bool,
    shutdown: bool,
    lock: Option<Holder>,
    submitters: map<nat, SubmitPc>,
    writers: map<nat, Writer>,
    sunk: seq<Entry<DaemonRecord>>,
    answers: seq<Answer>)

  function Init(capacity: nat): State {
    State(EmptyLedger(capacity), true, false, false, false, None, map[], map[], [], [])
  }

  datatype Action =
    | Begin(i: nat, record: DaemonRecord)
    | TakeLock(i: nat)
    | Recheck(i: nat)
    | PushRecord(i: nat)
    | DropLock(i: nat)
    | Notify(i: nat)
    | Shutdown
    | CallWriter(w: nat)
    | WriterTakeLock(w: nat)
    | WriterPop(w: nat)
    | WriterDropLock(w: nat)
    | SinkAnswers(w: nat, result: SinkOutcome)
    | Decide(w: nat)
    | WakeByNotify(w: nat)
    | WakeByShutdown(w: nat)

  predicate BySubmitter(a: Action) {
    a.Begin? || a.TakeLock? || a.Recheck? || a.PushRecord? || a.DropLock? || a.Notify?
  }

  predicate ByWriter(a: Action) {
    !BySubmitter(a) && !a.Shutdown? && !a.CallWriter?
  }

  predicate WriterAt(s: State, w: nat, pc: WriterPc) {
    w in s.writers && s.writers[w].Running? && s.writers[w].pc == pc
  }

  predicate Enabled(s: State, a: Action) {
    match a
    case Begin(i, _) => i !in s.submitters
    case TakeLock(i) => i in s.submitters && s.submitters[i].Checked? && s.lock.None?
    case Recheck(i) => i in s.submitters && s.submitters[i].Locked?
    case PushRecord(i) => i in s.submitters && s.submitters[i].Admitted?
    case DropLock(i) => i in s.submitters && s.submitters[i].Pushed?
    case Notify(i) => i in s.submitters && s.submitters[i].Released?
    case Shutdown => true
    case CallWriter(w) => w !in s.writers
    case WriterTakeLock(w) => WriterAt(s, w, Ready) && s.lock.None?
    case WriterPop(w) => WriterAt(s, w, Popping)
    case WriterDropLock(w) => w in s.writers && s.writers[w].Running? && s.writers[w].pc.PoppedOne?
    case SinkAnswers(w, _) => w in s.writers && s.writers[w].Running? && s.writers[w].pc.Sinking?
    case Decide(w) => WriterAt(s, w, Empty) && (s.writers[w].stopping ==> s.lock.None?)
    case WakeByNotify(w) => WriterAt(s, w, Parked) && s.permit
    case WakeByShutdown(w) => WriterAt(s, w, Parked) && s.shutdown
  }

  function SubmitterStep(s: State, a: Action): State
    requires Enabled(s, a) && BySubmitter(a)
  {
    match a
    case Begin(i, r) =>
      if s.accepting then s.(submitters := s.submitters[i := Checked(r)])
      else s.(answers := s.answers + [Answer(i, Closed)])
    case TakeLock(i) =>
      s.(lock := Some(SubmitterHolds(i)), submitters := s.submitters[i := Locked(s.submitters[i].record)])
    case Recheck(i) =>
      if s.accepting then s.(submitters := s.submitters[i := Admitted(s.submitters[i].record)])
      else s.(lock := None, submitters := s.submitters - {i}, answers := s.answers + [Answer(i, Closed)])
    case PushRecord(i) =>
      var (queue, outcome) := PushSpec(s.queue, ToEntry(s.submitters[i].record));
      s.(queue := queue, submitters := s.submitters[i := Pushed(outcome)])
    case DropLock(i) =>
      s.(lock := None, submitters := s.submitters[i := Released(s.submitters[i].outcome)])
    case Notify(i) =>
      s.(permit := true, submitters := s.submitters - {i},
         answers := s.answers + [Answer(i, Outcome(s.submitters[i].outcome))])
  }

  /** What the sink's answer to the record in hand leads to. */
  function SinkStep(s: State, v: Writer, result: SinkOutcome): (State, Writer)
    requires v.Running? && v.pc.Sinking?
  {
    match result
    case Written => (s.(sunk := s.sunk + [v.pc.entry]), v.(pc := Ready, written := v.written + 1))
    case Failed => (s.(sunk := s.sunk + [v.pc.entry]), v.(pc := Ready, failed := v.failed + 1))
    case Errored => (s.(accepting := false), v.(pc := ReturnedErr(v.pc.entry)))
  }

  /** One step of a running writer: its effect on the shared state, and its own next state. */
  function WriterStep(s: State, v: Writer, a: Action): (r: (State, Writer))
    requires ByWriter(a) && a.w in s.writers && s.writers[a.w] == v && Enabled(s, a)
    ensures r.1.Running? && r.0.writers == s.writers && r.0.submitters == s.submitters
    ensures r.0.answers == s.answers && r.0.writerStarted == s.writerStarted
  {
    match a
    case WriterTakeLock(w) => (s.(lock := Some(WriterHolds(w))), v.(pc := Popping))
    case WriterPop(_) =>
      var (queue, got) := PopSpec(s.queue);
      (s.(queue := queue), v.(pc := PoppedOne(got)))
    case WriterDropLock(_) =>
      (s.(lock := None), v.(pc := if v.pc.got.Some? then Sinking(v.pc.got.value) else Empty))
    case SinkAnswers(_, result) => SinkStep(s, v, result)
    case Decide(_) =>
      (s, v.(pc := if v.stopping then ReturnedOk(|s.queue.live|, |s.queue.accepted|) else Parked))
    case WakeByNotify(_) => (s.(permit := false), v.(pc := Ready))
    case WakeByShutdown(_) => (s.(accepting := false), v.(pc := Ready, stopping := true))
  }

  function Step(s: State, a: Action): State
    requires Enabled(s, a)
  {
    if BySubmitter(a) then SubmitterStep(s, a)
    else if ByWriter(a) then
      var (t, v) := WriterStep(s, s.writers[a.w], a);
      t.(writers := s.writers[a.w := v])
    else match a
      case Shutdown => s.(shutdown := true)
      case CallWriter(w) =>
        if s.writerStarted then s.(writers := s.writers[w := Rejected])
        else s.(writerStarted := true, writers := s.writers[w := Running(Ready, false, 0, 0)])
  }

  /** A run: every action of the schedule is enabled where it is taken. */
  ghost predicate Runs(s: State, acts: seq<Action>)
    decreases |acts|
  {
    acts == [] || (Enabled(s, acts[0]) && Runs(Step(s, acts[0]), acts[1..]))
  }

  function After(s: State, acts: seq<Action>): State
    requires Runs(s, acts)
    decreases |acts|
  {
    if acts == [] then s else After(Step(s, acts[0]), acts[1..])
  }

  // ---------------------------------------------------------------- the invariant

  predicate HoldsLock(pc: SubmitPc) {
    pc.Locked? || pc.Admitted? || pc.Pushed?
  }

  predicate WriterHoldsLock(v: Writer) {
    v.Running? && (v.pc.Popping? || v.pc.PoppedOne?)
  }

  /** The mutex has one holder, and a holder is inside its locked region. */
  ghost predicate MutexInv(s: State) {
    && (forall i :: i in s.submitters && HoldsLock(s.submitters[i]) ==> s.lock == Some(SubmitterHolds(i)))
    && (forall w :: w in s.writers && WriterHoldsLock(s.writers[w]) ==> s.lock == Some(WriterHolds(w)))
    && (s.lock.Some? && s.lock.value.SubmitterHolds? ==>
          s.lock.value.caller in s.submitters && HoldsLock(s.submitters[s.lock.value.caller]))
    && (s.lock.Some? && s.lock.value.WriterHolds? ==>
          s.lock.value.caller in s.writers && WriterHoldsLock(s.writers[s.lock.value.caller]))
  }

  /** At most one caller of `run_writer` ever passes the start gate. */
  ghost predicate GateInv(s: State) {
    && (forall w :: w in s.writers && s.writers[w].Running? ==> s.writerStarted)
    && (forall v, w :: v in s.writers && w in s.writers && s.writers[v].Running? && s.writers[w].Running? ==> v == w)
  }

  ghost predicate NobodyAdmitted(s: State) {
    forall i :: i in s.submitters ==> !s.submitters[i].Admitted?
  }

  /** Once the writer has closed the gate and taken the mutex again, no submitter can be about to push. */
  ghost predicate SealInv(s: State) {
    forall w :: w in s.writers && s.writers[w].Running? ==> WriterSealed(s, s.writers[w])
  }

  ghost predicate WriterSealed(s: State, v: Writer)
    requires v.Running?
  {
    && (v.stopping ==> !s.accepting)
    && (v.stopping && (v.pc.Popping? || v.pc.PoppedOne? || v.pc.Empty? || v.pc.ReturnedOk?) ==> NobodyAdmitted(s))
    && (v.pc == PoppedOne(None) ==> s.queue.live == [])
    && (v.pc.Empty? && v.stopping ==> s.queue.live == [])
    && (v.pc.Parked? ==> !v.stopping)
    && (v.pc.ReturnedErr? ==> !s.accepting)
    && (v.pc.ReturnedOk? ==> v.stopping && s.queue.live == [] && v.pc.depth == 0 && v.pc.accepted == |s.queue.accepted|)
  }

  /** The record the writer has taken from the queue and not yet counted. */
  function InHand(v: Writer): seq<Entry<DaemonRecord>> {
    if v.Rejected? then []
    else match v.pc
      case PoppedOne(Some(e)) => [e]
      case Sinking(e) => [e]
      case ReturnedErr(e) => [e]
      case _ => []
  }

  /** Popped records are the ones the sink answered for, in order, plus the one in hand. */
  ghost predicate SinkInv(s: State) {
    && (!s.writerStarted ==> s.queue.popped == [] && s.sunk == [])
    && forall w :: w in s.writers && s.writers[w].Running? ==>
         && s.queue.popped == s.sunk + InHand(s.writers[w])
         && s.writers[w].written + s.writers[w].failed == |s.sunk|
  }

  ghost predicate NotifyPending(s: State) {
    exists i :: i in s.submitters && (s.submitters[i].Pushed? || s.submitters[i].Released?)
  }

  /** No lost wake-up. */
  ghost predicate WakeInv(s: State) {
    (exists w :: w in s.writers && s.writers[w].Running? && (s.writers[w].pc.Empty? || s.writers[w].pc.Parked?))
      && s.queue.live != []
    ==> s.permit || NotifyPending(s)
  }

  ghost predicate Inv(s: State) {
    Sound(s.queue) && MutexInv(s) && GateInv(s) && SealInv(s) && SinkInv(s) && WakeInv(s)
  }

  // ---------------------------------------------------------------- every step keeps the invariant

  lemma StepKeepsSound(s: State, a: Action)
    requires Inv(s) && Enabled(s, a)
    ensures Sound(Step(s, a).queue)
  {
    hide Sound, MutexInv, GateInv, SealInv, SinkInv, WakeInv, PushSpec, PopSpec;
    match a
    case PushRecord(i) => PushKeepsSound(s.queue, ToEntry(s.submitters[i].record));
    case WriterPop(w) => PopKeepsSound(s.queue);
    case _ =>
  }

  lemma SubmitterKeepsMutex(s: State, a: Action)
    requires MutexInv(s) && Enabled(s, a) && BySubmitter(a)
    ensures MutexInv(Step(s, a))
  {
  }

  lemma WriterKeepsMutex(s: State, a: Action)
    requires MutexInv(s) && Enabled(s, a) && ByWriter(a)
    ensures MutexInv(Step(s, a))
  {
    WriterLockMoves(s, a);
    hide WriterStep, SubmitterStep, Enabled;
    var (t, v) := WriterStep(s, s.writers[a.w], a);
  }

  lemma WriterLockMoves(s: State, a: Action)
    requires Enabled(s, a) && ByWriter(a)
    ensures var (t, v) := WriterStep(s, s.writers[a.w], a);
      && (WriterHoldsLock(v) && !WriterHoldsLock(s.writers[a.w]) ==> s.lock.None?)
      && (WriterHoldsLock(v) ==> t.lock == Some(WriterHolds(a.w)) || t.lock == s.lock)
      && (WriterHoldsLock(v) && !WriterHoldsLock(s.writers[a.w]) ==> t.lock == Some(WriterHolds(a.w)))
      && (!WriterHoldsLock(v) ==> t.lock == if WriterHoldsLock(s.writers[a.w]) then None else s.lock)
  {
    hide PushSpec, PopSpec;
  }

  lemma OtherKeepsMutex(s: State, a: Action)
    requires MutexInv(s) && Enabled(s, a) && !ByWriter(a) && !BySubmitter(a)
    ensures MutexInv(Step(s, a))
  {
  }

  lemma StepKeepsGate(s: State, a: Action)
    requires GateInv(s) && Enabled(s, a)
    ensures GateInv(Step(s, a))
  {
  }

  lemma SubmitterKeepsSeal(s: State, a: Action)
    requires MutexInv(s) && SealInv(s) && Enabled(s, a) && BySubmitter(a)
    ensures SealInv(Step(s, a))
  {
    var t := Step(s, a);
    forall w | w in t.writers && t.writers[w].Running? ensures WriterSealed(t, t.writers[w]) {
      assert WriterSealed(s, s.writers[w]);
    }
  }

  lemma OtherKeepsSeal(s: State, a: Action)
    requires SealInv(s) && Enabled(s, a) && !BySubmitter(a) && !ByWriter(a)
    ensures SealInv(Step(s, a))
  {
    var t := Step(s, a);
    forall w | w in t.writers && t.writers[w].Running? ensures WriterSealed(t, t.writers[w]) {
      if w in s.writers { assert WriterSealed(s, s.writers[w]); }
    }
  }

  lemma PopOfNothing(queue: Queue)
    ensures var (after, got) := PopSpec(queue); got.None? ==> after.live == []
  {
  }

  lemma FreeMutexAdmitsNobody(s: State)
    requires MutexInv(s) && s.lock.None?
    ensures NobodyAdmitted(s)
  {
  }

  lemma LockStepSeals(s: State, v: Writer, a: Action)
    requires (a.WriterTakeLock? || a.WriterDropLock?) && a.w in s.writers && s.writers[a.w] == v && Enabled(s, a)
    requires MutexInv(s) && WriterSealed(s, v)
    ensures var (t, v') := WriterStep(s, v, a); WriterSealed(t.(writers := s.writers[a.w := v']), v')
  {
    if a.WriterTakeLock? { FreeMutexAdmitsNobody(s); }
    hide PopSpec, MutexInv;
  }

  lemma PopStepSeals(s: State, v: Writer, a: Action)
    requires a.WriterPop? && a.w in s.writers && s.writers[a.w] == v && Enabled(s, a) && WriterSealed(s, v)
    ensures var (t, v') := WriterStep(s, v, a); WriterSealed(t.(writers := s.writers[a.w := v']), v')
  {
    PopOfNothing(s.queue);
    hide PopSpec;
  }

  lemma SinkStepSeals(s: State, v: Writer, a: Action)
    requires a.SinkAnswers? && a.w in s.writers && s.writers[a.w] == v && Enabled(s, a) && WriterSealed(s, v)
    ensures var (t, v') := WriterStep(s, v, a); WriterSealed(t.(writers := s.writers[a.w := v']), v')
  {
    hide PopSpec;
  }

  lemma WaitStepSeals(s: State, v: Writer, a: Action)
    requires a.Decide? || a.WakeByNotify? || a.WakeByShutdown?
    requires a.w in s.writers && s.writers[a.w] == v && Enabled(s, a) && WriterSealed(s, v)
    ensures var (t, v') := WriterStep(s, v, a); WriterSealed(t.(writers := s.writers[a.w := v']), v')
  {
    hide PopSpec;
  }

  lemma WriterSealsStep(s: State, v: Writer, a: Action)
    requires MutexInv(s) && ByWriter(a) && a.w in s.writers && s.writers[a.w] == v && Enabled(s, a)
    requires WriterSealed(s, v)
    ensures var (t, v') := WriterStep(s, v, a); WriterSealed(t.(writers := s.writers[a.w := v']), v')
  {
    hide WriterStep, WriterSealed, MutexInv, Enabled;
    match a
    case WriterTakeLock(_) => LockStepSeals(s, v, a);
    case WriterDropLock(_) => LockStepSeals(s, v, a);
    case WriterPop(_) => PopStepSeals(s, v, a);
    case SinkAnswers(_, _) => SinkStepSeals(s, v, a);
    case _ => WaitStepSeals(s, v, a);
  }

  lemma WriterKeepsSeal(s: State, a: Action)
    requires MutexInv(s) && GateInv(s) && SealInv(s) && Enabled(s, a) && ByWriter(a)
    ensures SealInv(Step(s, a))
  {
    var v := s.writers[a.w];
    WriterSealsStep(s, v, a);
    hide WriterStep, WriterSealed, MutexInv, Enabled;
  }

  lemma SubmitterKeepsSink(s: State, a: Action)
    requires SinkInv(s) && Enabled(s, a) && BySubmitter(a)
    ensures SinkInv(Step(s, a))
  {
    var t := Step(s, a);
    assert t.queue.popped == s.queue.popped && t.sunk == s.sunk && t.writers == s.writers;
  }

  lemma WriterKeepsSink(s: State, a: Action)
    requires GateInv(s) && SinkInv(s) && Enabled(s, a) && ByWriter(a)
    ensures SinkInv(Step(s, a))
  {
    var v := s.writers[a.w];
    assert s.queue.popped == s.sunk + InHand(v);
    WriterHand(s, v, a);
    WriterCounts(s, v, a);
    hide WriterStep, InHand, Enabled, PopSpec;
  }

  lemma WriterCounts(s: State, v: Writer, a: Action)
    requires ByWriter(a) && a.w in s.writers && s.writers[a.w] == v && Enabled(s, a)
    requires v.written + v.failed == |s.sunk|
    ensures var (t, v') := WriterStep(s, v, a); v'.written + v'.failed == |t.sunk|
  {
    hide PopSpec;
  }

  lemma WriterHand(s: State, v: Writer, a: Action)
    requires ByWriter(a) && a.w in s.writers && s.writers[a.w] == v && Enabled(s, a)
    requires s.queue.popped == s.sunk + InHand(v)
    ensures var (t, v') := WriterStep(s, v, a); t.queue.popped == t.sunk + InHand(v')
  {
    PopTakesOne(s.queue);
    hide PushSpec, PopSpec;
    assert s.sunk + [] == s.sunk;
    if a.SinkAnswers? { assert s.sunk + [v.pc.entry] + [] == s.sunk + [v.pc.entry]; }
  }

  lemma PopTakesOne(queue: Queue)
    ensures var (after, got) := PopSpec(queue);
      after.popped == queue.popped + if got.Some? then [got.value] else []
  {
  }

  lemma OtherKeepsSink(s: State, a: Action)
    requires GateInv(s) && SinkInv(s) && Enabled(s, a) && !ByWriter(a) && !BySubmitter(a)
    ensures SinkInv(Step(s, a))
  {
  }

  lemma StepKeepsWake(s: State, a: Action)
    requires MutexInv(s) && GateInv(s) && SealInv(s) && WakeInv(s) && Enabled(s, a)
    ensures WakeInv(Step(s, a))
  {
    if BySubmitter(a) {
      SubmitterKeepsWake(s, a);
    } else {
      OtherKeepsWake(s, a);
    }
  }

  lemma SubmitterKeepsWake(s: State, a: Action)
    requires WakeInv(s) && Enabled(s, a) && BySubmitter(a)
    ensures WakeInv(Step(s, a))
  {
    hide PushSpec, PopSpec;
    var t := Step(s, a);
    if a.PushRecord? {
      assert t.submitters[a.i].Pushed?;
    } else if a.DropLock? {
      assert t.submitters[a.i].Released?;
    } else if NotifyPending(s) && !a.Notify? {
      var i :| i in s.submitters && (s.submitters[i].Pushed? || s.submitters[i].Released?);
      assert t.submitters[i] == s.submitters[i];
    }
  }

  lemma OtherKeepsWake(s: State, a: Action)
    requires MutexInv(s) && GateInv(s) && SealInv(s) && WakeInv(s) && Enabled(s, a) && !BySubmitter(a)
    ensures WakeInv(Step(s, a))
  {
    OtherKeepsSubmitters(s, a);
    if ByWriter(a) {
      WriterKeepsWake(s, a);
    } else {
      hide PushSpec, PopSpec, MutexInv, SealInv;
    }
  }

  lemma OtherKeepsSubmitters(s: State, a: Action)
    requires Enabled(s, a) && !BySubmitter(a)
    ensures Step(s, a).submitters == s.submitters
  {
    hide PopSpec;
  }

  /** The queue never grows by a writer's step, the permit is used only by one who goes on to pop, and a writer comes to
      rest only over a queue it has just found empty. */
  lemma WriterWakes(s: State, v: Writer, a: Action)
    requires ByWriter(a) && a.w in s.writers && s.writers[a.w] == v && Enabled(s, a)
    ensures var (t, v') := WriterStep(s, v, a);
      && (t.queue.live != [] ==> s.queue.live != [])
      && (v'.pc.Empty? ==> v.pc == PoppedOne(None) && t.queue == s.queue && t.permit == s.permit)
      && (v'.pc.Parked? ==> v.pc.Empty? && t.queue == s.queue && t.permit == s.permit)
  {
    PopShrinks(s.queue);
    hide PopSpec;
  }

  lemma PopShrinks(queue: Queue)
    ensures PopSpec(queue).0.live != [] ==> queue.live != []
  {
  }

  lemma WriterKeepsWake(s: State, a: Action)
    requires GateInv(s) && SealInv(s) && WakeInv(s) && Enabled(s, a) && ByWriter(a)
    ensures WakeInv(Step(s, a))
  {
    var v := s.writers[a.w];
    WriterWakes(s, v, a);
    assert WriterSealed(s, v);
    hide WriterStep, SealInv, PushSpec, PopSpec;
  }

  lemma StepKeepsInv(s: State, a: Action)
    requires Inv(s) && Enabled(s, a)
    ensures Inv(Step(s, a))
  {
    StepKeepsSound(s, a);
    if BySubmitter(a) {
      SubmitterKeepsMutex(s, a);
      SubmitterKeepsSeal(s, a);
      SubmitterKeepsSink(s, a);
    } else {
      if ByWriter(a) {
        WriterKeepsSeal(s, a);
        WriterKeepsMutex(s, a);
        WriterKeepsSink(s, a);
      } else {
        OtherKeepsSeal(s, a);
        OtherKeepsMutex(s, a);
        OtherKeepsSink(s, a);
      }
    }
    StepKeepsGate(s, a);
    StepKeepsWake(s, a);
  }

  lemma {:induction false} RunKeepsInv(s: State, acts: seq<Action>)
    requires Inv(s) && Runs(s, acts)
    ensures Inv(After(s, acts))
    decreases |acts|
  {
    if acts != [] {
      StepKeepsInv(s, acts[0]);
      RunKeepsInv(Step(s, acts[0]), acts[1..]);
    }
  }
}
