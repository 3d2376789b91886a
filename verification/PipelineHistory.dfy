/** The protocol against its schedule: whatever the interleaving, the queue is what the sequential queue would be after
    the pushes and pops in the order they were made under the mutex, and every answer, counter and flag can be read off
    the schedule alone. */
module PipelineHistory {
  import opened Common
  import opened PriorityQueue
  import opened Pipeline

  // ---------------------------------------------------------------- what a schedule says

  /** The record a caller last came with. */
  function Came(acts: seq<Action>, i: nat): Option<DaemonRecord> {
    if acts == [] then None
    else
      var a := acts[|acts| - 1];
      if a.Begin? && a.i == i then Some(a.record) else Came(acts[..|acts| - 1], i)
  }

  /** What one action does to the queue, behind a schedule: a push of the caller's record at the record's priority, a
      pop, or nothing. */
  function OpsOf(acts: seq<Action>, a: Action): seq<Op<DaemonRecord>> {
    match a
    case PushRecord(i) =>
      var r := Came(acts, i);
      if r.Some? then [Push(Entry(r.value.priority, r.value))] else []
    case WriterPop(_) => [Pop]
    case _ => []
  }

  /** The pushes and pops in the order they are made. */
  function Ops(acts: seq<Action>): seq<Op<DaemonRecord>> {
    if acts == [] then [] else Ops(acts[..|acts| - 1]) + OpsOf(acts[..|acts| - 1], acts[|acts| - 1])
  }

  /** What the sequential queue answers to the last push of a caller. */
  function LastOutcome(capacity: nat, acts: seq<Action>, i: nat): Option<PushOutcome> {
    if acts == [] then None
    else
      var before := acts[..|acts| - 1];
      var r := Came(before, i);
      if acts[|acts| - 1] == PushRecord(i) && r.Some? then
        Some(PushSpec(Run(capacity, Ops(before)), Entry(r.value.priority, r.value)).1)
      else LastOutcome(capacity, before, i)
  }

  /** The action closes submission: a writer accepts shutdown, or has an error from the sink. */
  predicate Closes(a: Action) {
    a.WakeByShutdown? || (a.SinkAnswers? && a.result == Errored)
  }

  predicate Open(acts: seq<Action>) {
    forall k :: 0 <= k < |acts| ==> !Closes(acts[k])
  }

  /** The answer one action gives, behind a schedule: Closed at either check behind the closed gate, and with the
      notification the outcome of the push. */
  function ReplyOf(capacity: nat, acts: seq<Action>, a: Action): seq<Answer> {
    match a
    case Begin(i, _) => if Open(acts) then [] else [Answer(i, Closed)]
    case Recheck(i) => if Open(acts) then [] else [Answer(i, Closed)]
    case Notify(i) =>
      var outcome := LastOutcome(capacity, acts, i);
      if outcome.Some? then [Answer(i, Outcome(outcome.value))] else []
    case _ => []
  }

  function Replies(capacity: nat, acts: seq<Action>): seq<Answer> {
    if acts == [] then []
    else Replies(capacity, acts[..|acts| - 1]) + ReplyOf(capacity, acts[..|acts| - 1], acts[|acts| - 1])
  }

  /** How often an action was taken. */
  function Count(acts: seq<Action>, a: Action): nat {
    if acts == [] then 0 else Count(acts[..|acts| - 1], a) + (if acts[|acts| - 1] == a then 1 else 0)
  }

  /** A notification is stored: the last one was not used up yet. */
  predicate Stored(acts: seq<Action>) {
    acts != [] && (acts[|acts| - 1].Notify? || (!acts[|acts| - 1].WakeByNotify? && Stored(acts[..|acts| - 1])))
  }

  /** The caller that passes the start gate: the first. */
  function FirstWriter(acts: seq<Action>): Option<nat> {
    if acts == [] then None
    else
      var w := FirstWriter(acts[..|acts| - 1]);
      if w.None? && acts[|acts| - 1].CallWriter? then Some(acts[|acts| - 1].w) else w
  }

  // ---------------------------------------------------------------- the state follows the schedule

  ghost predicate SubmitterFollows(capacity: nat, acts: seq<Action>, i: nat, pc: SubmitPc) {
    if pc.Checked? || pc.Locked? || pc.Admitted? then Came(acts, i) == Some(pc.record)
    else LastOutcome(capacity, acts, i) == Some(pc.outcome)
  }

  ghost predicate SubmittersFollow(capacity: nat, acts: seq<Action>, s: State) {
    forall i :: i in s.submitters ==> SubmitterFollows(capacity, acts, i, s.submitters[i])
  }

  ghost predicate WriterFollows(acts: seq<Action>, w: nat, v: Writer) {
    && (v.Running? <==> FirstWriter(acts) == Some(w))
    && (v.Running? ==>
          && v.written == Count(acts, SinkAnswers(w, Written))
          && v.failed == Count(acts, SinkAnswers(w, Failed))
          && (v.stopping <==> Count(acts, WakeByShutdown(w)) > 0))
  }

  predicate OfWriter(a: Action, w: nat) {
    (a.CallWriter? || ByWriter(a)) && a.w == w
  }

  ghost predicate WritersFollow(acts: seq<Action>, s: State) {
    && (s.writerStarted <==> FirstWriter(acts).Some?)
    && (FirstWriter(acts).Some? ==> FirstWriter(acts).value in s.writers)
    && (forall w :: w in s.writers ==> WriterFollows(acts, w, s.writers[w]))
    && (forall w: nat, a :: w !in s.writers && OfWriter(a, w) ==> Count(acts, a) == 0)
  }

  ghost predicate FlagsFollow(acts: seq<Action>, s: State) {
    && (s.accepting <==> Open(acts))
    && (s.permit <==> Stored(acts))
    && (s.shutdown <==> Count(acts, Shutdown) > 0)
  }

  ghost predicate Follows(capacity: nat, acts: seq<Action>, s: State) {
    && s.queue == Run(capacity, Ops(acts))
    && s.answers == Replies(capacity, acts)
    && SubmittersFollow(capacity, acts, s) && WritersFollow(acts, s) && FlagsFollow(acts, s)
  }

  // ---------------------------------------------------------------- one more step

  lemma ScheduleSnoc(capacity: nat, acts: seq<Action>, a: Action)
    ensures Ops(acts + [a]) == Ops(acts) + OpsOf(acts, a)
    ensures Replies(capacity, acts + [a]) == Replies(capacity, acts) + ReplyOf(capacity, acts, a)
    ensures Stored(acts + [a]) <==> a.Notify? || (!a.WakeByNotify? && Stored(acts))
    ensures FirstWriter(acts + [a])
            == if FirstWriter(acts).None? && a.CallWriter? then Some(a.w) else FirstWriter(acts)
  {
    assert (acts + [a])[..|acts|] == acts;
    hide OpsOf, ReplyOf;
  }

  lemma FirstWriterSnoc(acts: seq<Action>, a: Action)
    ensures FirstWriter(acts + [a])
            == if FirstWriter(acts).None? && a.CallWriter? then Some(a.w) else FirstWriter(acts)
  {
    assert (acts + [a])[..|acts|] == acts;
  }

  lemma CallerSnoc(capacity: nat, acts: seq<Action>, a: Action, i: nat)
    ensures Came(acts + [a], i) == if a.Begin? && a.i == i then Some(a.record) else Came(acts, i)
    ensures LastOutcome(capacity, acts + [a], i) ==
      if a == PushRecord(i) && Came(acts, i).Some? then
        Some(PushSpec(Run(capacity, Ops(acts)), Entry(Came(acts, i).value.priority, Came(acts, i).value)).1)
      else LastOutcome(capacity, acts, i)
  {
    assert (acts + [a])[..|acts|] == acts;
    hide PushSpec, Run, Ops;
  }

  lemma CountSnoc(acts: seq<Action>, a: Action, b: Action)
    ensures Count(acts + [a], b) == Count(acts, b) + if a == b then 1 else 0
  {
    assert (acts + [a])[..|acts|] == acts;
  }

  lemma OpenSnoc(acts: seq<Action>, a: Action)
    ensures Open(acts + [a]) <==> Open(acts) && !Closes(a)
  {
    var all := acts + [a];
    hide Closes;
    if Open(all) {
      assert !Closes(all[|acts|]);
      forall k | 0 <= k < |acts| ensures !Closes(acts[k]) { assert all[k] == acts[k]; }
    }
  }

  lemma RunSnoc(capacity: nat, ops: seq<Op<DaemonRecord>>, op: Op<DaemonRecord>)
    ensures Run(capacity, ops + [op]) == PriorityQueue.Apply(Run(capacity, ops), op)
  {
    assert (ops + [op])[..|ops|] == ops;
  }

  lemma FollowsAt(capacity: nat, acts: seq<Action>, s: State, i: nat)
    requires SubmittersFollow(capacity, acts, s) && i in s.submitters
    ensures SubmitterFollows(capacity, acts, i, s.submitters[i])
  {
  }

  /** A step of `submit` moves one caller. */
  lemma SubmitterMoves(s: State, a: Action)
    requires Enabled(s, a) && BySubmitter(a)
    ensures var t := SubmitterStep(s, a);
      && (forall j :: j != a.i ==> (j in t.submitters <==> j in s.submitters)
                                   && (j in s.submitters ==> t.submitters[j] == s.submitters[j]))
      && t == s.(queue := t.queue, permit := s.permit || a.Notify?, lock := t.lock, submitters := t.submitters,
                 answers := t.answers)
      && (!a.PushRecord? ==> t.queue == s.queue)
  {
    hide PushSpec;
  }

  lemma OwnQueueFollows(capacity: nat, acts: seq<Action>, s: State, a: Action)
    requires s.queue == Run(capacity, Ops(acts)) && Enabled(s, a) && BySubmitter(a)
    requires a.i in s.submitters ==> SubmitterFollows(capacity, acts, a.i, s.submitters[a.i])
    ensures SubmitterStep(s, a).queue == Run(capacity, Ops(acts + [a]))
  {
    ScheduleSnoc(capacity, acts, a);
    SubmitterMoves(s, a);
    hide Run, Ops, Open, Came, LastOutcome, Replies, Stored, FirstWriter, PushSpec;
    if a.PushRecord? {
      RunSnoc(capacity, Ops(acts), Push(ToEntry(s.submitters[a.i].record)));
    } else {
      assert Ops(acts) + [] == Ops(acts);
    }
  }

  lemma OwnReplyFollows(capacity: nat, acts: seq<Action>, s: State, a: Action)
    requires (s.accepting <==> Open(acts)) && Enabled(s, a) && BySubmitter(a)
    requires a.i in s.submitters ==> SubmitterFollows(capacity, acts, a.i, s.submitters[a.i])
    ensures SubmitterStep(s, a).answers == s.answers + ReplyOf(capacity, acts, a)
  {
    hide PushSpec, Open, Came, LastOutcome;
    assert s.answers + [] == s.answers;
  }

  lemma OwnPcFollows(capacity: nat, acts: seq<Action>, s: State, a: Action)
    requires s.queue == Run(capacity, Ops(acts)) && Enabled(s, a) && BySubmitter(a)
    requires a.i in s.submitters ==> SubmitterFollows(capacity, acts, a.i, s.submitters[a.i])
    ensures var t := SubmitterStep(s, a);
      a.i in t.submitters ==> SubmitterFollows(capacity, acts + [a], a.i, t.submitters[a.i])
  {
    CallerSnoc(capacity, acts, a, a.i);
    hide PushSpec, Run, Ops, Came, LastOutcome;
  }

  lemma SubmittersStay(capacity: nat, acts: seq<Action>, s: State, t: State, a: Action)
    requires SubmittersFollow(capacity, acts, s)
    requires forall j :: !(BySubmitter(a) && j == a.i) ==>
      (j in t.submitters ==> j in s.submitters && t.submitters[j] == s.submitters[j])
    requires BySubmitter(a) && a.i in t.submitters ==> SubmitterFollows(capacity, acts + [a], a.i, t.submitters[a.i])
    ensures SubmittersFollow(capacity, acts + [a], t)
  {
    forall j | j in t.submitters ensures SubmitterFollows(capacity, acts + [a], j, t.submitters[j]) {
      CallerSnoc(capacity, acts, a, j);
      if !(BySubmitter(a) && j == a.i) { FollowsAt(capacity, acts, s, j); }
      hide PushSpec, Run, Ops, Came, LastOutcome;
    }
  }

  lemma FlagsStay(acts: seq<Action>, s: State, t: State, a: Action)
    requires FlagsFollow(acts, s)
    requires t.accepting == (s.accepting && !Closes(a)) && t.shutdown == (s.shutdown || a == Shutdown)
    requires t.permit == (a.Notify? || (s.permit && !a.WakeByNotify?))
    ensures FlagsFollow(acts + [a], t)
  {
    ScheduleSnoc(0, acts, a);
    OpenSnoc(acts, a);
    CountSnoc(acts, a, Shutdown);
    hide Open, Stored, Count, Closes, FirstWriter, Ops, Replies, OpsOf, ReplyOf;
  }

  lemma RepliesFollow(capacity: nat, acts: seq<Action>, s: State, t: State, a: Action)
    requires s.answers == Replies(capacity, acts) && t.answers == s.answers + ReplyOf(capacity, acts, a)
    ensures t.answers == Replies(capacity, acts + [a])
  {
    ScheduleSnoc(capacity, acts, a);
    hide Replies, ReplyOf, Ops, OpsOf, Stored, FirstWriter;
  }

  lemma SubmitterStepFollows(capacity: nat, acts: seq<Action>, s: State, a: Action)
    requires Follows(capacity, acts, s) && Enabled(s, a) && BySubmitter(a)
    ensures Follows(capacity, acts + [a], Step(s, a))
  {
    hide SubmitterFollows, Enabled, Run, Ops, Replies, ReplyOf, OpsOf, Open, FlagsFollow, WritersFollow;
    hide SubmittersFollow, SubmitterStep, WriterStep;
    if a.i in s.submitters { FollowsAt(capacity, acts, s, a.i); }
    GateFollows(acts, s);
    OwnQueueFollows(capacity, acts, s, a);
    OwnReplyFollows(capacity, acts, s, a);
    OwnPcFollows(capacity, acts, s, a);
    SubmitterMoves(s, a);
    var t := SubmitterStep(s, a);
    assert Step(s, a) == t;
    hide Step;
    RepliesFollow(capacity, acts, s, t, a);
    SubmittersStay(capacity, acts, s, t, a);
    WritersStay(acts, s, t, a);
    FlagsStay(acts, s, t, a);
  }

  lemma GateFollows(acts: seq<Action>, s: State)
    requires FlagsFollow(acts, s)
    ensures s.accepting <==> Open(acts)
  {
  }

  /** An action that is no writer's leaves the writers where the schedule has them. */
  lemma WritersStay(acts: seq<Action>, s: State, t: State, a: Action)
    requires WritersFollow(acts, s) && t.writers == s.writers && t.writerStarted == s.writerStarted
    requires !ByWriter(a) && !a.CallWriter?
    ensures WritersFollow(acts + [a], t)
  {
    FirstWriterSnoc(acts, a);
    forall b { CountSnoc(acts, a, b); }
    hide Count, FirstWriter;
  }

  // ---------------------------------------------------------------- a writer's step

  /** What a writer's step does to its counters and to the shared flags. */
  lemma WriterStepEffect(s: State, v: Writer, a: Action)
    requires ByWriter(a) && a.w in s.writers && s.writers[a.w] == v && Enabled(s, a)
    ensures var (t, after) := WriterStep(s, v, a);
      && t.queue == (if a.WriterPop? then PopSpec(s.queue).0 else s.queue)
      && t.accepting == (s.accepting && !Closes(a)) && t.shutdown == s.shutdown
      && t.permit == (s.permit && !a.WakeByNotify?)
      && after.written == v.written + (if a == SinkAnswers(a.w, Written) then 1 else 0)
      && after.failed == v.failed + (if a == SinkAnswers(a.w, Failed) then 1 else 0)
      && after.stopping == (v.stopping || a.WakeByShutdown?)
  {
    hide PopSpec;
  }

  lemma WriterMoves(acts: seq<Action>, s: State, t: State, v: Writer, a: Action)
    requires WritersFollow(acts, s) && ByWriter(a) && a.w in s.writers && s.writers[a.w].Running? && v.Running?
    requires t.writers == s.writers[a.w := v] && t.writerStarted == s.writerStarted
    requires v.written == s.writers[a.w].written + (if a == SinkAnswers(a.w, Written) then 1 else 0)
    requires v.failed == s.writers[a.w].failed + (if a == SinkAnswers(a.w, Failed) then 1 else 0)
    requires v.stopping == (s.writers[a.w].stopping || a.WakeByShutdown?)
    ensures WritersFollow(acts + [a], t)
  {
    FirstWriterSnoc(acts, a);
    forall b { CountSnoc(acts, a, b); }
    hide Count, FirstWriter;
    assert WriterFollows(acts, a.w, s.writers[a.w]);
    forall w | w in t.writers ensures WriterFollows(acts + [a], w, t.writers[w]) {
      assert WriterFollows(acts, w, s.writers[w]);
    }
  }

  lemma QueueFollowsPop(capacity: nat, acts: seq<Action>, s: State, t: State, a: Action)
    requires s.queue == Run(capacity, Ops(acts)) && !BySubmitter(a)
    requires t.queue == if a.WriterPop? then PopSpec(s.queue).0 else s.queue
    ensures t.queue == Run(capacity, Ops(acts + [a]))
    ensures ReplyOf(capacity, acts, a) == []
  {
    ScheduleSnoc(capacity, acts, a);
    hide Run, Ops, PopSpec, Replies, Stored, FirstWriter;
    if a.WriterPop? { RunSnoc(capacity, Ops(acts), Pop); }
    assert Ops(acts) + [] == Ops(acts);
  }

  lemma WriterStepFollows(capacity: nat, acts: seq<Action>, s: State, a: Action)
    requires Follows(capacity, acts, s) && Enabled(s, a) && ByWriter(a)
    ensures Follows(capacity, acts + [a], Step(s, a))
  {
    hide SubmitterFollows, Run, Ops, Replies, ReplyOf, OpsOf, Open, FlagsFollow, WritersFollow;
    hide SubmittersFollow, SubmitterStep, WriterStep, PopSpec;
    var (u, v) := WriterStep(s, s.writers[a.w], a);
    WriterStepEffect(s, s.writers[a.w], a);
    var t := Step(s, a);
    assert t == u.(writers := s.writers[a.w := v]);
    hide Step, Enabled;
    QueueFollowsPop(capacity, acts, s, t, a);
    assert t.answers == s.answers + [];
    RepliesFollow(capacity, acts, s, t, a);
    SubmittersStay(capacity, acts, s, t, a);
    WriterMoves(acts, s, t, v, a);
    FlagsStay(acts, s, t, a);
  }

  // ---------------------------------------------------------------- the other steps

  /** A caller that has not come yet has taken no writer's action. */
  ghost predicate NotCome(acts: seq<Action>, s: State) {
    forall w: nat, a :: w !in s.writers && OfWriter(a, w) ==> Count(acts, a) == 0
  }

  lemma StillNotCome(acts: seq<Action>, s: State, t: State, a: Action)
    requires NotCome(acts, s) && s.writers.Keys <= t.writers.Keys
    requires (a.CallWriter? || ByWriter(a)) ==> a.w in t.writers
    ensures NotCome(acts + [a], t)
  {
    hide Count;
    forall w: nat, b | w !in t.writers && OfWriter(b, w) ensures Count(acts + [a], b) == 0 { CountSnoc(acts, a, b); }
  }

  lemma WriterComes(acts: seq<Action>, s: State, t: State, w: nat)
    requires WritersFollow(acts, s) && w !in s.writers
    requires t.writers == s.writers[w := if s.writerStarted then Rejected else Running(Ready, false, 0, 0)]
    requires t.writerStarted
    ensures WritersFollow(acts + [CallWriter(w)], t)
  {
    var a := CallWriter(w);
    FirstWriterSnoc(acts, a);
    hide Count, FirstWriter, WriterFollows, NotCome;
    GateAndCallers(acts, s);
    forall x | x in t.writers ensures WriterFollows(acts + [a], x, t.writers[x]) {
      if x == w { NewWriterFollows(acts, s, w); } else { OtherWriterFollows(acts, s.writers[x], x, w); }
    }
    StillNotCome(acts, s, t, a);
    CallersNotCome(acts + [a], t);
  }

  lemma GateAndCallers(acts: seq<Action>, s: State)
    requires WritersFollow(acts, s)
    ensures NotCome(acts, s) && (s.writerStarted <==> FirstWriter(acts).Some?)
    ensures forall w :: w in s.writers ==> WriterFollows(acts, w, s.writers[w])
  {
    hide Count, FirstWriter, WriterFollows;
  }

  lemma CallersNotCome(acts: seq<Action>, s: State)
    ensures NotCome(acts, s) <==> forall w: nat, a :: w !in s.writers && OfWriter(a, w) ==> Count(acts, a) == 0
  {
    hide Count, OfWriter;
  }

  lemma NewWriterFollows(acts: seq<Action>, s: State, w: nat)
    requires NotCome(acts, s) && w !in s.writers && (FirstWriter(acts).Some? ==> FirstWriter(acts).value in s.writers)
    ensures WriterFollows(acts + [CallWriter(w)], w,
                          if FirstWriter(acts).Some? then Rejected else Running(Ready, false, 0, 0))
  {
    FirstWriterSnoc(acts, CallWriter(w));
    CountSnoc(acts, CallWriter(w), SinkAnswers(w, Written));
    CountSnoc(acts, CallWriter(w), SinkAnswers(w, Failed));
    CountSnoc(acts, CallWriter(w), WakeByShutdown(w));
    assert OfWriter(SinkAnswers(w, Written), w) && OfWriter(SinkAnswers(w, Failed), w);
    assert OfWriter(WakeByShutdown(w), w);
    hide Count, FirstWriter;
  }

  lemma OtherWriterFollows(acts: seq<Action>, v: Writer, x: nat, w: nat)
    requires WriterFollows(acts, x, v) && x != w
    ensures WriterFollows(acts + [CallWriter(w)], x, v)
  {
    FirstWriterSnoc(acts, CallWriter(w));
    CountSnoc(acts, CallWriter(w), SinkAnswers(x, Written));
    CountSnoc(acts, CallWriter(w), SinkAnswers(x, Failed));
    CountSnoc(acts, CallWriter(w), WakeByShutdown(x));
    hide Count, FirstWriter;
  }

  lemma OtherStepFollows(capacity: nat, acts: seq<Action>, s: State, a: Action)
    requires Follows(capacity, acts, s) && Enabled(s, a) && !ByWriter(a) && !BySubmitter(a)
    ensures Follows(capacity, acts + [a], Step(s, a))
  {
    hide SubmitterFollows, Run, Ops, Replies, ReplyOf, OpsOf, Open, FlagsFollow, WritersFollow;
    hide SubmittersFollow, SubmitterStep, WriterStep, PopSpec;
    var t := Step(s, a);
    QueueFollowsPop(capacity, acts, s, t, a);
    assert t.answers == s.answers + [];
    RepliesFollow(capacity, acts, s, t, a);
    SubmittersStay(capacity, acts, s, t, a);
    FlagsStay(acts, s, t, a);
    if a.CallWriter? { WriterComes(acts, s, t, a.w); } else { WritersStay(acts, s, t, a); }
  }

  lemma StepFollows(capacity: nat, acts: seq<Action>, s: State, a: Action)
    requires Follows(capacity, acts, s) && Enabled(s, a)
    ensures Follows(capacity, acts + [a], Step(s, a))
  {
    hide Follows, Step;
    if BySubmitter(a) {
      SubmitterStepFollows(capacity, acts, s, a);
    } else if ByWriter(a) {
      WriterStepFollows(capacity, acts, s, a);
    } else {
      OtherStepFollows(capacity, acts, s, a);
    }
  }

  // ---------------------------------------------------------------- whole runs

  lemma {:induction false} RunFollows(capacity: nat, done: seq<Action>, s: State, more: seq<Action>)
    requires Follows(capacity, done, s) && Runs(s, more)
    ensures Follows(capacity, done + more, After(s, more))
    decreases |more|
  {
    hide Follows, Step;
    if more == [] {
      assert done + more == done;
    } else {
      StepFollows(capacity, done, s, more[0]);
      RunFollows(capacity, done + [more[0]], Step(s, more[0]), more[1..]);
      assert done + [more[0]] + more[1..] == done + more;
    }
  }

  /** Linearizability: after any schedule the queue is the sequential queue after the pushes and pops in the order they
      were made, every answer is Closed or what the sequential queue answers to that caller's push, the writer is the
      first that was called and has counted the sink's answers one by one, and gate, permit and shutdown request are
      what the schedule says. */
  lemma ScheduleDecides(capacity: nat, acts: seq<Action>)
    requires Runs(Init(capacity), acts)
    ensures Follows(capacity, acts, After(Init(capacity), acts))
  {
    assert Follows(capacity, [], Init(capacity));
    hide Follows, After, Runs, Init;
    RunFollows(capacity, [], Init(capacity), acts);
    assert [] + acts == acts;
  }

  /** How often an action of one kind was taken, by anyone. */
  function Notified(acts: seq<Action>): nat {
    if acts == [] then 0 else Notified(acts[..|acts| - 1]) + (if acts[|acts| - 1].Notify? then 1 else 0)
  }

  function Woken(acts: seq<Action>): nat {
    if acts == [] then 0 else Woken(acts[..|acts| - 1]) + (if acts[|acts| - 1].WakeByNotify? then 1 else 0)
  }

  lemma NotifiedSnoc(acts: seq<Action>, a: Action)
    ensures Notified(acts + [a]) == Notified(acts) + if a.Notify? then 1 else 0
    ensures Woken(acts + [a]) == Woken(acts) + if a.WakeByNotify? then 1 else 0
  {
    assert (acts + [a])[..|acts|] == acts;
  }

  lemma {:induction false} RunWakes(done: seq<Action>, s: State, more: seq<Action>)
    requires Runs(s, more) && Woken(done) + (if s.permit then 1 else 0) <= Notified(done)
    ensures Woken(done + more) + (if After(s, more).permit then 1 else 0) <= Notified(done + more)
    decreases |more|
  {
    if more == [] {
      assert done + more == done;
    } else {
      var a, t := more[0], Step(s, more[0]);
      NotifiedSnoc(done, a);
      PermitMoves(s, a);
      hide Notified, Woken, Step, Enabled;
      RunWakes(done + [a], t, more[1..]);
      assert done + [a] + more[1..] == done + more;
    }
  }

  lemma PermitMoves(s: State, a: Action)
    requires Enabled(s, a)
    ensures Step(s, a).permit == (a.Notify? || (s.permit && !a.WakeByNotify?))
    ensures a.WakeByNotify? ==> s.permit
  {
    hide PushSpec, PopSpec;
  }

  /** Every wake-up by a notification uses one up: there are never more of them than notifications. */
  lemma WakesAreNotified(capacity: nat, acts: seq<Action>)
    requires Runs(Init(capacity), acts)
    ensures Woken(acts) <= Notified(acts)
  {
    RunWakes([], Init(capacity), acts);
    assert [] + acts == acts;
  }

  /** A writer that is stopping was asked to. */
  ghost predicate StopsAsked(s: State) {
    forall w :: w in s.writers && s.writers[w].Running? && s.writers[w].stopping ==> s.shutdown
  }

  lemma StepStopsAsked(s: State, a: Action)
    requires StopsAsked(s) && Enabled(s, a)
    ensures StopsAsked(Step(s, a))
  {
    if ByWriter(a) {
      WriterStepEffect(s, s.writers[a.w], a);
      hide WriterStep;
    }
    hide PushSpec, PopSpec;
  }

  lemma {:induction false} RunStopsAsked(s: State, acts: seq<Action>)
    requires StopsAsked(s) && Runs(s, acts)
    ensures StopsAsked(After(s, acts))
    decreases |acts|
  {
    hide StopsAsked, Step;
    if acts != [] {
      StepStopsAsked(s, acts[0]);
      RunStopsAsked(Step(s, acts[0]), acts[1..]);
    }
  }

  /** The writer stops only on request: once one is stopping, or returned Ok, shutdown was requested in the schedule. */
  lemma StopsOnlyOnRequest(capacity: nat, acts: seq<Action>, w: nat)
    requires Runs(Init(capacity), acts)
    requires var s := After(Init(capacity), acts); w in s.writers && s.writers[w].Running? && s.writers[w].stopping
    ensures Count(acts, Shutdown) > 0
  {
    ScheduleDecides(capacity, acts);
    RunStopsAsked(Init(capacity), acts);
    hide Count, Init, After, Runs;
  }

  /** Whatever the state: shutdown can be requested, and any caller that is not under way can submit any record or call
      for the writer; the first call for it is let in. */
  lemma CallsArePossible(s: State, i: nat, record: DaemonRecord, w: nat)
    ensures Enabled(s, Shutdown) && Step(s, Shutdown).shutdown
    ensures i !in s.submitters ==> Enabled(s, Begin(i, record))
    ensures i !in s.submitters && s.accepting ==>
      Step(s, Begin(i, record)).submitters == s.submitters[i := Checked(record)]
    ensures w !in s.writers ==> Enabled(s, CallWriter(w))
    ensures w !in s.writers && !s.writerStarted ==> Step(s, CallWriter(w)).writers[w] == Running(Ready, false, 0, 0)
  {
  }
}
