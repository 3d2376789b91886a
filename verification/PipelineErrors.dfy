/** What a sink error leaves behind. `run_writer` returns the error with one record in hand and closes the gate, nobody
    ever drains the queue again, and a submitter that was past its second check still pushes onto it. */
module PipelineErrors {
  import opened Common
  import opened PriorityQueue
  import opened Pipeline
  import opened PipelineHistory
  import opened PipelineRuns

  ghost predicate ReturnedErrAt(s: State, w: nat) {
    w in s.writers && s.writers[w].Running? && s.writers[w].pc.ReturnedErr?
  }

  predicate AdmittedAt(s: State, i: nat) {
    i in s.submitters && s.submitters[i].Admitted?
  }

  /** Past the second check: the call will still be answered with the queue's outcome. */
  predicate InFlight(s: State, i: nat) {
    i in s.submitters && (s.submitters[i].Admitted? || s.submitters[i].Pushed? || s.submitters[i].Released?)
  }

  /** Every accepted record was answered for by the sink, is the one in hand, is still queued, or was shed as Ordinary;
      above Ordinary in acceptance order. */
  lemma ErrorStrands(capacity: nat, acts: seq<Action>, w: nat)
    requires Runs(Init(capacity), acts)
    requires ReturnedErrAt(After(Init(capacity), acts), w)
    ensures var s := After(Init(capacity), acts); var v := s.writers[w];
      && !s.accepting
      && v.written == Count(acts, SinkAnswers(w, Written)) && v.failed == Count(acts, SinkAnswers(w, Failed))
      && v.written + v.failed == |s.sunk|
      && s.queue.popped == s.sunk + [v.pc.entry]
      && |s.queue.accepted| == |s.sunk| + 1 + |s.queue.live| + |s.queue.shed|
      && (forall p: Priority :: p != Ordinary ==>
            Only(s.queue.accepted, p) == Only(s.sunk + [v.pc.entry], p) + Only(s.queue.live, p))
      && (forall j :: 0 <= j < |s.queue.shed| ==> s.queue.shed[j].priority == Ordinary)
  {
    ReachableInv(capacity, acts);
    CountersAreAnswers(capacity, acts, w);
    var s := After(Init(capacity), acts);
    hide Count, Init, After, Runs, MutexInv, GateInv, WakeInv;
    assert WriterSealed(s, s.writers[w]);
    assert s.queue.popped == s.sunk + InHand(s.writers[w]);
  }

  // ---------------------------------------------------------------- ever after

  /** What every later state satisfies, relative to the state `s0` in which the writer returned the error. */
  ghost predicate StaysStranded(s0: State, s: State) {
    && !s.accepting
    && s.sunk == s0.sunk
    && (exists w :: ReturnedErrAt(s, w))
    && (QueueUntouched(s0, s) || PushedLate(s0, s))
    && AnsweredSince(s0, s)
  }

  ghost predicate QueueUntouched(s0: State, s: State) {
    s.queue == s0.queue && forall i :: AdmittedAt(s, i) ==> AdmittedAt(s0, i) && s.submitters[i] == s0.submitters[i]
  }

  /** The one submitter that held the mutex past its second check has pushed. */
  ghost predicate PushedLate(s0: State, s: State) {
    && NobodyAdmitted(s)
    && exists i :: AdmittedAt(s0, i) && s.queue == PushSpec(s0.queue, ToEntry(s0.submitters[i].record)).0
  }

  /** Only calls that were past the second check are answered otherwise than Closed. */
  ghost predicate AnsweredSince(s0: State, s: State) {
    && |s0.answers| <= |s.answers| && s.answers[..|s0.answers|] == s0.answers
    && (forall i :: InFlight(s, i) ==> InFlight(s0, i))
    && (forall k :: |s0.answers| <= k < |s.answers| ==>
          s.answers[k].reply == Closed || InFlight(s0, s.answers[k].caller))
  }

  lemma StepStaysStranded(s0: State, s: State, a: Action)
    requires Inv(s) && StaysStranded(s0, s) && Enabled(s, a)
    ensures StaysStranded(s0, Step(s, a))
  {
    var w :| ReturnedErrAt(s, w);
    NoWriterMoves(s, a, w);
    StepKeepsQueue(s0, s, a);
    StepAnswers(s0, s, a);
    assert ReturnedErrAt(Step(s, a), w);
    hide Inv, QueueUntouched, PushedLate, AnsweredSince, PushSpec;
  }

  lemma StepKeepsQueue(s0: State, s: State, a: Action)
    requires MutexInv(s) && !s.accepting && !ByWriter(a) && Enabled(s, a)
    requires QueueUntouched(s0, s) || PushedLate(s0, s)
    ensures QueueUntouched(s0, Step(s, a)) || PushedLate(s0, Step(s, a))
  {
    hide PushSpec;
    if a.PushRecord? {
      assert AdmittedAt(s, a.i);
      if QueueUntouched(s0, s) { assert AdmittedAt(s0, a.i) && s.submitters[a.i] == s0.submitters[a.i]; }
    }
  }

  lemma StepAnswers(s0: State, s: State, a: Action)
    requires !s.accepting && !ByWriter(a) && Enabled(s, a) && AnsweredSince(s0, s)
    ensures AnsweredSince(s0, Step(s, a))
  {
    hide PushSpec;
    forall i | InFlight(Step(s, a), i) ensures InFlight(s0, i) { assert InFlight(s, i); }
    if a.Notify? { assert InFlight(s, a.i); }
  }

  lemma {:induction false} RunStaysStranded(s0: State, s: State, more: seq<Action>)
    requires Inv(s) && StaysStranded(s0, s) && Runs(s, more)
    ensures StaysStranded(s0, After(s, more))
    decreases |more|
  {
    hide Inv, StaysStranded, Step;
    if more != [] {
      StepStaysStranded(s0, s, more[0]);
      StepKeepsInv(s, more[0]);
      RunStaysStranded(s0, Step(s, more[0]), more[1..]);
    }
  }

  /** Whatever happens after a sink error, the sink answers for nothing more, and the queue stays as it was except for
      at most one push: that of the submitter that was past its second check at the time. */
  lemma StrandedForever(capacity: nat, acts: seq<Action>, w: nat, more: seq<Action>)
    requires Runs(Init(capacity), acts)
    requires ReturnedErrAt(After(Init(capacity), acts), w)
    requires Runs(After(Init(capacity), acts), more)
    ensures StaysStranded(After(Init(capacity), acts), After(After(Init(capacity), acts), more))
  {
    ReachableInv(capacity, acts);
    ErrorStrands(capacity, acts, w);
    var s := After(Init(capacity), acts);
    hide After, Runs, Init, Inv;
    assert QueueUntouched(s, s) && AnsweredSince(s, s);
    RunStaysStranded(s, s, more);
  }

  // ---------------------------------------------------------------- the late push happens

  lemma RunsCons(s: State, a: Action, rest: seq<Action>)
    requires Enabled(s, a)
    ensures Runs(s, [a] + rest) <==> Runs(Step(s, a), rest)
    ensures Runs(s, [a] + rest) ==> After(s, [a] + rest) == After(Step(s, a), rest)
  {
    assert ([a] + rest)[1..] == rest;
  }

  /** A submit that nothing interrupts, up to and beyond its push. */
  function ToAdmitted(i: nat, r: DaemonRecord, rest: seq<Action>): seq<Action> {
    [Begin(i, r)] + ([TakeLock(i)] + ([Recheck(i)] + rest))
  }

  function FromAdmitted(i: nat, rest: seq<Action>): seq<Action> {
    [PushRecord(i)] + ([DropLock(i)] + ([Notify(i)] + rest))
  }

  lemma AdmittedState(s: State, i: nat, r: DaemonRecord, rest: seq<Action>)
    requires s.accepting && s.lock.None? && i !in s.submitters
    ensures var t := s.(lock := Some(SubmitterHolds(i)), submitters := s.submitters[i := Admitted(r)]);
      && (Runs(s, ToAdmitted(i, r, rest)) <==> Runs(t, rest))
      && (Runs(t, rest) ==> After(s, ToAdmitted(i, r, rest)) == After(t, rest))
  {
    var s1 := Step(s, Begin(i, r));
    var s2 := Step(s1, TakeLock(i));
    var t := s.(lock := Some(SubmitterHolds(i)), submitters := s.submitters[i := Admitted(r)]);
    assert s1.submitters[i := Admitted(r)] == s2.submitters[i := Admitted(r)] == t.submitters;
    assert Step(s2, Recheck(i)) == t;
    hide Runs, After, Step;
    RunsCons(s, Begin(i, r), [TakeLock(i)] + ([Recheck(i)] + rest));
    RunsCons(s1, TakeLock(i), [Recheck(i)] + rest);
    RunsCons(s2, Recheck(i), rest);
  }

  lemma SubmittedState(s: State, i: nat, r: DaemonRecord, rest: seq<Action>)
    requires i in s.submitters && s.submitters[i] == Admitted(r)
    ensures var (queue, outcome) := PushSpec(s.queue, ToEntry(r));
      var t := s.(queue := queue, lock := None, permit := true, submitters := s.submitters - {i},
                  answers := s.answers + [Answer(i, Outcome(outcome))]);
      && (Runs(s, FromAdmitted(i, rest)) <==> Runs(t, rest))
      && (Runs(t, rest) ==> After(s, FromAdmitted(i, rest)) == After(t, rest))
  {
    hide PushSpec;
    var (queue, outcome) := PushSpec(s.queue, ToEntry(r));
    var s1 := Step(s, PushRecord(i));
    var s2 := Step(s1, DropLock(i));
    var t := s.(queue := queue, lock := None, permit := true, submitters := s.submitters - {i},
                answers := s.answers + [Answer(i, Outcome(outcome))]);
    assert s2.submitters - {i} == t.submitters;
    assert Step(s2, Notify(i)) == t;
    hide Runs, After, Step;
    RunsCons(s, PushRecord(i), [DropLock(i)] + ([Notify(i)] + rest));
    RunsCons(s1, DropLock(i), [Notify(i)] + rest);
    RunsCons(s2, Notify(i), rest);
  }

  /** From the call of the first writer up to the sink. */
  function ToSink(w: nat, rest: seq<Action>): seq<Action> {
    [CallWriter(w)] + ([WriterTakeLock(w)] + ([WriterPop(w)] + ([WriterDropLock(w)] + rest)))
  }

  lemma WriterPathSteps(s: State, w: nat, e: Entry<DaemonRecord>)
    requires !s.writerStarted && s.lock.None? && s.writers == map[] && PopSpec(s.queue).1 == Some(e)
    ensures var s1 := s.(writerStarted := true, writers := map[w := Running(Ready, false, 0, 0)]);
      var s2 := s1.(lock := Some(WriterHolds(w)), writers := map[w := Running(Popping, false, 0, 0)]);
      var s3 := s2.(queue := PopSpec(s.queue).0, writers := map[w := Running(PoppedOne(Some(e)), false, 0, 0)]);
      && Enabled(s, CallWriter(w)) && Step(s, CallWriter(w)) == s1
      && Enabled(s1, WriterTakeLock(w)) && Step(s1, WriterTakeLock(w)) == s2
      && Enabled(s2, WriterPop(w)) && Step(s2, WriterPop(w)) == s3
      && Enabled(s3, WriterDropLock(w))
      && Step(s3, WriterDropLock(w)) == s3.(lock := None, writers := map[w := Running(Sinking(e), false, 0, 0)])
  {
    hide PopSpec, Step, Enabled;
    var s1 := s.(writerStarted := true, writers := map[w := Running(Ready, false, 0, 0)]);
    var s2 := s1.(lock := Some(WriterHolds(w)), writers := map[w := Running(Popping, false, 0, 0)]);
    WriterStarts(s, w);
    LockTaken(s1, w);
    OneTaken(s2, w);
    LockDropped(s2.(queue := PopSpec(s.queue).0, writers := map[w := Running(PoppedOne(Some(e)), false, 0, 0)]), w, e);
  }

  lemma LockTaken(s: State, w: nat)
    requires s.writers == map[w := Running(Ready, false, 0, 0)] && s.lock.None?
    ensures Enabled(s, WriterTakeLock(w))
    ensures Step(s, WriterTakeLock(w))
            == s.(lock := Some(WriterHolds(w)), writers := map[w := Running(Popping, false, 0, 0)])
  {
    hide PopSpec, PushSpec, Step;
    AloneMoves(s, w, Running(Ready, false, 0, 0), WriterTakeLock(w));
  }

  lemma OneTaken(s: State, w: nat)
    requires s.writers == map[w := Running(Popping, false, 0, 0)]
    ensures Enabled(s, WriterPop(w))
    ensures Step(s, WriterPop(w)) == var (queue, got) := PopSpec(s.queue);
      s.(queue := queue, writers := map[w := Running(PoppedOne(got), false, 0, 0)])
  {
    hide PopSpec, PushSpec, Step;
    AloneMoves(s, w, Running(Popping, false, 0, 0), WriterPop(w));
  }

  lemma LockDropped(s: State, w: nat, e: Entry<DaemonRecord>)
    requires s.writers == map[w := Running(PoppedOne(Some(e)), false, 0, 0)]
    ensures Enabled(s, WriterDropLock(w))
    ensures Step(s, WriterDropLock(w)) == s.(lock := None, writers := map[w := Running(Sinking(e), false, 0, 0)])
  {
    hide PopSpec, PushSpec, Step;
    AloneMoves(s, w, Running(PoppedOne(Some(e)), false, 0, 0), WriterDropLock(w));
  }

  lemma WriterStarts(s: State, w: nat)
    requires !s.writerStarted && s.writers == map[]
    ensures Enabled(s, CallWriter(w))
    ensures Step(s, CallWriter(w)) == s.(writerStarted := true, writers := map[w := Running(Ready, false, 0, 0)])
  {
  }

  /** The step of the only writer. */
  lemma AloneMoves(s: State, w: nat, v: Writer, a: Action)
    requires ByWriter(a) && a.w == w && s.writers == map[w := v] && Enabled(s, a)
    ensures Step(s, a) == var (t, after) := WriterStep(s, v, a); t.(writers := map[w := after])
  {
    hide SubmitterStep, WriterStep;
    var after := WriterStep(s, v, a).1;
    assert map[w := v][w := after] == map[w := after];
  }

  lemma SinkingState(s: State, w: nat, e: Entry<DaemonRecord>, rest: seq<Action>)
    requires !s.writerStarted && s.lock.None? && s.writers == map[] && PopSpec(s.queue).1 == Some(e)
    ensures var t := s.(queue := PopSpec(s.queue).0, writerStarted := true,
                        writers := map[w := Running(Sinking(e), false, 0, 0)]);
      && (Runs(s, ToSink(w, rest)) <==> Runs(t, rest))
      && (Runs(t, rest) ==> After(s, ToSink(w, rest)) == After(t, rest))
  {
    WriterPathSteps(s, w, e);
    hide PopSpec, Step, Runs, After;
    var s1 := Step(s, CallWriter(w));
    var s2 := Step(s1, WriterTakeLock(w));
    var s3 := Step(s2, WriterPop(w));
    var t := s.(queue := PopSpec(s.queue).0, writerStarted := true,
                writers := map[w := Running(Sinking(e), false, 0, 0)]);
    RunsCons(s, CallWriter(w), [WriterTakeLock(w)] + ([WriterPop(w)] + ([WriterDropLock(w)] + rest)));
    RunsCons(s1, WriterTakeLock(w), [WriterPop(w)] + ([WriterDropLock(w)] + rest));
    RunsCons(s2, WriterPop(w), [WriterDropLock(w)] + rest);
    RunsCons(s3, WriterDropLock(w), rest);
  }

  /** One record reaches the sink. */
  function FirstSinking(first: DaemonRecord, rest: seq<Action>): seq<Action> {
    ToAdmitted(0, first, FromAdmitted(0, ToSink(0, rest)))
  }

  /** Another submit passes its second check, the sink fails, and the submit goes on. */
  function LateSubmit(late: DaemonRecord): seq<Action> {
    ToAdmitted(1, late, [SinkAnswers(0, Errored)] + FromAdmitted(1, []))
  }

  /** Whatever the two records: in that run the writer returns the error, and then the second submit is answered
      Accepted for a record that nobody will ever take out of the queue. */
  lemma AcceptedAfterTheError(capacity: nat, first: DaemonRecord, late: DaemonRecord)
    requires capacity > 0
    ensures var acts := FirstSinking(first, LateSubmit(late));
      Runs(Init(capacity), acts) &&
      var s := After(Init(capacity), acts);
      && ReturnedErrAt(s, 0) && s.sunk == []
      && s.queue.live == [ToEntry(late)]
      && s.answers == [Answer(0, Outcome(Accepted)), Answer(1, Outcome(Accepted))]
  {
    var queue, e := Init(capacity).queue, ToEntry(first);
    QueueOfOne(queue, e, ToEntry(late));
    hide Runs, After, PushSpec, PopSpec, FirstSinking, LateSubmit;
    FirstSinks(capacity, first, LateSubmit(late));
    LateFrom(FirstAtSink(capacity, first), e, late);
  }

  /** The first record is at the sink. */
  function FirstAtSink(capacity: nat, first: DaemonRecord): State {
    var s, e := Init(capacity), ToEntry(first);
    s.(queue := PopSpec(PushSpec(s.queue, e).0).0, permit := true, writerStarted := true,
       writers := map[0 := Running(Sinking(e), false, 0, 0)], answers := [Answer(0, Outcome(Accepted))])
  }

  lemma FirstSinks(capacity: nat, first: DaemonRecord, rest: seq<Action>)
    requires var (q, outcome) := PushSpec(Init(capacity).queue, ToEntry(first));
      outcome == Accepted && PopSpec(q).1 == Some(ToEntry(first))
    ensures var s, acts := Init(capacity), FirstSinking(first, rest);
      && (Runs(s, acts) <==> Runs(FirstAtSink(capacity, first), rest))
      && (Runs(s, acts) ==> After(s, acts) == After(FirstAtSink(capacity, first), rest))
  {
    hide Runs, After, PushSpec, PopSpec, ToAdmitted, FromAdmitted, ToSink;
    var s0, e := Init(capacity), ToEntry(first);
    var s1 := s0.(lock := Some(SubmitterHolds(0)), submitters := s0.submitters[0 := Admitted(first)]);
    AdmittedState(s0, 0, first, FromAdmitted(0, ToSink(0, rest)));
    SubmittedState(s1, 0, first, ToSink(0, rest));
    var s2 := s0.(queue := PushSpec(s0.queue, e).0, permit := true, answers := [Answer(0, Outcome(Accepted))]);
    assert s1.submitters - {0} == s2.submitters && s1.answers + [Answer(0, Outcome(Accepted))] == s2.answers;
    SinkingState(s2, 0, e, rest);
    assert s2.(queue := PopSpec(s2.queue).0, writerStarted := true,
               writers := map[0 := Running(Sinking(e), false, 0, 0)]) == FirstAtSink(capacity, first);
    assert s1.(queue := PushSpec(s1.queue, e).0, lock := None, permit := true, submitters := s1.submitters - {0},
               answers := s1.answers + [Answer(0, Outcome(Accepted))]) == s2;
  }

  lemma QueueOfOne(queue: Queue, e: Entry<DaemonRecord>, late: Entry<DaemonRecord>)
    requires queue.live == [] && queue.capacity > 0
    ensures var q1 := PushSpec(queue, e).0; var q2 := PopSpec(q1).0;
      && PushSpec(queue, e).1 == Accepted && PopSpec(q1).1 == Some(e)
      && PushSpec(q2, late).1 == Accepted && PushSpec(q2, late).0.live == [late]
  {
    var q1 := Enqueue(queue, e);
    assert q1.live == [e] && Take(q1, 0).live == [];
    assert Enqueue(Take(q1, 0), late).live == [late];
  }

  /** The second half of that run. */
  lemma LateFrom(s: State, e: Entry<DaemonRecord>, late: DaemonRecord)
    requires s.accepting && s.lock.None? && s.submitters == map[] && |s.answers| == 1
    requires s.writers == map[0 := Running(Sinking(e), false, 0, 0)]
    requires PushSpec(s.queue, ToEntry(late)).1 == Accepted
    ensures var acts := LateSubmit(late);
      Runs(s, acts) &&
      var t := After(s, acts);
      && ReturnedErrAt(t, 0) && t.sunk == s.sunk && t.queue == PushSpec(s.queue, ToEntry(late)).0
      && t.answers == s.answers + [Answer(1, Outcome(Accepted))]
  {
    hide PushSpec, PopSpec, Runs, After;
    var last := FromAdmitted(1, []);
    var admitted: map<nat, SubmitPc> := map[1 := Admitted(late)];
    var s1 := s.(lock := Some(SubmitterHolds(1)), submitters := admitted);
    assert s.submitters[1 := Admitted(late)] == admitted;
    var s2 := s1.(accepting := false, writers := map[0 := Running(ReturnedErr(e), false, 0, 0)]);
    assert s1.writers[0 := Running(ReturnedErr(e), false, 0, 0)] == s2.writers;
    assert Enabled(s1, SinkAnswers(0, Errored)) && Step(s1, SinkAnswers(0, Errored)) == s2;
    hide ToAdmitted, FromAdmitted, Step;
    AdmittedState(s, 1, late, [SinkAnswers(0, Errored)] + last);
    RunsCons(s1, SinkAnswers(0, Errored), last);
    SubmittedState(s2, 1, late, []);
    NothingMore(s2.(queue := PushSpec(s2.queue, ToEntry(late)).0, lock := None, permit := true,
                    submitters := admitted - {1}, answers := s2.answers + [Answer(1, Outcome(Accepted))]));
  }

  lemma NothingMore(s: State)
    ensures Runs(s, []) && After(s, []) == s
  {
  }
}
