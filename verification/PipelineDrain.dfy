/** Shutdown comes to an end: once the writer has accepted it, the calls under way have only so many steps left in them,
    in whatever order they are taken. */
module PipelineDrain {
  import opened Common
  import opened PriorityQueue
  import opened Pipeline
  import opened PipelineRuns

  /** How many steps a call of `submit` can still cause, its own and, for one that will still push, the writer's. */
  function SubmitWork(pc: SubmitPc): nat {
    match pc
    case Checked(_) => 2
    case Locked(_) => 1
    case Admitted(_) => 8
    case Pushed(_) => 2
    case Released(_) => 1
  }

  ghost function SubmittersWork(m: map<nat, SubmitPc>): nat {
    if m == map[] then 0
    else
      var i :| i in m;
      SubmitWork(m[i]) + SubmittersWork(m - {i})
  }

  lemma {:induction false} WorkWithout(m: map<nat, SubmitPc>, i: nat)
    requires i in m
    ensures SubmittersWork(m) == SubmitWork(m[i]) + SubmittersWork(m - {i})
    decreases |m|
  {
    var j :| j in m && SubmittersWork(m) == SubmitWork(m[j]) + SubmittersWork(m - {j});
    if j != i {
      WorkWithout(m - {j}, i);
      WorkWithout(m - {i}, j);
      assert m - {i} - {j} == m - {j} - {i};
    }
  }

  lemma WorkMoved(m: map<nat, SubmitPc>, i: nat, pc: SubmitPc)
    requires i in m
    ensures SubmittersWork(m[i := pc]) + SubmitWork(m[i]) == SubmittersWork(m) + SubmitWork(pc)
    ensures SubmittersWork(m - {i}) + SubmitWork(m[i]) == SubmittersWork(m)
  {
    WorkWithout(m, i);
    WorkWithout(m[i := pc], i);
    assert m[i := pc] - {i} == m - {i};
  }

  /** Where the writer is on its way to the next pop or the end. */
  function PcWork(pc: WriterPc): nat {
    match pc
    case Ready => 4
    case Popping => 3
    case PoppedOne(got) => if got.Some? then 7 else 2
    case Sinking(_) => 6
    case Empty => 1
    case _ => 0
  }

  /** The steps left, for a writer that is stopping. */
  ghost function WorkLeft(s: State, w: nat): nat
    requires w in s.writers && s.writers[w].Running?
  {
    SubmittersWork(s.submitters) + 5 * |s.queue.live| + PcWork(s.writers[w].pc)
  }

  ghost predicate Stopping(s: State, w: nat) {
    w in s.writers && s.writers[w].Running? && s.writers[w].stopping
  }

  predicate Progress(a: Action) {
    !a.Begin? && !a.Shutdown? && !a.CallWriter?
  }

  lemma QueueSizes(queue: Queue, e: Entry<DaemonRecord>)
    ensures |PushSpec(queue, e).0.live| <= |queue.live| + 1
    ensures |PopSpec(queue).0.live| == |queue.live| - if PopSpec(queue).1.Some? then 1 else 0
  {
  }

  lemma SubmitterStepWork(s: State, a: Action)
    requires Enabled(s, a) && BySubmitter(a) && !s.accepting
    ensures var t := SubmitterStep(s, a);
      && t.writers == s.writers && !t.accepting
      && var before, after := SubmittersWork(s.submitters) + 5 * |s.queue.live|,
          SubmittersWork(t.submitters) + 5 * |t.queue.live|;
         after <= before && (Progress(a) ==> after < before)
  {
    hide PushSpec;
    match a
    case Begin(_, _) =>
    case TakeLock(i) => WorkMoved(s.submitters, i, Locked(s.submitters[i].record));
    case Recheck(i) => WorkMoved(s.submitters, i, s.submitters[i]);
    case PushRecord(i) =>
      var e := ToEntry(s.submitters[i].record);
      QueueSizes(s.queue, e);
      WorkMoved(s.submitters, i, Pushed(PushSpec(s.queue, e).1));
    case DropLock(i) => WorkMoved(s.submitters, i, Released(s.submitters[i].outcome));
    case Notify(i) => WorkMoved(s.submitters, i, s.submitters[i]);
  }

  lemma WriterStepWork(s: State, v: Writer, a: Action)
    requires ByWriter(a) && a.w in s.writers && s.writers[a.w] == v && Enabled(s, a)
    requires v.stopping && !s.accepting && !v.pc.Parked?
    ensures var (t, v') := WriterStep(s, v, a);
      && v'.stopping && !t.accepting
      && 5 * |t.queue.live| + PcWork(v'.pc) < 5 * |s.queue.live| + PcWork(v.pc)
  {
    QueueSizes(s.queue, Entry(Ordinary, DaemonRecord("", Ordinary, "")));
    hide PushSpec, PopSpec;
  }

  lemma StepDecreasesWork(s: State, a: Action, w: nat)
    requires Inv(s) && Stopping(s, w) && Enabled(s, a)
    ensures Stopping(Step(s, a), w)
    ensures WorkLeft(Step(s, a), w) <= WorkLeft(s, w)
    ensures Progress(a) ==> WorkLeft(Step(s, a), w) < WorkLeft(s, w)
  {
    hide SubmitterStep, WriterStep, MutexInv, SealInv, SinkInv, WakeInv, Sound, PcWork, SubmittersWork;
    StoppingSealed(s, w);
    if BySubmitter(a) {
      SubmitterStepWork(s, a);
    } else if ByWriter(a) {
      assert a.w in s.writers && s.writers[a.w].Running?;
      WriterStepWork(s, s.writers[w], a);
    }
  }

  /** How many steps of a schedule are taken by calls that were already under way. */
  function ProgressCount(acts: seq<Action>): nat {
    if acts == [] then 0 else (if Progress(acts[0]) then 1 else 0) + ProgressCount(acts[1..])
  }

  lemma {:induction false} RunDecreasesWork(s: State, acts: seq<Action>, w: nat)
    requires Inv(s) && Stopping(s, w) && Runs(s, acts)
    ensures Stopping(After(s, acts), w) && WorkLeft(After(s, acts), w) + ProgressCount(acts) <= WorkLeft(s, w)
    decreases |acts|
  {
    hide Inv, Stopping, WorkLeft, Step;
    if acts != [] {
      StepDecreasesWork(s, acts[0], w);
      StepKeepsInv(s, acts[0]);
      RunDecreasesWork(Step(s, acts[0]), acts[1..], w);
    }
  }

  predicate Returned(pc: WriterPc) {
    pc.ReturnedOk? || pc.ReturnedErr?
  }

  /** Shutdown ends: once the writer is stopping, every schedule takes at most as many steps of calls under way as there
      is work left, whatever new calls arrive; and while the writer has not returned some call can take one. So it
      returns after at most that many. */
  lemma ShutdownEnds(capacity: nat, acts: seq<Action>, w: nat, more: seq<Action>)
    requires Runs(Init(capacity), acts) && Stopping(After(Init(capacity), acts), w)
    requires Runs(After(Init(capacity), acts), more)
    ensures var s := After(Init(capacity), acts); var t := After(s, more);
      && ProgressCount(more) <= WorkLeft(s, w)
      && Stopping(t, w)
      && (!Returned(t.writers[w].pc) ==> SomeCallCanMove(t) && ProgressCount(more) < WorkLeft(s, w))
  {
    ReachableInv(capacity, acts);
    var s := After(Init(capacity), acts);
    RunDecreasesWork(s, more, w);
    RunKeepsInv(s, more);
    var t := After(s, more);
    hide After, Runs, Init;
    assert WriterSealed(t, t.writers[w]);
    StoppingCanMove(t, w);
  }

  lemma StoppingCanMove(s: State, w: nat)
    requires Inv(s) && Stopping(s, w)
    ensures !Returned(s.writers[w].pc) ==> SomeCallCanMove(s) && PcWork(s.writers[w].pc) > 0
  {
    hide Sound, SealInv, SinkInv, GateInv;
    assert WriterSealed(s, s.writers[w]) by { StoppingSealed(s, w); }
    if s.lock.Some? {
      HolderCanMove(s);
    } else if !Returned(s.writers[w].pc) {
      assert Enabled(s, WriterTakeLock(w)) || Enabled(s, Decide(w)) || Enabled(s, SinkAnswers(w, Written));
    }
  }

  lemma StoppingSealed(s: State, w: nat)
    requires SealInv(s) && Stopping(s, w)
    ensures WriterSealed(s, s.writers[w])
  {
  }
}
