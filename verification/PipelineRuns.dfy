/** What the submit / drain / shutdown protocol guarantees over whole runs, in every interleaving. */
module PipelineRuns {
  import opened Common
  import opened PriorityQueue
  import opened Pipeline
  import opened PipelineHistory

  /** The state after a schedule is reachable from a fresh pipeline, so it satisfies the invariant. */
  lemma ReachableInv(capacity: nat, acts: seq<Action>)
    requires Runs(Init(capacity), acts)
    ensures Inv(After(Init(capacity), acts))
  {
    assert Inv(Init(capacity)) by {
      assert Fifo<DaemonRecord>([], [], []);
    }
    RunKeepsInv(Init(capacity), acts);
  }

  ghost predicate ReturnedOkAt(s: State, w: nat) {
    w in s.writers && s.writers[w].Running? && s.writers[w].pc.ReturnedOk?
  }

  /** The two counters of a running writer are how often the sink answered each way in the schedule. */
  lemma CountersAreAnswers(capacity: nat, acts: seq<Action>, w: nat)
    requires Runs(Init(capacity), acts)
    requires var s := After(Init(capacity), acts); w in s.writers && s.writers[w].Running?
    ensures var v := After(Init(capacity), acts).writers[w];
      v.written == Count(acts, SinkAnswers(w, Written)) && v.failed == Count(acts, SinkAnswers(w, Failed))
  {
    ScheduleDecides(capacity, acts);
    hide Count, Init, Runs, After;
    assert WriterFollows(acts, w, After(Init(capacity), acts).writers[w]);
  }

  /** Drain safety at the moment `run_writer` returns Ok: the queue is empty, the summary adds up and counts each kind
      of answer the sink gave, and every record ever accepted was either answered for by the sink, in order within its
      priority, or shed as Ordinary. */
  lemma DrainSafety(capacity: nat, acts: seq<Action>, w: nat)
    requires Runs(Init(capacity), acts)
    requires ReturnedOkAt(After(Init(capacity), acts), w)
    ensures var s := After(Init(capacity), acts); var v := s.writers[w];
      && s.queue.live == []
      && !s.accepting
      && v.pc.depth == 0
      && v.written == Count(acts, SinkAnswers(w, Written)) && v.failed == Count(acts, SinkAnswers(w, Failed))
      && v.written + v.failed == v.pc.accepted - |s.queue.shed|
      && v.pc.accepted == |s.queue.accepted|
      && s.queue.popped == s.sunk
      && (forall p: Priority :: p != Ordinary ==> Only(s.queue.accepted, p) == Only(s.sunk, p))
      && (forall p: Priority :: Only(s.queue.accepted, p) == Only(s.queue.departed, p))
  {
    ReachableInv(capacity, acts);
    CountersAreAnswers(capacity, acts, w);
    hide Count;
    var s := After(Init(capacity), acts);
    assert WriterSealed(s, s.writers[w]);
    assert s.queue.popped == s.sunk + InHand(s.writers[w]);
    forall p: Priority ensures Only(s.queue.accepted, p) == Only(s.queue.departed, p) {
      assert Only(s.queue.accepted, p) == Only(s.queue.departed, p) + Only(s.queue.live, p);
    }
  }

  /** The summary is read under the mutex: when the writer returns Ok, no submitter is between taking the mutex and
      dropping it. */
  lemma SummaryUnderMutex(capacity: nat, acts: seq<Action>, w: nat)
    requires Runs(Init(capacity), acts) && Enabled(After(Init(capacity), acts), Decide(w))
    requires ReturnedOkAt(Step(After(Init(capacity), acts), Decide(w)), w)
    ensures var s := After(Init(capacity), acts);
      s.lock.None? && forall i :: i in s.submitters ==> !HoldsLock(s.submitters[i])
  {
    ReachableInv(capacity, acts);
    hide Init, After, Runs, Sound, SealInv, SinkInv, WakeInv, GateInv;
  }

  /** What every state after the writer's Ok return satisfies, relative to the state `s0` in which it returned. */
  ghost predicate StaysDrained(s0: State, s: State) {
    && !s.accepting
    && s.queue == s0.queue
    && s.sunk == s0.sunk
    && NobodyAdmitted(s)
    && |s0.answers| <= |s.answers| && s.answers[..|s0.answers|] == s0.answers
    && (forall i :: i in s.submitters && (s.submitters[i].Pushed? || s.submitters[i].Released?) ==>
          i in s0.submitters && (s0.submitters[i].Pushed? || s0.submitters[i].Released?))
    && (forall k :: |s0.answers| <= k < |s.answers| ==>
          || s.answers[k].reply == Closed
          || (s.answers[k].caller in s0.submitters
              && (s0.submitters[s.answers[k].caller].Pushed? || s0.submitters[s.answers[k].caller].Released?)))
    && exists w :: ReturnedOkAt(s, w)
  }

  lemma StepStaysDrained(s0: State, s: State, a: Action)
    requires Inv(s) && StaysDrained(s0, s) && Enabled(s, a)
    ensures StaysDrained(s0, Step(s, a))
  {
    hide PushSpec, PopSpec, Sound, SealInv, SinkInv, WakeInv, MutexInv, GateInv, WriterStep;
    var w :| ReturnedOkAt(s, w);
    NoWriterMoves(s, a, w);
    assert ReturnedOkAt(Step(s, a), w);
  }

  /** The writer that returned is the only one there ever is, so no writer moves. */
  lemma NoWriterMoves(s: State, a: Action, w: nat)
    requires GateInv(s) && Enabled(s, a)
    requires w in s.writers && s.writers[w].Running? && (s.writers[w].pc.ReturnedOk? || s.writers[w].pc.ReturnedErr?)
    ensures !ByWriter(a) && w in Step(s, a).writers && Step(s, a).writers[w] == s.writers[w]
  {
    hide PushSpec, PopSpec, WriterStep;
  }

  lemma {:induction false} RunStaysDrained(s0: State, s: State, more: seq<Action>)
    requires Inv(s) && StaysDrained(s0, s) && Runs(s, more)
    ensures StaysDrained(s0, After(s, more))
    decreases |more|
  {
    if more != [] {
      StepStaysDrained(s0, s, more[0]);
      StepKeepsInv(s, more[0]);
      RunStaysDrained(s0, Step(s, more[0]), more[1..]);
    }
  }

  /** Drain safety ever after: whatever happens once `run_writer` has returned Ok, the queue and the sink never change
      again, and a submit that had not pushed by then, or starts later, is answered Closed. */
  lemma DrainedForever(capacity: nat, acts: seq<Action>, w: nat, more: seq<Action>)
    requires Runs(Init(capacity), acts)
    requires ReturnedOkAt(After(Init(capacity), acts), w)
    requires Runs(After(Init(capacity), acts), more)
    ensures StaysDrained(After(Init(capacity), acts), After(After(Init(capacity), acts), more))
  {
    ReachableInv(capacity, acts);
    var s := After(Init(capacity), acts);
    assert WriterSealed(s, s.writers[w]);
    RunStaysDrained(s, s, more);
  }

  /** No lost wake-up, and one writer: in every reachable state a parked writer over a non-empty queue has a stored
      permit or a submitter that has still to notify, and two running writers are the same caller. */
  lemma NoLostWakeUp(capacity: nat, acts: seq<Action>, v: nat, w: nat)
    requires Runs(Init(capacity), acts)
    requires var s := After(Init(capacity), acts);
      v in s.writers && w in s.writers && s.writers[v].Running? && s.writers[w].Running?
    ensures v == w
    ensures var s := After(Init(capacity), acts);
      s.writers[w].pc.Parked? && s.queue.live != [] ==> s.permit || NotifyPending(s)
  {
    ReachableInv(capacity, acts);
  }

  /** The caller that can move next: the lock holder if there is one, otherwise anyone under way. */
  ghost predicate SomeCallCanMove(s: State) {
    || (exists i :: i in s.submitters &&
          (Enabled(s, TakeLock(i)) || Enabled(s, Recheck(i)) || Enabled(s, PushRecord(i)) ||
           Enabled(s, DropLock(i)) || Enabled(s, Notify(i))))
    || (exists w :: w in s.writers &&
          (Enabled(s, WriterTakeLock(w)) || Enabled(s, WriterPop(w)) || Enabled(s, WriterDropLock(w)) ||
           Enabled(s, SinkAnswers(w, Written)) || Enabled(s, Decide(w)) ||
           Enabled(s, WakeByNotify(w)) || Enabled(s, WakeByShutdown(w))))
  }

  /** No deadlock: a writer that has not returned can always make progress through some call already under way,
      unless it is rightly asleep: parked, nothing queued and no shutdown requested. */
  lemma NoDeadlock(capacity: nat, acts: seq<Action>, w: nat)
    requires Runs(Init(capacity), acts)
    requires var s := After(Init(capacity), acts); w in s.writers && s.writers[w].Running?
    requires var v := After(Init(capacity), acts).writers[w]; !v.pc.ReturnedOk? && !v.pc.ReturnedErr?
    ensures var s := After(Init(capacity), acts);
      SomeCallCanMove(s) || (s.writers[w].pc.Parked? && s.queue.live == [] && !s.shutdown)
  {
    ReachableInv(capacity, acts);
    var s := After(Init(capacity), acts);
    hide Init, After, Runs, Sound, SealInv, SinkInv;
    if s.lock.Some? {
      HolderCanMove(s);
    } else if s.writers[w].pc.Parked? {
      ParkedCanMove(s, w);
    } else {
      assert Enabled(s, WriterTakeLock(w)) || Enabled(s, Decide(w)) || Enabled(s, SinkAnswers(w, Written));
    }
  }

  lemma HolderCanMove(s: State)
    requires MutexInv(s) && s.lock.Some?
    ensures SomeCallCanMove(s)
  {
    var c := s.lock.value.caller;
    if s.lock.value.SubmitterHolds? {
      assert Enabled(s, Recheck(c)) || Enabled(s, PushRecord(c)) || Enabled(s, DropLock(c));
    } else {
      assert Enabled(s, WriterPop(c)) || Enabled(s, WriterDropLock(c));
    }
  }

  lemma ParkedCanMove(s: State, w: nat)
    requires WakeInv(s) && WriterAt(s, w, Parked)
    ensures SomeCallCanMove(s) || (s.queue.live == [] && !s.shutdown)
  {
    if s.shutdown { assert Enabled(s, WakeByShutdown(w)); }
    if s.queue.live != [] {
      if s.permit {
        assert Enabled(s, WakeByNotify(w));
      } else {
        var i :| i in s.submitters && (s.submitters[i].Pushed? || s.submitters[i].Released?);
        assert Enabled(s, DropLock(i)) || Enabled(s, Notify(i));
      }
    }
  }
}
