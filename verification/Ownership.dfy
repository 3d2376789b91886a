/** Who owns a cgroup id: the reverse index against the history of discoveries and endings, over whole runs. The index
    answers what the history says exactly as long as no ending takes an id that another session owns. */
module Ownership {
  import opened Common
  import opened Registry
  import opened RegistryRuns

  datatype Event = Event(op: Op, reply: Reply)

  predicate Offers(op: Op) {
    op.OpAssociate? || op.OpDiscover?
  }

  predicate Attaches(e: Event, c: nat, s: string) {
    Offers(e.op) && e.op.c == c && e.op.s == s && !e.reply.Refused?
  }

  predicate Ends(e: Event, s: string) {
    e.reply.Ended? && s in e.reply.sessions
  }

  /** Some successful discovery or association of `c` for `s` has not been followed by an ending of `s`. */
  ghost predicate Owned(h: seq<Event>, c: nat, s: string) {
    exists i :: 0 <= i < |h| && Attaches(h[i], c, s) && forall j :: i < j < |h| ==> !Ends(h[j], s)
  }

  /** The run exactly as the code performs it, including what a refused operation leaves behind. */
  function History(r: Registry, ops: seq<Op>): (Registry, seq<Event>)
    decreases |ops|
  {
    if ops == [] then (r, [])
    else
      var (r1, h) := History(r, ops[..|ops| - 1]);
      var (r2, reply) := Perform(r1, ops[|ops| - 1]);
      (r2, h + [Event(ops[|ops| - 1], reply)])
  }

  lemma OwnedSnoc(h: seq<Event>, e: Event, c: nat, s: string)
    ensures Owned(h + [e], c, s) <==> Attaches(e, c, s) || (Owned(h, c, s) && !Ends(e, s))
  {
    var h' := h + [e];
    if Attaches(e, c, s) {
      assert Attaches(h'[|h|], c, s);
    } else {
      if Owned(h, c, s) && !Ends(e, s) {
        var i :| 0 <= i < |h| && Attaches(h[i], c, s) && forall j :: i < j < |h| ==> !Ends(h[j], s);
        assert Attaches(h'[i], c, s);
        assert forall j :: i < j < |h'| ==> !Ends(h'[j], s);
      }
      if Owned(h', c, s) {
        var i :| 0 <= i < |h'| && Attaches(h'[i], c, s) && forall j :: i < j < |h'| ==> !Ends(h'[j], s);
        assert i < |h| && h'[i] == h[i];
        assert !Ends(h'[|h|], s);
        forall j | i < j < |h| ensures !Ends(h[j], s) { assert h[j] == h'[j]; }
      }
    }
  }

  /** The index answers `s` for `c` exactly when the history says so. */
  ghost predicate Answers(r: Registry, h: seq<Event>) {
    forall c, s :: (c in r.index && r.index[c] == s) <==> Owned(h, c, s)
  }

  /** One operation moves the index exactly as its event says. */
  ghost predicate IndexFollows(r: Registry, r': Registry, e: Event) {
    forall c, s ::
      (c in r'.index && r'.index[c] == s) <==> Attaches(e, c, s) || (c in r.index && r.index[c] == s && !Ends(e, s))
  }

  lemma AnswersStep(r: Registry, h: seq<Event>, r': Registry, e: Event)
    requires Answers(r, h)
    ensures Answers(r', h + [e]) <==> IndexFollows(r, r', e)
  {
    forall c, s
      ensures Owned(h + [e], c, s) <==> Attaches(e, c, s) || (c in r.index && r.index[c] == s && !Ends(e, s))
    {
      OwnedSnoc(h, e, c, s);
    }
  }

  // ---------------------------------------------------------------- the guard

  predicate Ending(op: Op) {
    op.OpClose? || op.OpDegrade? || op.OpExpire? || op.OpPurge?
  }

  /** The sessions an operation is going to end. */
  function EndedBy(r: Registry, op: Op): set<string> {
    match op
    case OpClose(s) => if s in r.sessions then {s} else {}
    case OpDegrade(s) => if s in r.sessions then {s} else {}
    case OpExpire(now) => DueSessions(r, now)
    case OpPurge(tenant, now) => EligibleSessions(r, tenant, now)
    case _ => {}
  }

  /** Some id listed by a session that is going to end is owned by one that is not. */
  ghost predicate TakesForeignId(r: Registry, op: Op) {
    exists c :: c in r.index && c in IdsOf(r, EndedBy(r, op)) && r.index[c] !in EndedBy(r, op)
  }

  /** Every id a session waits for is in the index under that session. */
  ghost predicate PendIndexed(r: Registry) {
    forall s, c :: s in r.pending && c in r.pending[s] ==> c in r.index && r.index[c] == s
  }

  lemma RegisterFollows(r: Registry, op: Op)
    requires Inv(r) && PendIndexed(r) && op.OpRegister?
    ensures var (r', reply) := Perform(r, op);
      && Inv(r') && PendIndexed(r') && IndexFollows(r, r', Event(op, reply))
      && (reply.Refused? ==> !reply.error.CgroupAlreadyAssigned?)
  {
    hide Register, Inv, Installed, PendIndexed, Conflict, ValidateIntent;
    var s := op.intent.sessionId;
    var (r', a) := Register(r, op.intent, op.now);
    IndexedNoConflict(r, s);
    RegisterEffect(r, op.intent, op.now);
    if a.Ok? {
      InstalledKeepsInv(r, r', op.intent);
      InstalledKeepsPendIndexed(r, r', op.intent);
    }
  }

  lemma IndexedNoConflict(r: Registry, s: string)
    requires PendIndexed(r)
    ensures !Conflict(r, s, PendingOf(r, s))
  {
  }

  lemma InstalledKeepsPendIndexed(r: Registry, r': Registry, intent: Intent)
    requires PendIndexed(r) && Installed(r, r', intent)
    ensures PendIndexed(r') && r'.index == r.index
  {
  }

  lemma RenewFollows(r: Registry, op: Op)
    requires Inv(r) && PendIndexed(r) && op.OpRenew?
    ensures var (r', reply) := Perform(r, op); Inv(r') && PendIndexed(r') && IndexFollows(r, r', Event(op, reply))
  {
    RenewKeepsInv(r, op.s, op.expiresAt, op.now);
    RenewKeepsTables(r, op.s, op.expiresAt, op.now);
    hide Inv, Renew;
  }

  lemma RenewKeepsTables(r: Registry, s: string, expiresAt: U64, now: nat)
    ensures var r' := Renew(r, s, expiresAt, now).0; r'.index == r.index && r'.pending == r.pending
  {
  }

  lemma OfferedIndex(r: Registry, op: Op)
    requires PendIndexed(r) && Offers(op)
    ensures var (r', reply) := Perform(r, op);
      && (reply.Refused? ==> r' == r)
      && (!reply.Refused? ==> r'.index == r.index[op.c := op.s] && (op.c in r.index ==> r.index[op.c] == op.s))
      && PendIndexed(r') && !reply.Ended?
  {
    var (r', reply) := Perform(r, op);
    if op.OpDiscover? && op.s !in r.sessions && op.c in PendingOf(r, op.s) {
      assert r.index[op.c := op.s] == r.index;
    }
  }

  lemma OfferFollows(r: Registry, op: Op)
    requires Inv(r) && PendIndexed(r) && Offers(op)
    ensures var (r', reply) := Perform(r, op); Inv(r') && PendIndexed(r') && IndexFollows(r, r', Event(op, reply))
  {
    hide Inv, PendIndexed, Perform;
    PerformKeepsInv(r, op);
    OfferedIndex(r, op);
    var (r', reply) := Perform(r, op);
    OfferedFollows(r, r', op, reply);
  }

  lemma OfferedFollows(r: Registry, r': Registry, op: Op, reply: Reply)
    requires Offers(op)
    requires reply.Refused? ==> r' == r
    requires !reply.Refused? ==> r'.index == r.index[op.c := op.s] && (op.c in r.index ==> r.index[op.c] == op.s)
    requires !reply.Ended?
    ensures IndexFollows(r, r', Event(op, reply))
  {
  }

  lemma EndedSessions(r: Registry, op: Op)
    requires Ending(op)
    ensures var (r', reply) := Perform(r, op);
      && (reply.Ended? ==> reply.sessions == EndedBy(r, op) && Deactivated(r, r', EndedBy(r, op)))
      && (!reply.Ended? ==> reply.Refused? && r' == r && EndedBy(r, op) == {})
  {
    EndingEffect(r, op);
    hide IdsOf, Deactivated;
  }

  /** The ids an ended session owns are among the ids it lists. */
  lemma OwnIdsListed(r: Registry, gone: set<string>)
    requires IndexBacked(r) && r.pending.Keys !! r.sessions.Keys && gone <= r.sessions.Keys
    ensures forall c :: c in r.index && r.index[c] in gone ==> c in IdsOf(r, gone)
  {
    forall c | c in r.index && r.index[c] in gone ensures c in IdsOf(r, gone) {
      assert Backed(r, c, r.index[c]);
    }
  }

  lemma DeactivatedIndex(r: Registry, r': Registry, op: Op, gone: set<string>)
    requires Ending(op) && gone == EndedBy(r, op) && Deactivated(r, r', gone)
    requires forall c :: c in r.index && r.index[c] in gone ==> c in IdsOf(r, gone)
    ensures IndexFollows(r, r', Event(op, Ended(gone))) <==> !TakesForeignId(r, op)
  {
    hide IdsOf, EndedBy;
    var e := Event(op, Ended(gone));
    if TakesForeignId(r, op) {
      var c :| c in r.index && c in IdsOf(r, gone) && r.index[c] !in gone;
      assert c !in r'.index && !Ends(e, r.index[c]);
    }
  }

  lemma DeactivatedPending(r: Registry, r': Registry, op: Op, gone: set<string>)
    requires PendIndexed(r) && r.pending.Keys !! r.sessions.Keys && !TakesForeignId(r, op)
    requires gone == EndedBy(r, op) && Deactivated(r, r', gone)
    ensures PendIndexed(r')
  {
    hide IdsOf, EndedBy;
    forall s, c | s in r'.pending && c in r'.pending[s] ensures c in r'.index && r'.index[c] == s {
      assert s !in gone;
    }
  }

  /** An ending moves the index as its event says if and only if it takes no foreign id. */
  lemma EndingTakesForeignIdsExactly(r: Registry, op: Op)
    requires Inv(r) && PendIndexed(r) && Ending(op)
    ensures var (r', reply) := Perform(r, op);
      && Inv(r')
      && (IndexFollows(r, r', Event(op, reply)) <==> !TakesForeignId(r, op))
      && (!TakesForeignId(r, op) ==> PendIndexed(r'))
  {
    hide Perform, Deactivated, IndexFollows, TakesForeignId, PendIndexed, EndedBy;
    EndedSessions(r, op);
    var (r', reply) := Perform(r, op);
    var gone := EndedBy(r, op);
    InvParts(r);
    if reply.Ended? {
      DeactivatedWithin(r, r', gone);
      OwnIdsListed(r, gone);
      DeactivatedKeepsInv(r, r', gone);
      DeactivatedIndex(r, r', op, gone);
      if !TakesForeignId(r, op) { DeactivatedPending(r, r', op, gone); }
    } else {
      NothingEnded(r, op, reply.error);
    }
  }

  lemma DeactivatedWithin(r: Registry, r': Registry, gone: set<string>)
    requires Deactivated(r, r', gone)
    ensures gone <= r.sessions.Keys
  {
  }

  lemma NothingEnded(r: Registry, op: Op, error: RegistryError)
    requires EndedBy(r, op) == {}
    ensures !TakesForeignId(r, op) && (Ending(op) ==> IndexFollows(r, r, Event(op, Refused(error))))
  {
    hide EndedBy;
  }

  /** Any operation moves the index as its event says if and only if it takes no foreign id. */
  lemma StepFollowsExactly(r: Registry, op: Op)
    requires Inv(r) && PendIndexed(r)
    ensures var (r', reply) := Perform(r, op);
      && (IndexFollows(r, r', Event(op, reply)) <==> !TakesForeignId(r, op))
      && (!TakesForeignId(r, op) ==> Inv(r') && PendIndexed(r'))
      && (op.OpRegister? && reply.Refused? ==> !reply.error.CgroupAlreadyAssigned?)
  {
    hide Perform, IndexFollows, PendIndexed, Inv;
    if Ending(op) {
      EndingTakesForeignIdsExactly(r, op);
    } else {
      NothingEnded(r, op, SessionNotFound(""));
      match op
      case OpRegister(_, _) => RegisterFollows(r, op);
      case OpRenew(_, _, _) => RenewFollows(r, op);
      case OpAssociate(_, _) => OfferFollows(r, op);
      case OpDiscover(_, _) => OfferFollows(r, op);
    }
  }

  // ---------------------------------------------------------------- over whole runs

  /** After every prefix of the run the index answers what the history says. */
  ghost predicate AlwaysAnswers(maxSessions: nat, maxPending: nat, ops: seq<Op>) {
    && (var (r, h) := History(Empty(maxSessions, maxPending), ops); Answers(r, h))
    && (ops != [] ==> AlwaysAnswers(maxSessions, maxPending, ops[..|ops| - 1]))
  }

  /** No ending of the run takes a foreign id; each can be looked at before it is performed. */
  ghost predicate NeverTakes(maxSessions: nat, maxPending: nat, ops: seq<Op>) {
    ops != [] ==>
      var before := ops[..|ops| - 1];
      && NeverTakes(maxSessions, maxPending, before)
      && !TakesForeignId(History(Empty(maxSessions, maxPending), before).0, ops[|ops| - 1])
  }

  /** Ownership, exactly: over every run, whatever ids are offered, the index answers what the history says after every
      prefix if and only if no ending in the run takes an id that another session owns. Such a run also keeps the tables
      consistent and never meets a cgroup conflict in a register. */
  lemma {:induction false} OwnershipExactly(maxSessions: nat, maxPending: nat, ops: seq<Op>)
    ensures AlwaysAnswers(maxSessions, maxPending, ops) <==> NeverTakes(maxSessions, maxPending, ops)
    ensures NeverTakes(maxSessions, maxPending, ops) ==>
      var (r, h) := History(Empty(maxSessions, maxPending), ops); Inv(r) && PendIndexed(r) && NoConflictIn(h)
    decreases |ops|
  {
    hide Perform, Inv, PendIndexed, IndexFollows, TakesForeignId, Answers;
    if ops == [] {
      NothingHappened(maxSessions, maxPending);
    } else {
      var before, op := ops[..|ops| - 1], ops[|ops| - 1];
      OwnershipExactly(maxSessions, maxPending, before);
      var (r, h) := History(Empty(maxSessions, maxPending), before);
      if NeverTakes(maxSessions, maxPending, before) {
        AnswersStep(r, h, Perform(r, op).0, Event(op, Perform(r, op).1));
        StepFollowsExactly(r, op);
      }
    }
  }

  lemma NothingHappened(maxSessions: nat, maxPending: nat)
    ensures var (r, h) := History(Empty(maxSessions, maxPending), []);
      Answers(r, h) && Inv(r) && PendIndexed(r) && NoConflictIn(h)
  {
  }

  /** No register of the history was stopped by a cgroup conflict. */
  ghost predicate NoConflictIn(h: seq<Event>) {
    forall i :: 0 <= i < |h| && h[i].op.OpRegister? && h[i].reply.Refused? ==> !h[i].reply.error.CgroupAlreadyAssigned?
  }

  // ---------------------------------------------------------------- without reuse of an id

  /** No cgroup id is offered under two session ids: `home` names the one session each id is offered under. */
  ghost predicate NoReuse(ops: seq<Op>, home: nat -> string) {
    forall i :: 0 <= i < |ops| && Offers(ops[i]) ==> home(ops[i].c) == ops[i].s
  }

  lemma AtHomeTakesNothing(r: Registry, op: Op, home: nat -> string)
    requires AtHome(r, home)
    ensures !TakesForeignId(r, op)
  {
  }

  lemma PerformKeepsHome(r: Registry, op: Op, home: nat -> string)
    requires Inv(r) && PendIndexed(r) && AtHome(r, home)
    requires Offers(op) ==> home(op.c) == op.s
    ensures AtHome(Perform(r, op).0, home)
  {
    hide Inv, AtHome, Register, Attach, Installed, Deactivated;
    match op
    case OpRegister(intent, now) =>
      StepFollowsExactly(r, op);
      RegisterEffect(r, intent, now);
      if Register(r, intent, now).1.Ok? { InstalledFollows(r, Register(r, intent, now).0, intent, home); }
    case OpRenew(s, expiresAt, now) => RenewFollowsHome(r, s, expiresAt, now, home);
    case OpAssociate(s, c) => if s in r.sessions { AttachFollows(r, s, c, home); }
    case OpDiscover(s, c) => if s in r.sessions { AttachFollows(r, s, c, home); } else { PendFollows(r, s, c, home); }
    case _ =>
      EndingEffect(r, op);
      InvParts(r);
      if Perform(r, op).1.Ended? { DeactivatedFollows(r, Perform(r, op).0, Perform(r, op).1.sessions, home); }
  }

  lemma {:induction false} NoReuseStaysHome(maxSessions: nat, maxPending: nat, ops: seq<Op>, home: nat -> string)
    requires NoReuse(ops, home)
    ensures NeverTakes(maxSessions, maxPending, ops)
    ensures AtHome(History(Empty(maxSessions, maxPending), ops).0, home)
    decreases |ops|
  {
    if ops != [] {
      var before, op := ops[..|ops| - 1], ops[|ops| - 1];
      var r := History(Empty(maxSessions, maxPending), before).0;
      NoReuseStaysHome(maxSessions, maxPending, before, home);
      OwnershipExactly(maxSessions, maxPending, before);
      hide Inv, PendIndexed, TakesForeignId, AtHome, Perform;
      AtHomeTakesNothing(r, op, home);
      PerformKeepsHome(r, op, home);
    }
  }

  /** Ownership refinement, the usual case: if no cgroup id is offered under two sessions the condition always holds. */
  lemma OwnershipRefinement(maxSessions: nat, maxPending: nat, ops: seq<Op>, home: nat -> string)
    requires NoReuse(ops, home)
    ensures var (r, h) := History(Empty(maxSessions, maxPending), ops);
      Inv(r) && AtHome(r, home) && Answers(r, h) && NoConflictIn(h)
  {
    NoReuseStaysHome(maxSessions, maxPending, ops, home);
    OwnershipExactly(maxSessions, maxPending, ops);
    hide Inv, PendIndexed, NeverTakes, AtHome, Answers, History;
    assert AlwaysAnswers(maxSessions, maxPending, ops);
  }

  // ---------------------------------------------------------------- runs that meet the condition's other side

  lemma HistorySnoc(r: Registry, ops: seq<Op>, op: Op)
    ensures var (r1, h) := History(r, ops); var (r2, reply) := Perform(r1, op);
      History(r, ops + [op]) == (r2, h + [Event(op, reply)])
  {
    assert (ops + [op])[..|ops|] == ops;
  }

  lemma AttachRunResult(r: Registry, h: seq<Event>, ops: seq<Op>, r0: Registry, a: Intent, now: nat, c: nat)
    requires History(r0, ops) == (r, h)
    requires ValidateIntent(a, now).None? && a.sessionId !in r.sessions && a.sessionId !in r.pending
    requires |r.sessions| < r.maxSessions && c !in r.index
    ensures var s := a.sessionId;
      History(r0, ops + [OpRegister(a, now)] + [OpAssociate(s, c)]) ==
        (r.(sessions := r.sessions[s := Session(a, a.expiresAt, Active, [c])], index := r.index[c := s]),
         h + [Event(OpRegister(a, now), Registered(Inserted))] + [Event(OpAssociate(s, c), Associated(Attached))])
  {
    hide Register, Associate, ValidateIntent, Admit, History;
    var s := a.sessionId;
    HistorySnoc(r0, ops, OpRegister(a, now));
    HistorySnoc(r0, ops + [OpRegister(a, now)], OpAssociate(s, c));
    FreshRegister(r, a, now);
    FreshAssociate(r, a, c);
  }

  lemma FreshRegister(r: Registry, a: Intent, now: nat)
    requires ValidateIntent(a, now).None? && a.sessionId !in r.sessions && a.sessionId !in r.pending
    requires |r.sessions| < r.maxSessions
    ensures Register(r, a, now) == (Admit(r, a), Ok(Inserted))
  {
    hide ValidateIntent;
    assert r.pending - {a.sessionId} == r.pending;
  }

  lemma FreshAssociate(r: Registry, a: Intent, c: nat)
    requires a.sessionId !in r.sessions && c !in r.index
    ensures var s := a.sessionId;
      Associate(Admit(r, a), s, c) ==
        (r.(sessions := r.sessions[s := Session(a, a.expiresAt, Active, [c])], index := r.index[c := s]), Ok(()))
  {
    var s := a.sessionId;
    assert AddId([], c) == [c];
    assert Associate(Admit(r, a), s, c).0.sessions == r.sessions[s := Session(a, a.expiresAt, Active, [c])];
  }

  lemma SecondCloseTakesId(r: Registry, h: seq<Event>, ops: seq<Op>, r0: Registry, s: string, t: string, c: nat)
    requires History(r0, ops) == (r, h)
    requires s in r.sessions && c in r.sessions[s].cgroupIds && s != t
    requires |h| > 0 && Attaches(h[|h| - 1], c, t)
    ensures var (r', h') := History(r0, ops + [OpClose(s)]); Owned(h', c, t) && c !in r'.index
  {
    HistorySnoc(r0, ops, OpClose(s));
    var (_, h') := History(r0, ops + [OpClose(s)]);
    assert Attaches(h'[|h| - 1], c, t) && !Ends(h'[|h|], t);
  }

  function FirstRun(a: Intent, now: nat, c: nat): seq<Op> {
    [] + [OpRegister(a, now)] + [OpAssociate(a.sessionId, c)] + [OpClose(a.sessionId)]
  }

  lemma FirstRunResult(r0: Registry, a: Intent, now: nat, c: nat)
    requires ValidateIntent(a, now).None? && r0 == Empty(r0.maxSessions, r0.maxPending) && r0.maxSessions > 0
    ensures History(r0, FirstRun(a, now, c)).0 ==
            r0.(sessions := map[a.sessionId := Session(a, a.expiresAt, Closed, [c])])
  {
    hide History, Perform, ValidateIntent;
    var s := a.sessionId;
    var attached := [] + [OpRegister(a, now)] + [OpAssociate(s, c)];
    EmptyHistory(r0);
    AttachRunResult(r0, [], [], r0, a, now, c);
    HistorySnoc(r0, attached, OpClose(s));
    CloseOnlySession(r0, a, c);
  }

  lemma EmptyHistory(r0: Registry)
    ensures History(r0, []) == (r0, [])
  {
  }

  lemma CloseOnlySession(r0: Registry, a: Intent, c: nat)
    requires r0 == Empty(r0.maxSessions, r0.maxPending)
    ensures var s := a.sessionId;
      var r := r0.(sessions := r0.sessions[s := Session(a, a.expiresAt, Active, [c])], index := r0.index[c := s]);
      Perform(r, OpClose(s)).0 == r0.(sessions := map[s := Session(a, a.expiresAt, Closed, [c])])
  {
    var s := a.sessionId;
    assert map[][c := s] - IdSet([c]) == map[];
    assert map[][s := Session(a, a.expiresAt, Active, [c])][s := Session(a, a.expiresAt, Closed, [c])]
        == map[s := Session(a, a.expiresAt, Closed, [c])];
  }

  /** Whatever the two sessions and the id: attach the id to the first, close it, attach the id to the second, close
      the first again. The history says the second session owns the id, and the index has lost it. */
  lemma ReuseLosesOwnership(a: Intent, b: Intent, now: nat, c: nat)
    requires ValidateIntent(a, now).None? && ValidateIntent(b, now).None? && a.sessionId != b.sessionId
    ensures var ops := FirstRun(a, now, c)
                       + [OpRegister(b, now)] + [OpAssociate(b.sessionId, c)] + [OpClose(a.sessionId)];
      var (r, h) := History(Empty(2, 2), ops); Owned(h, c, b.sessionId) && c !in r.index
  {
    FirstRunResult(Empty(2, 2), a, now, c);
    SecondRun(a.sessionId, Session(a, a.expiresAt, Closed, [c]), FirstRun(a, now, c), b, now, c);
  }

  lemma SecondRun(s: string, first: Session, ops: seq<Op>, b: Intent, now: nat, c: nat)
    requires History(Empty(2, 2), ops).0 == Empty(2, 2).(sessions := map[s := first])
    requires ValidateIntent(b, now).None? && s != b.sessionId && c in first.cgroupIds
    ensures var more := ops + [OpRegister(b, now)] + [OpAssociate(b.sessionId, c)] + [OpClose(s)];
      var (r, h) := History(Empty(2, 2), more); Owned(h, c, b.sessionId) && c !in r.index
  {
    var (r, h) := History(Empty(2, 2), ops);
    AttachRunResult(r, h, ops, Empty(2, 2), b, now, c);
    var o := ops + [OpRegister(b, now)] + [OpAssociate(b.sessionId, c)];
    var (r5, h5) := History(Empty(2, 2), o);
    SecondCloseTakesId(r5, h5, o, Empty(2, 2), s, b.sessionId, c);
  }

  /** The tables before a register that stops halfway: a session waits for two ids, and one went elsewhere. */
  function Contested(other: Intent, s: string, c: nat, d: nat): Registry {
    Registry(3, 3,
             map[other.sessionId := Session(other, other.expiresAt, Active, [c])],
             map[c := other.sessionId, d := s],
             map[s := [c, d]],
             2)
  }

  lemma TotalOfNone()
    ensures Total(map[]) == 0
  {
  }

  lemma ContestedInv(other: Intent, s: string, c: nat, d: nat)
    requires other.sessionId != s && c < d
    ensures Inv(Contested(other, s, c, d))
  {
    hide Total;
    var r := Contested(other, s, c, d);
    TotalUpdate(map[], s, [c, d]);
    TotalOfNone();
    assert map[s := [c, d]] == map[][s := [c, d]];
    assert forall x :: x in r.index ==> Backed(r, x, r.index[x]);
  }

  lemma UnbackedBreaksInv(r: Registry, d: nat)
    requires d in r.index && !Backed(r, d, r.index[d])
    ensures !Inv(r)
  {
  }

  /** The run that leads there: the other session lists `c` and ends; another one waits for `c` and `d`; the first ends
      again, which takes `c` away, and attaches it once more. */
  function ContestedRun(other: Intent, now: nat, s: string, c: nat, d: nat): seq<Op> {
    FirstRun(other, now, c) + [OpDiscover(s, c)] + [OpDiscover(s, d)]
    + [OpClose(other.sessionId)] + [OpRegister(other, now)] + [OpAssociate(other.sessionId, c)]
  }

  /** The tables along that run. */
  function Waiting(other: Intent, status: Status, s: string, c: nat, ids: seq<nat>, index: map<nat, string>): Registry {
    Registry(3, 3, map[other.sessionId := Session(other, other.expiresAt, status, [c])], index, map[s := ids], |ids|)
  }

  lemma WaitForTwo(other: Intent, s: string, c: nat, d: nat)
    requires other.sessionId != s && c < d
    ensures var r := Empty(3, 3).(sessions := map[other.sessionId := Session(other, other.expiresAt, Closed, [c])]);
      Perform(r, OpDiscover(s, c)).0 == Waiting(other, Closed, s, c, [c], map[c := s])
    ensures Perform(Waiting(other, Closed, s, c, [c], map[c := s]), OpDiscover(s, d)).0
            == Waiting(other, Closed, s, c, [c, d], map[c := s, d := s])
  {
    assert Insert([], c) == [c];
    assert Insert([c], d) == [c] + Insert([], d) == [c, d];
    assert map[s := [c]][s := [c, d]] == map[s := [c, d]];
    assert map[c := s][d := s] == map[c := s, d := s];
    assert map[][s := [c]] == map[s := [c]] && map[][c := s] == map[c := s];
  }

  lemma TakenByClose(other: Intent, s: string, c: nat, d: nat)
    requires other.sessionId != s && c < d
    ensures Perform(Waiting(other, Closed, s, c, [c, d], map[c := s, d := s]), OpClose(other.sessionId)).0
            == Waiting(other, Closed, s, c, [c, d], map[d := s])
  {
    hide Register, Discover, Associate;
    var o := other.sessionId;
    assert map[c := s, d := s] - IdSet([c]) == map[d := s];
    assert map[o := Session(other, other.expiresAt, Closed, [c])][o := Session(other, other.expiresAt, Closed, [c])]
        == map[o := Session(other, other.expiresAt, Closed, [c])];
  }

  lemma TakenByRegister(other: Intent, now: nat, s: string, c: nat, d: nat)
    requires ValidateIntent(other, now).None? && other.sessionId != s
    ensures Perform(Waiting(other, Closed, s, c, [c, d], map[d := s]), OpRegister(other, now)).0
            == Waiting(other, Active, s, c, [c, d], map[d := s])
  {
    hide ValidateIntent;
    var o, ids := other.sessionId, [c, d];
    assert map[s := ids] - {o} == map[s := ids];
    assert map[o := Session(other, other.expiresAt, Closed, [c])][o := Session(other, other.expiresAt, Active, [c])]
        == map[o := Session(other, other.expiresAt, Active, [c])];
  }

  lemma TakenByAssociate(other: Intent, s: string, c: nat, d: nat)
    requires other.sessionId != s && c < d
    ensures Perform(Waiting(other, Active, s, c, [c, d], map[d := s]), OpAssociate(other.sessionId, c)).0
            == Contested(other, s, c, d)
  {
    var o := other.sessionId;
    assert AddId([c], c) == [c];
    assert map[o := Session(other, other.expiresAt, Active, [c])][o := Session(other, other.expiresAt, Active, [c])]
        == map[o := Session(other, other.expiresAt, Active, [c])];
    assert map[d := s][c := o] == map[c := o, d := s];
  }

  lemma ContestedReached(other: Intent, now: nat, s: string, c: nat, d: nat)
    requires ValidateIntent(other, now).None? && other.sessionId != s && c < d
    ensures History(Empty(3, 3), ContestedRun(other, now, s, c, d)).0 == Contested(other, s, c, d)
  {
    hide History, Perform, Waiting, ValidateIntent, FirstRun;
    var r0, o := Empty(3, 3), other.sessionId;
    var run1 := FirstRun(other, now, c);
    var run2 := run1 + [OpDiscover(s, c)];
    var run3 := run2 + [OpDiscover(s, d)];
    var run4 := run3 + [OpClose(o)];
    var run5 := run4 + [OpRegister(other, now)];
    FirstRunResult(r0, other, now, c);
    WaitForTwo(other, s, c, d);
    TakenByClose(other, s, c, d);
    TakenByRegister(other, now, s, c, d);
    TakenByAssociate(other, s, c, d);
    HistorySnoc(r0, run1, OpDiscover(s, c));
    HistorySnoc(r0, run2, OpDiscover(s, d));
    HistorySnoc(r0, run3, OpClose(o));
    HistorySnoc(r0, run4, OpRegister(other, now));
    HistorySnoc(r0, run5, OpAssociate(o, c));
  }

  /** For any two sessions and any two ids there is a run after which the tables are
      consistent and a valid register is refused and yet changes the registry, leaving an index entry nothing backs; the
      daemon is safe because it throws the clone away. */
  lemma HalfwayRegisterBreaksInv(other: Intent, b: Intent, now: nat, c: nat, d: nat)
    requires ValidateIntent(other, now).None? && ValidateIntent(b, now).None?
    requires other.sessionId != b.sessionId && c < d
    ensures var r := History(Empty(3, 3), ContestedRun(other, now, b.sessionId, c, d)).0;
      Inv(r) && var (r', a) := Register(r, b, now); a.Err? && !Inv(r')
  {
    hide Inv, ValidateIntent;
    var s := b.sessionId;
    var r := Contested(other, s, c, d);
    ContestedReached(other, now, s, c, d);
    ContestedInv(other, s, c, d);
    var taken := TakePending(r, b);
    assert AttachAll(taken, s, [c, d]) == (taken, Err(CgroupAlreadyAssigned(c, other.sessionId)));
    UnbackedBreaksInv(Register(r, b, now).0, d);
  }
}
