/** The bounded five-level queue of crates/apolysis-accountability/src/queue.rs.

    `BoundedPriorityQueue` is the code: one deque per priority and a block of counters, changed in place.
    `Ledger` is the reference it is proved against: the live records in plain arrival order, plus the whole
    history of what was accepted, what left (popped or shed) and what was refused. */
module PriorityQueue {
  import opened Common

  datatype Priority = Ordinary | Lifecycle | Diagnostic | Finding | Integrity

  function Rank(p: Priority): nat {
    match p
    case Ordinary => 0
    case Lifecycle => 1
    case Diagnostic => 2
    case Finding => 3
    case Integrity => 4
  }

  datatype PushOutcome =
    | Accepted
    | AcceptedAfterShedding(dropped: Priority)
    | Dropped(dropped: Priority)

  datatype QueueStats = QueueStats(capacity: nat, depth: nat, accepted: nat, dropped: map<Priority, nat>)

  datatype Entry<T> = Entry(priority: Priority, value: T)

  /** The reference queue: the live records in arrival order, and the history of every decision. `departed` is the
      order in which records left; `popped` and `shed` are the two ways of leaving. */
  datatype Ledger<T> = Ledger(
    capacity: nat,
    live: seq<Entry<T>>,
    accepted: seq<Entry<T>>,
    departed: seq<Entry<T>>,
    popped: seq<Entry<T>>,
    shed: seq<Entry<T>>,
    refused: seq<Entry<T>>)

  function EmptyLedger<T>(capacity: nat): Ledger<T> {
    Ledger(capacity, [], [], [], [], [], [])
  }

  // ---------------------------------------------------------------- projections

  /** The values recorded at one priority, in order. */
  function Only<T>(s: seq<Entry<T>>, p: Priority): (r: seq<T>)
  {
    if s == [] then []
    else Only(s[..|s| - 1], p) + (if s[|s| - 1].priority == p then [s[|s| - 1].value] else [])
  }

  lemma OnlySnoc<T>(s: seq<Entry<T>>, e: Entry<T>, p: Priority)
    ensures Only(s + [e], p) == if e.priority == p then Only(s, p) + [e.value] else Only(s, p)
  {
    assert (s + [e])[..|s|] == s;
  }

  lemma {:induction false} OnlyConcat<T>(a: seq<Entry<T>>, b: seq<Entry<T>>, p: Priority)
    ensures Only(a + b, p) == Only(a, p) + Only(b, p)
    decreases |b|
  {
    if b == [] {
      assert a + b == a;
    } else {
      var init, last := b[..|b| - 1], b[|b| - 1];
      assert a + b == (a + init) + [last];
      OnlyConcat(a, init, p);
      OnlySnoc(a + init, last, p);
      OnlySnoc(init, last, p);
      assert b == init + [last];
    }
  }

  lemma {:induction false} OnlyEmpty<T>(s: seq<Entry<T>>, p: Priority)
    ensures Only(s, p) == [] <==> forall j :: 0 <= j < |s| ==> s[j].priority != p
    decreases |s|
  {
    if s != [] {
      OnlyEmpty(s[..|s| - 1], p);
      if s[|s| - 1].priority != p && Only(s[..|s| - 1], p) == [] {
        forall j | 0 <= j < |s| ensures s[j].priority != p {
          if j < |s| - 1 { assert s[..|s| - 1][j] == s[j]; }
        }
      }
    }
  }

  /** Taking out the first entry of its priority removes the head of that level and nothing else. */
  lemma OnlyRemove<T>(s: seq<Entry<T>>, i: nat, p: Priority)
    requires i < |s|
    requires forall j :: 0 <= j < i ==> s[j].priority != s[i].priority
    ensures Only(s, p) == (if s[i].priority == p then [s[i].value] else []) + Only(RemoveAt(s, i), p)
  {
    var a, b := s[..i], s[i + 1..];
    assert s == (a + [s[i]]) + b;
    OnlyConcat(a + [s[i]], b, p);
    OnlySnoc(a, s[i], p);
    OnlyConcat(a, b, p);
    if s[i].priority == p { OnlyEmpty(a, p); }
  }

  // ---------------------------------------------------------------- reference operations

  /** Position of the oldest live record of priority `p`, or the length when there is none. */
  function FirstOf<T>(s: seq<Entry<T>>, p: Priority): (i: nat)
    ensures i <= |s|
    ensures forall j :: 0 <= j < i ==> s[j].priority != p
    ensures i < |s| ==> s[i].priority == p
  {
    if s == [] then 0
    else
      var i := FirstOf(s[..|s| - 1], p);
      if i < |s| - 1 then i else if s[|s| - 1].priority == p then |s| - 1 else |s|
  }

  /** Position of the next record to hand out: the highest priority present, and the earliest of that priority. */
  function NextOut<T>(s: seq<Entry<T>>): (i: nat)
    requires s != []
    ensures i < |s|
    ensures forall j :: 0 <= j < |s| ==> Rank(s[j].priority) <= Rank(s[i].priority)
    ensures forall j :: 0 <= j < i ==> Rank(s[j].priority) < Rank(s[i].priority)
  {
    if |s| == 1 then 0
    else
      var i := NextOut(s[..|s| - 1]);
      if Rank(s[i].priority) < Rank(s[|s| - 1].priority) then |s| - 1 else i
  }

  function Enqueue<T>(q: Ledger<T>, e: Entry<T>): Ledger<T> {
    q.(live := q.live + [e], accepted := q.accepted + [e])
  }

  function Take<T>(q: Ledger<T>, i: nat): Ledger<T>
    requires i < |q.live|
  {
    q.(live := RemoveAt(q.live, i), departed := q.departed + [q.live[i]], popped := q.popped + [q.live[i]])
  }

  function Evict<T>(q: Ledger<T>, i: nat): Ledger<T>
    requires i < |q.live|
  {
    q.(live := RemoveAt(q.live, i), departed := q.departed + [q.live[i]], shed := q.shed + [q.live[i]])
  }

  function PushSpec<T>(q: Ledger<T>, e: Entry<T>): (Ledger<T>, PushOutcome) {
    if |q.live| < q.capacity then (Enqueue(q, e), Accepted)
    else
      var i := FirstOf(q.live, Ordinary);
      if e.priority != Ordinary && i < |q.live| then
        (Enqueue(Evict(q, i), e), AcceptedAfterShedding(Ordinary))
      else
        (q.(refused := q.refused + [e]), Dropped(e.priority))
  }

  function PopSpec<T>(q: Ledger<T>): (Ledger<T>, Option<Entry<T>>) {
    if q.live == [] then (q, None)
    else (Take(q, NextOut(q.live)), Some(q.live[NextOut(q.live)]))
  }

  // ---------------------------------------------------------------- the code

  function Level<T>(queues: map<Priority, seq<T>>, p: Priority): seq<T> {
    if p in queues then queues[p] else []
  }

  /** The deques hold exactly the live records, split by priority and in arrival order. */
  ghost predicate Represents<T>(queues: map<Priority, seq<T>>, live: seq<Entry<T>>) {
    forall p: Priority :: Level(queues, p) == Only(live, p)
  }

  function DropCount(dropped: map<Priority, nat>, p: Priority): nat {
    if p in dropped then dropped[p] else 0
  }

  ghost predicate CountsDrops<T>(dropped: map<Priority, nat>, refused: seq<Entry<T>>, shed: seq<Entry<T>>) {
    forall p: Priority :: DropCount(dropped, p) == |Only(refused, p)| + |Only(shed, p)|
  }

  /** The counters are the sizes of the parts of the ledger. */
  ghost predicate Counts<T>(stats: QueueStats, q: Ledger<T>) {
    && stats.capacity == q.capacity
    && stats.depth == |q.live|
    && stats.accepted == |q.accepted|
    && CountsDrops(stats.dropped, q.refused, q.shed)
  }

  lemma RepresentsEnqueue<T>(queues: map<Priority, seq<T>>, live: seq<Entry<T>>, e: Entry<T>)
    requires Represents(queues, live)
    ensures Represents(queues[e.priority := Level(queues, e.priority) + [e.value]], live + [e])
  {
    forall p: Priority
      ensures Level(queues[e.priority := Level(queues, e.priority) + [e.value]], p) == Only(live + [e], p)
    {
      OnlySnoc(live, e, p);
    }
  }

  lemma FirstOfLevel<T>(queues: map<Priority, seq<T>>, live: seq<Entry<T>>, p: Priority)
    requires Represents(queues, live)
    ensures Level(queues, p) != [] <==> FirstOf(live, p) < |live|
  {
    OnlyEmpty(live, p);
    assert Level(queues, p) == Only(live, p);
  }

  /** `pop_front` on one level is removal of the oldest live record of that priority. */
  lemma RepresentsTake<T>(queues: map<Priority, seq<T>>, live: seq<Entry<T>>, i: nat, rest: seq<Entry<T>>)
    requires Represents(queues, live)
    requires i < |live| && rest == RemoveAt(live, i)
    requires forall j :: 0 <= j < i ==> live[j].priority != live[i].priority
    ensures Level(queues, live[i].priority) == [live[i].value] + Only(rest, live[i].priority)
    ensures Represents(queues[live[i].priority := Level(queues, live[i].priority)[1..]], rest)
  {
    var p, v := live[i].priority, live[i].value;
    forall x: Priority
      ensures Level(queues, x) == (if x == p then [v] else []) + Only(rest, x)
    {
      OnlyRemove(live, i, x);
    }
    RepresentsTail(queues, p, v, rest);
  }

  lemma RepresentsTail<T>(queues: map<Priority, seq<T>>, p: Priority, v: T, rest: seq<Entry<T>>)
    requires forall x: Priority :: Level(queues, x) == (if x == p then [v] else []) + Only(rest, x)
    ensures Represents(queues[p := Level(queues, p)[1..]], rest)
  {
    forall x: Priority ensures Level(queues[p := Level(queues, p)[1..]], x) == Only(rest, x) {
      assert Level(queues, x) == (if x == p then [v] else []) + Only(rest, x);
    }
  }

  lemma CountsRefusal<T>(dropped: map<Priority, nat>, refused: seq<Entry<T>>, shed: seq<Entry<T>>, e: Entry<T>)
    requires CountsDrops(dropped, refused, shed)
    ensures CountsDrops(dropped[e.priority := DropCount(dropped, e.priority) + 1], refused + [e], shed)
    ensures CountsDrops(dropped[e.priority := DropCount(dropped, e.priority) + 1], refused, shed + [e])
  {
    hide Only;
    forall p: Priority
      ensures |Only(refused + [e], p)| == |Only(refused, p)| + if e.priority == p then 1 else 0
      ensures |Only(shed + [e], p)| == |Only(shed, p)| + if e.priority == p then 1 else 0
    {
      OnlySnoc(refused, e, p);
      OnlySnoc(shed, e, p);
    }
  }

  /** Scanning the levels from the top finds the same record as the arrival-order reference. */
  lemma NextOutOf<T>(s: seq<Entry<T>>, p: Priority)
    requires FirstOf(s, p) < |s|
    requires forall j :: 0 <= j < |s| ==> Rank(s[j].priority) <= Rank(p)
    ensures NextOut(s) == FirstOf(s, p)
  {
    var i, k := NextOut(s), FirstOf(s, p);
    assert Rank(s[k].priority) <= Rank(s[i].priority);
  }

  class BoundedPriorityQueue<T> {
    var queues: map<Priority, seq<T>>
    var stats: QueueStats
    ghost var ledger: Ledger<T>

    ghost predicate Valid()
      reads this
    {
      Represents(queues, ledger.live) && Counts(stats, ledger)
    }

    constructor (capacity: nat)
      ensures Valid()
      ensures ledger == EmptyLedger(capacity)
    {
      queues := map[];
      stats := QueueStats(capacity, 0, 0, map[]);
      ledger := EmptyLedger(capacity);
    }

    method Push(priority: Priority, value: T) returns (outcome: PushOutcome)
      requires Valid()
      modifies this
      ensures Valid()
      ensures (ledger, outcome) == PushSpec(old(ledger), Entry(priority, value))
    {
      if stats.depth < stats.capacity {
        EnqueueBack(priority, value);
        return Accepted;
      }
      if priority != Ordinary {
        var shed := ShedOldestOrdinary();
        if shed {
          EnqueueBack(priority, value);
          return AcceptedAfterShedding(Ordinary);
        }
      }
      CountRefused(priority, value);
      return Dropped(priority);
    }

    method CountRefused(priority: Priority, ghost value: T)
      requires Valid()
      modifies this`stats, this`ledger
      ensures Valid()
      ensures ledger == old(ledger).(refused := old(ledger).refused + [Entry(priority, value)])
    {
      CountsRefusal(stats.dropped, ledger.refused, ledger.shed, Entry(priority, value));
      stats := stats.(dropped := stats.dropped[priority := DropCount(stats.dropped, priority) + 1]);
      ledger := ledger.(refused := ledger.refused + [Entry(priority, value)]);
    }

    method Pop() returns (r: Option<T>)
      requires Valid()
      modifies this
      ensures Valid()
      ensures ledger == PopSpec(old(ledger)).0
      ensures r.Some? <==> PopSpec(old(ledger)).1.Some?
      ensures r.Some? ==> r.value == PopSpec(old(ledger)).1.value.value
    {
      var order := [Integrity, Finding, Diagnostic, Lifecycle, Ordinary];
      for k := 0 to |order|
        invariant unchanged(this)
        invariant forall j :: 0 <= j < |ledger.live| ==> Rank(ledger.live[j].priority) < 5 - k
      {
        var p := order[k];
        FirstOfLevel(queues, ledger.live, p);
        if Level(queues, p) != [] {
          NextOutOf(ledger.live, p);
          var value := PopFront(p);
          return Some(value);
        }
      }
      r := None;
    }

    method PopFront(p: Priority) returns (value: T)
      requires Valid()
      requires FirstOf(ledger.live, p) < |ledger.live|
      modifies this
      ensures Valid()
      ensures ledger == Take(old(ledger), FirstOf(old(ledger).live, p))
      ensures value == old(ledger).live[FirstOf(old(ledger).live, p)].value
    {
      ghost var i := FirstOf(ledger.live, p);
      RepresentsTake(queues, ledger.live, i, RemoveAt(ledger.live, i));
      value := Level(queues, p)[0];
      queues := queues[p := Level(queues, p)[1..]];
      stats := stats.(depth := stats.depth - 1);
      ledger := Take(ledger, i);
    }

    method EnqueueBack(priority: Priority, value: T)
      requires Valid()
      modifies this
      ensures Valid()
      ensures ledger == Enqueue(old(ledger), Entry(priority, value))
    {
      RepresentsEnqueue(queues, ledger.live, Entry(priority, value));
      queues := queues[priority := Level(queues, priority) + [value]];
      stats := stats.(depth := stats.depth + 1, accepted := stats.accepted + 1);
      ledger := Enqueue(ledger, Entry(priority, value));
    }

    /** Evicts the front of the Ordinary level, and counts the drop that the caller records for it. */
    method ShedOldestOrdinary() returns (dropped: bool)
      requires Valid()
      modifies this
      ensures Valid()
      ensures dropped <==> FirstOf(old(ledger).live, Ordinary) < |old(ledger).live|
      ensures ledger == if dropped then Evict(old(ledger), FirstOf(old(ledger).live, Ordinary)) else old(ledger)
    {
      FirstOfLevel(queues, ledger.live, Ordinary);
      dropped := Level(queues, Ordinary) != [];
      if dropped {
        ghost var i := FirstOf(ledger.live, Ordinary);
        RepresentsTake(queues, ledger.live, i, RemoveAt(ledger.live, i));
        CountsRefusal(stats.dropped, ledger.refused, ledger.shed, ledger.live[i]);
        queues := queues[Ordinary := Level(queues, Ordinary)[1..]];
        stats := stats.(depth := stats.depth - 1,
                        dropped := stats.dropped[Ordinary := DropCount(stats.dropped, Ordinary) + 1]);
        ledger := Evict(ledger, i);
      }
    }
  }

  // ---------------------------------------------------------------- whole runs

  datatype Op<T> = Push(entry: Entry<T>) | Pop

  function Apply<T>(q: Ledger<T>, op: Op<T>): Ledger<T> {
    match op
    case Push(e) => PushSpec(q, e).0
    case Pop => PopSpec(q).0
  }

  function Run<T>(capacity: nat, ops: seq<Op<T>>): Ledger<T> {
    if ops == [] then EmptyLedger(capacity)
    else Apply(Run(capacity, ops[..|ops| - 1]), ops[|ops| - 1])
  }

  function Pushes<T>(ops: seq<Op<T>>): nat {
    if ops == [] then 0
    else Pushes(ops[..|ops| - 1]) + (if ops[|ops| - 1].Push? then 1 else 0)
  }

  /** Per priority, the accepted records are the ones that left, in acceptance order, then the ones still queued. */
  ghost predicate Fifo<T>(accepted: seq<Entry<T>>, departed: seq<Entry<T>>, live: seq<Entry<T>>) {
    forall p: Priority :: Only(accepted, p) == Only(departed, p) + Only(live, p)
  }

  /** What left above Ordinary priority was popped, in the same order. */
  ghost predicate ProtectedPopped<T>(departed: seq<Entry<T>>, popped: seq<Entry<T>>) {
    forall p: Priority :: p != Ordinary ==> Only(departed, p) == Only(popped, p)
  }

  /** What holds of the queue after any number of operations. */
  ghost predicate Sound<T>(q: Ledger<T>) {
    && |q.live| <= q.capacity
    && Fifo(q.accepted, q.departed, q.live)
    && ProtectedPopped(q.departed, q.popped)
    && (forall j :: 0 <= j < |q.shed| ==> q.shed[j].priority == Ordinary)
    && |q.departed| == |q.popped| + |q.shed|
    && |q.accepted| == |q.departed| + |q.live|
  }

  lemma FifoEnqueue<T>(accepted: seq<Entry<T>>, departed: seq<Entry<T>>, live: seq<Entry<T>>, e: Entry<T>)
    requires Fifo(accepted, departed, live)
    ensures Fifo(accepted + [e], departed, live + [e])
  {
    forall p: Priority ensures Only(accepted + [e], p) == Only(departed, p) + Only(live + [e], p) {
      OnlySnoc(accepted, e, p);
      OnlySnoc(live, e, p);
    }
  }

  lemma FifoDepart<T>(accepted: seq<Entry<T>>, departed: seq<Entry<T>>, live: seq<Entry<T>>, i: nat)
    requires Fifo(accepted, departed, live)
    requires i < |live| && forall j :: 0 <= j < i ==> live[j].priority != live[i].priority
    ensures Fifo(accepted, departed + [live[i]], RemoveAt(live, i))
  {
    hide RemoveAt, Only;
    forall p: Priority
      ensures Only(accepted, p) == Only(departed + [live[i]], p) + Only(RemoveAt(live, i), p)
    {
      assert Only(accepted, p) == Only(departed, p) + Only(live, p);
      OnlyRemove(live, i, p);
      OnlySnoc(departed, live[i], p);
      MovedOver(Only(departed, p), if live[i].priority == p then [live[i].value] else [], Only(RemoveAt(live, i), p));
    }
  }

  lemma MovedOver<T>(a: seq<T>, b: seq<T>, c: seq<T>)
    ensures a + (b + c) == (a + b) + c
    ensures b == [] ==> a + b == a
  {
  }

  lemma ProtectedDepart<T>(departed: seq<Entry<T>>, popped: seq<Entry<T>>, e: Entry<T>)
    requires ProtectedPopped(departed, popped)
    ensures ProtectedPopped(departed + [e], popped + [e])
    ensures e.priority == Ordinary ==> ProtectedPopped(departed + [e], popped)
  {
    forall p: Priority | p != Ordinary
      ensures Only(departed + [e], p) == Only(popped + [e], p)
      ensures e.priority == Ordinary ==> Only(departed + [e], p) == Only(popped, p)
    {
      OnlySnoc(departed, e, p);
      OnlySnoc(popped, e, p);
    }
  }

  lemma PushKeepsSound<T>(q: Ledger<T>, e: Entry<T>)
    requires Sound(q)
    ensures Sound(PushSpec(q, e).0)
  {
    if |q.live| < q.capacity {
      FifoEnqueue(q.accepted, q.departed, q.live, e);
    } else {
      var i := FirstOf(q.live, Ordinary);
      if e.priority != Ordinary && i < |q.live| {
        FifoDepart(q.accepted, q.departed, q.live, i);
        ProtectedDepart(q.departed, q.popped, q.live[i]);
        FifoEnqueue(q.accepted, q.departed + [q.live[i]], RemoveAt(q.live, i), e);
      }
    }
  }

  lemma PopKeepsSound<T>(q: Ledger<T>)
    requires Sound(q)
    ensures Sound(PopSpec(q).0)
  {
    if q.live != [] {
      var i := NextOut(q.live);
      FifoDepart(q.accepted, q.departed, q.live, i);
      ProtectedDepart(q.departed, q.popped, q.live[i]);
    }
  }

  /** Conservation and order over every run: pushes = pops + depth + sheds + refusals; per priority the accepted
      records leave in acceptance order and the rest is still queued; only ordinary records are ever shed. */
  lemma {:induction false} RunIsSound<T>(capacity: nat, ops: seq<Op<T>>)
    ensures Sound(Run(capacity, ops))
    ensures Run(capacity, ops).capacity == capacity
    ensures var q := Run(capacity, ops); Pushes(ops) == |q.popped| + |q.live| + |q.shed| + |q.refused|
    decreases |ops|
  {
    if ops != [] {
      var before := ops[..|ops| - 1];
      RunIsSound(capacity, before);
      var q := Run(capacity, before);
      match ops[|ops| - 1]
      case Push(e) => PushKeepsSound(q, e);
      case Pop => PopKeepsSound(q);
    }
  }

  /** A record above Ordinary that was accepted leaves only by a pop, in acceptance order. */
  lemma ProtectedLeaveOnlyByPop<T>(capacity: nat, ops: seq<Op<T>>, p: Priority)
    requires p != Ordinary
    ensures var q := Run(capacity, ops); Only(q.accepted, p) == Only(q.popped, p) + Only(q.live, p)
  {
    RunIsSound(capacity, ops);
  }

  /** A record above Ordinary is refused exactly when the queue is full of records above Ordinary. */
  lemma ProtectedRefusedOnlyWhenFull<T>(capacity: nat, ops: seq<Op<T>>, e: Entry<T>)
    requires e.priority != Ordinary
    ensures var q := Run(capacity, ops);
      PushSpec(q, e).1.Dropped? <==> |q.live| == capacity && Only(q.live, Ordinary) == []
  {
    RunIsSound(capacity, ops);
    OnlyEmpty(Run(capacity, ops).live, Ordinary);
  }

  /** What a push does, exactly, after any run and for an entry of any priority: it is accepted if and only if there is
      room; when there is none, an entry above Ordinary takes the place of the oldest Ordinary record if there is one,
      and anything else is refused and changes nothing but the list of refusals. */
  lemma PushExactly<T>(capacity: nat, ops: seq<Op<T>>, e: Entry<T>)
    ensures var q := Run(capacity, ops); var (after, outcome) := PushSpec(q, e);
      && (outcome == Accepted <==> |q.live| < capacity)
      && (outcome == AcceptedAfterShedding(Ordinary) <==>
            |q.live| == capacity && e.priority != Ordinary && Only(q.live, Ordinary) != [])
      && (outcome == Dropped(e.priority) <==>
            |q.live| == capacity && (e.priority == Ordinary || Only(q.live, Ordinary) == []))
      && (outcome == Accepted ==> after == q.(live := q.live + [e], accepted := q.accepted + [e]))
      && (outcome.Dropped? ==> after == q.(refused := q.refused + [e]))
      && (outcome.AcceptedAfterShedding? ==> ShedOldest(q, after, e))
  {
    RunIsSound(capacity, ops);
    OnlyEmpty(Run(capacity, ops).live, Ordinary);
  }

  /** The oldest Ordinary record made room for the entry: it is the first of its priority, and no other record moved. */
  ghost predicate ShedOldest<T>(q: Ledger<T>, after: Ledger<T>, e: Entry<T>) {
    exists i :: 0 <= i < |q.live| && q.live[i].priority == Ordinary
      && (forall j :: 0 <= j < i ==> q.live[j].priority != Ordinary)
      && after == q.(live := q.live[..i] + q.live[i + 1..] + [e], accepted := q.accepted + [e],
                     shed := q.shed + [q.live[i]], departed := q.departed + [q.live[i]])
  }

  /** So pushing an Ordinary entry never removes a queued record. */
  lemma OrdinaryPushRemovesNothing<T>(capacity: nat, ops: seq<Op<T>>, e: Entry<T>)
    requires e.priority == Ordinary
    ensures var q := Run(capacity, ops); var after := PushSpec(q, e).0;
      q.live <= after.live && after.shed == q.shed && after.popped == q.popped
  {
    RunIsSound(capacity, ops);
  }

  /** The level a pop serves: the first that is not empty, Integrity before Finding before Diagnostic before Lifecycle
      before Ordinary. */
  function TopLevel<T>(live: seq<Entry<T>>): Priority {
    if Only(live, Integrity) != [] then Integrity
    else if Only(live, Finding) != [] then Finding
    else if Only(live, Diagnostic) != [] then Diagnostic
    else if Only(live, Lifecycle) != [] then Lifecycle
    else Ordinary
  }

  /** What a pop does, exactly: nothing is handed out if and only if nothing is queued; otherwise it is the oldest
      record of the top level, and the rest stays in order. */
  lemma PopExactly<T>(q: Ledger<T>)
    ensures var (after, got) := PopSpec(q); var p := TopLevel(q.live);
      && (got.None? <==> q.live == [])
      && (got.None? ==> after == q)
      && (got.Some? ==>
            && Only(q.live, p) != [] && got == Some(Entry(p, Only(q.live, p)[0]))
            && Only(after.live, p) == Only(q.live, p)[1..]
            && (forall x: Priority :: x != p ==> Only(after.live, x) == Only(q.live, x))
            && after == q.(live := after.live, popped := q.popped + [got.value], departed := q.departed + [got.value]))
  {
    if q.live != [] {
      var i := NextOut(q.live);
      TopIsNext(q.live);
      forall x: Priority
        ensures Only(q.live, x) ==
          (if q.live[i].priority == x then [q.live[i].value] else []) + Only(RemoveAt(q.live, i), x)
      {
        OnlyRemove(q.live, i, x);
      }
    }
  }

  lemma TopIsNext<T>(live: seq<Entry<T>>)
    requires live != []
    ensures live[NextOut(live)].priority == TopLevel(live)
  {
    var i := NextOut(live);
    forall p: Priority ensures Only(live, p) == [] <==> forall j :: 0 <= j < |live| ==> live[j].priority != p {
      OnlyEmpty(live, p);
    }
    hide Only;
  }
}
