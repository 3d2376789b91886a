/** Process trees: the scope closure of crates/apolysis-observer/src/live.rs and the parent walks and kill order of
    crates/apolysis-runtime/src/lib.rs, on a frozen process table. */
module ProcessTree {
  import opened Common

  /** What the proc file system shows: threads of a process, children of a thread, and the (pid, parent) pairs found
      when its top directory can be listed. What cannot be read of a process shows as nothing. */
  datatype Proc = Proc(
    tasks: map<nat, seq<nat>>,
    children: map<(nat, nat), seq<nat>>,
    listable: bool,
    parents: seq<(nat, nat)>)

  datatype ScopeError = ZeroRoot | ProcUnreadable

  function Tasks(p: Proc, pid: nat): seq<nat> {
    if pid in p.tasks then p.tasks[pid] else []
  }

  function Children(p: Proc, pid: nat, tid: nat): seq<nat> {
    if (pid, tid) in p.children then p.children[(pid, tid)] else []
  }

  // ---------------------------------------------------------------- the closure

  ghost predicate ClosedAt(p: Proc, s: set<nat>, pid: nat) {
    pid in p.tasks ==> forall tid :: tid in p.tasks[pid] ==>
      tid in s && ((pid, tid) in p.children ==> forall child :: child in p.children[(pid, tid)] ==> child in s)
  }

  /** Closed under threads, children of threads, and parent links. */
  ghost predicate Closed(p: Proc, s: set<nat>) {
    && (forall pid :: pid in s ==> ClosedAt(p, s, pid))
    && (forall k :: 0 <= k < |p.parents| && p.parents[k].1 in s ==> p.parents[k].0 in s)
  }

  ghost predicate InEveryClosure(p: Proc, root: nat, s: set<nat>) {
    forall t :: root in t && Closed(p, t) ==> s <= t
  }

  /** Every pid the tables mention. */
  ghost function Universe(p: Proc, root: nat): set<nat> {
    {root}
    + (set pid, tid | pid in p.tasks && tid in p.tasks[pid] :: tid)
    + (set key, child | key in p.children && child in p.children[key] :: child)
    + (set k | 0 <= k < |p.parents| :: p.parents[k].0)
  }

  /** `discover_process_tree_scope_pids`: an error for pid 0 or when the pairs cannot be read, otherwise the least
      closed set containing the root. */
  method DiscoverScopePids(p: Proc, root: nat) returns (r: Result<set<nat>, ScopeError>)
    ensures r.Err? <==> root == 0 || !p.listable
    ensures r.Err? ==> r.error == if root == 0 then ZeroRoot else ProcUnreadable
    ensures r.Ok? ==> root in r.value && Closed(p, r.value) && InEveryClosure(p, root, r.value)
  {
    if root == 0 {
      return Err(ZeroRoot);
    }
    var pids := {root};
    var changed := true;
    while changed
      invariant root in pids && pids <= Universe(p, root) && InEveryClosure(p, root, pids)
      invariant changed || p.listable
      invariant !changed ==> Closed(p, pids)
      decreases Universe(p, root) - pids, if changed then 1 else 0
    {
      ghost var before := pids;
      changed := false;
      pids, changed := AddTasks(p, root, pids);
      if !p.listable {
        return Err(ProcUnreadable);
      }
      pids, changed := AddByParent(p, root, pids, changed, before);
      if !changed {
        assert pids == before;
      } else {
        assert Universe(p, root) - pids < Universe(p, root) - before by {
          var x :| x in pids && x !in before;
          assert x in Universe(p, root) - before;
        }
      }
    }
    return Ok(pids);
  }

  /** `pids` grew from `start` by pids that every closure must contain. */
  ghost predicate Grown(p: Proc, root: nat, start: set<nat>, pids: set<nat>) {
    start <= pids <= Universe(p, root) && InEveryClosure(p, root, pids)
  }

  /** The pass over a snapshot of the set: every thread and every child of every thread. */
  method AddTasks(p: Proc, root: nat, start: set<nat>) returns (pids: set<nat>, changed: bool)
    requires Grown(p, root, start, start)
    ensures Grown(p, root, start, pids)
    ensures changed <==> pids != start
    ensures !changed ==> forall pid :: pid in pids ==> ClosedAt(p, pids, pid)
  {
    pids, changed := start, false;
    var rest := start;
    while rest != {}
      invariant rest <= start && Grown(p, root, start, pids)
      invariant changed <==> pids != start
      invariant forall pid :: pid in start && pid !in rest ==> ClosedAt(p, pids, pid)
      decreases rest
    {
      hide Grown, ClosedAt;
      var pid :| pid in rest;
      rest := rest - {pid};
      var more := AddTasksOf(p, root, start, pids, pid);
      forall q | q in start && q !in rest && q != pid ensures ClosedAt(p, more, q) { ClosedAtGrows(p, pids, more, q); }
      changed := changed || more != pids;
      pids := more;
    }
  }

  method AddTasksOf(p: Proc, root: nat, ghost start: set<nat>, before: set<nat>, pid: nat) returns (pids: set<nat>)
    requires Grown(p, root, start, before) && pid in before
    ensures Grown(p, root, start, pids) && before <= pids && ClosedAt(p, pids, pid)
  {
    hide Grown;
    pids := before;
    var tasks := Tasks(p, pid);
    for k := 0 to |tasks|
      invariant Grown(p, root, start, pids) && before <= pids
      invariant forall j :: 0 <= j < k ==> ThreadIn(p, pids, pid, tasks[j])
    {
      hide ThreadIn;
      var more := AddThread(p, root, start, pids, pid, tasks[k]);
      forall j | 0 <= j < k ensures ThreadIn(p, more, pid, tasks[j]) { ThreadInGrows(p, pids, more, pid, tasks[j]); }
      pids := more;
    }
  }

  lemma ThreadInGrows(p: Proc, s: set<nat>, t: set<nat>, pid: nat, tid: nat)
    requires ThreadIn(p, s, pid, tid) && s <= t
    ensures ThreadIn(p, t, pid, tid)
  {
  }

  ghost predicate ThreadIn(p: Proc, s: set<nat>, pid: nat, tid: nat) {
    tid in s && forall child :: child in Children(p, pid, tid) ==> child in s
  }

  method AddThread(p: Proc, root: nat, ghost start: set<nat>, before: set<nat>, pid: nat, tid: nat)
    returns (pids: set<nat>)
    requires Grown(p, root, start, before) && pid in before && tid in Tasks(p, pid)
    ensures Grown(p, root, start, pids) && before <= pids && ThreadIn(p, pids, pid, tid)
  {
    hide Grown;
    TaskForced(p, root, start, before, pid, tid);
    pids := before + {tid};
    var children := Children(p, pid, tid);
    for m := 0 to |children|
      invariant Grown(p, root, start, pids) && before <= pids && tid in pids
      invariant forall i :: 0 <= i < m ==> children[i] in pids
    {
      ChildForced(p, root, start, pids, pid, tid, children[m]);
      pids := pids + {children[m]};
    }
  }

  lemma ClosedAtGrows(p: Proc, s: set<nat>, t: set<nat>, pid: nat)
    requires ClosedAt(p, s, pid) && s <= t
    ensures ClosedAt(p, t, pid)
  {
  }

  /** The pass over the parent pairs, which sees what it adds itself. */
  method AddByParent(p: Proc, root: nat, start: set<nat>, changedSoFar: bool, ghost before: set<nat>)
    returns (pids: set<nat>, changed: bool)
    requires Grown(p, root, start, start)
    requires before <= start && (changedSoFar <==> start != before)
    ensures Grown(p, root, start, pids)
    ensures changed <==> pids != before
    ensures !changed ==> forall k :: 0 <= k < |p.parents| && p.parents[k].1 in pids ==> p.parents[k].0 in pids
  {
    pids, changed := start, changedSoFar;
    for k := 0 to |p.parents|
      invariant Grown(p, root, start, pids)
      invariant changed <==> pids != before
      invariant !changed ==> forall j :: 0 <= j < k && p.parents[j].1 in pids ==> p.parents[j].0 in pids
    {
      var (pid, ppid) := p.parents[k];
      if ppid in pids {
        ParentForced(p, root, start, pids, k);
        changed := changed || pid !in pids;
        pids := pids + {pid};
      }
    }
  }

  lemma TaskForced(p: Proc, root: nat, start: set<nat>, pids: set<nat>, pid: nat, tid: nat)
    requires Grown(p, root, start, pids) && pid in pids && tid in Tasks(p, pid)
    ensures Grown(p, root, start, pids + {tid})
  {
    forall t | root in t && Closed(p, t) ensures pids + {tid} <= t {
      assert pid in t && ClosedAt(p, t, pid);
    }
  }

  lemma ChildForced(p: Proc, root: nat, start: set<nat>, pids: set<nat>, pid: nat, tid: nat, child: nat)
    requires Grown(p, root, start, pids) && pid in pids && tid in Tasks(p, pid) && child in Children(p, pid, tid)
    ensures Grown(p, root, start, pids + {child})
  {
    forall t | root in t && Closed(p, t) ensures pids + {child} <= t {
      assert pid in t && ClosedAt(p, t, pid);
    }
  }

  lemma ParentForced(p: Proc, root: nat, start: set<nat>, pids: set<nat>, k: nat)
    requires k < |p.parents| && p.parents[k].1 in pids && Grown(p, root, start, pids)
    ensures Grown(p, root, start, pids + {p.parents[k].0})
  {
    forall t | root in t && Closed(p, t) ensures pids + {p.parents[k].0} <= t {
      assert p.parents[k].1 in t;
    }
  }
}
