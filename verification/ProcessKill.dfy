/** Parent walks and the kill order of crates/apolysis-runtime/src/lib.rs on a table from pid to parent pid, and their
    agreement with the scope closure. */
module ProcessKill {
  import opened Common
  import opened ProcessTree

  type Table = map<nat, nat>

  /** The pid reached after following `k` parent links, as long as the table knows each pid on the way. */
  function Ancestor(t: Table, pid: nat, k: nat): Option<nat> {
    if k == 0 then Some(pid)
    else
      var a := Ancestor(t, pid, k - 1);
      if a.None? || a.value !in t then None else Some(t[a.value])
  }

  /** `root` is a proper ancestor of `pid`. */
  ghost predicate Descends(t: Table, pid: nat, root: nat) {
    exists k: nat :: k >= 1 && Ancestor(t, pid, k) == Some(root)
  }

  lemma {:induction false} AncestorAdds(t: Table, pid: nat, a: nat, b: nat)
    ensures Ancestor(t, pid, a + b)
         == if Ancestor(t, pid, a).Some? then Ancestor(t, Ancestor(t, pid, a).value, b) else None
    decreases b
  {
    if b > 0 { AncestorAdds(t, pid, a, b - 1); }
  }

  /** The walk has come `n` steps without meeting the root, through `visited`. */
  ghost predicate Walked(t: Table, pid: nat, root: nat, n: nat, current: nat, visited: set<nat>) {
    && Ancestor(t, pid, n) == Some(current)
    && (forall j :: 1 <= j <= n ==> Ancestor(t, pid, j) != Some(root) && Ancestor(t, pid, j) != Some(0))
    && visited <= t.Keys
    && (forall v :: v in visited ==> exists j: nat :: j < n && Ancestor(t, pid, j) == Some(v))
  }

  lemma WalkedStep(t: Table, pid: nat, root: nat, n: nat, current: nat, visited: set<nat>)
    requires Walked(t, pid, root, n, current, visited) && current in t && t[current] != root && t[current] != 0
    ensures Walked(t, pid, root, n + 1, t[current], visited + {current})
  {
    assert Ancestor(t, pid, n + 1) == Some(t[current]);
    forall v | v in visited + {current} ensures exists j: nat :: j < n + 1 && Ancestor(t, pid, j) == Some(v) {
      if v in visited {
        var j: nat :| j < n && Ancestor(t, pid, j) == Some(v);
        assert j < n + 1;
      } else {
        assert n < n + 1 && Ancestor(t, pid, n) == Some(v);
      }
    }
  }

  /** A walk that left the table never meets the root. */
  lemma LeftTable(t: Table, pid: nat, root: nat, n: nat, current: nat, visited: set<nat>)
    requires Walked(t, pid, root, n, current, visited) && current !in t
    ensures !Reaches(t, pid, root)
  {
    forall k: nat | k >= 1 ensures Ancestor(t, pid, k) != Some(root) {
      if k > n {
        AncestorAdds(t, pid, n + 1, k - (n + 1));
        assert Ancestor(t, pid, n + 1) == None;
      }
    }
  }

  /** A walk that came back to where it was goes round for ever without meeting the root. */
  lemma {:induction false} RoundForEver(t: Table, pid: nat, root: nat, m: nat, n: nat, k: nat)
    requires m < n && Ancestor(t, pid, m) == Ancestor(t, pid, n) && Ancestor(t, pid, n).Some?
    requires forall j :: 1 <= j <= n ==> Ancestor(t, pid, j) != Some(root)
    requires k >= 1
    ensures Ancestor(t, pid, k) != Some(root)
    decreases k
  {
    if k > n {
      AncestorAdds(t, pid, n, k - n);
      AncestorAdds(t, pid, m, k - n);
      RoundForEver(t, pid, root, m, n, k - (n - m));
    }
  }

  lemma CameBack(t: Table, pid: nat, root: nat, n: nat, current: nat, visited: set<nat>)
    requires Walked(t, pid, root, n, current, visited) && current in visited
    ensures !Reaches(t, pid, root)
  {
    var m: nat :| m < n && Ancestor(t, pid, m) == Some(current);
    forall k: nat | k >= 1 ensures Ancestor(t, pid, k) != Some(root) {
      RoundForEver(t, pid, root, m, n, k);
    }
  }

  /** A walk that comes to pid 0 is over. */
  lemma CameToZero(t: Table, pid: nat, root: nat, n: nat, current: nat, visited: set<nat>)
    requires Walked(t, pid, root, n, current, visited) && current in t && t[current] == 0 && root != 0
    ensures !Reaches(t, pid, root)
  {
    assert Ancestor(t, pid, n + 1) == Some(0);
    forall d: nat ensures !DepthIs(t, pid, root, d) {}
  }

  /** `is_descendant_of`: terminates on any table, cyclic ones included, and is exact. */
  method IsDescendantOf(t: Table, pid: nat, root: nat) returns (r: bool)
    ensures r <==> Reaches(t, pid, root)
  {
    var current := pid;
    var visited: set<nat> := {};
    ghost var n: nat := 0;
    while current in t
      invariant Walked(t, pid, root, n, current, visited)
      decreases t.Keys - visited
    {
      hide Walked;
      var ppid := t[current];
      if ppid == root {
        FoundAt(t, pid, root, n, current, visited);
        return true;
      }
      if ppid == 0 || current in visited {
        if ppid == 0 {
          CameToZero(t, pid, root, n, current, visited);
        } else {
          CameBack(t, pid, root, n, current, visited);
        }
        return false;
      }
      WalkedStep(t, pid, root, n, current, visited);
      visited := visited + {current};
      current := ppid;
      n := n + 1;
    }
    LeftTable(t, pid, root, n, current, visited);
    return false;
  }

  lemma FoundAt(t: Table, pid: nat, root: nat, n: nat, current: nat, visited: set<nat>)
    requires Walked(t, pid, root, n, current, visited) && current in t && t[current] == root
    ensures Reaches(t, pid, root) && DepthIs(t, pid, root, n + 1)
  {
    assert Ancestor(t, pid, n + 1) == Some(root);
    assert DepthIs(t, pid, root, n + 1);
  }

  /** `d` is the number of parent links from `pid` to the first meeting with `root`, and pid 0 was not passed before. */
  ghost predicate DepthIs(t: Table, pid: nat, root: nat, d: nat) {
    && d >= 1 && Ancestor(t, pid, d) == Some(root)
    && forall j :: 1 <= j < d ==> Ancestor(t, pid, j) != Some(root) && Ancestor(t, pid, j) != Some(0)
  }

  /** The walk up from `pid` meets `root` before it comes to pid 0. */
  ghost predicate Reaches(t: Table, pid: nat, root: nat) {
    exists d: nat :: DepthIs(t, pid, root, d)
  }

  /** When pid 0 is no process of the table, that is to be a descendant. */
  lemma ReachesIsDescends(t: Table, pid: nat, root: nat)
    requires 0 !in t
    ensures Reaches(t, pid, root) <==> Descends(t, pid, root)
  {
    if Descends(t, pid, root) {
      var k: nat :| k >= 1 && Ancestor(t, pid, k) == Some(root);
      var d := FirstMeeting(t, pid, root, k);
      assert DepthIs(t, pid, root, d);
    }
    if d: nat :| DepthIs(t, pid, root, d) { assert Ancestor(t, pid, d) == Some(root); }
  }

  lemma {:induction false} FirstMeeting(t: Table, pid: nat, root: nat, k: nat) returns (d: nat)
    requires 0 !in t && k >= 1 && Ancestor(t, pid, k) == Some(root)
    ensures DepthIs(t, pid, root, d)
    decreases k
  {
    if j: nat :| 1 <= j < k && Ancestor(t, pid, j) == Some(root) {
      d := FirstMeeting(t, pid, root, j);
    } else {
      d := k;
      forall j | 1 <= j < k ensures Ancestor(t, pid, j) != Some(0) {
        AncestorAdds(t, pid, j, 1);
        AncestorAdds(t, pid, j + 1, k - (j + 1));
        assert Ancestor(t, 0, 0) == Some(0) && Ancestor(t, 0, 1) == None;
      }
    }
  }

  /** `depth_from_root`. */
  method DepthFromRoot(t: Table, pid: nat, root: nat) returns (r: Option<nat>)
    ensures r.Some? ==> DepthIs(t, pid, root, r.value)
    ensures r.Some? <==> Reaches(t, pid, root)
  {
    var depth: nat := 0;
    var current := pid;
    var visited: set<nat> := {};
    while current in t
      invariant Walked(t, pid, root, depth, current, visited)
      decreases t.Keys - visited
    {
      hide Walked, DepthIs;
      depth := depth + 1;
      var ppid := t[current];
      if ppid == root {
        FoundAt(t, pid, root, depth - 1, current, visited);
        return Some(depth);
      }
      if ppid == 0 || current in visited {
        if ppid == 0 {
          CameToZero(t, pid, root, depth - 1, current, visited);
        } else {
          CameBack(t, pid, root, depth - 1, current, visited);
        }
        return None;
      }
      WalkedStep(t, pid, root, depth - 1, current, visited);
      visited := visited + {current};
      current := ppid;
    }
    LeftTable(t, pid, root, depth, current, visited);
    return None;
  }

  // ---------------------------------------------------------------- the closure by parent links

  /** A proc file system that shows parent links only, those of the table. */
  ghost predicate ShowsOnly(p: Proc, t: Table) {
    && p.tasks == map[] && p.children == map[]
    && (forall k :: 0 <= k < |p.parents| ==> p.parents[k].0 in t && t[p.parents[k].0] == p.parents[k].1)
    && (forall pid :: pid in t ==> (pid, t[pid]) in p.parents)
  }

  ghost function Family(t: Table, root: nat): set<nat> {
    {root} + set pid | pid in t && Descends(t, pid, root)
  }

  lemma FamilyClosed(p: Proc, t: Table, root: nat)
    requires ShowsOnly(p, t)
    ensures Closed(p, Family(t, root))
  {
    hide Descends;
    forall k | 0 <= k < |p.parents| && p.parents[k].1 in Family(t, root) ensures p.parents[k].0 in Family(t, root) {
      ChildDescends(t, p.parents[k].0, root);
    }
  }

  lemma ChildDescends(t: Table, pid: nat, root: nat)
    requires pid in t && (t[pid] == root || Descends(t, t[pid], root))
    ensures Descends(t, pid, root)
  {
    assert Ancestor(t, pid, 0) == Some(pid) && Ancestor(t, pid, 1) == Some(t[pid]);
    if t[pid] != root {
      var j: nat :| j >= 1 && Ancestor(t, t[pid], j) == Some(root);
      AncestorAdds(t, pid, 1, j);
      assert Ancestor(t, pid, 1 + j) == Some(root);
    }
  }

  lemma {:induction false} DescendantInClosure(p: Proc, t: Table, root: nat, s: set<nat>, pid: nat, k: nat)
    requires ShowsOnly(p, t) && Closed(p, s) && root in s
    requires k >= 1 && Ancestor(t, pid, k) == Some(root)
    ensures pid in s
    decreases k
  {
    AncestorAdds(t, pid, 1, k - 1);
    assert Ancestor(t, pid, 0) == Some(pid);
    assert pid in t && Ancestor(t, pid, 1) == Some(t[pid]);
    assert Ancestor(t, t[pid], 0) == Some(t[pid]);
    if k > 1 { DescendantInClosure(p, t, root, s, t[pid], k - 1); }
    assert (pid, t[pid]) in p.parents;
  }

  /** With parent links only, the closure is the root and exactly the processes the parent walk accepts. */
  lemma ClosureIsFamily(p: Proc, t: Table, root: nat, s: set<nat>)
    requires ShowsOnly(p, t) && root in s && Closed(p, s) && InEveryClosure(p, root, s)
    ensures s == Family(t, root)
  {
    FamilyClosed(p, t, root);
    assert s <= Family(t, root);
    forall pid | pid in Family(t, root) ensures pid in s {
      if pid != root {
        var k: nat :| k >= 1 && Ancestor(t, pid, k) == Some(root);
        DescendantInClosure(p, t, root, s, pid, k);
      }
    }
  }

  // ---------------------------------------------------------------- the kill order

  datatype Target = Target(depth: nat, pid: nat)

  predicate After(a: Target, b: Target) {
    a.depth > b.depth || (a.depth == b.depth && a.pid > b.pid)
  }

  /** Deeper ones first, and of the same depth those with the larger pid. */
  ghost predicate Descending(ts: seq<Target>) {
    forall i, j :: 0 <= i < j < |ts| ==>
      ts[i].depth > ts[j].depth || (ts[i].depth == ts[j].depth && ts[i].pid > ts[j].pid)
  }

  /** Puts one more target into a descending list. */
  function InsertTarget(ts: seq<Target>, x: Target): (r: seq<Target>)
    ensures |r| == |ts| + 1
    ensures forall y :: y in r <==> y in ts || y == x
  {
    if ts == [] || After(x, ts[0]) then [x] + ts
    else
      assert ts == [ts[0]] + ts[1..];
      [ts[0]] + InsertTarget(ts[1..], x)
  }

  lemma {:induction false} InsertDescending(ts: seq<Target>, x: Target)
    requires Descending(ts) && x !in ts
    ensures Descending(InsertTarget(ts, x))
    decreases |ts|
  {
    if ts != [] && !After(x, ts[0]) {
      assert ts[0] in ts;
      InsertDescending(ts[1..], x);
      var rest := InsertTarget(ts[1..], x);
      forall k | 0 <= k < |rest| ensures After(ts[0], rest[k]) {
        assert rest[k] in rest;
      }
    }
  }

  /** A target for every process of the family, with its depth, the root at depth 0. */
  ghost predicate TargetsOf(t: Table, root: nat, pids: set<nat>, ts: seq<Target>) {
    && (forall x :: x in ts ==> x.pid in pids)
    && (forall x :: x in ts ==> if x.pid == root then x.depth == 0 else DepthIs(t, x.pid, root, x.depth))
    && (forall pid :: pid in pids && (pid == root || Reaches(t, pid, root)) ==> exists x :: x in ts && x.pid == pid)
  }

  /** `kill_process_tree` up to the signals: the pids in the order they are killed. */
  method KillOrder(t: Table, root: nat) returns (ts: seq<Target>)
    ensures Descending(ts) && TargetsOf(t, root, t.Keys, ts)
  {
    ts := [];
    var rest := t.Keys;
    while rest != {}
      invariant rest <= t.Keys
      invariant Descending(ts) && TargetsOf(t, root, t.Keys - rest, ts)
      decreases rest
    {
      var pid :| pid in rest;
      var depth := DepthFromRoot(t, pid, root);
      ghost var done := t.Keys - rest;
      rest := rest - {pid};
      assert t.Keys - rest == done + {pid};
      if pid == root {
        TargetsGrow(t, root, done, ts, Target(0, pid));
        ts := InsertTarget(ts, Target(0, pid));
      } else if depth.Some? {
        TargetsGrow(t, root, done, ts, Target(depth.value, pid));
        ts := InsertTarget(ts, Target(depth.value, pid));
      }
    }
    assert t.Keys - rest == t.Keys;
  }

  lemma TargetsGrow(t: Table, root: nat, done: set<nat>, ts: seq<Target>, x: Target)
    requires Descending(ts) && TargetsOf(t, root, done, ts) && x.pid !in done
    requires if x.pid == root then x.depth == 0 else DepthIs(t, x.pid, root, x.depth)
    ensures TargetsOf(t, root, done + {x.pid}, InsertTarget(ts, x)) && Descending(InsertTarget(ts, x))
  {
    InsertDescending(ts, x);
    var r := InsertTarget(ts, x);
    assert x in r;
    forall pid | pid in done && (pid == root || Reaches(t, pid, root)) ensures exists y :: y in r && y.pid == pid {
      var y :| y in ts && y.pid == pid;
      assert y in r;
    }
  }

  ghost predicate Acyclic(t: Table) {
    forall pid: nat, k: nat :: k >= 1 ==> Ancestor(t, pid, k) != Some(pid)
  }

  /** On an acyclic table a descendant lies strictly deeper than its ancestor. */
  lemma DeeperThanAncestor(t: Table, root: nat, pid: nat, j: nat, a: nat, dp: nat, da: nat)
    requires Acyclic(t) && j >= 1 && Ancestor(t, pid, j) == Some(a)
    requires if pid == root then dp == 0 else DepthIs(t, pid, root, dp)
    requires if a == root then da == 0 else DepthIs(t, a, root, da)
    ensures dp > da
  {
    AncestorAdds(t, pid, j, da);
    MetOnce(t, pid, root, dp, j + da);
  }

  lemma MetOnce(t: Table, pid: nat, root: nat, a: nat, b: nat)
    requires Acyclic(t) && Ancestor(t, pid, a) == Some(root) && Ancestor(t, pid, b) == Some(root)
    ensures a == b
  {
    NotAgain(t, pid, root, a, if a < b then b - a else 0);
    NotAgain(t, pid, root, b, if b < a then a - b else 0);
  }

  lemma NotAgain(t: Table, pid: nat, root: nat, a: nat, d: nat)
    requires Acyclic(t) && Ancestor(t, pid, a) == Some(root)
    ensures d >= 1 ==> Ancestor(t, pid, a + d) != Some(root)
  {
    AncestorAdds(t, pid, a, d);
  }

  lemma DeeperFirst(ts: seq<Target>, k: nat, i: nat)
    requires Descending(ts) && k < |ts| && i < |ts|
    ensures k < i ==> ts[k].depth >= ts[i].depth
  {
    assert k < i ==> After(ts[k], ts[i]);
  }

  /** Kill order: on an acyclic table every process is killed before each of its ancestors in the tree. */
  lemma DescendantsDieFirst(t: Table, root: nat, ts: seq<Target>, i: nat, k: nat, j: nat)
    requires Acyclic(t) && Descending(ts) && TargetsOf(t, root, t.Keys, ts)
    requires i < |ts| && k < |ts| && j >= 1 && Ancestor(t, ts[i].pid, j) == Some(ts[k].pid)
    ensures i < k
  {
    assert ts[i] in ts && ts[k] in ts;
    DeeperThanAncestor(t, root, ts[i].pid, j, ts[k].pid, ts[i].depth, ts[k].depth);
    DeeperFirst(ts, k, i);
  }
}
