/**
 The CPU time of a process tree (readProcessTreeCpuMs in openclaw/scripts/bench-gateway-startup.ts),
 computed from the lines of a process listing.
 */
module ProcessTree {
  import opened Prelude

  // A line of the listing that has the three columns; a time that cannot be read is None.
  datatype Row = Row(pid: nat, ppid: nat, cpuMs: Option<nat>)

  /** The usable pids of the listing. */
  function Pids(rows: seq<Row>): set<nat> {
    if rows == [] then {}
    else
      var last := rows[|rows| - 1];
      Pids(rows[..|rows| - 1]) + if last.cpuMs.Some? then {last.pid} else {}
  }

  /** The time of a pid: its last usable line counts. */
  function Cpu(rows: seq<Row>, pid: nat): nat {
    if rows == [] then 0
    else
      var last := rows[|rows| - 1];
      if last.cpuMs.Some? && last.pid == pid then last.cpuMs.value else Cpu(rows[..|rows| - 1], pid)
  }

  /** The children of a pid, one for each usable line. */
  function Children(rows: seq<Row>, ppid: nat): seq<nat> {
    if rows == [] then []
    else
      var last := rows[|rows| - 1];
      Children(rows[..|rows| - 1], ppid) + if last.cpuMs.Some? && last.ppid == ppid then [last.pid] else []
  }

  /** Lines without a readable time are skipped; of several lines of a pid each names a child, and the last a time. */
  lemma {:induction false} ListingExact(rows: seq<Row>, pid: nat, ppid: nat) returns (i: int)
    ensures pid in Pids(rows) <==> exists row :: row in rows && row.cpuMs.Some? && row.pid == pid
    ensures pid in Children(rows, ppid)
            <==> exists row :: row in rows && row.cpuMs.Some? && row.pid == pid && row.ppid == ppid
    ensures -1 <= i < |rows| && forall j :: i < j < |rows| ==> rows[j].cpuMs.None? || rows[j].pid != pid
    ensures if i == -1 then Cpu(rows, pid) == 0 else rows[i].pid == pid && rows[i].cpuMs == Some(Cpu(rows, pid))
  {
    i := -1;
    if rows != [] {
      var init, last := rows[..|rows| - 1], rows[|rows| - 1];
      i := ListingExact(init, pid, ppid);
      assert rows == init + [last];
      if last.cpuMs.Some? && last.pid == pid {
        i := |init|;
      }
    }
  }

  lemma {:induction false} ChildrenArePids(rows: seq<Row>, ppid: nat)
    ensures forall c :: c in Children(rows, ppid) ==> c in Pids(rows)
  {
    if rows != [] {
      ChildrenArePids(rows[..|rows| - 1], ppid);
    }
  }

  // ---------- What is reachable ----------

  /** A descent from the root, child by child, that never passes the pid 0. */
  ghost predicate Descent(rows: seq<Row>, root: nat, path: seq<nat>) {
    && path != [] && path[0] == root && (forall i :: 0 <= i < |path| ==> path[i] != 0)
    && forall i :: 0 < i < |path| ==> path[i] in Children(rows, path[i - 1])
  }

  ghost predicate Reaches(rows: seq<Row>, root: nat, pid: nat) {
    exists path :: Descent(rows, root, path) && path[|path| - 1] == pid
  }

  ghost function Tree(rows: seq<Row>, root: nat): set<nat> {
    set pid | pid in Pids(rows) && Reaches(rows, root, pid)
  }

  lemma {:induction false} ReachesChild(rows: seq<Row>, root: nat, pid: nat, child: nat)
    requires Reaches(rows, root, pid) && child in Children(rows, pid) && child != 0
    ensures Reaches(rows, root, child)
  {
    var path :| Descent(rows, root, path) && path[|path| - 1] == pid;
    var longer := path + [child];
    assert Descent(rows, root, longer) && longer[|longer| - 1] == child;
  }

  /** A set that holds the root and the children of its members holds every descent. */
  lemma {:induction false} ClosedHolds(rows: seq<Row>, root: nat, path: seq<nat>, all: set<nat>)
    requires Descent(rows, root, path) && root in all
    requires forall p, c :: p in all && c in Children(rows, p) && c != 0 ==> c in all
    ensures path[|path| - 1] in all
  {
    if |path| > 1 {
      var init := path[..|path| - 1];
      ClosedHolds(rows, root, init, all);
      assert path[|path| - 1] in Children(rows, init[|init| - 1]);
    }
  }

  // ---------- Sums ----------

  /** The sum of the times of a set of pids, each counted once. */
  ghost function Sum(rows: seq<Row>, pids: set<nat>): nat {
    if pids == {} then 0
    else
      var pid :| pid in pids;
      Cpu(rows, pid) + Sum(rows, pids - {pid})
  }

  lemma {:induction false} SumWithout(rows: seq<Row>, pids: set<nat>, pid: nat)
    requires pid in pids
    ensures Sum(rows, pids) == Cpu(rows, pid) + Sum(rows, pids - {pid})
    decreases pids
  {
    var first :| first in pids && Sum(rows, pids) == Cpu(rows, first) + Sum(rows, pids - {first});
    if first != pid {
      SumWithout(rows, pids - {first}, pid);
      SumWithout(rows, pids - {pid}, first);
      assert pids - {first} - {pid} == pids - {pid} - {first};
    }
  }

  lemma {:induction false} SumPlus(rows: seq<Row>, pids: set<nat>, pid: nat)
    requires pid !in pids
    ensures Sum(rows, pids + {pid}) == Sum(rows, pids) + Cpu(rows, pid)
  {
    SumWithout(rows, pids + {pid}, pid);
    assert pids + {pid} - {pid} == pids;
  }

  // ---------- The traversal ----------

  /** `childrenByParent.get(pid) ?? []` */
  function ListAt(m: map<nat, seq<nat>>, pid: nat): seq<nat> {
    if pid in m then m[pid] else []
  }

  /** The first loop: the maps that the traversal uses. */
  method ReadListing(rows: seq<Row>) returns (childrenByParent: map<nat, seq<nat>>, cpuByPid: map<nat, nat>)
    ensures forall pid :: ListAt(childrenByParent, pid) == Children(rows, pid)
    ensures cpuByPid.Keys == Pids(rows)
    ensures forall pid :: pid in cpuByPid ==> cpuByPid[pid] == Cpu(rows, pid)
  {
    childrenByParent, cpuByPid := map[], map[];
    for i := 0 to |rows|
      invariant forall pid :: ListAt(childrenByParent, pid) == Children(rows[..i], pid)
      invariant cpuByPid.Keys == Pids(rows[..i])
      invariant forall pid :: pid in cpuByPid ==> cpuByPid[pid] == Cpu(rows[..i], pid)
    {
      assert rows[..i + 1][..i] == rows[..i];
      var row := rows[i];
      if row.cpuMs.None? {
        continue;
      }
      cpuByPid := cpuByPid[row.pid := row.cpuMs.value];
      var children := ListAt(childrenByParent, row.ppid);
      childrenByParent := childrenByParent[row.ppid := children + [row.pid]];
    }
    assert rows[..|rows|] == rows;
  }

  /** What has been seen is reached, and what it leads to has been seen or is on the stack. */
  ghost predicate Visited(rows: seq<Row>, root: nat, seen: set<nat>, stack: seq<nat>) {
    && (forall pid :: pid in seen ==> Reaches(rows, root, pid))
    && (forall pid :: pid in stack && pid != 0 ==> Reaches(rows, root, pid))
    && (root in seen || root in stack)
    && forall p, c :: p in seen && c in Children(rows, p) && c != 0 ==> c in seen || c in stack
  }

  lemma VisitedStart(rows: seq<Row>, root: nat)
    requires root != 0
    ensures Visited(rows, root, {}, [root])
  {
    assert Descent(rows, root, [root]) && [root][|[root]| - 1] == root;
  }

  lemma VisitedSkip(rows: seq<Row>, root: nat, seen: set<nat>, stack: seq<nat>, pid: nat)
    requires root != 0 && Visited(rows, root, seen, stack + [pid]) && (pid == 0 || pid in seen)
    ensures Visited(rows, root, seen, stack)
  {
    assert forall x :: x in stack + [pid] <==> x in stack || x == pid;
  }

  lemma {:induction false} VisitedNext(rows: seq<Row>, root: nat, seen: set<nat>, stack: seq<nat>, pid: nat)
    requires Visited(rows, root, seen, stack + [pid]) && pid != 0
    ensures Visited(rows, root, seen + {pid}, stack + Children(rows, pid))
  {
    assert forall x :: x in stack + [pid] <==> x in stack || x == pid;
    assert forall x :: x in stack + Children(rows, pid) <==> x in stack || x in Children(rows, pid);
    forall c | c in Children(rows, pid) && c != 0
      ensures Reaches(rows, root, c)
    {
      ReachesChild(rows, root, pid, c);
    }
  }

  lemma {:induction false} VisitedAll(rows: seq<Row>, root: nat, seen: set<nat>)
    requires Visited(rows, root, seen, []) && seen <= Pids(rows)
    ensures seen == Tree(rows, root)
  {
    forall pid | pid in Tree(rows, root)
      ensures pid in seen
    {
      var path :| Descent(rows, root, path) && path[|path| - 1] == pid;
      ClosedHolds(rows, root, path, seen);
    }
  }

  /**
   The total is the time of every process that the root reaches, each counted once, whatever cycles
   and repeated lines the listing has. A failed listing has no rows to give.
   */
  method ReadProcessTreeCpuMs(rootPid: Option<nat>, listing: Option<seq<Row>>) returns (total: Option<nat>)
    ensures total.None? <==>
            rootPid.None? || rootPid.value == 0 || listing.None? || rootPid.value !in Pids(listing.value)
    ensures total.Some? ==> total.value == Sum(listing.value, Tree(listing.value, rootPid.value))
  {
    if rootPid.None? || rootPid.value == 0 || listing.None? {
      return None;
    }
    var root, rows := rootPid.value, listing.value;
    var childrenByParent, cpuByPid := ReadListing(rows);
    if root !in cpuByPid {
      return None;
    }
    var totalCpuMs: nat := 0;
    var seen: set<nat> := {};
    var stack := [root];
    VisitedStart(rows, root);
    while stack != []
      invariant seen <= Pids(rows) && (forall pid :: pid in stack ==> pid in Pids(rows))
      invariant Visited(rows, root, seen, stack)
      invariant totalCpuMs == Sum(rows, seen)
      decreases Pids(rows) - seen, |stack|
    {
      var pid := stack[|stack| - 1];
      assert stack == stack[..|stack| - 1] + [pid];
      stack := stack[..|stack| - 1];
      if pid == 0 || pid in seen {
        VisitedSkip(rows, root, seen, stack, pid);
        continue;
      }
      SumPlus(rows, seen, pid);
      VisitedNext(rows, root, seen, stack, pid);
      ChildrenArePids(rows, pid);
      seen := seen + {pid};
      totalCpuMs := totalCpuMs + if pid in cpuByPid then cpuByPid[pid] else 0;
      var children := ListAt(childrenByParent, pid);
      assert children == Children(rows, pid) && forall c :: c in stack + children ==> c in stack || c in children;
      stack := stack + children;
    }
    VisitedAll(rows, root, seen);
    total := Some(totalCpuMs);
  }
}
