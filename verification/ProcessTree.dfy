/**
  The process-tree walk of src-tauri/src/platform_browser.rs: which processes are killed with a
  browser. A reused pid may make the parent table cyclic.
 */
module ProcessTree {
  import opened Prelude

  type Pid = nat

  /** The process snapshot: each live pid with its parent, if it has one. */
  type ParentTable = map<Pid, Option<Pid>>

  predicate IsChild(table: ParentTable, child: Pid, parent: Pid) {
    child in table && table[child] == Some(parent)
  }

  ghost predicate IsPath(table: ParentTable, path: seq<Pid>) {
    path != [] && forall i :: 0 < i < |path| ==> IsChild(table, path[i], path[i - 1])
  }

  /** Some chain of child edges leads from `root` to `pid`. */
  ghost predicate Reachable(table: ParentTable, root: Pid, pid: Pid) {
    exists path :: IsPath(table, path) && path[0] == root && path[|path| - 1] == pid
  }

  predicate NoDuplicates(pids: seq<Pid>) {
    forall i, j :: 0 <= i < j < |pids| ==> pids[i] != pids[j]
  }

  lemma ReachableRoot(table: ParentTable, root: Pid)
    ensures Reachable(table, root, root)
  {
    assert IsPath(table, [root]);
  }

  lemma ReachableChild(table: ParentTable, root: Pid, parent: Pid, child: Pid)
    requires Reachable(table, root, parent) && IsChild(table, child, parent)
    ensures Reachable(table, root, child)
  {
    var path :| IsPath(table, path) && path[0] == root && path[|path| - 1] == parent;
    assert IsPath(table, path + [child]);
    assert (path + [child])[|path + [child]| - 1] == child;
  }

  ghost predicate Closed(table: ParentTable, s: set<Pid>) {
    forall parent, child :: parent in s && IsChild(table, child, parent) ==> child in s
  }

  lemma {:induction false} ClosedContainsPath(table: ParentTable, s: set<Pid>, path: seq<Pid>)
    requires Closed(table, s) && IsPath(table, path) && path[0] in s
    ensures path[|path| - 1] in s
    decreases |path|
  {
    if |path| > 1 {
      var n := |path| - 1;
      assert IsPath(table, path[..n]);
      ClosedContainsPath(table, s, path[..n]);
      assert IsChild(table, path[n], path[n - 1]);
    }
  }

  lemma ClosedContainsReachable(table: ParentTable, s: set<Pid>, root: Pid)
    requires Closed(table, s) && root in s
    ensures forall pid :: Reachable(table, root, pid) ==> pid in s
  {
    forall pid | Reachable(table, root, pid)
      ensures pid in s
    {
      var path :| IsPath(table, path) && path[0] == root && path[|path| - 1] == pid;
      ClosedContainsPath(table, s, path);
    }
  }

  /** What was found so far: no pid twice, never the root, each below a process already expanded. */
  ghost predicate Found(table: ParentTable, root: Pid, checked: set<Pid>, descendants: seq<Pid>) {
    && NoDuplicates(descendants)
    && root !in descendants
    && (forall d :: d in descendants
          ==> d in table && table[d].Some? && table[d].value in checked && Reachable(table, root, d))
  }

  /** Every child of an expanded process has been found, except the children in `pending` of `current`. */
  ghost predicate Expanded(table: ParentTable, root: Pid, checked: set<Pid>, descendants: seq<Pid>, current: Pid,
                           pending: set<Pid>) {
    forall parent, child :: parent in checked && IsChild(table, child, parent)
      && !(parent == current && child in pending)
      ==> child in descendants || child == root
  }

  /** Between two pops: whatever was found is expanded or still on the stack. */
  ghost predicate Walk(table: ParentTable, root: Pid, checked: set<Pid>, descendants: seq<Pid>, stack: seq<Pid>) {
    && Found(table, root, checked, descendants)
    && Expanded(table, root, checked, descendants, root, {})
    && (forall p :: p in stack ==> p == root || p in descendants)
    && (forall p :: p in descendants ==> p in checked || p in stack)
    && (forall p :: p in checked ==> p == root || p in descendants)
    && (root in checked || (checked == {} && stack == [root]))
  }

  lemma WalkOfPop(table: ParentTable, root: Pid, checked: set<Pid>, descendants: seq<Pid>, stack: seq<Pid>)
    requires stack != [] && Walk(table, root, checked, descendants, stack) && stack[|stack| - 1] in checked
    ensures Walk(table, root, checked, descendants, stack[..|stack| - 1])
  {
    var rest := stack[..|stack| - 1];
    assert stack == rest + [stack[|stack| - 1]];
  }

  lemma WalkIsComplete(table: ParentTable, root: Pid, checked: set<Pid>, descendants: seq<Pid>)
    requires Walk(table, root, checked, descendants, [])
    ensures forall pid :: pid in descendants <==> pid != root && Reachable(table, root, pid)
  {
    assert Closed(table, checked);
    ClosedContainsReachable(table, checked, root);
  }

  /** The processes below `root`: exactly the reachable ones other than the root, each once. */
  method GetAllDescendantPids(table: ParentTable, root: Pid) returns (descendants: seq<Pid>)
    ensures NoDuplicates(descendants)
    ensures forall pid :: pid in descendants <==> pid != root && Reachable(table, root, pid)
  {
    descendants := [];
    var toCheck := [root];
    var checked: set<Pid> := {};
    ghost var all := {root} + table.Keys;
    while toCheck != []
      invariant Walk(table, root, checked, descendants, toCheck)
      decreases |all - checked|, |toCheck|
    {
      hide Walk;
      var current := toCheck[|toCheck| - 1];
      if current in checked {
        WalkOfPop(table, root, checked, descendants, toCheck);
        toCheck := toCheck[..|toCheck| - 1];
        continue;
      }
      assert toCheck == toCheck[..|toCheck| - 1] + [current];
      CurrentIsKnown(table, root, checked, descendants, toCheck);
      FewerLeft(all, checked, current);
      descendants, toCheck := PushChildren(table, root, current, checked, descendants, toCheck[..|toCheck| - 1]);
      checked := checked + {current};
    }
    WalkIsComplete(table, root, checked, descendants);
  }

  lemma CurrentIsKnown(table: ParentTable, root: Pid, checked: set<Pid>, descendants: seq<Pid>, stack: seq<Pid>)
    requires stack != [] && Walk(table, root, checked, descendants, stack)
    ensures stack[|stack| - 1] in {root} + table.Keys
  {
    assert stack[|stack| - 1] in stack;
  }

  lemma FewerLeft(all: set<Pid>, checked: set<Pid>, current: Pid)
    requires current in all && current !in checked
    ensures |all - (checked + {current})| < |all - checked|
  {
    assert all - (checked + {current}) == (all - checked) - {current};
  }

  /** One scan of the process table, in whatever order it comes. */
  method PushChildren(table: ParentTable, root: Pid, current: Pid, expanded: set<Pid>, found: seq<Pid>, stack: seq<Pid>)
      returns (descendants: seq<Pid>, toCheck: seq<Pid>)
    requires current !in expanded && Walk(table, root, expanded, found, stack + [current])
    ensures Walk(table, root, expanded + {current}, descendants, toCheck)
  {
    var checked := expanded + {current};
    assert current in stack + [current];
    descendants, toCheck := found, stack;
    ReachableRoot(table, root);
    assert forall p :: p in stack ==> p in stack + [current];
    var pids := table.Keys;
    while pids != {}
      invariant pids <= table.Keys
      invariant Found(table, root, checked, descendants)
      invariant Expanded(table, root, checked, descendants, current, pids)
      invariant forall d :: d in descendants && table[d] == Some(current) ==> d !in pids
      invariant found <= descendants
      invariant forall p :: p in toCheck ==> p == root || p in descendants
      invariant forall p :: p in descendants ==> p in checked || p in toCheck
    {
      var pid :| pid in pids;
      pids := pids - {pid};
      if table[pid] == Some(current) && pid !in checked {
        ReachableChild(table, root, current, pid);
        descendants := descendants + [pid];
        toCheck := toCheck + [pid];
      }
    }
  }

  /** The kill list: the browser, its descendants, then the other processes on its profile path. */
  method AssemblePidsToKill(table: ParentTable, pid: Pid, samePath: Option<seq<Pid>>) returns (pids: seq<Pid>)
    ensures NoDuplicates(pids) && pids != [] && pids[0] == pid
    ensures forall p :: p in pids <==> Reachable(table, pid, p) || (samePath.Some? && p in samePath.value)
  {
    var descendants := GetAllDescendantPids(table, pid);
    ReachableRoot(table, pid);
    pids := [pid] + descendants;
    if samePath.Some? {
      var i := 0;
      while i < |samePath.value|
        invariant i <= |samePath.value|
        invariant NoDuplicates(pids) && pids != [] && pids[0] == pid
        invariant forall p :: p in pids <==> Reachable(table, pid, p) || p in samePath.value[..i]
      {
        var p := samePath.value[i];
        if p !in pids {
          pids := pids + [p];
        }
        assert samePath.value[..i + 1] == samePath.value[..i] + [p];
        i := i + 1;
      }
    }
  }
}
