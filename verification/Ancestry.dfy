/** Walking parent links to find a runner worker, over a process table that may contain cycles. */
module Ancestry {
  import opened Text
  import opened Wrappers

  datatype ProcInfo = ProcInfo(ppid: nat, cmdline: string)

  type ProcTable = map<nat, ProcInfo>

  const MAX_DEPTH := 64

  predicate IsWorker(info: ProcInfo) {
    Contains(info.cmdline, "Runner.Worker")
  }

  // ----- the parent chain, with no bound on its length

  function Parent(index: ProcTable, pid: nat): Option<nat> {
    if pid !in index || index[pid].ppid == 0 || index[pid].ppid == pid then None else Some(index[pid].ppid)
  }

  /** The process `k` links up from `pid`, itself for `k == 0`. */
  function Link(index: ProcTable, pid: nat, k: nat): Option<nat> {
    if k == 0 then Some(pid)
    else
      var below := Link(index, pid, k - 1);
      if below.None? then None else Parent(index, below.value)
  }

  predicate WorkerAt(index: ProcTable, pid: nat, k: nat) {
    var link := Link(index, pid, k);
    link.Some? && link.value in index && IsWorker(index[link.value])
  }

  ghost predicate HasWorkerAncestor(index: ProcTable, pid: nat) {
    exists k: nat :: WorkerAt(index, pid, k)
  }

  // ----- the bounded walk

  /** True exactly when one of the first 64 links is a worker, on every table, cyclic or not. */
  method HasRunnerWorkerAncestor(pid: nat, index: ProcTable) returns (found: bool)
    ensures found <==> exists k | 0 <= k < MAX_DEPTH :: WorkerAt(index, pid, k)
  {
    var current := Some(pid);
    var depth := 0;
    while current.Some?
      invariant 0 <= depth <= MAX_DEPTH
      invariant current == Link(index, pid, depth)
      invariant forall k | 0 <= k < depth :: !WorkerAt(index, pid, k)
      decreases MAX_DEPTH + 1 - depth
    {
      var candidate := current.value;
      depth := depth + 1;
      if depth > MAX_DEPTH {
        return false;
      }
      if candidate !in index {
        ChainEnds(index, pid, depth);
        return false;
      }
      var info := index[candidate];
      if IsWorker(info) {
        assert WorkerAt(index, pid, depth - 1);
        return true;
      }
      if info.ppid == 0 || info.ppid == candidate {
        ChainEnds(index, pid, depth);
        return false;
      }
      current := Some(info.ppid);
    }
    ChainEnds(index, pid, depth);
    return false;
  }

  lemma ChainEnds(index: ProcTable, pid: nat, n: nat)
    requires Link(index, pid, n).None?
    ensures forall k: nat | n <= k :: Link(index, pid, k).None?
  {
    forall k: nat | n <= k ensures Link(index, pid, k).None? {
      ChainStaysEnded(index, pid, n, k);
    }
  }

  lemma {:induction false} ChainStaysEnded(index: ProcTable, pid: nat, n: nat, k: nat)
    requires Link(index, pid, n).None? && n <= k
    ensures Link(index, pid, k).None?
  {
    if n < k {
      ChainStaysEnded(index, pid, n, k - 1);
    }
  }

  // ----- when 64 links are enough

  lemma {:induction false} ChainRepeats(index: ProcTable, pid: nat, i: nat, j: nat, m: nat)
    requires Link(index, pid, i) == Link(index, pid, j)
    ensures Link(index, pid, i + m) == Link(index, pid, j + m)
  {
    if m != 0 {
      ChainRepeats(index, pid, i, j, m - 1);
    }
  }

  function Chain(index: ProcTable, pid: nat, n: nat): set<nat> {
    if n == 0 then {}
    else
      var link := Link(index, pid, n - 1);
      Chain(index, pid, n - 1) + if link.Some? then {link.value} else {}
  }

  lemma {:induction false} InChain(index: ProcTable, pid: nat, n: nat, p: nat) returns (i: nat)
    requires p in Chain(index, pid, n)
    ensures i < n && Link(index, pid, i) == Some(p)
  {
    if p in Chain(index, pid, n - 1) {
      i := InChain(index, pid, n - 1, p);
    } else {
      i := n - 1;
    }
  }

  ghost predicate NearestAt(index: ProcTable, pid: nat, k: nat) {
    WorkerAt(index, pid, k) && forall i | 0 <= i < k :: !WorkerAt(index, pid, i)
  }

  /** Before the nearest worker the chain neither ends nor leaves the table. */
  lemma ChainReachesWorker(index: ProcTable, pid: nat, k: nat, n: nat)
    requires WorkerAt(index, pid, k) && n <= k
    ensures Link(index, pid, n).Some? && Link(index, pid, n).value in index
  {
    if Link(index, pid, n).None? {
      ChainStaysEnded(index, pid, n, k);
    } else if Link(index, pid, n).value !in index {
      assert Link(index, pid, n + 1).None?;
      ChainStaysEnded(index, pid, n + 1, k);
    }
  }

  lemma RepeatBringsWorkerNearer(index: ProcTable, pid: nat, k: nat, i: nat, n: nat)
    requires WorkerAt(index, pid, k) && i < n <= k && Link(index, pid, i) == Link(index, pid, n)
    ensures WorkerAt(index, pid, i + (k - n))
  {
    hide Link;
    ChainRepeats(index, pid, i, n, k - n);
    assert n + (k - n) == k;
    assert Link(index, pid, i + (k - n)) == Link(index, pid, k);
  }

  /** Nor does it come back to a process: a repeat would put a worker nearer than the nearest. */
  lemma ChainDoesNotRepeat(index: ProcTable, pid: nat, k: nat, i: nat, n: nat)
    requires NearestAt(index, pid, k) && i < n <= k
    ensures Link(index, pid, i) != Link(index, pid, n)
  {
    if Link(index, pid, i) == Link(index, pid, n) {
      RepeatBringsWorkerNearer(index, pid, k, i, n);
    }
  }

  lemma {:induction false} ChainToWorkerIsDistinct(index: ProcTable, pid: nat, k: nat, n: nat)
    requires NearestAt(index, pid, k) && n <= k + 1
    ensures Chain(index, pid, n) <= index.Keys && |Chain(index, pid, n)| == n
  {
    if n != 0 {
      ChainToWorkerIsDistinct(index, pid, k, n - 1);
      ChainReachesWorker(index, pid, k, n - 1);
      var p := Link(index, pid, n - 1).value;
      if p in Chain(index, pid, n - 1) {
        var i := InChain(index, pid, n - 1, p);
        ChainDoesNotRepeat(index, pid, k, i, n - 1);
      }
    }
  }

  lemma {:induction false} NearestWorker(index: ProcTable, pid: nat, k: nat) returns (nearest: nat)
    requires WorkerAt(index, pid, k)
    ensures nearest <= k && NearestAt(index, pid, nearest)
  {
    if i :| 0 <= i < k && WorkerAt(index, pid, i) {
      nearest := NearestWorker(index, pid, i);
    } else {
      nearest := k;
    }
  }

  lemma SubsetIsSmaller(a: set<nat>, b: set<nat>)
    requires a <= b
    ensures |a| <= |b|
  {
    assert b == a + (b - a);
  }

  /** Whether the bounded walk gives the unbounded answer. */
  ghost predicate WalkAgrees(index: ProcTable, pid: nat) {
    (exists k | 0 <= k < MAX_DEPTH :: WorkerAt(index, pid, k)) <==> HasWorkerAncestor(index, pid)
  }

  /** On a table of at most 64 processes the bound loses nothing: the walk finds a worker exactly
      when some chain of parent links, however long, leads to one. */
  lemma BoundIsEnoughForSmallTables(index: ProcTable, pid: nat)
    requires |index| <= MAX_DEPTH
    ensures WalkAgrees(index, pid)
  {
    if HasWorkerAncestor(index, pid) {
      var k: nat :| WorkerAt(index, pid, k);
      var nearest := NearestWorker(index, pid, k);
      ChainToWorkerIsDistinct(index, pid, nearest, nearest + 1);
      SubsetIsSmaller(Chain(index, pid, nearest + 1), index.Keys);
      assert nearest < MAX_DEPTH;
    }
  }

  /** Processes 1 to `n` of a straight chain of `top` processes, whose top one is a worker. */
  function Ladder(top: nat, n: nat): ProcTable {
    if n == 0 then map[]
    else Ladder(top, n - 1)[n := if n == top then ProcInfo(0, "Runner.Worker") else ProcInfo(n + 1, "")]
  }

  lemma {:induction false} LadderRungs(top: nat, n: nat)
    ensures |Ladder(top, n)| == n
    ensures forall pid: nat :: pid in Ladder(top, n) <==> 1 <= pid <= n
    ensures forall pid | pid in Ladder(top, n) ::
              Ladder(top, n)[pid] == if pid == top then ProcInfo(0, "Runner.Worker") else ProcInfo(pid + 1, "")
  {
    if n != 0 {
      LadderRungs(top, n - 1);
    }
  }

  lemma {:induction false} LadderLinks(n: nat, k: nat)
    requires k < n
    ensures Link(Ladder(n, n), 1, k) == Some(k + 1)
  {
    if k != 0 {
      LadderLinks(n, k - 1);
      LadderRungs(n, n);
    }
  }

  /** From the foot of a straight chain of more than 64 processes the walk misses the worker at its top. */
  lemma BoundMissesLongerChains(n: nat)
    requires MAX_DEPTH < n
    ensures |Ladder(n, n)| == n && !WalkAgrees(Ladder(n, n), 1)
  {
    LadderRungs(n, n);
    LadderLinks(n, n - 1);
    assert OccursAt("Runner.Worker", "Runner.Worker", 0);
    assert WorkerAt(Ladder(n, n), 1, n - 1);
    forall k | 0 <= k < MAX_DEPTH ensures !WorkerAt(Ladder(n, n), 1, k) {
      LadderLinks(n, k);
    }
  }

  /** The bound is exact: the walk agrees with unbounded reachability on every table of at most `n`
      processes if and only if `n` is at most 64. */
  lemma BoundIsExact(n: nat)
    ensures (forall index: ProcTable, pid: nat | |index| <= n :: WalkAgrees(index, pid)) <==> n <= MAX_DEPTH
  {
    if n <= MAX_DEPTH {
      forall index: ProcTable, pid: nat | |index| <= n ensures WalkAgrees(index, pid) {
        BoundIsEnoughForSmallTables(index, pid);
      }
    } else {
      BoundMissesLongerChains(n);
    }
  }

  // ----- the same answer, told by paths

  /** The ids of a process and of some of its ancestors, each the recorded parent of the one before it. A
      recorded parent of zero, or of the process itself, is no parent. */
  predicate IsPath(index: ProcTable, path: seq<nat>) {
    && (forall i | 0 <= i < |path| :: path[i] in index)
    && (forall i | 0 < i < |path| ::
          index[path[i - 1]].ppid == path[i] && path[i] != 0 && path[i] != path[i - 1])
  }

  /** A path that leads from the process to a runner worker. */
  predicate LeadsToWorker(index: ProcTable, pid: nat, path: seq<nat>) {
    && path != [] && path[0] == pid && IsPath(index, path)
    && Contains(index[path[|path| - 1]].cmdline, "Runner.Worker")
  }

  lemma {:induction false} PathOfLinks(index: ProcTable, pid: nat, k: nat) returns (path: seq<nat>)
    requires Link(index, pid, k).Some? && Link(index, pid, k).value in index
    ensures |path| == k + 1 && path[0] == pid && IsPath(index, path) && path[k] == Link(index, pid, k).value
  {
    if k == 0 {
      path := [pid];
    } else {
      var front := PathOfLinks(index, pid, k - 1);
      path := front + [Link(index, pid, k).value];
    }
  }

  lemma {:induction false} LinksOfPath(index: ProcTable, pid: nat, path: seq<nat>, k: nat)
    requires k < |path| && path[0] == pid && IsPath(index, path)
    ensures Link(index, pid, k) == Some(path[k])
  {
    if k != 0 {
      LinksOfPath(index, pid, path, k - 1);
    }
  }

  /** The walk finds a worker exactly when a path of at most 64 processes leads to one. */
  lemma WalkFollowsPaths(index: ProcTable, pid: nat)
    ensures (exists k | 0 <= k < MAX_DEPTH :: WorkerAt(index, pid, k)) <==> exists path :: |path| <= 64 && LeadsToWorker(index, pid, path)
  {
    if k :| 0 <= k < MAX_DEPTH && WorkerAt(index, pid, k) {
      var path := PathOfLinks(index, pid, k);
      assert LeadsToWorker(index, pid, path);
    }
    if path :| |path| <= 64 && LeadsToWorker(index, pid, path) {
      LinksOfPath(index, pid, path, |path| - 1);
      assert WorkerAt(index, pid, |path| - 1);
    }
  }
}
