/**
 * The process table of lab 5 (proc.c): fork, exit, wait, sleep, wakeup and kill as steps, each run
 * under ptable.lock or a single store outside it.
 *
 * exit hands children to the exiting process's parent.
 */
module Proc {
  datatype Option<+T> = None | Some(value: T)

  datatype State = UNUSED | EMBRYO | SLEEPING | RUNNABLE | RUNNING | ZOMBIE

  // What a process sleeps on: a process slot (in wait), or anything else.
  datatype Chan = Nothing | Slot(i: nat) | Other(id: int)

  // np: the slot a process inside fork has taken. It is a local variable of fork.
  datatype Process = Process(state: State, pid: nat, parent: Option<nat>, chan: Chan, killed: bool, np: Option<nat>)

  // exited and reported record the pids of the processes that have exited, and that wait has returned.
  datatype Table = Table(procs: seq<Process>, nextpid: nat, init: nat, exited: set<nat>, reported: seq<nat>)

  predicate Live(p: Process) {
    p.state.SLEEPING? || p.state.RUNNABLE? || p.state.RUNNING?
  }

  // The pieces of the steps ----------------------------------------------------------------

  /** The first slot from k on in this state, or |procs|. */
  function FindState(procs: seq<Process>, state: State, k: nat): (i: nat)
    requires k <= |procs|
    ensures k <= i <= |procs| && (i < |procs| ==> procs[i].state == state)
    ensures forall j | k <= j < i :: procs[j].state != state
    decreases |procs| - k
  {
    if k == |procs| || procs[k].state == state then k else FindState(procs, state, k + 1)
  }

  function FindPid(procs: seq<Process>, pid: nat, k: nat): (i: nat)
    requires k <= |procs|
    ensures k <= i <= |procs| && (i < |procs| ==> procs[i].pid == pid)
    ensures forall j | k <= j < i :: procs[j].pid != pid
    decreases |procs| - k
  {
    if k == |procs| || procs[k].pid == pid then k else FindPid(procs, pid, k + 1)
  }

  predicate Child(p: Process, c: nat) {
    p.parent == Some(c)
  }

  /** The first exited child of c from slot k on, or |procs|. */
  function FindZombie(procs: seq<Process>, c: nat, k: nat): (i: nat)
    requires k <= |procs|
    ensures k <= i <= |procs| && (i < |procs| ==> Child(procs[i], c) && procs[i].state.ZOMBIE?)
    ensures forall j | k <= j < i :: !(Child(procs[j], c) && procs[j].state.ZOMBIE?)
    decreases |procs| - k
  {
    if k == |procs| || (Child(procs[k], c) && procs[k].state.ZOMBIE?) then k else FindZombie(procs, c, k + 1)
  }

  predicate HasKids(procs: seq<Process>, c: nat) {
    exists i :: 0 <= i < |procs| && Child(procs[i], c)
  }

  function Woken(p: Process, chan: Chan): Process {
    if p.state.SLEEPING? && p.chan == chan then p.(state := RUNNABLE) else p
  }

  // wakeup1
  function Wake(procs: seq<Process>, chan: Chan): (r: seq<Process>)
    ensures |r| == |procs| && forall i | 0 <= i < |procs| :: r[i] == Woken(procs[i], chan)
  {
    if procs == [] then [] else Wake(procs[..|procs| - 1], chan) + [Woken(procs[|procs| - 1], chan)]
  }

  function Adopted(p: Process, c: nat, t: nat): Process {
    if Child(p, c) then p.(parent := Some(t)) else p
  }

  /** The children of c become children of t. */
  function Reparent(procs: seq<Process>, c: nat, t: nat): (r: seq<Process>)
    ensures |r| == |procs| && forall i | 0 <= i < |procs| :: r[i] == Adopted(procs[i], c, t)
  {
    if procs == [] then [] else Reparent(procs[..|procs| - 1], c, t) + [Adopted(procs[|procs| - 1], c, t)]
  }

  const CLEARED: Process := Process(UNUSED, 0, None, Nothing, false, None)

  datatype Step =
    | ForkAlloc(p: nat)             // allocproc up to its release of the lock
    | ForkFail(p: nat)              // no memory for the new process
    | ForkParent(p: nat)            // np->parent = curproc
    | ForkReady(p: nat)
    | Schedule(p: nat, kill: bool)  // the scheduler picks p, and may deliver a kill signal
    | Yield(p: nat)
    | Sleep(p: nat, id: int)        // sleep, outside wait
    | Wakeup(id: int)
    | Kill(pid: nat)
    | Exit(p: nat)
    | Wait(p: nat)                  // one round of the loop of wait

  predicate Running(t: Table, p: nat) {
    p < |t.procs| && t.procs[p].state.RUNNING?
  }

  /** p runs, and is not inside fork. */
  predicate AtCall(t: Table, p: nat) {
    Running(t, p) && t.procs[p].np.None?
  }

  predicate Forking(t: Table, p: nat) {
    Running(t, p) && t.procs[p].np.Some? && t.procs[p].np.value < |t.procs|
  }

  /** The processor runs a running process; init does not exit (panic "init exiting"). */
  predicate Enabled(t: Table, step: Step) {
    match step
    case ForkAlloc(p) => AtCall(t, p)
    case ForkFail(p) => Forking(t, p) && t.procs[t.procs[p].np.value].parent.None?
    case ForkParent(p) => Forking(t, p)
    case ForkReady(p) => Forking(t, p) && t.procs[t.procs[p].np.value].parent.Some?
    case Schedule(p, _) => p < |t.procs| && t.procs[p].state.RUNNABLE?
    case Yield(p) => Running(t, p)
    case Sleep(p, _) => AtCall(t, p)
    case Wakeup(_) => true
    case Kill(_) => true
    case Exit(p) =>
      && AtCall(t, p) && p != t.init && t.init < |t.procs|
      && t.procs[p].parent.Some? && t.procs[p].parent.value < |t.procs|
    case Wait(p) => AtCall(t, p)
  }

  function DoExit(t: Table, p: nat): Table
    requires Enabled(t, Exit(p))
  {
    var q := t.procs[p].parent.value;
    var procs1 := Wake(t.procs, Slot(q));
    var temp := FindPid(procs1, procs1[q].pid, 0);
    var procs2 := Reparent(procs1, p, temp);
    var procs3 := if FindZombie(procs1, p, 0) < |procs1| then Wake(procs2, Slot(t.init)) else procs2;
    t.(procs := procs3[p := procs3[p].(state := ZOMBIE)], exited := t.exited + {procs3[p].pid})
  }

  function DoWait(t: Table, p: nat): Table
    requires Enabled(t, Wait(p))
  {
    var z := FindZombie(t.procs, p, 0);
    if z < |t.procs| then
      t.(procs := t.procs[z := t.procs[z].(state := UNUSED, pid := 0, parent := None, killed := false)],
         reported := t.reported + [t.procs[z].pid])
    else if !HasKids(t.procs, p) || t.procs[p].killed then t
    else t.(procs := t.procs[p := t.procs[p].(state := SLEEPING, chan := Slot(p))])
  }

  function DoKill(t: Table, pid: nat): Table {
    var i := FindPid(t.procs, pid, 0);
    if i == |t.procs| then t
    else
      var p := t.procs[i].(killed := true);
      t.(procs := t.procs[i := if p.state.SLEEPING? then p.(state := RUNNABLE) else p])
  }

  function Next(t: Table, step: Step): Table
    requires Enabled(t, step)
  {
    match step
    case ForkAlloc(p) =>
      var i := FindState(t.procs, UNUSED, 0);
      if i == |t.procs| then t
      else t.(procs := t.procs[i := t.procs[i].(state := EMBRYO, pid := t.nextpid)][p := t.procs[p].(np := Some(i))],
              nextpid := t.nextpid + 1)
    case ForkFail(p) =>
      var i := t.procs[p].np.value;
      t.(procs := t.procs[i := t.procs[i].(state := UNUSED)][p := t.procs[p].(np := None)])
    case ForkParent(p) =>
      var i := t.procs[p].np.value;
      t.(procs := t.procs[i := t.procs[i].(parent := Some(p))])
    case ForkReady(p) =>
      var i := t.procs[p].np.value;
      t.(procs := t.procs[i := t.procs[i].(state := RUNNABLE)][p := t.procs[p].(np := None)])
    case Schedule(p, kill) =>
      t.(procs := t.procs[p := t.procs[p].(state := RUNNING, killed := t.procs[p].killed || kill)])
    case Yield(p) => t.(procs := t.procs[p := t.procs[p].(state := RUNNABLE)])
    case Sleep(p, id) => t.(procs := t.procs[p := t.procs[p].(state := SLEEPING, chan := Other(id))])
    case Wakeup(id) => t.(procs := Wake(t.procs, Other(id)))
    case Kill(pid) => DoKill(t, pid)
    case Exit(p) => DoExit(t, p)
    case Wait(p) => DoWait(t, p)
  }

  /** The steps that touch no process but those they name. */
  lemma NamedOnly(t: Table, step: Step, i: nat)
    requires Enabled(t, step) && !step.Kill? && !step.Exit? && !step.Wait? && i < |t.procs|
    ensures |Next(t, step).procs| == |t.procs|
    ensures var a, b := t.procs[i], Next(t, step).procs[i];
      match step
      case ForkAlloc(p) => i != p && !a.state.UNUSED? ==> b == a
      case ForkFail(p) => b == if i == p then a.(np := None)
        else if t.procs[p].np == Some(i) then a.(state := UNUSED) else a
      case ForkParent(p) => b == if t.procs[p].np == Some(i) then a.(parent := Some(p)) else a
      case ForkReady(p) => b == if i == p then a.(np := None)
        else if t.procs[p].np == Some(i) then a.(state := RUNNABLE) else a
      case Schedule(p, kill) => b == if i == p then a.(state := RUNNING, killed := a.killed || kill) else a
      case Yield(p) => b == if i == p then a.(state := RUNNABLE) else a
      case Sleep(p, id) => b == if i == p then a.(state := SLEEPING, chan := Other(id)) else a
      case Wakeup(id) => b == if a.state.SLEEPING? && a.chan == Other(id) then a.(state := RUNNABLE) else a
      case _ => true
  {
    hide FindState;
  }

  // The invariant -----------------------------------------------------------------------------

  /** Slot i's parent is alive and older; only init has none. */
  ghost predicate ParentOk(t: Table, i: nat)
    requires i < |t.procs|
  {
    var p := t.procs[i];
    match p.state
    case UNUSED => p.parent.None?
    case EMBRYO => p.parent.Some? ==> p.parent.value < |t.procs| && t.procs[p.parent.value].np == Some(i)
    case _ =>
      if i == t.init then p.parent.None? && !p.state.ZOMBIE?
      else
        && p.parent.Some? && p.parent.value < |t.procs|
        && Live(t.procs[p.parent.value]) && t.procs[p.parent.value].pid < p.pid
  }

  /** What fork has taken is an embryo no one else has taken. */
  ghost predicate ForkOk(t: Table, i: nat)
    requires i < |t.procs|
  {
    var np := t.procs[i].np;
    np.Some? ==>
      && Live(t.procs[i]) && !t.procs[i].state.SLEEPING? && np.value < |t.procs|
      && t.procs[np.value].state.EMBRYO? && t.procs[i].pid < t.procs[np.value].pid
      && forall j | 0 <= j < |t.procs| && j != i :: t.procs[j].np != np
  }

  predicate InWait(t: Table, i: nat)
    requires i < |t.procs|
  {
    t.procs[i].state.SLEEPING? && t.procs[i].chan == Slot(i)
  }

  /** Nobody sleeps in wait who has an exited child. */
  ghost predicate WaitOk(t: Table, i: nat)
    requires i < |t.procs|
  {
    InWait(t, i) ==>
      forall j | 0 <= j < |t.procs| :: !(Child(t.procs[j], i) && t.procs[j].state.ZOMBIE?)
  }

  /** Process ids are fresh numbers, and none is in use twice. */
  ghost predicate Pids(t: Table) {
    && (forall i | 0 <= i < |t.procs| :: t.procs[i].pid < t.nextpid)
    && (forall i | 0 <= i < |t.procs| && !t.procs[i].state.UNUSED? :: t.procs[i].pid > 0)
    && (forall i, j | 0 <= i < j < |t.procs| && t.procs[i].pid > 0 :: t.procs[i].pid != t.procs[j].pid)
  }

  /** The exited processes are those still in the table as zombies and those wait has reported. */
  ghost predicate Reports(t: Table) {
    && (forall a, b | 0 <= a < b < |t.reported| :: t.reported[a] != t.reported[b])
    && (forall a | 0 <= a < |t.reported| :: t.reported[a] in t.exited)
    && (forall e | e in t.exited :: 0 < e < t.nextpid)
    && (forall i | 0 <= i < |t.procs| && t.procs[i].pid in t.exited :: t.procs[i].state.ZOMBIE?)
    && (forall i | 0 <= i < |t.procs| && t.procs[i].state.ZOMBIE? :: t.procs[i].pid in t.exited)
    && (forall e | e in t.exited :: e in t.reported || Zombie(t, e))
    && (forall i | 0 <= i < |t.procs| && t.procs[i].pid > 0 :: t.procs[i].pid !in t.reported)
  }

  ghost predicate Zombie(t: Table, pid: nat) {
    exists i :: 0 <= i < |t.procs| && t.procs[i].pid == pid && t.procs[i].state.ZOMBIE?
  }

  ghost predicate Inv(t: Table) {
    && t.init < |t.procs| && t.nextpid > 0 && !t.procs[t.init].state.UNUSED? && !t.procs[t.init].state.EMBRYO?
    && Pids(t) && Reports(t)
    && forall i | 0 <= i < |t.procs| :: ParentOk(t, i) && ForkOk(t, i) && WaitOk(t, i)
  }

  // Steps keep it ---------------------------------------------------------------------------------

  /** A step that changes neither pids, parents nor who is in fork, and makes no one a zombie, an embryo
      or unused, and puts no one to sleep in wait. */
  ghost predicate Quiet(t: Table, u: Table) {
    && u == t.(procs := u.procs) && |u.procs| == |t.procs|
    && forall i | 0 <= i < |t.procs| :: QuietAt(t.procs[i], u.procs[i])
  }

  predicate QuietAt(p: Process, q: Process) {
    && q.pid == p.pid && q.parent == p.parent && q.np == p.np
    && (q.state == p.state || (Live(p) && Live(q)))
    && (q.state.SLEEPING? ==> (p.state.SLEEPING? && p.chan == q.chan) || (p.np.None? && q.chan.Other?))
  }

  lemma QuietPids(t: Table, u: Table)
    requires Pids(t) && Quiet(t, u)
    ensures Pids(u)
  {
    assert forall i | 0 <= i < |t.procs| :: u.procs[i].pid == t.procs[i].pid;
  }

  lemma QuietReports(t: Table, u: Table)
    requires Reports(t) && Quiet(t, u)
    ensures Reports(u)
  {
    assert forall i | 0 <= i < |t.procs| :: u.procs[i].pid == t.procs[i].pid;
    assert forall i | 0 <= i < |t.procs| :: u.procs[i].state.ZOMBIE? <==> t.procs[i].state.ZOMBIE?;
    forall e | e in u.exited ensures e in u.reported || Zombie(u, e) {
      assert e in t.exited;
      if Zombie(t, e) {
        var i :| 0 <= i < |t.procs| && t.procs[i].pid == e && t.procs[i].state.ZOMBIE?;
        assert u.procs[i].state.ZOMBIE?;
      }
    }
  }

  lemma QuietOk(t: Table, u: Table, i: nat)
    requires Quiet(t, u) && i < |t.procs| && ParentOk(t, i) && ForkOk(t, i) && WaitOk(t, i)
    ensures ParentOk(u, i) && ForkOk(u, i) && WaitOk(u, i)
  {
    assert QuietAt(t.procs[i], u.procs[i]);
  }

  lemma {:induction false} QuietKeeps(t: Table, u: Table)
    requires Inv(t) && Quiet(t, u)
    ensures Inv(u)
  {
    hide Pids, Reports, ParentOk, ForkOk, WaitOk;
    QuietPids(t, u);
    QuietReports(t, u);
    forall i | 0 <= i < |t.procs| ensures ParentOk(u, i) && ForkOk(u, i) && WaitOk(u, i) {
      QuietOk(t, u, i);
    }
  }

  ghost predicate SlotOk(t: Table, i: nat)
    requires i < |t.procs|
  {
    ParentOk(t, i) && ForkOk(t, i) && WaitOk(t, i)
  }

  lemma FromOk(t: Table)
    requires t.init < |t.procs| && t.nextpid > 0 && Pids(t) && Reports(t)
    requires !t.procs[t.init].state.UNUSED? && !t.procs[t.init].state.EMBRYO?
    requires forall i | 0 <= i < |t.procs| :: SlotOk(t, i)
    ensures Inv(t)
  {
    hide ParentOk, ForkOk, WaitOk, Pids, Reports;
    forall i | 0 <= i < |t.procs| ensures ParentOk(t, i) && ForkOk(t, i) && WaitOk(t, i) {
      assert SlotOk(t, i);
    }
  }

  // fork

  /** Nothing refers to a slot that is unused. */
  lemma UnusedFree(t: Table, i: nat)
    requires Inv(t) && i < |t.procs| && t.procs[i].state.UNUSED?
    ensures t.procs[i].parent.None? && t.procs[i].np.None? && i != t.init
    ensures forall j | 0 <= j < |t.procs| :: t.procs[j].np != Some(i)
    ensures forall j | 0 <= j < |t.procs| :: t.procs[j].parent != Some(i)
  {
    hide Pids, Reports, WaitOk;
    assert ParentOk(t, i) && ForkOk(t, i);
    forall j | 0 <= j < |t.procs| ensures t.procs[j].np != Some(i) && t.procs[j].parent != Some(i) {
      assert ForkOk(t, j) && ParentOk(t, j);
    }
  }

  /** t with slot a, and then slot b, replaced. */
  function Two(t: Table, a: nat, x: Process, b: nat, y: Process, nextpid: nat): Table
    requires a < |t.procs| && b < |t.procs|
  {
    t.(procs := t.procs[a := x][b := y], nextpid := nextpid)
  }

  lemma TwoReports(t: Table, a: nat, x: Process, b: nat, y: Process, nextpid: nat)
    requires Reports(t) && a < |t.procs| && b < |t.procs| && a != b && nextpid >= t.nextpid
    requires !t.procs[a].state.ZOMBIE? && !x.state.ZOMBIE? && (x.pid == t.procs[a].pid || x.pid >= t.nextpid)
    requires !t.procs[b].state.ZOMBIE? && !y.state.ZOMBIE? && y.pid == t.procs[b].pid
    ensures Reports(Two(t, a, x, b, y, nextpid))
  {
    var u := Two(t, a, x, b, y, nextpid);
    forall e | e in u.exited ensures e in u.reported || Zombie(u, e) {
      assert e in t.exited;
      if Zombie(t, e) {
        var j :| 0 <= j < |t.procs| && t.procs[j].pid == e && t.procs[j].state.ZOMBIE?;
        assert u.procs[j] == t.procs[j];
      }
    }
  }

  lemma TwoPids(t: Table, a: nat, x: Process, b: nat, y: Process, nextpid: nat)
    requires Pids(t) && a < |t.procs| && b < |t.procs| && a != b && nextpid >= t.nextpid && y.pid == t.procs[b].pid
    requires (x.pid == t.procs[a].pid && (x.state.UNUSED? || x.pid > 0)) || t.nextpid <= x.pid < nextpid
    requires y.pid > 0 && (x.pid == 0 ==> x.state.UNUSED?)
    ensures Pids(Two(t, a, x, b, y, nextpid))
  {
  }

  lemma AllocOk(t: Table, p: nat, k: nat)
    requires Inv(t) && AtCall(t, p) && FindState(t.procs, UNUSED, 0) < |t.procs| && k < |t.procs|
    ensures SlotOk(Next(t, ForkAlloc(p)), k)
  {
    hide Reports, FindState;
    var i := FindState(t.procs, UNUSED, 0);
    UnusedFree(t, i);
    assert ParentOk(t, k) && ForkOk(t, k) && WaitOk(t, k);
  }

  lemma {:induction false} AllocKeeps(t: Table, p: nat)
    requires Inv(t) && AtCall(t, p)
    ensures Inv(Next(t, ForkAlloc(p)))
  {
    hide ParentOk, ForkOk, WaitOk, SlotOk, FindState, Reports;
    var i, u := FindState(t.procs, UNUSED, 0), Next(t, ForkAlloc(p));
    if i < |t.procs| {
      var x, y := t.procs[i].(state := EMBRYO, pid := t.nextpid), t.procs[p].(np := Some(i));
      UnusedFree(t, i);
      TwoReports(t, i, x, p, y, t.nextpid + 1);
      TwoPids(t, i, x, p, y, t.nextpid + 1);
      assert u == Two(t, i, x, p, y, t.nextpid + 1);
      forall k | 0 <= k < |t.procs| ensures SlotOk(u, k) {
        AllocOk(t, p, k);
      }
      FromOk(u);
    }
  }

  /** What a process in fork has taken. */
  lemma TakenIs(t: Table, p: nat)
    requires Inv(t) && Forking(t, p)
    ensures var i := t.procs[p].np.value;
      && t.procs[i].state.EMBRYO? && i != p && i != t.init && t.procs[i].np.None? && t.procs[p].pid < t.procs[i].pid
      && t.procs[i].pid > 0 && t.procs[p].pid > 0
      && (t.procs[i].parent.Some? ==> t.procs[i].parent == Some(p))
      && (forall j | 0 <= j < |t.procs| && j != p :: t.procs[j].np != Some(i))
      && forall j | 0 <= j < |t.procs| :: t.procs[j].parent != Some(i)
  {
    hide Reports, WaitOk;
    var i := t.procs[p].np.value;
    assert ForkOk(t, p) && ParentOk(t, i) && ForkOk(t, i);
    forall j | 0 <= j < |t.procs| ensures t.procs[j].parent != Some(i) {
      assert ParentOk(t, j);
    }
  }

  lemma ForkStepOk(t: Table, p: nat, step: Step, k: nat)
    requires Inv(t) && Enabled(t, step) && Forking(t, p) && k < |t.procs|
    requires step in {ForkFail(p), ForkParent(p), ForkReady(p)}
    ensures SlotOk(Next(t, step), k)
  {
    hide Reports, Pids;
    TakenIs(t, p);
    assert ParentOk(t, k) && ForkOk(t, k) && WaitOk(t, k) && ParentOk(t, p);
  }

  lemma {:induction false} ForkStepKeeps(t: Table, p: nat, step: Step)
    requires Inv(t) && Enabled(t, step) && step in {ForkFail(p), ForkParent(p), ForkReady(p)}
    ensures Inv(Next(t, step))
  {
    hide ParentOk, ForkOk, WaitOk, SlotOk, Reports, Pids;
    var i, u := t.procs[p].np.value, Next(t, step);
    TakenIs(t, p);
    assert u == Two(t, i, u.procs[i], p, u.procs[p], t.nextpid);
    TwoReports(t, i, u.procs[i], p, u.procs[p], t.nextpid);
    TwoPids(t, i, u.procs[i], p, u.procs[p], t.nextpid);
    forall k | 0 <= k < |t.procs| ensures SlotOk(u, k) {
      ForkStepOk(t, p, step, k);
    }
    FromOk(u);
  }

  // kill

  lemma {:induction false} KillKeeps(t: Table, pid: nat)
    requires Inv(t)
    ensures Inv(DoKill(t, pid))
  {
    hide Inv, FindPid;
    QuietKeeps(t, DoKill(t, pid));
  }

  // wait

  /** No process has an exited one for a parent, nor is one in fork. */
  lemma ZombieFree(t: Table, z: nat)
    requires Inv(t) && z < |t.procs| && t.procs[z].state.ZOMBIE?
    ensures t.procs[z].np.None? && z != t.init
    ensures forall j | 0 <= j < |t.procs| :: t.procs[j].np != Some(z) && t.procs[j].parent != Some(z)
  {
    hide Pids, Reports, WaitOk;
    assert ForkOk(t, z) && ParentOk(t, z);
    forall j | 0 <= j < |t.procs| ensures t.procs[j].np != Some(z) && t.procs[j].parent != Some(z) {
      assert ForkOk(t, j) && ParentOk(t, j);
    }
  }

  lemma ReapReports(t: Table, z: nat)
    requires Reports(t) && Pids(t) && z < |t.procs| && t.procs[z].state.ZOMBIE?
    ensures var u := t.(procs := t.procs[z := t.procs[z].(state := UNUSED, pid := 0, parent := None, killed := false)],
      reported := t.reported + [t.procs[z].pid]); Pids(u) && Reports(u)
  {
    var u := t.(procs := t.procs[z := t.procs[z].(state := UNUSED, pid := 0, parent := None, killed := false)],
                reported := t.reported + [t.procs[z].pid]);
    forall e | e in u.exited ensures e in u.reported || Zombie(u, e) {
      if e !in t.reported && e != t.procs[z].pid {
        var j :| 0 <= j < |t.procs| && t.procs[j].pid == e && t.procs[j].state.ZOMBIE?;
        assert u.procs[j] == t.procs[j];
      }
      assert u.reported[|t.reported|] == t.procs[z].pid;
    }
  }

  lemma ReapOk(t: Table, z: nat, k: nat)
    requires Inv(t) && z < |t.procs| && t.procs[z].state.ZOMBIE? && k < |t.procs|
    ensures SlotOk(t.(procs := t.procs[z := t.procs[z].(state := UNUSED, pid := 0, parent := None, killed := false)],
      reported := t.reported + [t.procs[z].pid]), k)
  {
    hide Pids, Reports;
    ZombieFree(t, z);
    assert ParentOk(t, k) && ForkOk(t, k) && WaitOk(t, k);
  }

  lemma WaitOkAt(t: Table, p: nat, k: nat)
    requires Inv(t) && AtCall(t, p) && FindZombie(t.procs, p, 0) == |t.procs| && k < |t.procs|
    ensures SlotOk(t.(procs := t.procs[p := t.procs[p].(state := SLEEPING, chan := Slot(p))]), k)
  {
    hide Pids, Reports, FindZombie;
    assert ParentOk(t, k) && ForkOk(t, k) && WaitOk(t, k);
  }

  lemma {:induction false} WaitKeeps(t: Table, p: nat)
    requires Inv(t) && AtCall(t, p)
    ensures Inv(DoWait(t, p))
  {
    hide FindZombie, ParentOk, ForkOk, WaitOk, SlotOk, Pids, Reports, HasKids;
    var z, u := FindZombie(t.procs, p, 0), DoWait(t, p);
    if z < |t.procs| {
      ReapReports(t, z);
      ZombieFree(t, z);
      forall k | 0 <= k < |t.procs| ensures SlotOk(u, k) {
        ReapOk(t, z, k);
      }
      FromOk(u);
    } else if u != t {
      SleepReports(t, p);
      forall k | 0 <= k < |t.procs| ensures SlotOk(u, k) {
        WaitOkAt(t, p, k);
      }
      FromOk(u);
    }
  }

  lemma SleepReports(t: Table, p: nat)
    requires Pids(t) && Reports(t) && p < |t.procs| && Live(t.procs[p])
    ensures var u := t.(procs := t.procs[p := t.procs[p].(state := SLEEPING, chan := Slot(p))]); Pids(u) && Reports(u)
  {
    var u := t.(procs := t.procs[p := t.procs[p].(state := SLEEPING, chan := Slot(p))]);
    forall e | e in u.exited ensures e in u.reported || Zombie(u, e) {
      if Zombie(t, e) {
        var j :| 0 <= j < |t.procs| && t.procs[j].pid == e && t.procs[j].state.ZOMBIE?;
        assert u.procs[j] == t.procs[j];
      }
    }
  }

  // exit

  /** The search by pid finds the exiting process's own parent. */
  lemma FindsParent(t: Table, p: nat)
    requires Inv(t) && Enabled(t, Exit(p))
    ensures var q := t.procs[p].parent.value; var procs1 := Wake(t.procs, Slot(q));
      && FindPid(procs1, procs1[q].pid, 0) == q && q != p && Live(t.procs[q]) && t.procs[q].pid < t.procs[p].pid
  {
    hide Reports, Wake;
    assert ParentOk(t, p);
  }

  /** What exit of p, a child of q, does to slot k. */
  predicate ExitAt(a: Process, b: Process, p: nat, q: nat, k: nat) {
    && b.pid == a.pid && b.np == a.np && b.chan == a.chan
    && b.parent == (if Child(a, p) then Some(q) else a.parent)
    && (if k == p then b.state.ZOMBIE? else b.state == a.state || (a.state.SLEEPING? && b.state.RUNNABLE?))
    && (k == q && a.chan == Slot(q) ==> !b.state.SLEEPING?)
  }

  ghost predicate Exited(t: Table, u: Table, p: nat, q: nat) {
    && |u.procs| == |t.procs| && u.nextpid == t.nextpid && u.init == t.init && u.reported == t.reported
    && p < |t.procs| && u.exited == t.exited + {t.procs[p].pid}
    && forall k | 0 <= k < |t.procs| :: ExitAt(t.procs[k], u.procs[k], p, q, k)
  }

  lemma ExitIs(t: Table, p: nat, q: nat)
    requires Inv(t) && Enabled(t, Exit(p)) && t.procs[p].parent == Some(q)
    ensures Exited(t, DoExit(t, p), p, q)
  {
    hide Inv, FindZombie, Wake, Reparent, FindPid;
    FindsParent(t, p);
  }

  /** The running process p, with its parent q. */
  ghost predicate Exits(t: Table, p: nat, q: nat) {
    && p < |t.procs| && q < |t.procs| && q != p && t.procs[p].state.RUNNING? && t.procs[p].np.None? && p != t.init
    && Live(t.procs[q]) && t.procs[q].pid < t.procs[p].pid && t.procs[p].parent == Some(q)
  }

  lemma ExitParent(t: Table, u: Table, p: nat, q: nat, k: nat)
    requires Exits(t, p, q) && Exited(t, u, p, q) && k < |t.procs| && ParentOk(t, k) && Live(t.procs[q])
    ensures ParentOk(u, k)
  {
    assert ExitAt(t.procs[k], u.procs[k], p, q, k) && ExitAt(t.procs[q], u.procs[q], p, q, q);
    var x := t.procs[k].parent;
    if x.Some? && x.value < |t.procs| {
      assert ExitAt(t.procs[x.value], u.procs[x.value], p, q, x.value);
    }
  }

  lemma ExitFork(t: Table, u: Table, p: nat, q: nat, k: nat)
    requires Exits(t, p, q) && Exited(t, u, p, q) && k < |t.procs| && ForkOk(t, k)
    ensures ForkOk(u, k)
  {
    assert ExitAt(t.procs[k], u.procs[k], p, q, k);
    var x := t.procs[k].np;
    if x.Some? && x.value < |t.procs| {
      assert ExitAt(t.procs[x.value], u.procs[x.value], p, q, x.value);
    }
  }

  /** The parent was woken before it gained children, so it is not asleep in wait. */
  lemma ExitWait(t: Table, u: Table, p: nat, q: nat, k: nat)
    requires Exits(t, p, q) && Exited(t, u, p, q) && k < |t.procs| && WaitOk(t, k)
    ensures WaitOk(u, k)
  {
    assert ExitAt(t.procs[k], u.procs[k], p, q, k);
    if u.procs[k].state.SLEEPING? && u.procs[k].chan == Slot(k) {
      forall j | 0 <= j < |u.procs| ensures !(Child(u.procs[j], k) && u.procs[j].state.ZOMBIE?) {
        assert ExitAt(t.procs[j], u.procs[j], p, q, j);
      }
    }
  }

  lemma ExitSame(t: Table, u: Table, p: nat, q: nat)
    requires Exits(t, p, q) && Exited(t, u, p, q)
    ensures |u.procs| == |t.procs| && u.nextpid == t.nextpid && u.reported == t.reported
    ensures u.exited == t.exited + {t.procs[p].pid}
    ensures forall k | 0 <= k < |t.procs| :: u.procs[k].pid == t.procs[k].pid
    ensures forall k | 0 <= k < |t.procs| :: u.procs[k].state.ZOMBIE? <==> k == p || t.procs[k].state.ZOMBIE?
    ensures forall k | 0 <= k < |t.procs| :: u.procs[k].state.UNUSED? <==> t.procs[k].state.UNUSED?
  {
  }

  lemma ExitPids(t: Table, u: Table, p: nat, q: nat)
    requires Pids(t) && Exits(t, p, q) && Exited(t, u, p, q)
    ensures Pids(u)
  {
    hide Exited;
    ExitSame(t, u, p, q);
  }

  lemma ExitReports(t: Table, u: Table, p: nat, q: nat)
    requires Pids(t) && Reports(t) && Exits(t, p, q) && Exited(t, u, p, q)
    ensures Reports(u)
  {
    hide Exited;
    ExitSame(t, u, p, q);
    forall e | e in u.exited ensures e in u.reported || Zombie(u, e) {
      if e == t.procs[p].pid {
        assert u.procs[p].pid == e;
      } else if e !in t.reported {
        var j :| 0 <= j < |t.procs| && t.procs[j].pid == e && t.procs[j].state.ZOMBIE?;
        assert u.procs[j].pid == e;
      }
    }
  }

  lemma {:induction false} ExitKeeps(t: Table, p: nat)
    requires Inv(t) && Enabled(t, Exit(p))
    ensures Inv(DoExit(t, p))
  {
    hide DoExit, Pids, Reports, ParentOk, ForkOk, WaitOk, ExitAt;
    var q, u := t.procs[p].parent.value, DoExit(t, p);
    FindsParent(t, p);
    ExitIs(t, p, q);
    ExitPids(t, u, p, q);
    ExitReports(t, u, p, q);
    forall k | 0 <= k < |t.procs| ensures SlotOk(u, k) {
      ExitParent(t, u, p, q, k);
      ExitFork(t, u, p, q, k);
      ExitWait(t, u, p, q, k);
    }
    ExitInit(t, u, p, q);
    FromOk(u);
  }

  lemma ExitInit(t: Table, u: Table, p: nat, q: nat)
    requires Inv(t) && Exits(t, p, q) && Exited(t, u, p, q)
    ensures !u.procs[t.init].state.UNUSED? && !u.procs[t.init].state.EMBRYO?
  {
    assert ExitAt(t.procs[t.init], u.procs[t.init], p, q, t.init);
  }

  // Runs ----------------------------------------------------------------------------------------------

  lemma {:induction false} StepKeeps(t: Table, step: Step)
    requires Inv(t) && Enabled(t, step)
    ensures Inv(Next(t, step))
  {
    hide Pids, Reports, ParentOk, WaitOk, Wake, DoExit, DoWait, DoKill, FindState;
    match step
    case ForkAlloc(p) => AllocKeeps(t, p);
    case ForkFail(p) => ForkStepKeeps(t, p, step);
    case ForkParent(p) => ForkStepKeeps(t, p, step);
    case ForkReady(p) => ForkStepKeeps(t, p, step);
    case Kill(pid) => KillKeeps(t, pid);
    case Exit(p) => ExitKeeps(t, p);
    case Wait(p) => WaitKeeps(t, p);
    case Schedule(_, _) => QuietKeeps(t, Next(t, step));
    case Yield(_) => QuietKeeps(t, Next(t, step));
    case Sleep(_, _) => QuietKeeps(t, Next(t, step));
    case Wakeup(_) => QuietKeeps(t, Next(t, step));
  }

  /** Whoever sleeps in wait has a child. */
  ghost predicate Kids(t: Table) {
    forall i | 0 <= i < |t.procs| && InWait(t, i) :: HasKids(t.procs, i)
  }

  /** A process that sleeps in wait does not lose a child meanwhile, and who goes to sleep there has one. */
  lemma ChildStays(t: Table, step: Step, i: nat, j: nat)
    requires Inv(t) && Enabled(t, step) && i < |t.procs| && j < |t.procs|
    requires |Next(t, step).procs| == |t.procs| && InWait(Next(t, step), i) && step != Wait(i)
    ensures InWait(t, i) && (Child(t.procs[j], i) ==> Child(Next(t, step).procs[j], i))
  {
    hide Pids, Reports, FindZombie, FindState, FindPid, HasKids, DoExit, Wake;
    assert ParentOk(t, j) && ForkOk(t, i) && ParentOk(t, i);
    if step.Exit? {
      ExitIs(t, step.p, t.procs[step.p].parent.value);
      FindsParent(t, step.p);
    } else if step.ForkFail? || step.ForkParent? || step.ForkReady? {
      TakenIs(t, step.p);
    }
  }

  lemma {:induction false} KidsKept(t: Table, step: Step)
    requires Inv(t) && Kids(t) && Enabled(t, step)
    ensures Kids(Next(t, step))
  {
    hide Inv, Next, Enabled, InWait, Child;
    var u := Next(t, step);
    NextSize(t, step);
    forall i | 0 <= i < |u.procs| && InWait(u, i) ensures HasKids(u.procs, i) {
      if step == Wait(i) {
        WaitHasKids(t, i);
      } else {
        ChildStays(t, step, i, i);
        var j :| 0 <= j < |t.procs| && Child(t.procs[j], i);
        ChildStays(t, step, i, j);
      }
    }
  }

  lemma NextSize(t: Table, step: Step)
    requires Enabled(t, step)
    ensures |Next(t, step).procs| == |t.procs|
  {
    hide FindZombie, FindState, FindPid, HasKids;
  }

  lemma WaitHasKids(t: Table, p: nat)
    requires Inv(t) && Enabled(t, Wait(p)) && InWait(Next(t, Wait(p)), p)
    ensures HasKids(Next(t, Wait(p)).procs, p)
  {
    hide Inv, FindZombie;
    var u := Next(t, Wait(p));
    var j :| 0 <= j < |t.procs| && Child(t.procs[j], p);
    assert Child(u.procs[j], p);
  }

  predicate Legal(t: Table, run: seq<Step>)
    decreases |run|
  {
    run == [] || (Enabled(t, run[0]) && Legal(Next(t, run[0]), run[1..]))
  }

  function Exec(t: Table, run: seq<Step>): Table
    requires Legal(t, run)
    decreases |run|
  {
    if run == [] then t else Exec(Next(t, run[0]), run[1..])
  }

  /** The table after userinit: slot 0 is init. */
  function Start(nproc: nat): Table
    requires nproc > 0
  {
    Table([Process(RUNNABLE, 1, None, Nothing, false, None)] + seq(nproc - 1, _ => CLEARED), 2, 0, {}, [])
  }

  lemma {:induction false} RunKeeps(t: Table, run: seq<Step>)
    requires Inv(t) && Kids(t) && Legal(t, run)
    ensures Inv(Exec(t, run)) && Kids(Exec(t, run))
    decreases |run|
  {
    hide Inv, Kids, Enabled, Next;
    if run != [] {
      StepKeeps(t, run[0]);
      KidsKept(t, run[0]);
      RunKeeps(Next(t, run[0]), run[1..]);
    }
  }

  lemma StartIs(nproc: nat)
    requires nproc > 0
    ensures Inv(Start(nproc)) && Kids(Start(nproc))
  {
  }

  /** From slot i parents lead to init in at most n steps, all of them alive. */
  ghost predicate LeadsToInit(t: Table, i: nat, n: nat)
    decreases n
  {
    i == t.init ||
    (n > 0 && i < |t.procs| && t.procs[i].parent.Some? && t.procs[i].parent.value < |t.procs|
     && Live(t.procs[t.procs[i].parent.value]) && LeadsToInit(t, t.procs[i].parent.value, n - 1))
  }

  lemma {:induction false} Chain(t: Table, i: nat, n: nat)
    requires Inv(t) && i < |t.procs| && !t.procs[i].state.UNUSED? && !t.procs[i].state.EMBRYO? && t.procs[i].pid <= n
    ensures LeadsToInit(t, i, n)
    decreases n
  {
    hide Pids, Reports, ForkOk, WaitOk;
    assert ParentOk(t, i);
    if i != t.init {
      Chain(t, t.procs[i].parent.value, n - 1);
    }
  }

  /** In every run: who sleeps in wait has a child, and none that has exited; parents are alive and lead up
      to init; and every exited process is either still in the table, once, or was reported, once. */
  lemma {:induction false} ProcRuns(nproc: nat, run: seq<Step>)
    requires nproc > 0 && Legal(Start(nproc), run)
    ensures var t := Exec(Start(nproc), run);
      && (forall i, j | 0 <= i < |t.procs| && 0 <= j < |t.procs| && InWait(t, i) ::
            !(Child(t.procs[j], i) && t.procs[j].state.ZOMBIE?))
      && (forall i | 0 <= i < |t.procs| && InWait(t, i) :: exists j :: 0 <= j < |t.procs| && Child(t.procs[j], i))
      && (forall i | 0 <= i < |t.procs| && !t.procs[i].state.UNUSED? && !t.procs[i].state.EMBRYO? ::
            LeadsToInit(t, i, t.procs[i].pid))
      && (forall a, b | 0 <= a < b < |t.reported| :: t.reported[a] != t.reported[b])
      && (forall e :: e in t.exited <==> e in t.reported || Zombie(t, e))
      && (forall i | 0 <= i < |t.procs| && t.procs[i].pid > 0 :: t.procs[i].pid !in t.reported)
  {
    hide Exec, Pids, ForkOk, ParentOk;
    StartIs(nproc);
    RunKeeps(Start(nproc), run);
    var t := Exec(Start(nproc), run);
    forall i | 0 <= i < |t.procs| && !t.procs[i].state.UNUSED? && !t.procs[i].state.EMBRYO?
      ensures LeadsToInit(t, i, t.procs[i].pid)
    {
      Chain(t, i, t.procs[i].pid);
    }
    forall i, j | 0 <= i < |t.procs| && 0 <= j < |t.procs| && InWait(t, i)
      ensures !(Child(t.procs[j], i) && t.procs[j].state.ZOMBIE?)
    {
      assert WaitOk(t, i);
    }
  }
}
