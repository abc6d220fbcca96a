/** prodcon.c: producers and consumers of a bounded buffer, on three semaphores and a shared counter. */
module ProdCon {
  import S = Semaphore

  // Before sem_down(0) or (1), sem_down(2), get_var, set_var, sem_up(2), sem_up(1) or (0).
  datatype Pc = Await | Enter | Load | Store(v: int) | Leave | Signal

  datatype Worker = Worker(producer: bool, left: nat, pc: Pc)

  datatype Sys = Sys(sem: S.Sys, workers: seq<Worker>, counter: int)

  // The semaphores: free places, items, and the lock.
  const FREE: nat := 0
  const ITEMS: nat := 1
  const LOCK: nat := 2

  function Takes(w: Worker): nat {
    if w.producer then FREE else ITEMS
  }

  function Gives(w: Worker): nat {
    if w.producer then ITEMS else FREE
  }

  datatype Step = Move(t: nat) | Rouse(t: nat)

  /** Worker t can go on: it has work left and is not asleep. */
  predicate Enabled(s: Sys, step: Step) {
    && step.t < |s.workers| == |s.sem.procs| && |s.sem.sems| == 3
    && (step.Move? ==>
          && var w, p := s.workers[step.t], s.sem.procs[step.t];
            && (p.Down? ==> !p.asleep && p.k < 3)
            && w.left > 0
            && (!w.pc.Await? && !w.pc.Enter? ==> p.Out?))
  }

  /** A worker at a sem_down: it calls it, or tries again. */
  function Down(s: Sys, t: nat, k: nat, next: Pc): Sys
    requires Enabled(s, Move(t))
  {
    if s.sem.procs[t].Out? then s.(sem := S.Next(s.sem, S.Call(t, k)))
    else
      var sem := S.Next(s.sem, S.Try(t));
      s.(sem := sem, workers := if sem.procs[t].Out? then s.workers[t := s.workers[t].(pc := next)] else s.workers)
  }

  function MoveWorker(s: Sys, t: nat): Sys
    requires Enabled(s, Move(t))
  {
    var w := s.workers[t];
    match w.pc
    case Await => Down(s, t, Takes(w), Enter)
    case Enter => Down(s, t, LOCK, Load)
    case Load => s.(workers := s.workers[t := w.(pc := Store(s.counter + if w.producer then 1 else -1))])
    case Store(v) => s.(counter := v, workers := s.workers[t := w.(pc := Leave)])
    case Leave => s.(sem := S.Next(s.sem, S.Up(t, LOCK)), workers := s.workers[t := w.(pc := Signal)])
    case Signal =>
      s.(sem := S.Next(s.sem, S.Up(t, Gives(w))), workers := s.workers[t := w.(pc := Await, left := w.left - 1)])
  }

  function Next(s: Sys, step: Step): Sys
    requires Enabled(s, step)
  {
    match step
    case Move(t) => MoveWorker(s, t)
    case Rouse(t) => s.(sem := S.Next(s.sem, S.Rouse(t)))
  }

  // Counting workers ----------------------------------------------------------------------------

  // Inside the lock; past sem_down and not yet past set_var; past set_var and not yet past sem_up.
  datatype Group = Locked | Before(producer: bool) | After(producer: bool)

  predicate Is(w: Worker, g: Group) {
    match g
    case Locked => w.pc.Load? || w.pc.Store? || w.pc.Leave?
    case Before(p) => w.producer == p && (w.pc.Enter? || w.pc.Load? || w.pc.Store?)
    case After(p) => w.producer == p && (w.pc.Leave? || w.pc.Signal?)
  }

  function Tally(ws: seq<Worker>, g: Group): nat {
    if ws == [] then 0
    else Tally(ws[..|ws| - 1], g) + if Is(ws[|ws| - 1], g) then 1 else 0
  }

  lemma {:induction false} TallySet(ws: seq<Worker>, t: nat, w: Worker, g: Group)
    requires t < |ws|
    ensures Tally(ws[t := w], g) == Tally(ws, g) - (if Is(ws[t], g) then 1 else 0) + (if Is(w, g) then 1 else 0)
  {
    var m := |ws| - 1;
    if t == m {
      assert ws[t := w][..m] == ws[..m];
    } else {
      assert ws[t := w][..m] == ws[..m][t := w];
      TallySet(ws[..m], t, w, g);
    }
  }

  lemma {:induction false} TallyTwo(ws: seq<Worker>, t: nat, u: nat, g: Group)
    requires t < |ws| && u < |ws| && t != u && Is(ws[t], g) && Is(ws[u], g)
    ensures Tally(ws, g) >= 2
  {
    var w := Worker(true, 0, Await);
    TallySet(ws, t, w, g);
    TallySet(ws[t := w], u, w, g);
  }

  // The invariant -------------------------------------------------------------------------------

  /** A worker waits on the semaphore it is at, and the value it is about to store is the counter's. */
  predicate WorkerOk(s: Sys, t: nat)
    requires t < |s.workers| == |s.sem.procs|
  {
    var w, p := s.workers[t], s.sem.procs[t];
    && (p.Down? ==> (w.pc.Await? && p.k == Takes(w) && w.left > 0) || (w.pc.Enter? && p.k == LOCK))
    && (w.pc.Store? ==> w.pc.v == s.counter + if w.producer then 1 else -1)
    && (!w.pc.Await? ==> w.left > 0)
  }

  ghost predicate Inv(s: Sys, bsize: nat) {
    && S.Inv(s.sem) && |s.sem.sems| == 3 && |s.workers| == |s.sem.procs|
    && (forall t | 0 <= t < |s.workers| :: WorkerOk(s, t))
    && s.sem.sems[LOCK].value + Tally(s.workers, Locked) == 1
    && s.counter == s.sem.sems[ITEMS].value + Tally(s.workers, After(true)) + Tally(s.workers, Before(false))
    && bsize == s.counter + s.sem.sems[FREE].value + Tally(s.workers, Before(true)) + Tally(s.workers, After(false))
  }

  /** Only one worker is inside the lock. */
  lemma {:induction false} OneLocked(s: Sys, bsize: nat, t: nat, u: nat)
    requires Inv(s, bsize) && t < |s.workers| && u < |s.workers| && t != u && Is(s.workers[t], Locked)
    ensures !Is(s.workers[u], Locked)
  {
    if Is(s.workers[u], Locked) {
      TallyTwo(s.workers, t, u, Locked);
    }
  }

  lemma TallyAll(ws: seq<Worker>, t: nat, w: Worker)
    requires t < |ws|
    ensures forall g ::
      Tally(ws[t := w], g) == Tally(ws, g) - (if Is(ws[t], g) then 1 else 0) + (if Is(w, g) then 1 else 0)
  {
    forall g
      ensures Tally(ws[t := w], g) == Tally(ws, g) - (if Is(ws[t], g) then 1 else 0) + (if Is(w, g) then 1 else 0)
    {
      TallySet(ws, t, w, g);
    }
  }

  lemma MoveOk(s: Sys, bsize: nat, t: nat, j: nat)
    requires Inv(s, bsize) && Enabled(s, Move(t)) && j < |s.workers|
    ensures var u := MoveWorker(s, t); |u.workers| == |u.sem.procs| == |s.workers| && WorkerOk(u, j)
  {
    hide Tally, Inv;
    Unpack(s, bsize, t);
    Unpack(s, bsize, j);
    if s.workers[t].pc.Store? && j != t {
      OneLocked(s, bsize, t, j);
    }
  }

  lemma Unpack(s: Sys, bsize: nat, t: nat)
    requires Inv(s, bsize) && t < |s.workers|
    ensures |s.workers| == |s.sem.procs| && |s.sem.sems| == 3 && WorkerOk(s, t)
  {
    hide Tally;
  }

  lemma {:induction false} MoveKeeps(s: Sys, bsize: nat, t: nat)
    requires Inv(s, bsize) && Enabled(s, Move(t))
    ensures Inv(MoveWorker(s, t), bsize)
  {
    hide Tally, WorkerOk, S.Inv, S.Wake;
    var w, u := s.workers[t], MoveWorker(s, t);
    TallyAll(s.workers, t, u.workers[t]);
    Sems(s, bsize, t);
    forall j | 0 <= j < |s.workers| ensures WorkerOk(u, j) {
      MoveOk(s, bsize, t, j);
    }
  }

  lemma Sems(s: Sys, bsize: nat, t: nat)
    requires Inv(s, bsize) && Enabled(s, Move(t))
    ensures S.Inv(MoveWorker(s, t).sem)
    ensures s.workers[t].pc.Store? ==> s.workers[t].pc.v == s.counter + if s.workers[t].producer then 1 else -1
    ensures s.sem.procs[t].Down? ==> s.sem.procs[t].k == if s.workers[t].pc.Await? then Takes(s.workers[t]) else LOCK
  {
    hide Tally, S.Inv;
    var w := s.workers[t];
    assert WorkerOk(s, t);
    match w.pc {
      case Await => DownKeeps(s, t, Takes(w));
      case Enter => DownKeeps(s, t, LOCK);
      case Leave => S.StepKeeps(s.sem, S.Up(t, LOCK));
      case Signal => S.StepKeeps(s.sem, S.Up(t, Gives(w)));
      case _ =>
    }
  }

  lemma DownKeeps(s: Sys, t: nat, k: nat)
    requires S.Inv(s.sem) && Enabled(s, Move(t))
    ensures s.sem.procs[t].Out? ==> S.Inv(S.Next(s.sem, S.Call(t, k)))
    ensures s.sem.procs[t].Down? ==> S.Inv(S.Next(s.sem, S.Try(t)))
  {
    if s.sem.procs[t].Out? {
      S.StepKeeps(s.sem, S.Call(t, k));
    } else {
      S.StepKeeps(s.sem, S.Try(t));
    }
  }

  lemma {:induction false} StepKeeps(s: Sys, bsize: nat, step: Step)
    requires Inv(s, bsize) && Enabled(s, step)
    ensures Inv(Next(s, step), bsize)
  {
    hide Tally;
    if step.Move? {
      MoveKeeps(s, bsize, step.t);
    } else {
      S.StepKeeps(s.sem, S.Rouse(step.t));
      var u := Next(s, step);
      forall j | 0 <= j < |s.workers| ensures WorkerOk(u, j) {
        assert WorkerOk(s, j);
      }
    }
  }

  predicate Legal(s: Sys, run: seq<Step>)
    decreases |run|
  {
    run == [] || (Enabled(s, run[0]) && Legal(Next(s, run[0]), run[1..]))
  }

  function Exec(s: Sys, run: seq<Step>): Sys
    requires Legal(s, run)
    decreases |run|
  {
    if run == [] then s else Exec(Next(s, run[0]), run[1..])
  }

  /** main, after the semaphores are made and all processes forked. */
  function Start(bsize: nat, np: nat, pitems: nat, nc: nat, citems: nat): Sys {
    Sys(S.Start([bsize, 0, 1], np + nc),
        seq(np, _ => Worker(true, pitems, Await)) + seq(nc, _ => Worker(false, citems, Await)), 0)
  }

  lemma {:induction false} RunKeeps(s: Sys, bsize: nat, run: seq<Step>)
    requires Inv(s, bsize) && Legal(s, run)
    ensures Inv(Exec(s, run), bsize)
    decreases |run|
  {
    hide Inv, Enabled, Next;
    if run != [] {
      StepKeeps(s, bsize, run[0]);
      RunKeeps(Next(s, run[0]), bsize, run[1..]);
    }
  }

  lemma {:induction false} TallyNone(ws: seq<Worker>, g: Group)
    requires forall t | 0 <= t < |ws| :: ws[t].pc.Await?
    ensures Tally(ws, g) == 0
  {
    if ws != [] {
      TallyNone(ws[..|ws| - 1], g);
    }
  }

  /** For any numbers of producers, consumers and items the counter stays within the buffer, and only
      one process is between sem_down(2) and sem_up(2). */
  lemma {:induction false} CounterInBounds(bsize: nat, np: nat, pitems: nat, nc: nat, citems: nat, run: seq<Step>)
    requires Legal(Start(bsize, np, pitems, nc, citems), run)
    ensures var s := Exec(Start(bsize, np, pitems, nc, citems), run);
      && 0 <= s.counter <= bsize
      && forall t, u | 0 <= t < u < |s.workers| :: !(Is(s.workers[t], Locked) && Is(s.workers[u], Locked))
  {
    hide Exec;
    var s0 := Start(bsize, np, pitems, nc, citems);
    forall g ensures Tally(s0.workers, g) == 0 {
      TallyNone(s0.workers, g);
    }
    RunKeeps(s0, bsize, run);
    var s := Exec(s0, run);
    forall t, u | 0 <= t < u < |s.workers| ensures !(Is(s.workers[t], Locked) && Is(s.workers[u], Locked)) {
      if Is(s.workers[t], Locked) {
        OneLocked(s, bsize, t, u);
      }
    }
  }

  // How runs end ----------------------------------------------------------------------------------

  /** The items producers, or consumers, have still to do. */
  function Left(ws: seq<Worker>, producer: bool): nat {
    if ws == [] then 0
    else Left(ws[..|ws| - 1], producer) + if ws[|ws| - 1].producer == producer then ws[|ws| - 1].left else 0
  }

  lemma {:induction false} LeftSet(ws: seq<Worker>, t: nat, w: Worker, producer: bool)
    requires t < |ws| && w.producer == ws[t].producer
    ensures Left(ws[t := w], producer) ==
      Left(ws, producer) + if w.producer == producer then w.left - ws[t].left else 0
  {
    var m := |ws| - 1;
    if t == m {
      assert ws[t := w][..m] == ws[..m];
    } else {
      assert ws[t := w][..m] == ws[..m][t := w];
      LeftSet(ws[..m], t, w, producer);
    }
  }

  lemma {:induction false} LeftEach(ws: seq<Worker>, producer: bool, n: nat)
    requires forall t | 0 <= t < |ws| && ws[t].producer == producer :: ws[t].left == n
    requires forall t | 0 <= t < |ws| :: ws[t].producer == producer
    ensures Left(ws, producer) == |ws| * n && Left(ws, !producer) == 0
  {
    if ws != [] {
      LeftEach(ws[..|ws| - 1], producer, n);
      assert |ws| * n == (|ws| - 1) * n + n;
    }
  }

  lemma {:induction false} LeftConcat(ws: seq<Worker>, vs: seq<Worker>, producer: bool)
    ensures Left(ws + vs, producer) == Left(ws, producer) + Left(vs, producer)
    decreases |vs|
  {
    if vs == [] {
      assert ws + vs == ws;
    } else {
      assert (ws + vs)[..|ws + vs| - 1] == ws + vs[..|vs| - 1];
      LeftConcat(ws, vs[..|vs| - 1], producer);
    }
  }

  lemma {:induction false} LeftNone(ws: seq<Worker>, producer: bool)
    ensures Left(ws, producer) == 0 <==> forall t | 0 <= t < |ws| && ws[t].producer == producer :: ws[t].left == 0
  {
    if ws != [] {
      LeftNone(ws[..|ws| - 1], producer);
    }
  }

  /** The counter and the work to be done: it stays what it is at the start. */
  function Balance(s: Sys): int {
    s.counter + Left(s.workers, true) - Tally(s.workers, After(true))
      - Left(s.workers, false) + Tally(s.workers, After(false))
  }

  lemma {:induction false} BalanceKept(s: Sys, bsize: nat, step: Step)
    requires Inv(s, bsize) && Enabled(s, step)
    ensures Balance(Next(s, step)) == Balance(s)
  {
    hide Tally, Left, S.Inv, S.Next;
    var u, t := Next(s, step), step.t;
    assert WorkerOk(s, t);
    assert u.workers == s.workers[t := u.workers[t]];
    TallyAll(s.workers, t, u.workers[t]);
    LeftSet(s.workers, t, u.workers[t], true);
    LeftSet(s.workers, t, u.workers[t], false);
  }

  lemma {:induction false} RunBalance(s: Sys, bsize: nat, run: seq<Step>)
    requires Inv(s, bsize) && Legal(s, run)
    ensures Balance(Exec(s, run)) == Balance(s)
    decreases |run|
  {
    hide Inv, Enabled, Next, Balance;
    if run != [] {
      BalanceKept(s, bsize, run[0]);
      StepKeeps(s, bsize, run[0]);
      RunBalance(Next(s, run[0]), bsize, run[1..]);
    }
  }

  /** No worker can go on: each is done or asleep. */
  ghost predicate Still(s: Sys) {
    forall t | 0 <= t < |s.workers| :: !Enabled(s, Move(t))
  }

  lemma {:induction false} SomeLocked(ws: seq<Worker>)
    requires Tally(ws, Locked) > 0
    ensures exists t :: 0 <= t < |ws| && Is(ws[t], Locked)
  {
    if !Is(ws[|ws| - 1], Locked) {
      SomeLocked(ws[..|ws| - 1]);
      var t :| 0 <= t < |ws| - 1 && Is(ws[..|ws| - 1][t], Locked);
      assert Is(ws[t], Locked);
    }
  }

  lemma LockedMoves(s: Sys, bsize: nat, u: nat)
    requires Inv(s, bsize) && u < |s.workers| && Is(s.workers[u], Locked)
    ensures Enabled(s, Move(u))
  {
    hide Tally;
    assert WorkerOk(s, u);
  }

  /** Then nobody is past the first sem_down, and whoever has work left waits for a place or an item. */
  lemma StillWaits(s: Sys, bsize: nat, t: nat)
    requires Inv(s, bsize) && Still(s) && t < |s.workers|
    ensures s.workers[t].pc.Await?
    ensures s.workers[t].left > 0 ==> s.sem.sems[Takes(s.workers[t])].value == 0
  {
    hide Tally;
    assert WorkerOk(s, t) && !Enabled(s, Move(t));
    if s.workers[t].left > 0 && s.workers[t].pc.Enter? {
      SomeLocked(s.workers);
      var u :| 0 <= u < |s.workers| && Is(s.workers[u], Locked);
      LockedMoves(s, bsize, u);
    }
  }

  /** When no worker can go on the counter is what was produced less what was consumed. */
  lemma StillCounts(s: Sys, bsize: nat)
    requires Inv(s, bsize) && Still(s)
    ensures s.counter == s.sem.sems[ITEMS].value && bsize == s.counter + s.sem.sems[FREE].value
    ensures Balance(s) == s.counter + Left(s.workers, true) - Left(s.workers, false)
    ensures forall t | 0 <= t < |s.workers| && s.workers[t].left > 0 ::
      s.counter == if s.workers[t].producer then bsize else 0
  {
    hide Tally, Left;
    forall t | 0 <= t < |s.workers| ensures s.workers[t].pc.Await? {
      StillWaits(s, bsize, t);
    }
    forall g ensures Tally(s.workers, g) == 0 {
      TallyNone(s.workers, g);
    }
    forall t | 0 <= t < |s.workers| && s.workers[t].left > 0
      ensures s.counter == if s.workers[t].producer then bsize else 0
    {
      StillWaits(s, bsize, t);
    }
  }

  lemma StartBalance(bsize: nat, np: nat, pitems: nat, nc: nat, citems: nat)
    ensures Balance(Start(bsize, np, pitems, nc, citems)) == np * pitems - nc * citems
  {
    var ws := Start(bsize, np, pitems, nc, citems).workers;
    var ps, cs := seq(np, _ => Worker(true, pitems, Await)), seq(nc, _ => Worker(false, citems, Await));
    assert ws == ps + cs;
    LeftConcat(ps, cs, true);
    LeftConcat(ps, cs, false);
    LeftEach(ps, true, pitems);
    LeftEach(cs, false, citems);
    TallyNone(ws, After(true));
    TallyNone(ws, After(false));
  }

  /**
   * There is no deadlock: a run in which no worker can go on any more has all the work done, with what was produced
   * and not consumed in the buffer, if and only if the items produced cover those consumed and the rest fits.
   */
  lemma {:induction false} AllDoneIff(bsize: nat, np: nat, pitems: nat, nc: nat, citems: nat, run: seq<Step>)
    requires bsize > 0 && Legal(Start(bsize, np, pitems, nc, citems), run)
    requires Still(Exec(Start(bsize, np, pitems, nc, citems), run))
    ensures var s, rest := Exec(Start(bsize, np, pitems, nc, citems), run), np * pitems - nc * citems;
      && ((forall t | 0 <= t < |s.workers| :: s.workers[t].left == 0) <==> 0 <= rest <= bsize)
      && s.counter == if rest < 0 then 0 else if rest > bsize then bsize else rest
  {
    hide Exec, Tally, Left, Still, Balance;
    var s0 := Start(bsize, np, pitems, nc, citems);
    forall g ensures Tally(s0.workers, g) == 0 {
      TallyNone(s0.workers, g);
    }
    RunKeeps(s0, bsize, run);
    RunBalance(s0, bsize, run);
    StartBalance(bsize, np, pitems, nc, citems);
    var s := Exec(s0, run);
    StillCounts(s, bsize);
    LeftNone(s.workers, true);
    LeftNone(s.workers, false);
  }
}
