/** The reader-writer lock of lab 9 (reader-writer.c) under any number of threads. */
module RwLock {
  // A step is what a thread does while it holds the mutex, or one access to the shared variable `data`.
  // Waiting threads may wake without being signalled.

  datatype Option<+T> = None | Some(value: T)

  // Wait: inside pthread_cond_wait, signalled or not
  datatype Thread =
    | Out
    | ReaderWait(signalled: bool)
    | Reading
    | WriterWait(signalled: bool)
    | Writing(loaded: Option<int>)  // data++: before and after the load
    | Written

  // stores: how often a writer has stored to data
  datatype Sys = Sys(r: int, w: int, inw: int, data: int, stores: nat, threads: seq<Thread>)

  datatype Step =
    | ReaderLock(t: nat)
    | ReaderUnlock(t: nat)
    | WriterLock(t: nat)
    | Load(t: nat)
    | Store(t: nat)
    | WriterUnlock(t: nat)
    | Resume(t: nat)    // a signalled thread takes the mutex again
    | Spurious(t: nat)

  predicate Enabled(s: Sys, step: Step) {
    step.t < |s.threads| &&
    var a := s.threads[step.t];
    match step
    case ReaderLock(_) => a.Out?
    case ReaderUnlock(_) => a.Reading?
    case WriterLock(_) => a.Out?
    case Load(_) => a == Writing(None)
    case Store(_) => a.Writing? && a.loaded.Some?
    case WriterUnlock(_) => a.Written?
    case Resume(_) => (a.ReaderWait? || a.WriterWait?) && a.signalled
    case Spurious(_) => a.ReaderWait? || a.WriterWait?
  }

  // pthread_cond_broadcast of cond_w, and of cond_r
  function Signal(a: Thread, readers: bool, writers: bool): Thread {
    if a.ReaderWait? && readers then ReaderWait(true)
    else if a.WriterWait? && writers then WriterWait(true)
    else a
  }

  function Broadcast(ts: seq<Thread>, readers: bool, writers: bool): (r: seq<Thread>)
    ensures |r| == |ts| && forall t | 0 <= t < |ts| :: r[t] == Signal(ts[t], readers, writers)
  {
    if ts == [] then [] else Broadcast(ts[..|ts| - 1], readers, writers) + [Signal(ts[|ts| - 1], readers, writers)]
  }

  /** The loop of ReaderLock and what follows it. */
  function TryRead(s: Sys, t: nat): Sys
    requires t < |s.threads|
  {
    if s.w > 0 then s.(threads := s.threads[t := ReaderWait(false)])
    else s.(r := s.r + 1, threads := s.threads[t := Reading])
  }

  /** The loop of WriterLock and what follows it. */
  function TryWrite(s: Sys, t: nat): Sys
    requires t < |s.threads|
  {
    if s.r > 0 || s.inw > 0 then s.(threads := s.threads[t := WriterWait(false)])
    else s.(inw := s.inw + 1, threads := s.threads[t := Writing(None)])
  }

  function Next(s: Sys, step: Step): Sys
    requires Enabled(s, step)
  {
    var t := step.t;
    match step
    case ReaderLock(_) => TryRead(s, t)
    case ReaderUnlock(_) =>
      var ts := s.threads[t := Out];
      s.(r := s.r - 1, threads := if s.r - 1 == 0 then Broadcast(ts, false, true) else ts)
    case WriterLock(_) => TryWrite(s.(w := s.w + 1), t)
    case Load(_) => s.(threads := s.threads[t := Writing(Some(s.data))])
    case Store(_) =>
      s.(data := s.threads[t].loaded.value + 1, stores := s.stores + 1, threads := s.threads[t := Written])
    case WriterUnlock(_) => s.(w := s.w - 1, inw := s.inw - 1, threads := Broadcast(s.threads[t := Out], true, true))
    case Resume(_) => if s.threads[t].ReaderWait? then TryRead(s, t) else TryWrite(s, t)
    case Spurious(_) => s.(threads := s.threads[t := Signal(s.threads[t], true, true)])
  }

  // Counting threads ------------------------------------------------------------------------------

  datatype Group = Readers | Writers | Announced

  predicate Is(a: Thread, g: Group) {
    match g
    case Readers => a.Reading?
    case Writers => a.Writing? || a.Written?
    case Announced => a.WriterWait? || a.Writing? || a.Written?
  }

  function Tally(ts: seq<Thread>, g: Group): nat {
    if ts == [] then 0 else Tally(ts[..|ts| - 1], g) + if Is(ts[|ts| - 1], g) then 1 else 0
  }

  lemma {:induction false} TallySet(ts: seq<Thread>, t: nat, a: Thread, g: Group)
    requires t < |ts|
    ensures Tally(ts[t := a], g) == Tally(ts, g) - (if Is(ts[t], g) then 1 else 0) + (if Is(a, g) then 1 else 0)
  {
    var m := |ts| - 1;
    if t == m {
      assert ts[t := a][..m] == ts[..m];
    } else {
      assert ts[t := a][..m] == ts[..m][t := a];
      TallySet(ts[..m], t, a, g);
    }
  }

  lemma {:induction false} TallySame(ts: seq<Thread>, us: seq<Thread>, g: Group)
    requires |ts| == |us| && forall t | 0 <= t < |ts| :: Is(ts[t], g) == Is(us[t], g)
    ensures Tally(ts, g) == Tally(us, g)
  {
    if ts != [] {
      TallySame(ts[..|ts| - 1], us[..|us| - 1], g);
    }
  }

  lemma {:induction false} TallyPositive(ts: seq<Thread>, g: Group)
    ensures Tally(ts, g) > 0 <==> exists t :: 0 <= t < |ts| && Is(ts[t], g)
  {
    if ts != [] {
      var m := |ts| - 1;
      TallyPositive(ts[..m], g);
      if t :| 0 <= t < m && Is(ts[..m][t], g) {
        assert Is(ts[t], g);
      }
      if t :| 0 <= t < |ts| && Is(ts[t], g) {
        assert t < m ==> Is(ts[..m][t], g);
      }
    }
  }

  lemma {:induction false} TallyTwo(ts: seq<Thread>, t: nat, u: nat, g: Group)
    requires t < |ts| && u < |ts| && t != u && Is(ts[t], g) && Is(ts[u], g)
    ensures Tally(ts, g) >= 2
  {
    TallySet(ts, t, Out, g);
    TallySet(ts[t := Out], u, Out, g);
  }

  // The invariant -----------------------------------------------------------------------------------

  /** A waiter nobody has signalled has someone to wait for; a value loaded is still current. */
  predicate ThreadOk(s: Sys, a: Thread) {
    && (a == ReaderWait(false) ==> s.w > 0)
    && (a == WriterWait(false) ==> s.r > 0 || s.inw > 0)
    && (a.Writing? && a.loaded.Some? ==> a.loaded.value == s.data)
  }

  ghost predicate Inv(s: Sys) {
    && s.r == Tally(s.threads, Readers) && s.inw == Tally(s.threads, Writers) && s.w == Tally(s.threads, Announced)
    && s.inw <= 1 && (s.inw == 1 ==> s.r == 0) && s.inw <= s.w
    && s.data == s.stores
    && forall t | 0 <= t < |s.threads| :: ThreadOk(s, s.threads[t])
  }

  lemma Tallies(ts: seq<Thread>, us: seq<Thread>, t: nat, a: Thread)
    requires t < |ts| == |us| && forall k, g | 0 <= k < |ts| :: Is(us[k], g) == Is(ts[t := a][k], g)
    ensures forall g :: Tally(us, g) == Tally(ts, g) - (if Is(ts[t], g) then 1 else 0) + (if Is(a, g) then 1 else 0)
  {
    forall g ensures Tally(us, g) == Tally(ts, g) - (if Is(ts[t], g) then 1 else 0) + (if Is(a, g) then 1 else 0) {
      TallySet(ts, t, a, g);
      TallySame(us, ts[t := a], g);
    }
  }

  /** What the step makes of its own thread, before any broadcast. */
  function Own(s: Sys, step: Step): Thread
    requires Enabled(s, step)
  {
    match step
    case ReaderUnlock(_) => Out
    case WriterUnlock(_) => Out
    case _ => Next(s, step).threads[step.t]
  }

  lemma {:induction false} StepKeeps(s: Sys, step: Step)
    requires Inv(s) && Enabled(s, step)
    ensures Inv(Next(s, step))
  {
    hide Tally, Broadcast;
    var u, t := Next(s, step), step.t;
    Tallies(s.threads, u.threads, t, Own(s, step));
    TallyPositive(s.threads, Writers);
    TallyPositive(s.threads, Readers);
    TallyPositive(s.threads, Announced);
    forall k | 0 <= k < |u.threads| ensures ThreadOk(u, u.threads[k]) {
      assert ThreadOk(s, s.threads[k]) && ThreadOk(s, s.threads[t]);
      if step.Store? && k != t && s.threads[k].Writing? {
        TallyTwo(s.threads, t, k, Writers);
      }
    }
  }

  // Runs ---------------------------------------------------------------------------------------------

  predicate Legal(s: Sys, run: seq<Step>)
    decreases |run|
  {
    run == [] || (Enabled(s, run[0]) && Legal(Next(s, run[0]), run[1..]))
  }

  function Exec(s: Sys, run: seq<Step>): Sys
    requires Legal(s, run)
    decreases |run|
  {
    if run == [] then s else Exec(Next(s, run[0]), run[1..])
  }

  /** InitalizeReadWriteLock, with n threads. */
  function Start(n: nat): Sys {
    Sys(0, 0, 0, 0, 0, seq(n, _ => Out))
  }

  lemma {:induction false} RunKeeps(s: Sys, run: seq<Step>)
    requires Inv(s) && Legal(s, run)
    ensures Inv(Exec(s, run))
    decreases |run|
  {
    hide Inv, Enabled, Next;
    if run != [] {
      StepKeeps(s, run[0]);
      RunKeeps(Next(s, run[0]), run[1..]);
    }
  }

  /** How often the run stores to data. */
  function Stores(run: seq<Step>): nat {
    if run == [] then 0 else (if run[0].Store? then 1 else 0) + Stores(run[1..])
  }

  lemma {:induction false} RunStores(s: Sys, run: seq<Step>)
    requires Legal(s, run)
    ensures Exec(s, run).stores == s.stores + Stores(run)
    decreases |run|
  {
    if run != [] {
      RunStores(Next(s, run[0]), run[1..]);
    }
  }

  /** A step some thread can take by itself, without being woken spuriously. */
  ghost predicate CanMove(s: Sys, t: nat) {
    t < |s.threads| && exists step: Step :: Enabled(s, step) && step.t == t && !step.Spurious?
  }

  /** As long as a thread waits, some thread that is not waiting unsignalled can go on. */
  lemma {:induction false} NotStuck(s: Sys, t: nat)
    requires Inv(s) && t < |s.threads| && !s.threads[t].Out?
    ensures exists u :: 0 <= u < |s.threads| && CanMove(s, u) && !s.threads[u].Out?
  {
    hide Tally;
    assert ThreadOk(s, s.threads[t]);
    if s.threads[t] == ReaderWait(false) || s.threads[t] == WriterWait(false) {
      TallyPositive(s.threads, Writers);
      TallyPositive(s.threads, Readers);
      TallyPositive(s.threads, Announced);
      if u :| 0 <= u < |s.threads| && (Is(s.threads[u], Writers) || Is(s.threads[u], Readers)) {
        HolderMoves(s, u);
      } else {
        var u :| 0 <= u < |s.threads| && Is(s.threads[u], Announced);
        assert ThreadOk(s, s.threads[u]);
        assert Enabled(s, Resume(u));
        assert CanMove(s, u);
      }
    } else if s.threads[t].ReaderWait? || s.threads[t].WriterWait? {
      assert Enabled(s, Resume(t));
      assert CanMove(s, t);
    } else {
      HolderMoves(s, t);
    }
  }

  lemma HolderMoves(s: Sys, u: nat)
    requires u < |s.threads| && (Is(s.threads[u], Writers) || Is(s.threads[u], Readers))
    ensures CanMove(s, u)
  {
    var step := match s.threads[u]
      case Reading => ReaderUnlock(u)
      case Written => WriterUnlock(u)
      case Writing(None) => Load(u)
      case _ => Store(u);
    assert Enabled(s, step);
  }

  /** Once a writer has announced itself no reader enters. */
  lemma {:induction false} NoOvertaking(s: Sys, step: Step, t: nat)
    requires Inv(s) && Enabled(s, step) && t < |s.threads|
    requires exists u :: 0 <= u < |s.threads| && Is(s.threads[u], Announced)
    ensures Next(s, step).threads[t].Reading? ==> s.threads[t].Reading?
  {
    hide Tally, Broadcast;
    TallyPositive(s.threads, Announced);
  }

  /** In every run of any number of threads: at most one writer is inside and then no reader is, data
      counts the writers' increments, and whoever waits can count on someone else to go on. */
  lemma {:induction false} LockRuns(n: nat, run: seq<Step>)
    requires Legal(Start(n), run)
    ensures var s := Exec(Start(n), run);
      && 0 <= s.inw <= 1 && (s.inw == 1 ==> s.r == 0) && s.inw <= s.w && s.data == Stores(run)
      && (forall t, u | 0 <= t < |s.threads| && 0 <= u < |s.threads| && t != u && Is(s.threads[t], Writers) ::
            !Is(s.threads[u], Writers) && !Is(s.threads[u], Readers))
      && (forall t | 0 <= t < |s.threads| && !s.threads[t].Out? ::
            exists u :: 0 <= u < |s.threads| && CanMove(s, u) && !s.threads[u].Out?)
  {
    hide Exec, CanMove;
    forall g ensures Tally(Start(n).threads, g) == 0 {
      TallyPositive(Start(n).threads, g);
    }
    RunKeeps(Start(n), run);
    RunStores(Start(n), run);
    var s := Exec(Start(n), run);
    forall t, u | 0 <= t < |s.threads| && 0 <= u < |s.threads| && t != u && Is(s.threads[t], Writers)
      ensures !Is(s.threads[u], Writers) && !Is(s.threads[u], Readers)
    {
      Alone(s, t, u);
    }
    forall t | 0 <= t < |s.threads| && !s.threads[t].Out?
      ensures exists u :: 0 <= u < |s.threads| && CanMove(s, u) && !s.threads[u].Out?
    {
      NotStuck(s, t);
    }
  }

  lemma Alone(s: Sys, t: nat, u: nat)
    requires Inv(s) && t < |s.threads| && u < |s.threads| && t != u && Is(s.threads[t], Writers)
    ensures !Is(s.threads[u], Writers) && !Is(s.threads[u], Readers)
  {
    hide Tally;
    TallyPositive(s.threads, Readers);
    TallyPositive(s.threads, Writers);
    if Is(s.threads[u], Writers) {
      TallyTwo(s.threads, t, u, Writers);
    }
  }

  lemma BroadcastTwice(ts: seq<Thread>)
    ensures Broadcast(Broadcast(ts, false, true), true, false) == Broadcast(ts, true, true)
  {
  }

  // The code -----------------------------------------------------------------------------------------

  /** struct read_write_lock; thread holds who waits on its conditions. */
  class ReadWriteLock {
    var r: int
    var w: int
    var inw: int
    const thread: array<Thread>

    constructor (thread: array<Thread>)
      ensures this.thread == thread && r == w == inw == 0
    {
      r, w, inw := 0, 0, 0;
      this.thread := thread;
    }

    ghost function Abs(data: int, stores: nat): Sys
      reads this, thread
    {
      Sys(r, w, inw, data, stores, thread[..])
    }

    /** pthread_cond_broadcast */
    method CondBroadcast(readers: bool)
      modifies thread
      ensures thread[..] == Broadcast(old(thread[..]), readers, !readers)
      ensures forall t | 0 <= t < thread.Length ::
        thread[t] == if old(thread[t]) == ReaderWait(false) && readers then ReaderWait(true)
          else if old(thread[t]) == WriterWait(false) && !readers then WriterWait(true)
          else old(thread[t])
    {
      var i := 0;
      while i < thread.Length
        invariant 0 <= i <= thread.Length
        invariant forall j | 0 <= j < thread.Length ::
          thread[j] == if j < i then Signal(old(thread[j]), readers, !readers) else old(thread[j])
      {
        if readers && thread[i].ReaderWait? {
          thread[i] := ReaderWait(true);
        } else if !readers && thread[i].WriterWait? {
          thread[i] := WriterWait(true);
        }
        i := i + 1;
      }
    }

    /** ReaderLock by thread t from its loop on: false if it waits. */
    method ReaderLock(t: nat, ghost data: int, ghost stores: nat) returns (entered: bool)
      requires t < thread.Length
      modifies this`r, thread
      ensures Abs(data, stores) == TryRead(old(Abs(data, stores)), t) && entered == (w <= 0)
      ensures old(thread[t]) == Out ==> Abs(data, stores) == Next(old(Abs(data, stores)), Step.ReaderLock(t))
      ensures old(thread[t]) == ReaderWait(true) ==> Abs(data, stores) == Next(old(Abs(data, stores)), Resume(t))
      ensures r == old(r) + if entered then 1 else 0
      ensures thread[..] == old(thread[..])[t := if entered then Reading else ReaderWait(false)]
    {
      if w > 0 {
        thread[t] := ReaderWait(false);
        return false;
      }
      r := r + 1;
      thread[t] := Reading;
      entered := true;
    }

    method ReaderUnlock(t: nat, ghost data: int, ghost stores: nat)
      requires Enabled(Abs(data, stores), Step.ReaderUnlock(t))
      modifies this`r, thread
      ensures Abs(data, stores) == Next(old(Abs(data, stores)), Step.ReaderUnlock(t)) && r == old(r) - 1
      ensures forall u | 0 <= u < thread.Length ::
        thread[u] == if u == t then Out
          else if r == 0 && old(thread[u]) == WriterWait(false) then WriterWait(true)
          else old(thread[u])
    {
      r := r - 1;
      thread[t] := Out;
      if r == 0 {
        CondBroadcast(false);
      }
    }

    /** WriterLock by thread t, or its loop again when `announced`. */
    method WriterLock(t: nat, announced: bool, ghost data: int, ghost stores: nat) returns (entered: bool)
      requires t < thread.Length
      modifies this`w, this`inw, thread
      ensures var s := old(Abs(data, stores));
        Abs(data, stores) == TryWrite(if announced then s else s.(w := s.w + 1), t)
      ensures entered == (r <= 0 && old(inw) <= 0)
      ensures w == old(w) + (if announced then 0 else 1) && inw == old(inw) + if entered then 1 else 0
      ensures thread[..] == old(thread[..])[t := if entered then Writing(None) else WriterWait(false)]
      ensures !announced && old(thread[t]) == Out ==>
        Abs(data, stores) == Next(old(Abs(data, stores)), Step.WriterLock(t))
      ensures announced && old(thread[t]) == WriterWait(true) ==>
        Abs(data, stores) == Next(old(Abs(data, stores)), Resume(t))
    {
      if !announced {
        w := w + 1;
      }
      if r > 0 || inw > 0 {
        thread[t] := WriterWait(false);
        return false;
      }
      inw := inw + 1;
      thread[t] := Writing(None);
      entered := true;
    }

    method WriterUnlock(t: nat, ghost data: int, ghost stores: nat)
      requires Enabled(Abs(data, stores), Step.WriterUnlock(t))
      modifies this`w, this`inw, thread
      ensures Abs(data, stores) == Next(old(Abs(data, stores)), Step.WriterUnlock(t))
      ensures w == old(w) - 1 && inw == old(inw) - 1
      ensures forall u | 0 <= u < thread.Length ::
        thread[u] == if u == t then Out
          else if old(thread[u]) == ReaderWait(false) then ReaderWait(true)
          else if old(thread[u]) == WriterWait(false) then WriterWait(true)
          else old(thread[u])
    {
      hide Broadcast;
      BroadcastTwice(thread[..][t := Out]);
      w := w - 1;
      inw := inw - 1;
      thread[t] := Out;
      assert thread[..] == old(thread[..])[t := Out];
      CondBroadcast(false);
      CondBroadcast(true);
    }
  }
}
