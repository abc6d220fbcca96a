/** The reusable barrier of lab quiz 3 (barrier.c). */
module Barrier {
  // A step is what a thread does while it holds the mutex. barrier_wait tests its condition once, not in
  // a loop, so it relies on being woken only by the broadcast.

  // Out: outside, having left generation `last` (-1 for none). Waiting: in pthread_cond_wait since
  // generation `gen`, signalled or not.
  datatype Thread = Out(last: int) | Waiting(gen: int, signalled: bool)

  datatype Sys = Sys(nt: nat, currt: nat, generation: nat, arrivals: nat, threads: seq<Thread>)

  datatype Step =
    | Arrive(t: nat)
    | Resume(t: nat)
    | Spurious(t: nat)  // waking without a signal

  predicate Enabled(s: Sys, step: Step) {
    step.t < |s.threads| &&
    match step
    case Arrive(t) => s.threads[t].Out?
    case Resume(t) => s.threads[t].Waiting? && s.threads[t].signalled
    case Spurious(t) => s.threads[t].Waiting? && !s.threads[t].signalled
  }

  function Signal(a: Thread): Thread {
    if a.Waiting? then a.(signalled := true) else a
  }

  // pthread_cond_broadcast
  function Broadcast(ts: seq<Thread>): (r: seq<Thread>)
    ensures |r| == |ts| && forall t | 0 <= t < |ts| :: r[t] == Signal(ts[t])
  {
    if ts == [] then [] else Broadcast(ts[..|ts| - 1]) + [Signal(ts[|ts| - 1])]
  }

  function Next(s: Sys, step: Step): Sys
    requires Enabled(s, step)
  {
    var t := step.t;
    match step
    case Arrive(_) =>
      var s1 := s.(currt := s.currt + 1, arrivals := s.arrivals + 1);
      if s1.currt != s.nt then s1.(threads := s.threads[t := Waiting(s.generation, false)])
      else s1.(currt := 0, generation := s.generation + 1, threads := Broadcast(s.threads)[t := Out(s.generation)])
    case _ => s.(threads := s.threads[t := Out(s.threads[t].gen)])
  }

  predicate Pending(a: Thread) {
    a.Waiting? && !a.signalled
  }

  /** How many wait unsignalled. */
  function Tally(ts: seq<Thread>): nat {
    if ts == [] then 0 else Tally(ts[..|ts| - 1]) + if Pending(ts[|ts| - 1]) then 1 else 0
  }

  lemma {:induction false} TallySet(ts: seq<Thread>, t: nat, a: Thread)
    requires t < |ts|
    ensures Tally(ts[t := a]) == Tally(ts) - (if Pending(ts[t]) then 1 else 0) + (if Pending(a) then 1 else 0)
  {
    var m := |ts| - 1;
    if t == m {
      assert ts[t := a][..m] == ts[..m];
    } else {
      assert ts[t := a][..m] == ts[..m][t := a];
      TallySet(ts[..m], t, a);
    }
  }

  lemma {:induction false} TallyNone(ts: seq<Thread>)
    requires forall t | 0 <= t < |ts| :: !Pending(ts[t])
    ensures Tally(ts) == 0
  {
    if ts != [] {
      TallyNone(ts[..|ts| - 1]);
    }
  }

  lemma {:induction false} TallyFull(ts: seq<Thread>)
    ensures Tally(ts) <= |ts|
    ensures Tally(ts) == |ts| ==> forall t | 0 <= t < |ts| :: Pending(ts[t])
  {
    if ts != [] {
      TallyFull(ts[..|ts| - 1]);
    }
  }

  /** The generation a thread last left, or waits for, against the current one. */
  ghost predicate ThreadOk(s: Sys, a: Thread) {
    match a
    case Out(last) => last < s.generation
    case Waiting(gen, true) => gen < s.generation
    case Waiting(gen, false) => gen == s.generation
  }

  ghost predicate Inv(s: Sys) {
    && s.currt < s.nt
    && s.arrivals == s.nt * s.generation + s.currt
    && Tally(s.threads) == s.currt
    && forall t | 0 <= t < |s.threads| :: ThreadOk(s, s.threads[t])
  }

  /** With exactly nt threads: none is more than a generation behind. */
  ghost predicate Near(s: Sys) {
    forall t | 0 <= t < |s.threads| && !Pending(s.threads[t]) ::
      (if s.threads[t].Out? then s.threads[t].last else s.threads[t].gen) == s.generation - 1
  }

  lemma Times(a: nat, b: nat)
    ensures a * (b + 1) == a * b + a
  {
  }

  /** Only a wakeup nobody signalled breaks the barrier. */
  lemma {:induction false} KeptIff(s: Sys, step: Step)
    requires Inv(s) && Enabled(s, step)
    ensures Inv(Next(s, step)) <==> !step.Spurious?
  {
    hide Tally, Broadcast;
    var u, t := Next(s, step), step.t;
    TallySet(s.threads, t, u.threads[t]);
    if step.Arrive? && u.generation > s.generation {
      TallyNone(u.threads);
      Times(s.nt, s.generation);
    }
  }

  lemma {:induction false} NearKept(s: Sys, step: Step)
    requires Inv(s) && Near(s) && |s.threads| == s.nt && Enabled(s, step) && !step.Spurious?
    ensures Near(Next(s, step))
  {
    hide Tally, Broadcast;
    var u, t := Next(s, step), step.t;
    if step.Arrive? && u.generation > s.generation {
      TallySet(s.threads, t, Waiting(s.generation, false));
      TallyFull(s.threads[t := Waiting(s.generation, false)]);
      forall j | 0 <= j < |s.threads| && j != t ensures Pending(s.threads[j]) {
        assert Pending(s.threads[t := Waiting(s.generation, false)][j]);
      }
    }
  }

  predicate Legal(s: Sys, run: seq<Step>)
    decreases |run|
  {
    run == [] || (Enabled(s, run[0]) && !run[0].Spurious? && Legal(Next(s, run[0]), run[1..]))
  }

  function Exec(s: Sys, run: seq<Step>): Sys
    requires Legal(s, run)
    decreases |run|
  {
    if run == [] then s else Exec(Next(s, run[0]), run[1..])
  }

  // barrier_init
  function Start(nt: nat, nthreads: nat): Sys {
    Sys(nt, 0, 0, 0, seq(nthreads, _ => Out(-1)))
  }

  lemma {:induction false} RunKeeps(s: Sys, run: seq<Step>)
    requires Inv(s) && Legal(s, run)
    ensures Inv(Exec(s, run)) && Exec(s, run).nt == s.nt && |Exec(s, run).threads| == |s.threads|
    ensures |s.threads| == s.nt && Near(s) ==> Near(Exec(s, run))
    decreases |run|
  {
    hide Inv, Near, Broadcast;
    if run != [] {
      KeptIff(s, run[0]);
      if |s.threads| == s.nt && Near(s) {
        NearKept(s, run[0]);
      }
      RunKeeps(Next(s, run[0]), run[1..]);
    }
  }

  /** How often the run calls barrier_wait. */
  function Arrivals(run: seq<Step>): nat {
    if run == [] then 0 else (if run[0].Arrive? then 1 else 0) + Arrivals(run[1..])
  }

  lemma {:induction false} RunArrivals(s: Sys, run: seq<Step>)
    requires Legal(s, run)
    ensures Exec(s, run).arrivals == s.arrivals + Arrivals(run)
    decreases |run|
  {
    if run != [] {
      RunArrivals(Next(s, run[0]), run[1..]);
    }
  }

  function Left(a: Thread): int {
    if a.Out? then a.last else a.gen - 1
  }

  /** In every run without spurious wakeups every generation has its nt arrivals before any thread
      leaves it, and nt threads that use the barrier stay within one generation of each other. */
  lemma {:induction false} BarrierRuns(nt: nat, nthreads: nat, run: seq<Step>)
    requires nt >= 1 && Legal(Start(nt, nthreads), run)
    ensures var s := Exec(Start(nt, nthreads), run);
      && Arrivals(run) == nt * s.generation + s.currt && s.currt < nt
      && (forall t | 0 <= t < |s.threads| && s.threads[t].Out? :: nt * (s.threads[t].last + 1) <= Arrivals(run))
      && (nthreads == nt ==> forall t, u | 0 <= t < |s.threads| && 0 <= u < |s.threads| ::
            Left(s.threads[t]) <= Left(s.threads[u]) + 1)
  {
    hide Exec;
    TallyNone(Start(nt, nthreads).threads);
    RunKeeps(Start(nt, nthreads), run);
    RunArrivals(Start(nt, nthreads), run);
    var s := Exec(Start(nt, nthreads), run);
    forall t | 0 <= t < |s.threads| && s.threads[t].Out? ensures nt * (s.threads[t].last + 1) <= s.arrivals {
      assert ThreadOk(s, s.threads[t]);
      Monotone(nt, s.threads[t].last + 1, s.generation);
    }
    forall t | 0 <= t < |s.threads| ensures ThreadOk(s, s.threads[t]) {
    }
  }

  lemma Monotone(a: nat, b: int, c: int)
    requires b <= c
    ensures a * b <= a * c
  {
  }

  // The code -------------------------------------------------------------------------------------------

  class BarrierT {
    var currt: nat
    const nt: nat
    const thread: array<Thread>
    var generation: nat  // generation and arrivals only count; the code does not keep them
    var arrivals: nat

    /** barrier_init */
    constructor (nthreads: nat, thread: array<Thread>)
      ensures nt == nthreads && this.thread == thread && currt == generation == arrivals == 0
    {
      currt, nt, this.thread := 0, nthreads, thread;
      generation, arrivals := 0, 0;
    }

    ghost function Abs(): Sys
      reads this, thread
    {
      Sys(nt, currt, generation, arrivals, thread[..])
    }

    method CondBroadcast()
      modifies thread
      ensures thread[..] == Broadcast(old(thread[..]))
      ensures forall j | 0 <= j < thread.Length ::
        thread[j] == if old(thread[j]).Waiting? then old(thread[j]).(signalled := true) else old(thread[j])
    {
      var i := 0;
      while i < thread.Length
        invariant 0 <= i <= thread.Length
        invariant forall j | 0 <= j < thread.Length ::
          thread[j] == if j < i then Signal(old(thread[j])) else old(thread[j])
      {
        if thread[i].Waiting? {
          thread[i] := thread[i].(signalled := true);
        }
        i := i + 1;
      }
    }

    /** barrier_wait by thread t, up to the wait or to its return. */
    method BarrierWait(t: nat) returns (waits: bool)
      requires Enabled(Abs(), Arrive(t))
      modifies this`currt, this`generation, this`arrivals, thread
      ensures Abs() == Next(old(Abs()), Arrive(t)) && (waits <==> old(currt) + 1 != nt)
      ensures waits ==> currt == old(currt) + 1 && thread[..] == old(thread[..])[t := Waiting(old(generation), false)]
      ensures !waits ==> currt == 0 && generation == old(generation) + 1 && thread[t] == Out(old(generation))
      ensures !waits ==> forall j | 0 <= j < thread.Length && j != t ::
        thread[j] == if old(thread[j]).Waiting? then old(thread[j]).(signalled := true) else old(thread[j])
    {
      currt := currt + 1;
      arrivals := arrivals + 1;
      if currt != nt {
        thread[t] := Waiting(generation, false);
        return true;
      }
      currt := 0;
      CondBroadcast();
      thread[t] := Out(generation);
      generation := generation + 1;
      waits := false;
    }
  }
}
