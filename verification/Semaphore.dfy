/** Semaphores (lab quiz 3: sysproc.c, cv_sleep and wakeup in proc.c). */
module Semaphore {
  // A step is what a process does while it holds a semaphore's spinlock: cv_sleep takes ptable.lock before
  // it lets go of it, so going to sleep is part of the step.

  // Where a process is: outside, or in sem_down on semaphore k
  datatype Wait = Out | Down(k: nat, asleep: bool)

  // value[k] with how often semaphore k was taken up and down since sem_init
  datatype Sem = Sem(value: int, init: int, ups: nat, downs: nat)

  datatype Sys = Sys(sems: seq<Sem>, procs: seq<Wait>)

  predicate Asleep(w: Wait, k: nat) {
    w == Down(k, true)
  }

  // wakeup((void*)k)
  function Wake(procs: seq<Wait>, k: nat): (r: seq<Wait>)
    ensures |r| == |procs|
    ensures forall t | 0 <= t < |procs| :: r[t] == if Asleep(procs[t], k) then Down(k, false) else procs[t]
  {
    if procs == [] then []
    else
      var w := procs[|procs| - 1];
      Wake(procs[..|procs| - 1], k) + [if Asleep(w, k) then Down(k, false) else w]
  }

  datatype Step =
    | Call(t: nat, k: nat)  // sem_down up to its spinlock_acquire
    | Try(t: nat)           // the loop of sem_down, to its return or to sleep
    | Up(t: nat, k: nat)
    | Rouse(t: nat)         // kill wakes any sleeper

  predicate Enabled(s: Sys, step: Step) {
    match step
    case Call(t, k) => t < |s.procs| && s.procs[t].Out?
    case Try(t) => t < |s.procs| && s.procs[t].Down? && !s.procs[t].asleep && s.procs[t].k < |s.sems|
    case Up(t, k) => t < |s.procs| && s.procs[t].Out?
    case Rouse(t) => t < |s.procs|
  }

  function TryDown(s: Sys, t: nat): Sys
    requires Enabled(s, Try(t))
  {
    var k := s.procs[t].k;
    var m := s.sems[k];
    if m.value == 0 then s.(procs := s.procs[t := Down(k, true)])
    else s.(sems := s.sems[k := m.(value := m.value - 1, downs := m.downs + 1)], procs := s.procs[t := Out])
  }

  function DoUp(s: Sys, k: nat): Sys
    requires k < |s.sems|
  {
    var m := s.sems[k];
    s.(sems := s.sems[k := m.(value := m.value + 1, ups := m.ups + 1)], procs := Wake(s.procs, k))
  }

  /** An index that is no semaphore's makes the calls return -1 at once. */
  function Next(s: Sys, step: Step): Sys
    requires Enabled(s, step)
  {
    match step
    case Call(t, k) => if k < |s.sems| then s.(procs := s.procs[t := Down(k, false)]) else s
    case Try(t) => TryDown(s, t)
    case Up(_, k) => if k < |s.sems| then DoUp(s, k) else s
    case Rouse(t) =>
      if s.procs[t].Down? then s.(procs := s.procs[t := Down(s.procs[t].k, false)]) else s
  }

  /** Values count ups and downs and are not negative, and who sleeps on a semaphore finds it at 0. */
  ghost predicate Inv(s: Sys) {
    && (forall k | 0 <= k < |s.sems| :: s.sems[k].value == s.sems[k].init + s.sems[k].ups - s.sems[k].downs >= 0)
    && forall t | 0 <= t < |s.procs| && s.procs[t].Down? ::
      s.procs[t].k < |s.sems| && (s.procs[t].asleep ==> s.sems[s.procs[t].k].value == 0)
  }

  lemma {:induction false} StepKeeps(s: Sys, step: Step)
    requires Inv(s) && Enabled(s, step)
    ensures Inv(Next(s, step))
  {
    var u := Next(s, step);
    forall t | 0 <= t < |u.procs| && u.procs[t].Down?
      ensures u.procs[t].k < |u.sems| && (u.procs[t].asleep ==> u.sems[u.procs[t].k].value == 0)
    {
      assert s.procs[t].Down? || step.Call?;
    }
  }

  predicate Legal(s: Sys, run: seq<Step>)
    decreases |run|
  {
    run == [] || (Enabled(s, run[0]) && Legal(Next(s, run[0]), run[1..]))
  }

  function Exec(s: Sys, run: seq<Step>): Sys
    requires Legal(s, run)
    decreases |run|
  {
    if run == [] then s else Exec(Next(s, run[0]), run[1..])
  }

  /** After sem_init of each semaphore. */
  function Start(init: seq<nat>, nproc: nat): Sys {
    Sys(seq(|init|, k requires 0 <= k < |init| => Sem(init[k], init[k], 0, 0)), seq(nproc, _ => Out))
  }

  /** Over every run of any processes. */
  lemma {:induction false} RunKeeps(s: Sys, run: seq<Step>)
    requires Inv(s) && Legal(s, run)
    ensures Inv(Exec(s, run)) && |Exec(s, run).sems| == |s.sems|
    ensures forall k | 0 <= k < |s.sems| :: Exec(s, run).sems[k].init == s.sems[k].init
    decreases |run|
  {
    if run != [] {
      StepKeeps(s, run[0]);
      RunKeeps(Next(s, run[0]), run[1..]);
    }
  }

  /** How often the run calls sem_up on semaphore k. */
  function Ups(run: seq<Step>, k: nat): nat {
    if run == [] then 0 else (if run[0].Up? && run[0].k == k then 1 else 0) + Ups(run[1..], k)
  }

  /** How often it takes a unit of semaphore k: when a process tries and does not fall asleep. */
  function Downs(s: Sys, run: seq<Step>, k: nat): nat
    requires Legal(s, run)
    decreases |run|
  {
    if run == [] then 0
    else
      var s' := Next(s, run[0]);
      var took := run[0].Try? && s.procs[run[0].t].k == k && |s'.procs| == |s.procs| && s'.procs[run[0].t].Out?;
      (if took then 1 else 0) + Downs(s', run[1..], k)
  }

  lemma {:induction false} RunCounts(s: Sys, run: seq<Step>, k: nat)
    requires Inv(s) && Legal(s, run) && k < |s.sems|
    ensures |Exec(s, run).sems| == |s.sems|
    ensures Exec(s, run).sems[k].ups == s.sems[k].ups + Ups(run, k)
    ensures Exec(s, run).sems[k].downs == s.sems[k].downs + Downs(s, run, k)
    decreases |run|
  {
    if run != [] {
      StepKeeps(s, run[0]);
      RunCounts(Next(s, run[0]), run[1..], k);
    }
  }

  lemma {:induction false} SemRuns(init: seq<nat>, nproc: nat, run: seq<Step>)
    requires Legal(Start(init, nproc), run)
    ensures var s := Exec(Start(init, nproc), run);
      && |s.sems| == |init|
      && (forall k: nat | k < |init| ::
            s.sems[k].value == init[k] + Ups(run, k) - Downs(Start(init, nproc), run, k) >= 0)
      && forall t, k | 0 <= t < |s.procs| && 0 <= k < |init| && Asleep(s.procs[t], k) :: s.sems[k].value == 0
  {
    RunKeeps(Start(init, nproc), run);
    forall k: nat | k < |init|
      ensures var m := Exec(Start(init, nproc), run).sems[k];
        m.ups == Ups(run, k) && m.downs == Downs(Start(init, nproc), run, k)
    {
      RunCounts(Start(init, nproc), run, k);
    }
  }

  // The code --------------------------------------------------------------------------------------

  class Table {
    const sem: array<Sem>
    const proc: array<Wait>

    constructor (sem: array<Sem>, proc: array<Wait>)
      ensures this.sem == sem && this.proc == proc
    {
      this.sem, this.proc := sem, proc;
    }

    ghost function Abs(): Sys
      reads sem, proc
    {
      Sys(sem[..], proc[..])
    }

    method SemInit(index: int, value: int) returns (r: int)
      modifies sem
      ensures r == if 0 <= index < sem.Length then 1 else -1
      ensures sem[..] == if r == 1 then old(sem[..])[index := Sem(value, value, 0, 0)] else old(sem[..])
    {
      if index < 0 || index >= sem.Length {
        return -1;
      }
      sem[index] := Sem(value, value, 0, 0);
      r := 1;
    }

    method Wakeup(chan: nat)
      modifies proc
      ensures proc[..] == Wake(old(proc[..]), chan)
      ensures forall t | 0 <= t < proc.Length ::
        proc[t] == if old(proc[t]) == Down(chan, true) then Down(chan, false) else old(proc[t])
    {
      var t := 0;
      while t < proc.Length
        invariant 0 <= t <= proc.Length
        invariant forall j | 0 <= j < t ::
          proc[j] == if Asleep(old(proc[j]), chan) then Down(chan, false) else old(proc[j])
        invariant forall j | t <= j < proc.Length :: proc[j] == old(proc[j])
      {
        if proc[t] == Down(chan, true) {
          proc[t] := Down(chan, false);
        }
        t := t + 1;
      }
    }

    /** sem_up, under the semaphore's lock. */
    method SemUp(index: int) returns (r: int)
      modifies sem, proc
      ensures r == if 0 <= index < sem.Length then 1 else -1
      ensures 0 <= index ==> forall t | Enabled(old(Abs()), Up(t, index)) :: Abs() == Next(old(Abs()), Up(t, index))
      ensures r == -1 ==> Abs() == old(Abs())
      ensures r == 1 ==>
        var m := old(sem[..])[index];
        sem[..] == old(sem[..])[index := Sem(m.value + 1, m.init, m.ups + 1, m.downs)]
      ensures r == 1 ==> forall t | 0 <= t < proc.Length ::
        proc[t] == if old(proc[t]) == Down(index, true) then Down(index, false) else old(proc[t])
    {
      if index < 0 || index >= sem.Length {
        return -1;
      }
      sem[index] := sem[index].(value := sem[index].value + 1, ups := sem[index].ups + 1);
      Wakeup(index);
      r := 1;
    }

    /** One pass of sem_down by process t with the lock: false if it went to sleep. */
    method SemDown(t: nat) returns (done: bool)
      requires Enabled(Abs(), Try(t))
      modifies sem, proc
      ensures Abs() == Next(old(Abs()), Try(t)) && done == (old(sem[proc[t].k].value) != 0)
      ensures var k, m := old(proc[t].k), old(sem[proc[t].k]);
        && sem[..] == (if done then old(sem[..])[k := Sem(m.value - 1, m.init, m.ups, m.downs + 1)] else old(sem[..]))
        && proc[..] == old(proc[..])[t := if done then Out else Down(k, true)]
    {
      var index := proc[t].k;
      if sem[index].value == 0 {
        proc[t] := Down(index, true);
        return false;
      }
      sem[index] := sem[index].(value := sem[index].value - 1, downs := sem[index].downs + 1);
      proc[t] := Out;
      done := true;
    }
  }
}
