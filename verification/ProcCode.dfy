/** The code of lab 5's proc.c on the process table, section by section. */
module ProcCode {
  import opened Proc

  class Ptable {
    const proc: array<Process>
    const initproc: nat
    var nextpid: nat
    ghost var exited: set<nat>
    ghost var reported: seq<nat>

    constructor (proc: array<Process>, initproc: nat)
      requires initproc < proc.Length
      ensures this.proc == proc && this.initproc == initproc && exited == {} && reported == []
    {
      this.proc, this.initproc := proc, initproc;
      nextpid, exited, reported := 2, {}, [];
    }

    ghost function Abs(): Table
      reads this, proc
    {
      Table(proc[..], nextpid, initproc, exited, reported)
    }

    method Wakeup1(chan: Chan)
      modifies proc
      ensures proc[..] == Wake(old(proc[..]), chan)
      ensures forall i | 0 <= i < proc.Length ::
        var a := old(proc[..])[i];
        proc[i] == if a.state.SLEEPING? && a.chan == chan then a.(state := RUNNABLE) else a
    {
      var i := 0;
      while i < proc.Length
        invariant 0 <= i <= proc.Length
        invariant forall j | 0 <= j < i :: proc[j] == Woken(old(proc[j]), chan)
        invariant forall j | i <= j < proc.Length :: proc[j] == old(proc[j])
      {
        if proc[i].state.SLEEPING? && proc[i].chan == chan {
          proc[i] := proc[i].(state := RUNNABLE);
        }
        i := i + 1;
      }
    }

    /** allocproc up to its first release, by the forking process p; false if the table is full. */
    method Allocproc(p: nat) returns (ok: bool, np: nat)
      requires Enabled(Abs(), ForkAlloc(p))
      modifies this`nextpid, proc
      ensures Abs() == Next(old(Abs()), ForkAlloc(p))
      ensures !ok <==> forall i | 0 <= i < proc.Length :: !old(proc[i]).state.UNUSED?
      ensures !ok ==> proc[..] == old(proc[..]) && nextpid == old(nextpid)
      ensures ok ==> np < proc.Length && old(proc[np]).state.UNUSED? && nextpid == old(nextpid) + 1
      ensures ok ==> forall i | 0 <= i < np :: !old(proc[i]).state.UNUSED?
      ensures ok ==> proc[..] == old(proc[..])
        [np := old(proc[np]).(state := EMBRYO, pid := old(nextpid))][p := old(proc[p]).(np := Some(np))]
    {
      var i := 0;
      while i < proc.Length
        invariant 0 <= i <= proc.Length && proc[..] == old(proc[..])
        invariant forall j | 0 <= j < i :: !proc[j].state.UNUSED?
      {
        if proc[i].state.UNUSED? {
          assert i == FindState(proc[..], UNUSED, 0);
          proc[i] := proc[i].(state := EMBRYO, pid := nextpid);
          nextpid := nextpid + 1;
          proc[p] := proc[p].(np := Some(i));
          return true, i;
        }
        i := i + 1;
      }
      assert FindState(proc[..], UNUSED, 0) == proc.Length;
      ok, np := false, 0;
    }

    method Kill(pid: nat) returns (ok: bool, ghost k: nat)
      modifies proc
      ensures Abs() == Next(old(Abs()), Step.Kill(pid))
      ensures ok <==> exists j :: 0 <= j < proc.Length && old(proc[j]).pid == pid
      ensures !ok ==> proc[..] == old(proc[..])
      ensures ok ==> k < proc.Length && old(proc[k]).pid == pid && forall j | 0 <= j < k :: old(proc[j]).pid != pid
      ensures ok ==>
        var a := old(proc[k]);
        proc[..] == old(proc[..])[k := a.(killed := true, state := if a.state.SLEEPING? then RUNNABLE else a.state)]
    {
      k := 0;
      var i := 0;
      while i < proc.Length
        invariant 0 <= i <= proc.Length && proc[..] == old(proc[..])
        invariant forall j | 0 <= j < i :: proc[j].pid != pid
      {
        if proc[i].pid == pid {
          assert i == FindPid(proc[..], pid, 0);
          proc[i] := proc[i].(killed := true);
          if proc[i].state.SLEEPING? {
            proc[i] := proc[i].(state := RUNNABLE);
          }
          return true, i;
        }
        i := i + 1;
      }
      assert FindPid(proc[..], pid, 0) == proc.Length;
      ok := false;
    }

    /** exit of process p, under the lock. */
    method Exit(p: nat)
      requires Inv(Abs()) && Enabled(Abs(), Step.Exit(p))
      modifies this`exited, proc
      ensures Abs() == Next(old(Abs()), Step.Exit(p)) && exited == old(exited) + {old(proc[p]).pid}
      ensures var procs, q := old(proc[..]), old(proc[p]).parent;
        var orphan := exists z | 0 <= z < |procs| :: procs[z].parent == Some(p) && procs[z].state.ZOMBIE?;
        forall i | 0 <= i < proc.Length ::
          var a := procs[i];
          proc[i] == a.(
            parent := if a.parent == Some(p) then q else a.parent,
            state := if i == p then ZOMBIE
                     else if a.state.SLEEPING? && (a.chan == Slot(q.value) || (orphan && a.chan == Slot(initproc)))
                     then RUNNABLE else a.state)
    {
      hide Inv, Wake, Reparent, FindZombie;
      ghost var procs0 := proc[..];
      var q := proc[p].parent.value;
      FindsParent(Abs(), p);
      Wakeup1(Slot(q));
      ghost var procs1 := proc[..];
      assert procs1 == Wake(procs0, Slot(q));
      var grandp := proc[q].pid;
      var temp := 0;
      while temp < proc.Length && proc[temp].pid != grandp
        invariant 0 <= temp <= proc.Length && proc[..] == procs1
        invariant forall j | 0 <= j < temp :: proc[j].pid != grandp
      {
        temp := temp + 1;
      }
      assert temp == FindPid(procs1, grandp, 0);
      Adopt(p, temp);
      exited := exited + {proc[p].pid};
      proc[p] := proc[p].(state := ZOMBIE);
    }

    /** A slot during the loop of Adopt. */
    function Halfway(a: Process, p: nat, temp: nat, passed: bool, woke: bool): Process {
      var b := if passed then Adopted(a, p, temp) else a;
      if woke then Woken(b, Slot(initproc)) else b
    }

    /** "Pass abandoned children": init is woken for each that has exited. */
    method Adopt(p: nat, temp: nat)
      requires p < proc.Length
      modifies proc
      ensures var r := Reparent(old(proc[..]), p, temp);
        proc[..] == if FindZombie(old(proc[..]), p, 0) < proc.Length then Wake(r, Slot(initproc)) else r
    {
      ghost var procs := proc[..];
      ghost var woke := false;
      var i := 0;
      while i < proc.Length
        invariant 0 <= i <= proc.Length
        invariant woke <==> exists j :: 0 <= j < i && Child(procs[j], p) && procs[j].state.ZOMBIE?
        invariant forall j | 0 <= j < proc.Length :: proc[j] == Halfway(procs[j], p, temp, j < i, woke)
      {
        if proc[i].parent == Some(p) {
          proc[i] := proc[i].(parent := Some(temp));
          if proc[i].state.ZOMBIE? {
            woke := true;
            Wakeup1(Slot(initproc));
          }
        }
        i := i + 1;
      }
      assert woke <==> FindZombie(procs, p, 0) < |procs|;
    }

    /** One round of the loop of wait: Some(-1) and Some(pid) are returns, None is a sleep. */
    method Wait(p: nat) returns (r: Option<int>, ghost z: nat)
      requires Enabled(Abs(), Step.Wait(p))
      modifies this`reported, proc
      ensures Abs() == Next(old(Abs()), Step.Wait(p))
      ensures r.Some? && r.value >= 0 <==>
        exists j | 0 <= j < proc.Length :: old(proc[..])[j].parent == Some(p) && old(proc[..])[j].state.ZOMBIE?
      ensures r.Some? && r.value >= 0 ==>
        && z < proc.Length && old(proc[z]).parent == Some(p) && old(proc[z]).state.ZOMBIE?
        && r.value == old(proc[z]).pid
        && proc[..] == old(proc[..])[z := old(proc[z]).(state := UNUSED, pid := 0, parent := None, killed := false)]
        && reported == old(reported) + [r.value as nat]
      ensures !(r.Some? && r.value >= 0) ==>
        && reported == old(reported)
        && (r.None? <==> !old(proc[p]).killed && exists j | 0 <= j < proc.Length :: old(proc[..])[j].parent == Some(p))
      ensures r.Some? && r.value < 0 ==> r.value == -1 && proc[..] == old(proc[..])
      ensures r.None? ==> proc[..] == old(proc[..])[p := old(proc[p]).(state := SLEEPING, chan := Slot(p))]
    {
      z := 0;
      var havekids := false;
      var i := 0;
      while i < proc.Length
        invariant 0 <= i <= proc.Length && proc[..] == old(proc[..])
        invariant havekids <==> exists j :: 0 <= j < i && Child(proc[j], p)
        invariant forall j | 0 <= j < i :: !(Child(proc[j], p) && proc[j].state.ZOMBIE?)
      {
        if proc[i].parent == Some(p) {
          havekids := true;
          if proc[i].state.ZOMBIE? {
            assert i == FindZombie(proc[..], p, 0);
            var pid := proc[i].pid;
            proc[i] := proc[i].(pid := 0);
            proc[i] := proc[i].(parent := None, killed := false);
            proc[i] := proc[i].(state := UNUSED);
            reported := reported + [pid];
            return Some(pid), i;
          }
        }
        i := i + 1;
      }
      assert FindZombie(proc[..], p, 0) == proc.Length;
      assert havekids <==> HasKids(proc[..], p);
      if !havekids || proc[p].killed {
        return Some(-1), z;
      }
      proc[p] := proc[p].(chan := Slot(p));
      proc[p] := proc[p].(state := SLEEPING);
      r := None;
    }
  }
}
