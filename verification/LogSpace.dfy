/** Log space (log.c): begin_op, log_write and end_op of arbitrarily many operations, interleaved. */
module LogSpace {
  // Each lock-protected section is one step. `ops` remembers, for every outstanding operation, the blocks
  // it has logged; `log.outstanding` is the number of its keys.

  import opened Log

  const MAXOPBLOCKS: nat := 10

  datatype State = State(lh: seq<nat>, ops: map<nat, set<nat>>, committing: bool)

  const Boot: State := State([], map[], false)

  datatype Step =
    | Begin(op: nat)            // begin_op gets past its loop
    | Append(op: nat, b: nat)   // log_write of block b by operation op
    | End(op: nat)              // the locked part of end_op
    | Erase                     // commit() sets lh.n = 0
    | Reopen                    // end_op clears committing

  /** The test begin_op repeats until it fails to hold. */
  predicate MustWait(s: State)
  {
    s.committing || |s.lh| + (|s.ops| + 1) * MAXOPBLOCKS > LOGSIZE
  }

  /** log_write's array update: an already listed block is absorbed. */
  function Absorb(lh: seq<nat>, b: nat): (lh': seq<nat>)
    ensures b in lh' && Distinct(lh) ==> Distinct(lh')
    ensures |lh| <= |lh'| <= |lh| + 1
  {
    if b in lh then lh else lh + [b]
  }

  /** May the step happen, given that no operation logs more than k distinct blocks, and none of the log's own? */
  predicate Enabled(g: Layout, k: nat, s: State, e: Step)
  {
    match e
    case Begin(op) => op !in s.ops && !MustWait(s)
    case Append(op, b) => op in s.ops && |s.ops[op] + {b}| <= k && b < g.size && !InLog(g, b)
    case End(op) => op in s.ops
    case Erase => s.committing
    case Reopen => s.committing && s.lh == []
  }

  /** The panics of log_write and end_op. */
  predicate Panics(g: Layout, s: State, e: Step)
  {
    match e
    case Append(op, b) => |s.lh| >= LOGSIZE || |s.lh| >= g.nlog - 1 || |s.ops| < 1
    case End(op) => s.committing
    case _ => false
  }

  function Next(s: State, e: Step): (s': State)
  {
    match e
    case Begin(op) => s.(ops := s.ops[op := {}])
    case Append(op, b) =>
      s.(lh := Absorb(s.lh, b), ops := s.ops[op := (if op in s.ops then s.ops[op] else {}) + {b}])
    case End(op) => s.(ops := s.ops - {op}, committing := s.committing || s.ops.Keys == {op})
    case Erase => s.(lh := [])
    case Reopen => s.(committing := false)
  }

  datatype Result = Halted | At(s: State)

  /** The state after the steps es, if none of them was blocked or panicked. */
  function Exec(g: Layout, k: nat, es: seq<Step>): (r: Result)
  {
    if es == [] then At(Boot)
    else
      match Exec(g, k, es[..|es| - 1])
      case Halted => Halted
      case At(s) =>
        var e := es[|es| - 1];
        if Enabled(g, k, s, e) && !Panics(g, s, e) then At(Next(s, e)) else Halted
  }

  // Reservations --------------------------------------------------------------

  /** Blocks the outstanding operations may still log when each may log k. */
  ghost function Unused(k: nat, ops: map<nat, set<nat>>): int
  {
    if ops == map[] then 0
    else
      var op :| op in ops;
      k - |ops[op]| + Unused(k, ops - {op})
  }

  lemma {:induction false} UnusedSplit(k: nat, ops: map<nat, set<nat>>, op: nat)
    requires op in ops
    ensures Unused(k, ops) == k - |ops[op]| + Unused(k, ops - {op})
    decreases |ops|
  {
    var x :| x in ops && Unused(k, ops) == k - |ops[x]| + Unused(k, ops - {x});
    if x != op {
      UnusedSplit(k, ops - {x}, op);
      UnusedSplit(k, ops - {op}, x);
      assert ops - {x} - {op} == ops - {op} - {x};
    }
  }

  lemma {:induction false} UnusedBound(k: nat, ops: map<nat, set<nat>>)
    requires k <= MAXOPBLOCKS && forall op | op in ops :: |ops[op]| <= k
    ensures 0 <= Unused(k, ops) && Unused(MAXOPBLOCKS, ops) <= MAXOPBLOCKS * |ops|
    ensures k < MAXOPBLOCKS ==> Unused(k, ops) + |ops| <= Unused(MAXOPBLOCKS, ops)
    decreases |ops|
  {
    if ops != map[] {
      var x :| x in ops;
      UnusedSplit(k, ops, x);
      UnusedSplit(MAXOPBLOCKS, ops, x);
      assert (ops - {x}).Keys == ops.Keys - {x};
      assert |ops - {x}| == |ops| - 1;
      UnusedBound(k, ops - {x});
    }
  }

  // The invariant -----------------------------------------------------------------

  ghost predicate Books(k: nat, s: State)
  {
    && (forall op | op in s.ops :: |s.ops[op]| <= k)
    && (forall op | op in s.ops :: Listed(s.lh, s.ops[op]))
    && (s.committing ==> s.ops == map[])
    && (!s.committing && s.ops == map[] ==> s.lh == [])
  }

  ghost predicate Listed(lh: seq<nat>, bs: set<nat>)
  {
    forall b | b in bs :: b in lh
  }

  ghost predicate Room(k: nat, s: State)
  {
    && |s.lh| + Unused(MAXOPBLOCKS, s.ops) <= LOGSIZE
    && (k < MAXOPBLOCKS && s.ops != map[] ==> |s.lh| + Unused(k, s.ops) <= LOGSIZE - 2)
  }

  ghost predicate Inv(k: nat, s: State)
  {
    Books(k, s) && Room(k, s)
  }

  lemma UnusedUpdate(k: nat, ops: map<nat, set<nat>>, op: nat, bs: set<nat>)
    ensures Unused(k, ops[op := bs]) == k - |bs| + Unused(k, ops - {op})
  {
    UnusedSplit(k, ops[op := bs], op);
    assert ops[op := bs] - {op} == ops - {op};
  }

  lemma BeginRoom(g: Layout, k: nat, s: State, op: nat)
    requires k <= MAXOPBLOCKS && Inv(k, s) && Enabled(g, k, s, Begin(op))
    ensures Room(k, Next(s, Begin(op)))
  {
    hide Unused, Listed;
    assert s.ops - {op} == s.ops;
    UnusedUpdate(k, s.ops, op, {});
    UnusedUpdate(MAXOPBLOCKS, s.ops, op, {});
    UnusedBound(k, s.ops);
    if s.ops != map[] {
      var x :| x in s.ops.Keys;
    }
  }

  lemma AppendRoom(g: Layout, k: nat, s: State, op: nat, b: nat)
    requires k <= MAXOPBLOCKS && Inv(k, s) && Enabled(g, k, s, Append(op, b))
    ensures Room(k, Next(s, Append(op, b)))
  {
    hide Unused;
    var bs := s.ops[op];
    UnusedSplit(k, s.ops, op);
    UnusedSplit(MAXOPBLOCKS, s.ops, op);
    UnusedUpdate(k, s.ops, op, bs + {b});
    UnusedUpdate(MAXOPBLOCKS, s.ops, op, bs + {b});
    if b in bs {
      assert bs + {b} == bs;
    }
  }

  lemma AppendBooks(g: Layout, k: nat, s: State, op: nat, b: nat)
    requires k <= MAXOPBLOCKS && Books(k, s) && Enabled(g, k, s, Append(op, b))
    ensures Books(k, Next(s, Append(op, b)))
  {
    assert op in Next(s, Append(op, b)).ops;
  }

  lemma EndKeeps(g: Layout, k: nat, s: State, op: nat)
    requires k <= MAXOPBLOCKS && Inv(k, s) && Enabled(g, k, s, End(op))
    ensures Inv(k, Next(s, End(op)))
  {
    hide Unused;
    UnusedSplit(k, s.ops, op);
    UnusedSplit(MAXOPBLOCKS, s.ops, op);
    assert (s.ops - {op}).Keys == s.ops.Keys - {op};
    if s.ops - {op} == map[] {
      assert s.ops.Keys == (s.ops.Keys - {op}) + {op};
    } else {
      var x :| x in s.ops - {op};
      assert x in s.ops.Keys;
    }
  }

  lemma {:induction false} Invariant(g: Layout, k: nat, es: seq<Step>)
    requires k <= MAXOPBLOCKS && Exec(g, k, es).At?
    ensures Inv(k, Exec(g, k, es).s)
    decreases |es|
  {
    if es != [] {
      Invariant(g, k, es[..|es| - 1]);
      var s := Exec(g, k, es[..|es| - 1]).s;
      match es[|es| - 1]
      case Begin(op) =>
        BeginRoom(g, k, s, op);
        assert op in Next(s, Begin(op)).ops;
      case Append(op, b) =>
        AppendRoom(g, k, s, op, b);
        AppendBooks(g, k, s, op, b);
      case End(op) => EndKeeps(g, k, s, op);
      case Erase =>
      case Reopen =>
    }
  }

  /** In every interleaving the listed blocks and the outstanding reservations fit the log,
      and a commit runs only when no operation is outstanding. */
  lemma Reserved(g: Layout, k: nat, es: seq<Step>)
    requires k <= MAXOPBLOCKS && Exec(g, k, es).At?
    ensures var s := Exec(g, k, es).s;
            && |s.lh| + Unused(MAXOPBLOCKS, s.ops) <= LOGSIZE
            && 0 <= Unused(MAXOPBLOCKS, s.ops)
            && (s.committing ==> s.ops == map[])
  {
    Invariant(g, k, es);
    UnusedBound(k, Exec(g, k, es).s.ops);
  }

  /** begin_op lets an operation in exactly when no commit runs and the log has room for one more reservation. */
  lemma BeginsIff(g: Layout, k: nat, es: seq<Step>, op: nat)
    requires Exec(g, k, es).At? && op !in Exec(g, k, es).s.ops
    ensures var s := Exec(g, k, es).s;
      Exec(g, k, es + [Begin(op)]) ==
        if !s.committing && |s.lh| + (|s.ops| + 1) * MAXOPBLOCKS <= LOGSIZE then At(s.(ops := s.ops[op := {}]))
        else Halted
  {
    assert (es + [Begin(op)])[..|es|] == es;
  }

  /** Whoever has to wait in begin_op waits for a commit, which can go on, or for an operation that can end. */
  lemma WaitsForSomeone(g: Layout, k: nat, es: seq<Step>)
    requires k <= MAXOPBLOCKS && Exec(g, k, es).At?
    ensures var s := Exec(g, k, es).s;
      s.committing || |s.lh| + (|s.ops| + 1) * MAXOPBLOCKS > LOGSIZE ==>
        exists e: Step | !e.Begin? && !e.Append? :: Enabled(g, k, s, e) && !Panics(g, s, e) && Next(s, e) != s
  {
    Invariant(g, k, es);
    var s := Exec(g, k, es).s;
    if s.committing {
      var e := if s.lh == [] then Reopen else Erase;
      assert Enabled(g, k, s, e) && Next(s, e) != s;
    } else if s.ops != map[] {
      var op :| op in s.ops;
      assert Enabled(g, k, s, End(op)) && op !in Next(s, End(op)).ops;
    }
  }

  // When does log_write never panic? -------------------------------------------------

  /** No interleaving of operations that log at most k distinct blocks each can panic. */
  ghost predicate PanicFree(g: Layout, k: nat)
  {
    forall es: seq<Step>, e | Exec(g, k, es).At? && Enabled(g, k, Exec(g, k, es).s, e) ::
      !Panics(g, Exec(g, k, es).s, e)
  }

  lemma NoPanic(g: Layout, k: nat, es: seq<Step>, e: Step)
    requires LOGSIZE <= g.nlog && k < MAXOPBLOCKS && Exec(g, k, es).At? && Enabled(g, k, Exec(g, k, es).s, e)
    ensures !Panics(g, Exec(g, k, es).s, e)
  {
    Invariant(g, k, es);
    var s := Exec(g, k, es).s;
    UnusedBound(k, s.ops);
    if e.Append? {
      assert e.op in s.ops.Keys;
    }
  }

  function Range(lo: nat, hi: nat): (r: set<nat>)
    ensures |r| == if lo <= hi then hi - lo else 0
    ensures forall x: nat :: x in r <==> lo <= x < hi
  {
    if hi <= lo then {} else Range(lo, hi - 1) + {hi - 1}
  }

  /** Of the blocks from base to base + i, those operation op logged: it logs base + op*10 up to base + op*10 + 10. */
  function Share(base: nat, i: nat, op: nat): (r: set<nat>)
  {
    Range(base + 10 * op, base + if i < 10 * op + 10 then i else 10 * op + 10)
  }

  function Filled(base: nat, i: nat): (s: State)
  {
    State(Upto(base, i), map op | op in {0, 1, 2} :: Share(base, i, op), false)
  }

  function Upto(base: nat, i: nat): (s: seq<nat>)
    ensures |s| == i
    ensures forall j | 0 <= j < i :: s[j] == base + j
  {
    if i == 0 then [] else Upto(base, i - 1) + [base + i - 1]
  }

  /** Three operations begin, then log i blocks from base on between them. */
  function Filling(base: nat, i: nat): (es: seq<Step>)
    ensures |es| == i + 3
  {
    if i == 0 then [Begin(0), Begin(1), Begin(2)]
    else Filling(base, i - 1) + [Append((i - 1) / 10, base + i - 1)]
  }

  lemma ShareStep(base: nat, i: nat, op: nat)
    ensures 10 * op <= i < 10 * op + 10 ==> Share(base, i + 1, op) == Share(base, i, op) + {base + i}
    ensures !(10 * op <= i < 10 * op + 10) ==> Share(base, i + 1, op) == Share(base, i, op)
    ensures |Share(base, i, op)| <= 10
  {
  }

  lemma FilledOps(base: nat, i: nat, op: nat)
    requires op < 3 && 10 * op <= i < 10 * op + 10
    ensures op in Filled(base, i).ops
    ensures Filled(base, i).ops[op := Filled(base, i).ops[op] + {base + i}] == Filled(base, i + 1).ops
  {
    hide Share;
    var ops, ops' := Filled(base, i).ops, Filled(base, i + 1).ops;
    var m := ops[op := ops[op] + {base + i}];
    forall x | x in m ensures m[x] == ops'[x] {
      ShareStep(base, i, x);
    }
    assert m.Keys == ops'.Keys;
  }

  lemma FilledIs(base: nat, i: nat, op: nat)
    requires op < 3
    ensures var s := Filled(base, i);
      op in s.ops && s.ops[op] == Share(base, i, op) && s.lh == Upto(base, i) && |s.ops| >= 1 && !s.committing
  {
    assert op in Filled(base, i).ops.Keys;
  }

  lemma FilledNext(base: nat, i: nat, op: nat)
    requires op < 3 && 10 * op <= i < 10 * op + 10
    ensures Next(Filled(base, i), Append(op, base + i)) == Filled(base, i + 1)
  {
    hide Filled, Share;
    FilledOps(base, i, op);
    FilledIs(base, i, op);
    FilledIs(base, i + 1, op);
    assert base + i !in Upto(base, i);
  }

  /** The 30 blocks behind the log are not the log's. */
  predicate Roomy(g: Layout)
  {
    LOGSIZE <= g.nlog && g.start + g.nlog + LOGSIZE <= g.size
  }

  lemma FilledEnabled(g: Layout, k: nat, i: nat, op: nat)
    requires Roomy(g) && MAXOPBLOCKS <= k && op < 3 && 10 * op <= i < 10 * op + 10
    ensures Enabled(g, k, Filled(g.start + g.nlog, i), Append(op, g.start + g.nlog + i))
    ensures Panics(g, Filled(g.start + g.nlog, i), Append(op, g.start + g.nlog + i)) <==> i >= g.nlog - 1
  {
    hide Filled, Share;
    FilledIs(g.start + g.nlog, i, op);
    ShareStep(g.start + g.nlog, i, op);
    ShareStep(g.start + g.nlog, i + 1, op);
  }

  lemma ExecStep(g: Layout, k: nat, es: seq<Step>, s: State, e: Step)
    requires Exec(g, k, es) == At(s) && Enabled(g, k, s, e) && !Panics(g, s, e)
    ensures Exec(g, k, es + [e]) == At(Next(s, e))
  {
    assert (es + [e])[..|es|] == es;
  }

  lemma {:induction false} FillingRuns(g: Layout, k: nat, i: nat)
    requires Roomy(g) && MAXOPBLOCKS <= k && i <= LOGSIZE && i < g.nlog
    ensures Exec(g, k, Filling(g.start + g.nlog, i)) == At(Filled(g.start + g.nlog, i))
  {
    hide Filled, Next, Enabled, Panics, Exec;
    if i == 0 {
      ThreeBegin(g, k);
    } else {
      var b := g.start + g.nlog;
      FillingRuns(g, k, i - 1);
      FilledNext(b, i - 1, (i - 1) / 10);
      FilledEnabled(g, k, i - 1, (i - 1) / 10);
      ExecStep(g, k, Filling(b, i - 1), Filled(b, i - 1), Append((i - 1) / 10, b + i - 1));
    }
  }

  lemma ThreeBegin(g: Layout, k: nat)
    ensures var b := g.start + g.nlog; Exec(g, k, Filling(b, 0)) == At(Filled(b, 0))
  {
    var b := g.start + g.nlog;
    var es := Filling(b, 0);
    assert es[..2] == [Begin(0), Begin(1)] && es[..2][..1] == [Begin(0)] && es[..2][..1][..0] == [];
    assert Exec(g, k, es[..2][..1]) == At(State([], map[0 := {}], false));
    assert Exec(g, k, es[..2]) == At(State([], map[0 := {}, 1 := {}], false));
    assert Exec(g, k, es) == At(State([], map[0 := {}, 1 := {}, 2 := {}], false));
    assert Filled(b, 0).lh == [];
    assert Filled(b, 0).ops == map[0 := {}, 1 := {}, 2 := {}];
  }

  /** Of a full log no more can be asked: not even a block that is listed. */
  lemma FullPanics(g: Layout, k: nat)
    requires Roomy(g) && MAXOPBLOCKS <= k
    ensures var b, i := g.start + g.nlog, if g.nlog == LOGSIZE then LOGSIZE - 1 else LOGSIZE;
            && Enabled(g, k, Filled(b, i), Append(2, b + LOGSIZE - 1))
            && Panics(g, Filled(b, i), Append(2, b + LOGSIZE - 1))
  {
    hide Filled, Share;
    var b := g.start + g.nlog;
    FilledEnabled(g, k, LOGSIZE - 1, 2);
    FilledIs(b, LOGSIZE, 2);
    ShareStep(b, LOGSIZE - 1, 2);
    ShareStep(b, LOGSIZE, 2);
    LastShared(b);
  }

  lemma LastShared(base: nat)
    ensures Share(base, LOGSIZE, 2) + {base + LOGSIZE - 1} == Share(base, LOGSIZE, 2)
  {
  }

  /** With nlog = LOGSIZE or more, log_write can never panic exactly when every operation logs fewer
      than MAXOPBLOCKS distinct blocks: operations that use their whole reservations can. */
  lemma PanicFreeIff(g: Layout, k: nat)
    requires Roomy(g)
    ensures PanicFree(g, k) <==> k < MAXOPBLOCKS
  {
    hide Exec, Enabled, Panics, Filled, Filling;
    if k < MAXOPBLOCKS {
      forall es: seq<Step>, e | Exec(g, k, es).At? && Enabled(g, k, Exec(g, k, es).s, e)
        ensures !Panics(g, Exec(g, k, es).s, e)
      {
        NoPanic(g, k, es, e);
      }
    } else {
      var b, i := g.start + g.nlog, if g.nlog == LOGSIZE then LOGSIZE - 1 else LOGSIZE;
      FillingRuns(g, k, i);
      FullPanics(g, k);
      assert Exec(g, k, Filling(b, i)).s == Filled(b, i);
    }
  }
}
