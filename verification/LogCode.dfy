/**
 * log.c as it runs: the fields of `struct log` and loops over `lh.block`.
 *
 * The buffer cache is seen through its contract: bread returns a pinned (B_DIRTY) copy if there
 * is one and the disk block if not; bwrite writes the block to disk and unpins it.
 */
module LogCode {
  import opened Block
  import opened Log
  import Space = LogSpace

  /** Pinning one more block keeps the in-memory log well formed. */
  lemma PinKeeps(g: Layout, m: Mem, b: nat, data: Block)
    requires GoodMem(g, m) && b < g.size && !InLog(g, b) && |m.lh| < LOGSIZE && |m.lh| < g.nlog - 1
    ensures GoodMem(g, Mem(Space.Absorb(m.lh, b), m.dirty[b := data]))
  {
    hide InLog;
  }

  /** On a clean log a commit brings the pinned blocks home and leaves all others, outside the log, as they were. */
  lemma CommitWrites(g: Layout, d: Disk, m: Mem)
    requires GoodMem(g, m) && |d| == g.size
    ensures HeadCount(d[g.start]) == 0 ==>
      forall b: nat | b < g.size && !(g.start <= b < g.start + g.nlog) ::
        Apply(d, CommitTrace(g, d, m))[b] == if b in m.dirty then m.dirty[b] else d[b]
  {
    hide CommitTrace, Apply, HeadCount;
    if HeadCount(d[g.start]) == 0 {
      var t := CommitTrace(g, d, m);
      assert t[..|t|] == t;
      CommitCrash(g, d, m, |t|);
      ApplyNil(d);
    }
  }

  class LogState {
    const g: Layout
    var disk: Disk
    // struct log
    var outstanding: int
    var committing: bool
    var n: nat
    var block: array<nat>
    // pinned buffers
    var dirty: map<nat, Block>
    // every block write so far, and the blocks each outstanding operation has logged
    ghost var trace: seq<Write>
    ghost var ops: map<nat, set<nat>>

    /** The disk holds a clean log (or one to be recovered) and the arrays are in bounds. */
    ghost predicate Shape()
      reads this, block
    {
      && block.Length == LOGSIZE && n <= LOGSIZE
      && |disk| == g.size && GoodLayout(g)
    }

    ghost function M(): (m: Mem)
      reads this, block
      requires Shape()
    {
      Mem(block[..n], dirty)
    }

    ghost function S(): (s: Space.State)
      reads this, block
      requires Shape()
    {
      Space.State(block[..n], ops, committing)
    }

    ghost predicate Valid()
      reads this, block
    {
      && Shape()
      && GoodMem(g, M())
      && outstanding == |ops|
    }

    constructor (g: Layout, disk: Disk)
      requires |disk| == g.size && GoodLayout(g)
      ensures Shape() && this.g == g && this.disk == disk
      ensures outstanding == 0 && !committing && dirty == map[] && ops == map[] && trace == []
      ensures fresh(block)
    {
      this.g, this.disk := g, disk;
      outstanding, committing, n, dirty := 0, false, 0, map[];
      block := new nat[LOGSIZE];
      trace, ops := [], map[];
    }

    // The buffer cache's contract

    method Bread(b: nat) returns (data: Block)
      requires b < |disk|
      ensures data == if b in dirty then dirty[b] else disk[b]
    {
      data := if b in dirty then dirty[b] else disk[b];
    }

    method Bwrite(b: nat, data: Block)
      requires b < |disk|
      modifies this`disk, this`dirty, this`trace
      ensures disk == old(disk)[b := data] && dirty == old(dirty) - {b}
      ensures trace == old(trace) + [Write(b, data)]
    {
      disk := disk[b := data];
      dirty := dirty - {b};
      trace := trace + [Write(b, data)];
    }

    method ReadHead()
      requires Shape() && HeadCount(disk[g.start]) <= LOGSIZE && g.start !in dirty
      modifies this`n, block
      ensures Shape()
      ensures block[..n] == Head(disk[g.start])
    {
      hide Word, SetWord;
      var buf := Bread(g.start);
      n := Word(buf, 0);
      var i := 0;
      while i < n
        invariant 0 <= i <= n == HeadCount(buf) && Shape()
        invariant forall j | 0 <= j < i :: block[j] == Head(buf)[j]
      {
        block[i] := Word(buf, i + 1);
        i := i + 1;
      }
    }

    method WriteHead()
      requires Shape() && Fits(block[..n]) && g.start !in dirty
      modifies this`disk, this`dirty, this`trace
      ensures Shape() && dirty == old(dirty)
      ensures var w := HeadWrite(g, old(disk), block[..n]);
              trace == old(trace) + [w] && disk == old(disk)[g.start := w.data]
    {
      hide Word, SetWord;
      var buf := Bread(g.start);
      buf := SetWord(buf, 0, n);
      ghost var buf0 := buf;
      var i := 0;
      while i < n
        invariant 0 <= i <= n
        invariant buf == PutEntries(buf0, block[..i])
      {
        assert block[..i + 1][..i] == block[..i];
        buf := SetWord(buf, i + 1, block[i]);
        i := i + 1;
      }
      assert block[..n][..n] == block[..n];
      Bwrite(g.start, buf);
      assert dirty == old(dirty);
    }

    /** Copy modified blocks from cache to log. */
    method WriteLog()
      requires Shape() && GoodMem(g, M())
      modifies this`disk, this`dirty, this`trace
      ensures Shape() && dirty == old(dirty)
      ensures var ws := LogWrites(g, old(M()), n);
              trace == old(trace) + ws && disk == Apply(old(disk), ws)
    {
      hide Word, SetWord, Apply, Distinct;
      ghost var ws := LogWrites(g, M(), n);
      ApplyNil(disk);
      var tail := 0;
      while tail < n
        invariant 0 <= tail <= n && Shape()
        invariant dirty == old(dirty)
        invariant trace == old(trace) + ws[..tail]
        invariant disk == Apply(old(disk), ws[..tail])
      {
        var from := Bread(block[tail]);
        assert ws[..tail + 1] == ws[..tail] + [ws[tail]];
        ApplyLast(old(disk), ws[..tail], ws[tail]);
        assert g.start + tail + 1 !in dirty;
        Bwrite(g.start + tail + 1, from);
        assert dirty == old(dirty);
        tail := tail + 1;
      }
      assert ws[..n] == ws;
    }

    /** Copy committed blocks from log to their home location. */
    method InstallTrans()
      requires Shape() && GoodHead(g, block[..n])
      requires forall b | b in dirty :: !InLog(g, b)
      modifies this`disk, this`dirty, this`trace
      ensures Shape()
      ensures forall b :: b in dirty <==> b in old(dirty) && b !in block[..n]
      ensures forall b | b in dirty :: dirty[b] == old(dirty)[b]
      ensures var ws := InstallWrites(g, old(disk), block[..n], n);
              trace == old(trace) + ws && disk == Apply(old(disk), ws)
    {
      hide Word, SetWord, Distinct, Apply;
      ghost var ws := InstallWrites(g, disk, block[..n], n);
      ApplyNil(disk);
      var tail := 0;
      while tail < n
        invariant 0 <= tail <= n && Shape()
        invariant forall b :: b in dirty <==> b in old(dirty) && b !in block[..tail]
        invariant forall b | b in dirty :: dirty[b] == old(dirty)[b]
        invariant trace == old(trace) + ws[..tail]
        invariant disk == Apply(old(disk), ws[..tail])
        invariant forall i | g.start <= i < g.start + g.nlog :: disk[i] == old(disk)[i]
      {
        var lbuf := Bread(g.start + tail + 1);
        assert ws[..tail + 1] == ws[..tail] + [ws[tail]];
        ApplyLast(old(disk), ws[..tail], ws[tail]);
        assert block[..tail + 1] == block[..tail] + [block[tail]];
        Bwrite(block[tail], lbuf);
        tail := tail + 1;
      }
      assert ws[..n] == ws;
    }
 
    /** The body of commit(): afterwards the transaction is erased from memory and from disk. */
    method Commit()
      requires Shape() && GoodMem(g, M())
      modifies this`disk, this`dirty, this`trace, this`n
      ensures Shape() && n == 0 && dirty == map[]
      ensures var ws := CommitTrace(g, old(disk), old(M()));
              trace == old(trace) + ws && disk == Apply(old(disk), ws)
      ensures HeadCount(old(disk)[g.start]) == 0 ==>
        forall b: nat | b < g.size && !(g.start <= b < g.start + g.nlog) ::
          disk[b] == if b in old(dirty) then old(dirty)[b] else old(disk)[b]
    {
      hide Word, SetWord, Apply, Distinct, PutHead, HeadCount, GoodHead;
      CommitWrites(g, disk, M());
      ApplyNil(disk);
      if n > 0 {
        CommitBlocks();
      }
      assert block[..0] == [];
    }

    /** commit() when blocks are logged: the log, the header, the blocks at home, and the header without them. */
    method CommitBlocks()
      requires Shape() && GoodMem(g, M()) && n > 0
      modifies this`disk, this`dirty, this`trace, this`n
      ensures Shape() && n == 0 && dirty == map[]
      ensures var ws := CommitTrace(g, old(disk), old(M()));
              trace == old(trace) + ws && disk == Apply(old(disk), ws)
    {
      hide Word, SetWord, Apply, Distinct, PutHead, HeadCount, LogWrites, InstallWrites, PutEntries, Head;
      ghost var d, m := disk, M();
      WriteLog();
      ghost var log := LogWrites(g, m, n);
      WriteHead();
      ghost var head := HeadWrite(g, d, m.lh);
      LogWritesEffect(g, d, m, n);
      assert log[..n] == log;
      ApplyLast(d, log, head);
      ghost var d1 := disk;
      InstallTrans();
      ghost var install := InstallWrites(g, d1, m.lh, |m.lh|);
      ApplyConcat(d, log + [head], install);
      n := 0;
      WriteHead();
      assert block[..0] == [];
      ApplyLast(d, log + [head] + install, HeadWrite(g, Apply(d, log + [head] + install), []));
    }

    /** recover_from_log() after a boot: nothing is cached. */
    method RecoverFromLog()
      requires Shape() && dirty == map[] && Readable(g, disk)
      requires GoodHead(g, Head(disk[g.start]))
      modifies this`disk, this`dirty, this`trace, this`n, block
      ensures Shape() && n == 0 && dirty == map[]
      ensures trace == old(trace) + RecoverTrace(g, old(disk)) && disk == Recover(g, old(disk))
    {
      hide Word, SetWord, Apply, Distinct, PutHead;
      ghost var d := disk;
      ReadHead();
      ghost var lh := block[..n];
      InstallTrans();
      ghost var install := InstallWrites(g, d, lh, |lh|);
      n := 0;
      WriteHead();
      assert block[..0] == [];
      ApplyLast(d, install, HeadWrite(g, Apply(d, install), []));
    }
 
    // The lock-protected sections of begin_op, log_write and end_op --------------

    /** One pass of begin_op's loop, perhaps amid a commit; when it does not enter, the caller sleeps and retries. */
    method BeginTry(ghost op: nat) returns (entered: bool)
      requires Shape() && outstanding == |ops| && op !in ops
      modifies this`outstanding, this`ops
      ensures Shape() && outstanding == |ops| && M() == old(M()) && (old(Valid()) ==> Valid())
      ensures entered <==> !committing && n + (old(outstanding) + 1) * Space.MAXOPBLOCKS <= LOGSIZE
      ensures outstanding == old(outstanding) + if entered then 1 else 0
      ensures ops == if entered then old(ops)[op := {}] else old(ops)
      ensures S() == if entered then Space.Next(old(S()), Space.Begin(op)) else old(S())
    {
      hide Distinct;
      if committing {
        entered := false;
      } else if n + (outstanding + 1) * Space.MAXOPBLOCKS > LOGSIZE {
        entered := false;
      } else {
        outstanding := outstanding + 1;
        entered := true;
        ghost var was := ops;
        ops := ops[op := {}];
        assert ops.Keys == was.Keys + {op};
      }
    }

    /** log_write of a buffer the caller has changed to `data`. */
    method LogWrite(b: nat, data: Block, ghost op: nat) returns (panic: bool)
      requires Valid() && b < g.size && !InLog(g, b) && op in ops
      modifies this`n, this`dirty, this`ops, block
      ensures Valid()
      ensures panic <==> Space.Panics(g, old(S()), Space.Append(op, b))
      ensures panic <==> old(n) >= LOGSIZE || old(n) >= g.nlog - 1 || outstanding < 1
      ensures panic ==> S() == old(S()) && M() == old(M())
      ensures !panic ==> S() == Space.Next(old(S()), Space.Append(op, b))
      ensures !panic ==> block[..n] == old(block[..n]) + if b in old(block[..n]) then [] else [b]
      ensures !panic ==> dirty == old(dirty)[b := data] && ops == old(ops)[op := old(ops)[op] + {b}]
    {
      hide InLog, Distinct, GoodMem;
      if n >= LOGSIZE || n >= g.nlog - 1 {
        return true;
      }
      if outstanding < 1 {
        return true;
      }
      panic := false;
      ghost var lh := block[..n];
      PinKeeps(g, M(), b, data);
      var i := 0;
      while i < n && block[i] != b
        invariant 0 <= i <= n
        invariant forall j | 0 <= j < i :: block[j] != b
      {
        i := i + 1;
      }
      block[i] := b;
      if i == n {
        n := n + 1;
      }
      assert block[..n] == Space.Absorb(lh, b);
      dirty := dirty[b := data];
      ops := ops[op := ops[op] + {b}];
      assert ops.Keys == old(ops).Keys;
    }

    /** end_op up to the release of log.lock. */
    method EndOp(ghost op: nat) returns (panic: bool, doCommit: bool)
      requires Valid() && op in ops
      modifies this`outstanding, this`committing, this`ops
      ensures panic <==> Space.Panics(g, old(S()), Space.End(op))
      ensures panic <==> old(committing)
      ensures !panic ==> Valid() && S() == Space.Next(old(S()), Space.End(op))
      ensures !panic ==> outstanding == old(outstanding) - 1 && ops == old(ops) - {op}
      ensures !panic ==> committing == doCommit == (outstanding == 0) == (ops == map[])
    {
      hide Distinct;
      doCommit := false;
      ghost var was := ops;
      outstanding := outstanding - 1;
      if committing {
        return true, false;
      }
      panic := false;
      ops := ops - {op};
      assert ops.Keys == was.Keys - {op};
      assert was.Keys == ops.Keys + {op};
      if outstanding == 0 {
        doCommit := true;
        committing := true;
      }
    }

    /** end_op after commit() returned. */
    method Reopen()
      requires Valid()
      modifies this`committing
      ensures Valid() && S() == Space.Next(old(S()), Space.Reopen) && !committing
    {
      committing := false;
    }
  }
}
