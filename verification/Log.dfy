/** Crash safety of the write-ahead log (log.c): a physical redo log with group commit. */
module Log {
  // The disk is a sequence of blocks. The code leaves a trace of block writes, each of them atomic; a
  // crash keeps some prefix of the trace and loses everything held in memory.

  import opened Block

  const LOGSIZE: nat := 30

  type Disk = seq<Block>

  datatype Write = Write(blockno: nat, data: Block)

  // Traces ----------------------------------------------------------------

  function Apply(d: Disk, ws: seq<Write>): (d': Disk)
    ensures |d'| == |d|
  {
    if ws == [] then d
    else
      var d1 := Apply(d, ws[..|ws| - 1]);
      var w := ws[|ws| - 1];
      if w.blockno < |d1| then d1[w.blockno := w.data] else d1
  }

  lemma {:induction false} ApplyConcat(d: Disk, ws: seq<Write>, vs: seq<Write>)
    ensures Apply(d, ws + vs) == Apply(Apply(d, ws), vs)
    decreases |vs|
  {
    if vs == [] {
      assert ws + vs == ws;
    } else {
      assert (ws + vs)[..|ws + vs| - 1] == ws + vs[..|vs| - 1];
      ApplyConcat(d, ws, vs[..|vs| - 1]);
    }
  }

  lemma ApplyNil(d: Disk)
    ensures Apply(d, []) == d
  {
  }

  lemma ApplyLast(d: Disk, ws: seq<Write>, w: Write)
    requires w.blockno < |d|
    ensures Apply(d, ws + [w]) == Apply(d, ws)[w.blockno := w.data]
  {
    assert (ws + [w])[..|ws|] == ws;
  }

  // The on-disk header ------------------------------------------------------

  /** `lh->n` and `lh->block[0..n]` as read_head decodes them. */
  function HeadCount(b: Block): nat
  {
    Word(b, 0)
  }

  function Head(b: Block): (lh: seq<nat>)
    requires HeadCount(b) <= LOGSIZE
    ensures |lh| == HeadCount(b)
  {
    seq(HeadCount(b), i requires 0 <= i < HeadCount(b) => Word(b, i + 1))
  }

  predicate Fits(lh: seq<nat>)
  {
    |lh| <= LOGSIZE && forall i | 0 <= i < |lh| :: lh[i] < MAXWORD
  }

  /** The block write_head writes: words beyond the last entry keep their old contents. */
  function PutHead(b: Block, lh: seq<nat>): (b': Block)
    requires Fits(lh)
  {
    PutEntries(SetWord(b, 0, |lh|), lh)
  }

  function PutEntries(b: Block, lh: seq<nat>): (b': Block)
    requires Fits(lh)
    ensures Word(b', 0) == Word(b, 0)
    ensures forall i | 0 <= i < |lh| :: Word(b', i + 1) == lh[i]
  {
    if lh == [] then b
    else SetWord(PutEntries(b, lh[..|lh| - 1]), |lh|, lh[|lh| - 1])
  }

  lemma HeadRoundTrip(b: Block, lh: seq<nat>)
    requires Fits(lh)
    ensures HeadCount(PutHead(b, lh)) == |lh| && Head(PutHead(b, lh)) == lh
    ensures forall i | 0 <= i < |lh| :: Word(PutHead(b, lh), i + 1) == lh[i]
  {
  }

  // The writes of a commit and of a recovery ---------------------------------

  /** Where the log lives: `nlog` blocks from `start` on, the header first and slots after it, on a disk of `size`. */
  datatype Layout = Layout(start: nat, nlog: nat, size: nat)

  predicate GoodLayout(g: Layout)
  {
    0 < g.nlog && g.start + g.nlog <= g.size <= MAXWORD
  }

  /** The in-memory log: the header and the pinned (B_DIRTY) buffers. */
  datatype Mem = Mem(lh: seq<nat>, dirty: map<nat, Block>)

  predicate InLog(g: Layout, b: nat)
  {
    g.start <= b < g.start + g.nlog
  }

  predicate Distinct(s: seq<nat>)
  {
    forall i, j | 0 <= i < j < |s| :: s[i] != s[j]
  }

  predicate GoodHead(g: Layout, lh: seq<nat>)
  {
    && GoodLayout(g)
    && |lh| <= LOGSIZE && |lh| < g.nlog
    && Distinct(lh)
    && (forall i | 0 <= i < |lh| :: lh[i] < g.size && !InLog(g, lh[i]))
  }

  /** What log_write maintains: exactly the listed blocks are pinned. */
  predicate GoodMem(g: Layout, m: Mem)
  {
    && GoodHead(g, m.lh)
    && (forall i | 0 <= i < |m.lh| :: m.lh[i] in m.dirty)
    && (forall b | b in m.dirty :: b in m.lh)
  }

  /** write_log: copy each logged block from the cache to its log slot. */
  function LogWrites(g: Layout, m: Mem, n: nat): (ws: seq<Write>)
    requires n <= |m.lh| && forall i | 0 <= i < |m.lh| :: m.lh[i] in m.dirty
    ensures |ws| == n
  {
    seq(n, i requires 0 <= i < n => Write(g.start + 1 + i, m.dirty[m.lh[i]]))
  }

  /** install_trans: copy each log slot to the block's home location. */
  function InstallWrites(g: Layout, d: Disk, lh: seq<nat>, n: nat): (ws: seq<Write>)
    requires g.start + |lh| < |d| && n <= |lh|
    ensures |ws| == n
  {
    seq(n, i requires 0 <= i < n => Write(lh[i], d[g.start + 1 + i]))
  }

  /** write_head */
  function HeadWrite(g: Layout, d: Disk, lh: seq<nat>): (w: Write)
    requires g.start < |d| && Fits(lh)
  {
    Write(g.start, PutHead(d[g.start], lh))
  }

  function CommitTrace(g: Layout, d: Disk, m: Mem): (ws: seq<Write>)
    requires GoodMem(g, m) && |d| == g.size
    ensures |ws| == if m.lh == [] then 0 else 2 * |m.lh| + 2
  {
    if m.lh == [] then []
    else
      var logged := LogWrites(g, m, |m.lh|) + [HeadWrite(g, d, m.lh)];
      var d1 := Apply(d, logged);
      var installed := logged + InstallWrites(g, d1, m.lh, |m.lh|);
      installed + [HeadWrite(g, Apply(d, installed), [])]
  }

  /** The header and the slots it counts can be read. */
  predicate Readable(g: Layout, d: Disk)
  {
    g.start < |d| && HeadCount(d[g.start]) <= LOGSIZE && g.start + HeadCount(d[g.start]) < |d|
  }

  function RecoverTrace(g: Layout, d: Disk): (ws: seq<Write>)
    requires Readable(g, d)
  {
    var lh := Head(d[g.start]);
    var installed := InstallWrites(g, d, lh, |lh|);
    installed + [HeadWrite(g, Apply(d, installed), [])]
  }

  // What a disk can look like ---------------------------------------------------

  /** The log is empty and every home block is that of `d`. */
  predicate Clean(g: Layout, d: Disk, e: Disk)
  {
    && |e| == |d| == g.size && GoodLayout(g)
    && HeadCount(e[g.start]) == 0
    && forall b: nat | b < |d| && !InLog(g, b) :: e[b] == d[b]
  }

  /** The header names the transaction `m`, its log slots are complete and home blocks
      outside `m` are those of `d`; home blocks of `m` may hold anything. */
  predicate Pending(g: Layout, d: Disk, m: Mem, e: Disk)
  {
    && |e| == |d| == g.size && GoodMem(g, m)
    && HeadCount(e[g.start]) == |m.lh|
    && (forall i | 0 <= i < |m.lh| :: Word(e[g.start], i + 1) == m.lh[i])
    && (forall i | 0 <= i < |m.lh| :: e[g.start + 1 + i] == m.dirty[m.lh[i]])
    && (forall b: nat | b < |d| && !InLog(g, b) && b !in m.dirty :: e[b] == d[b])
  }

  /** The disk after transaction `m`, as a reader of home blocks sees it. */
  function Update(d: Disk, m: Mem): (d': Disk)
    ensures |d'| == |d|
    ensures forall b: nat | b < |d| :: d'[b] == if b in m.dirty then m.dirty[b] else d[b]
  {
    seq(|d|, b requires 0 <= b < |d| => if b in m.dirty then m.dirty[b] else d[b])
  }

  // One write at a time -----------------------------------------------------------

  lemma {:induction false} LogWritesEffect(g: Layout, d: Disk, m: Mem, k: nat)
    requires GoodMem(g, m) && |d| == g.size && k <= |m.lh|
    ensures var e := Apply(d, LogWrites(g, m, |m.lh|)[..k]);
            && (forall i | 0 <= i < k :: e[g.start + 1 + i] == m.dirty[m.lh[i]])
            && (forall b: nat | b < |d| && !(g.start < b <= g.start + k) :: e[b] == d[b])
  {
    if k > 0 {
      LogWritesEffect(g, d, m, k - 1);
      var ws := LogWrites(g, m, |m.lh|);
      assert ws[..k][..k - 1] == ws[..k - 1];
    }
  }

  lemma {:induction false} InstallKeeps(g: Layout, d: Disk, lh: seq<nat>, k: nat, b: nat)
    requires g.start + |lh| < |d| && k <= |lh| && b < |d|
    requires forall i | 0 <= i < k :: lh[i] != b
    ensures Apply(d, InstallWrites(g, d, lh, |lh|)[..k])[b] == d[b]
  {
    if k > 0 {
      InstallKeeps(g, d, lh, k - 1, b);
      var ws := InstallWrites(g, d, lh, |lh|);
      assert ws[..k][..k - 1] == ws[..k - 1];
    }
  }

  lemma {:induction false} InstallAt(g: Layout, d: Disk, lh: seq<nat>, k: nat, i: nat)
    requires GoodHead(g, lh) && |d| == g.size && i < k <= |lh|
    ensures Apply(d, InstallWrites(g, d, lh, |lh|)[..k])[lh[i]] == d[g.start + 1 + i]
  {
    var ws := InstallWrites(g, d, lh, |lh|);
    assert ws[..k][..k - 1] == ws[..k - 1];
    if i < k - 1 {
      InstallAt(g, d, lh, k - 1, i);
    }
  }

  /** write_log and the first write_head carry a disk from Clean to Pending. */
  lemma CommitPoint(g: Layout, d: Disk, m: Mem)
    requires Clean(g, d, d) && GoodMem(g, m)
    ensures Pending(g, d, m, Apply(d, LogWrites(g, m, |m.lh|) + [HeadWrite(g, d, m.lh)]))
  {
    hide Word, SetWord, PutEntries, PutHead, Head, Apply;
    var log := LogWrites(g, m, |m.lh|);
    LogWritesEffect(g, d, m, |m.lh|);
    assert log[..|m.lh|] == log;
    ApplyLast(d, log, HeadWrite(g, d, m.lh));
    HeadRoundTrip(d[g.start], m.lh);
  }

  /** After the header write a commit does exactly what a recovery would do. */
  lemma CommitTail(g: Layout, d: Disk, m: Mem)
    requires Clean(g, d, d) && GoodMem(g, m) && m.lh != []
    ensures var logged := LogWrites(g, m, |m.lh|) + [HeadWrite(g, d, m.lh)];
            Pending(g, d, m, Apply(d, logged)) &&
            CommitTrace(g, d, m) == logged + RecoverTrace(g, Apply(d, logged))
  {
    hide Word, SetWord, PutEntries;
    CommitPoint(g, d, m);
    var logged := LogWrites(g, m, |m.lh|) + [HeadWrite(g, d, m.lh)];
    var d1 := Apply(d, logged);
    PendingInstall(g, d, m, d1);
    ApplyConcat(d, logged, InstallWrites(g, d1, m.lh, |m.lh|));
  }

  /** A crash k writes into a commit: nothing happened before the header reached the disk
      (k <= |lh|), everything will happen from then on. */
  lemma CommitCrash(g: Layout, d: Disk, m: Mem, k: nat)
    requires Clean(g, d, d) && GoodMem(g, m) && k <= |CommitTrace(g, d, m)|
    ensures var e := Apply(d, CommitTrace(g, d, m)[..k]);
            if k <= |m.lh| then Clean(g, d, e)
            else if k < |CommitTrace(g, d, m)| then Pending(g, d, m, e)
            else Clean(g, Update(d, m), e)
  {
    hide Word, SetWord, PutEntries;
    if k <= |m.lh| {
      LogWritesEffect(g, d, m, k);
      assert CommitTrace(g, d, m)[..k] == LogWrites(g, m, |m.lh|)[..k];
    } else {
      CommitCrashLate(g, d, m, k);
    }
  }

  lemma CommitCrashLate(g: Layout, d: Disk, m: Mem, k: nat)
    requires Clean(g, d, d) && GoodMem(g, m) && |m.lh| < k <= |CommitTrace(g, d, m)|
    ensures var e := Apply(d, CommitTrace(g, d, m)[..k]);
            if k < |CommitTrace(g, d, m)| then Pending(g, d, m, e)
            else Clean(g, Update(d, m), e)
  {
    hide Word, SetWord, PutEntries, Apply;
    CommitTail(g, d, m);
    var logged := LogWrites(g, m, |m.lh|) + [HeadWrite(g, d, m.lh)];
    var d1 := Apply(d, logged);
    var r := RecoverTrace(g, d1);
    PendingInstall(g, d, m, d1);
    assert CommitTrace(g, d, m)[..k] == logged + r[..k - |m.lh| - 1];
    ApplyConcat(d, logged, r[..k - |m.lh| - 1]);
    RecoverCrashPending(g, d, m, d1, k - |m.lh| - 1);
  }

  lemma PendingInstall(g: Layout, d: Disk, m: Mem, e: Disk)
    requires Pending(g, d, m, e)
    ensures |e| == |d| == g.size && GoodLayout(g) && Readable(g, e) && HeadCount(e[g.start]) == |m.lh| < g.nlog
    ensures Head(e[g.start]) == m.lh
    ensures |RecoverTrace(g, e)| == |m.lh| + 1
  {
  }

  lemma RecoverCrashPending(g: Layout, d: Disk, m: Mem, e: Disk, k: nat)
    requires Pending(g, d, m, e) && k <= |RecoverTrace(g, e)|
    ensures var e' := Apply(e, RecoverTrace(g, e)[..k]);
            if k <= |m.lh| then Pending(g, d, m, e') else Clean(g, Update(d, m), e')
  {
    hide Word, SetWord, PutEntries, Apply;
    PendingInstall(g, d, m, e);
    if k <= |m.lh| {
      InstallPending(g, d, m, e, k);
    } else {
      assert RecoverTrace(g, e)[..k] == RecoverTrace(g, e);
      RecoverPending(g, d, m, e);
    }
  }

  lemma InstallPending(g: Layout, d: Disk, m: Mem, e: Disk, k: nat)
    requires Pending(g, d, m, e) && k <= |m.lh| < |RecoverTrace(g, e)|
    ensures Pending(g, d, m, Apply(e, RecoverTrace(g, e)[..k]))
  {
    hide Word, SetWord, PutEntries, Apply;
    PendingInstall(g, d, m, e);
    assert RecoverTrace(g, e)[..k] == InstallWrites(g, e, m.lh, |m.lh|)[..k];
    forall b: nat | b < |d| && b !in m.dirty
      ensures Apply(e, InstallWrites(g, e, m.lh, |m.lh|)[..k])[b] == e[b]
    {
      InstallKeeps(g, e, m.lh, k, b);
    }
    forall b: nat | InLog(g, b)
      ensures Apply(e, InstallWrites(g, e, m.lh, |m.lh|)[..k])[b] == e[b]
    {
      InstallKeeps(g, e, m.lh, k, b);
    }
  }

  lemma InstalledHome(g: Layout, d: Disk, m: Mem, e: Disk, b: nat)
    requires Pending(g, d, m, e) && b < |d| && !InLog(g, b)
    ensures Apply(e, InstallWrites(g, e, m.lh, |m.lh|))[b] == Update(d, m)[b]
  {
    hide Word, SetWord, PutEntries, Head, Apply, Distinct;
    var n := |m.lh|;
    var ws := InstallWrites(g, e, m.lh, n);
    assert ws[..n] == ws;
    if b in m.dirty {
      var i :| 0 <= i < n && m.lh[i] == b;
      InstallAt(g, e, m.lh, n, i);
    } else {
      InstallKeeps(g, e, m.lh, n, b);
    }
  }

  lemma RecoverPending(g: Layout, d: Disk, m: Mem, e: Disk)
    requires Pending(g, d, m, e)
    ensures Clean(g, Update(d, m), Apply(e, RecoverTrace(g, e)))
  {
    hide Word, SetWord, PutEntries, PutHead, Head, Apply, InstallWrites, Pending, InLog;
    PendingInstall(g, d, m, e);
    var install := InstallWrites(g, e, m.lh, |m.lh|);
    var e1 := Apply(e, install);
    HeadRoundTrip(e1[g.start], []);
    ApplyLast(e, install, HeadWrite(g, e1, []));
    forall b: nat | b < |d| && !InLog(g, b) ensures e1[b] == Update(d, m)[b] {
      InstalledHome(g, d, m, e, b);
    }
    HeadInLog(g);
  }

  lemma HeadInLog(g: Layout)
    requires GoodLayout(g)
    ensures InLog(g, g.start)
  {
  }

  lemma RecoverCrashClean(g: Layout, d: Disk, e: Disk, k: nat)
    requires Clean(g, d, e) && k <= |RecoverTrace(g, e)|
    ensures Clean(g, d, Apply(e, RecoverTrace(g, e)[..k]))
  {
    var t := RecoverTrace(g, e);
    assert InstallWrites(g, e, [], 0) == [];
    assert t == [HeadWrite(g, e, [])];
    HeadRoundTrip(e[g.start], []);
    if k == 1 {
      assert t[..1] == t && t[..0] == [];
    }
  }

  // Any number of crashes -----------------------------------------------------------

  /** One boot: recover_from_log runs and crashes after at most k writes. */
  function Boot(g: Layout, d: Disk, k: nat): (d': Disk)
    requires Readable(g, d)
  {
    var t := RecoverTrace(g, d);
    Apply(d, if k <= |t| then t[..k] else t)
  }

  /** A boot whose recovery completes. */
  function Recover(g: Layout, d: Disk): (d': Disk)
    requires Readable(g, d)
  {
    Apply(d, RecoverTrace(g, d))
  }

  lemma BootKeeps(g: Layout, d: Disk, m: Mem, e: Disk, k: nat)
    requires Clean(g, d, e) || Pending(g, d, m, e)
    ensures Readable(g, e)
    ensures Clean(g, d, e) ==> Clean(g, d, Boot(g, e, k))
    ensures Pending(g, d, m, e) ==> Pending(g, d, m, Boot(g, e, k)) || Clean(g, Update(d, m), Boot(g, e, k))
  {
    hide Word, SetWord, PutEntries, Apply, RecoverTrace;
    var t := RecoverTrace(g, e);
    var j := if k <= |t| then k else |t|;
    assert t[..|t|] == t;
    if Clean(g, d, e) {
      RecoverCrashClean(g, d, e, j);
    }
    if Pending(g, d, m, e) {
      PendingInstall(g, d, m, e);
      RecoverCrashPending(g, d, m, e, j);
    }
  }

  /** The disk after boots whose recoveries crash after ks[0], ks[1], ... writes. */
  function Boots(g: Layout, d: Disk, ks: seq<nat>): (d': Disk)
    decreases |ks|
  {
    if ks == [] || !Readable(g, d) then d else Boots(g, Boot(g, d, ks[0]), ks[1..])
  }

  lemma {:induction false} BootsKeep(g: Layout, d: Disk, m: Mem, e: Disk, ks: seq<nat>)
    requires Clean(g, d, e) || Pending(g, d, m, e)
    ensures var e' := Boots(g, e, ks);
            && (Clean(g, d, e) ==> Clean(g, d, e'))
            && (Pending(g, d, m, e) ==> Pending(g, d, m, e') || Clean(g, Update(d, m), e'))
    decreases |ks|
  {
    hide Word, SetWord, PutEntries, Apply, RecoverTrace, Boot, Pending, Clean, Readable;
    if ks != [] {
      BootKeeps(g, d, m, e, ks[0]);
      var e1 := Boot(g, e, ks[0]);
      if Clean(g, d, e) {
        BootsKeep(g, d, m, e1, ks[1..]);
      }
      if Pending(g, d, m, e) {
        if Pending(g, d, m, e1) {
          BootsKeep(g, d, m, e1, ks[1..]);
        } else {
          BootsKeep(g, Update(d, m), m, e1, ks[1..]);
        }
      }
    }
  }

  /**
   * Crash atomicity. A commit of `m` on a clean disk `d` crashes after k writes; any number of
   * boots crash during recovery; then one recovery completes. Every home block holds its new
   * contents if the header write (write number |lh|) reached the disk, and its old ones if not.
   */
  lemma CrashAtomicity(g: Layout, d: Disk, m: Mem, k: nat, ks: seq<nat>)
    requires Clean(g, d, d) && GoodMem(g, m) && k <= |CommitTrace(g, d, m)|
    ensures var e := Boots(g, Apply(d, CommitTrace(g, d, m)[..k]), ks);
            && Readable(g, e)
            && Clean(g, if k > |m.lh| then Update(d, m) else d, Recover(g, e))
  {
    hide Word, SetWord, PutEntries, Apply, RecoverTrace, CommitTrace, Boots, Pending, Readable;
    CommitCrash(g, d, m, k);
    var c := Apply(d, CommitTrace(g, d, m)[..k]);
    var d' := if k > |m.lh| then Update(d, m) else d;
    if Clean(g, d', c) {
      BootsKeep(g, d', m, c, ks);
    } else {
      BootsKeep(g, d, m, c, ks);
    }
    var e := Boots(g, c, ks);
    if Clean(g, d', e) {
      RecoverClean(g, d', e);
    } else {
      RecoverPending(g, d, m, e);
      BootKeeps(g, d, m, e, 0);
    }
  }

  lemma RecoverClean(g: Layout, d: Disk, e: Disk)
    requires Clean(g, d, e)
    ensures Readable(g, e) && Clean(g, d, Recover(g, e))
  {
    hide Word, SetWord, PutEntries, Apply;
    var t := RecoverTrace(g, e);
    assert t[..|t|] == t;
    RecoverCrashClean(g, d, e, |t|);
  }

  // Whole runs ------------------------------------------------------------------------

  /** One transaction: it commits in full, or its commit crashes after `crash` writes, the
      recoveries of the next boots crash after `boots[i]` writes, and one recovery completes. */
  datatype Round = Commit(m: Mem) | Crash(m: Mem, crash: nat, boots: seq<nat>)

  predicate GoodRound(g: Layout, r: Round)
  {
    GoodMem(g, r.m)
  }

  /** Did the header write of this round reach the disk? */
  predicate Reached(r: Round)
  {
    r.Commit? || r.crash > |r.m.lh|
  }

  /** The disk the code leaves after a round. */
  function Play(g: Layout, d: Disk, r: Round): (e: Disk)
    requires Clean(g, d, d) && GoodRound(g, r)
    ensures Clean(g, e, e)
    ensures Clean(g, if Reached(r) then Update(d, r.m) else d, e)
  {
    hide Word, SetWord, PutEntries, Apply, RecoverTrace, CommitTrace, Boots, Pending, Readable;
    var t := CommitTrace(g, d, r.m);
    var k := if r.Commit? || r.crash > |t| then |t| else r.crash;
    CommitCrash(g, d, r.m, |t|);
    assert t[..|t|] == t;
    assert r.m.lh == [] ==> Update(d, r.m) == d;
    if r.Commit? then Apply(d, t)
    else
      CrashAtomicity(g, d, r.m, k, r.boots);
      Recover(g, Boots(g, Apply(d, t[..k]), r.boots))
  }

  function PlayAll(g: Layout, d: Disk, rs: seq<Round>): (e: Disk)
    requires Clean(g, d, d) && forall i | 0 <= i < |rs| :: GoodRound(g, rs[i])
    ensures Clean(g, e, e)
  {
    if rs == [] then d else Play(g, PlayAll(g, d, rs[..|rs| - 1]), rs[|rs| - 1])
  }

  /** The reference: a log-free disk that performs whole transactions, or none of one. */
  function Atomic(d: Disk, rs: seq<Round>): (e: Disk)
    ensures |e| == |d|
  {
    if rs == [] then d
    else
      var d1 := Atomic(d, rs[..|rs| - 1]);
      if Reached(rs[|rs| - 1]) then Update(d1, rs[|rs| - 1].m) else d1
  }

  /** Over any run of transactions, crashes and crashing recoveries, the home blocks are those of
      a disk that performed exactly the transactions whose header write reached it, in order. */
  lemma {:induction false} RunsAreAtomic(g: Layout, d: Disk, rs: seq<Round>)
    requires Clean(g, d, d) && forall i | 0 <= i < |rs| :: GoodRound(g, rs[i])
    ensures Clean(g, Atomic(d, rs), PlayAll(g, d, rs))
    decreases |rs|
  {
    hide Word, SetWord, PutEntries, Play;
    if rs != [] {
      RunsAreAtomic(g, d, rs[..|rs| - 1]);
    }
  }
}
