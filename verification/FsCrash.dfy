/** File-system calls over the log: what files hold after any transactions, crashes and recoveries. */
module FsCrash {
  import opened Block
  import opened FsModel
  import opened FsCode
  import opened FsCount
  import opened FsRuns
  import L = Log

  /** The log lies before the inodes on the file system's disk. */
  predicate Placed(g: L.Layout, sb: Superblock) {
    L.GoodLayout(g) && g.size == sb.size && g.start + g.nlog <= sb.inodestart
  }

  /** The file system's blocks are the same: inodes, bitmap and data. */
  ghost predicate Agree(sb: Superblock, blk: Blocks, disk: L.Disk) {
    |blk| == |disk| == sb.size && forall b: nat | sb.inodestart <= b < sb.size :: disk[b] == blk[b]
  }

  /** Everything calls rely on is in those blocks. */
  lemma OnlyHome(sb: Superblock, blk: Blocks, disk: L.Disk, ino: seq<Ino>, owner: map<nat, Slot>, files: seq<seq<byte>>)
    requires Owned(sb, blk, ino, owner) && Bitmap(sb, blk, owner, {}) && FilesAre(sb, blk, ino, files)
    requires Agree(sb, blk, disk) && forall k: nat | k < sb.ninodes :: OnDisk(sb, blk, ino, k)
    ensures Owned(sb, disk, ino, owner) && Bitmap(sb, disk, owner, {}) && FilesAre(sb, disk, ino, files)
    ensures forall k: nat | k < sb.ninodes :: OnDisk(sb, disk, ino, k)
  {
    hide Word, Used, FileIs, SameFile;
    OwnersHome(sb, blk, ino, owner);
    KeepOwned(sb, blk, ino, owner, disk);
    BitsHome(sb, blk, disk, owner);
    forall k: nat | k < sb.ninodes ensures OnDisk(sb, disk, ino, k) && FileIs(sb, disk, ino, k, files[k]) {
      OneHome(sb, blk, disk, ino, k, files[k]);
    }
  }

  lemma OwnersHome(sb: Superblock, blk: Blocks, ino: seq<Ino>, owner: map<nat, Slot>)
    requires Owned(sb, blk, ino, owner)
    ensures forall b | b in owner :: sb.inodestart <= b < sb.size
  {
    hide Word, At, BBlock;
    forall b | b in owner ensures sb.inodestart <= b < sb.size {
      InBitmapBlock(sb, b);
    }
  }

  lemma BitsHome(sb: Superblock, blk: Blocks, disk: L.Disk, owner: map<nat, Slot>)
    requires Bitmap(sb, blk, owner, {}) && Agree(sb, blk, disk)
    ensures Bitmap(sb, disk, owner, {})
  {
    hide Used;
    forall b: nat | b < sb.size ensures Used(sb, disk, b) == Used(sb, blk, b) {
      InBitmapBlock(sb, b);
      UsedFrame(sb, blk, disk, b);
    }
  }

  lemma OneHome(sb: Superblock, blk: Blocks, disk: L.Disk, ino: seq<Ino>, k: nat, c: seq<byte>)
    requires Shape(sb, blk, ino) && Shape(sb, disk, ino) && k < sb.ninodes && Agree(sb, blk, disk) && 0 < sb.size
    requires 0 < sb.dstart && OnDisk(sb, blk, ino, k) && FileIs(sb, blk, ino, k, c)
    requires SameFile(sb, blk, ino, disk, ino, k, -1)
    ensures OnDisk(sb, disk, ino, k) && FileIs(sb, disk, ino, k, c)
  {
    hide Word, At, FileSlot;
    Regions(sb, k, 0);
    KeepOnDisk(sb, blk, ino, disk, ino, k);
    SameBytes(sb, blk, ino, disk, ino, k, |c|);
  }

  // Transactions ----------------------------------------------------------------------------------

  /** A transaction commits; or the machine stops when k of the writes of its commit have reached the disk, and stops
      again after boots[0], boots[1], ... writes of recoveries before one completes. */
  datatype End = Commits | Crashes(k: nat, boots: seq<nat>)

  datatype Txn = Txn(calls: seq<Call>, end: End)

  /** What came of a transaction: whether a write found the disk full, and how many blocks it logged. */
  datatype Report = Report(full: bool, n: nat)

  /** It ran to its end, log_write did not panic, and the header that lists its blocks reached the disk. */
  predicate Survives(g: L.Layout, t: Txn, r: Report) {
    !r.full && r.n < L.LOGSIZE && r.n < g.nlog - 1 && (t.end.Commits? || t.end.k > r.n)
  }

  /** A write finds the disk full exactly when the files would take more blocks than there are, and a transaction logs
      no more blocks than its calls do one by one. */
  predicate Accounted(sb: Superblock, files: seq<seq<byte>>, t: Txn, r: Report)
    requires GoodTxn(t, |files|)
  {
    && (r.full <==> Served(Room(sb), files, t.calls) < |t.calls|)
    && (!r.full ==> r.n <= Costs(sb, t.calls))
  }

  /** The disk is what the log's commit, or its crash and recoveries, make of the n blocks the transaction logged. */
  ghost predicate Committed(g: L.Layout, disk: L.Disk, t: Txn, n: nat, disk': L.Disk)
  {
    L.Clean(g, disk, disk) && exists m :: L.GoodMem(g, m) && |m.lh| == n && disk' == L.Play(g, disk, RoundOf(t, m))
  }

  function RoundOf(t: Txn, m: L.Mem): L.Round
  {
    if t.end.Commits? then L.Commit(m) else L.Crash(m, t.end.k, t.end.boots)
  }

  predicate GoodTxn(t: Txn, ninodes: nat) {
    forall i | 0 <= i < |t.calls| :: GoodCall(t.calls[i], ninodes)
  }

  /** The files after transactions that survive whole or not at all. */
  function Survivors(g: L.Layout, files: seq<seq<byte>>, txns: seq<Txn>, reports: seq<Report>): (r: seq<seq<byte>>)
    requires |txns| == |reports| && forall i | 0 <= i < |txns| :: GoodTxn(txns[i], |files|)
    ensures |r| == |files|
    decreases |txns|
  {
    if txns == [] then files
    else
      var n := |txns| - 1;
      var most := Survivors(g, files, txns[..n], reports[..n]);
      assert GoodTxn(txns[n], |most|);
      if Survives(g, txns[n], reports[n]) then PlainRun(most, txns[n].calls).0 else most
  }

  /** The blocks of a set, in some order. */
  method InOrder(s: set<nat>) returns (lh: seq<nat>)
    ensures L.Distinct(lh) && |lh| == |s| && forall b :: b in lh <==> b in s
  {
    lh := [];
    var rest := s;
    while rest != {}
      invariant rest <= s && L.Distinct(lh) && |lh| + |rest| == |s|
      invariant forall b :: b in lh <==> b in s && b !in rest
      decreases |rest|
    {
      var b :| b in rest;
      lh := lh + [b];
      rest := rest - {b};
    }
  }

  /** The machine between transactions: a clean log, and on the disk what the file system sees. */
  ghost predicate Settled(fs: Fs, g: L.Layout, disk: L.Disk, files: seq<seq<byte>>)
    reads fs
  {
    && Placed(g, fs.sb) && L.Clean(g, disk, disk) && Agree(fs.sb, fs.blk, disk)
    && Holds(fs, files) && |files| == fs.sb.ninodes
  }

  /** A kernel that boots from a disk finds the files that are on it. */
  method Reboot(sb: Superblock, g: L.Layout, d: L.Disk, e: L.Disk, ghost blk: Blocks, ghost ino: seq<Ino>,
                ghost owner: map<nat, Slot>, ghost files: seq<seq<byte>>)
    returns (fs: Fs)
    requires Placed(g, sb) && L.Clean(g, d, e) && L.Clean(g, e, e) && Agree(sb, blk, d) && |files| == sb.ninodes
    requires Owned(sb, blk, ino, owner) && Bitmap(sb, blk, owner, {}) && FilesAre(sb, blk, ino, files)
    requires forall k: nat | k < sb.ninodes :: OnDisk(sb, blk, ino, k)
    ensures fresh(fs) && fs.sb == sb && Settled(fs, g, e, files)
  {
    hide Owned, Bitmap, FilesAre, OnDisk;
    OnlyHome(sb, blk, e, ino, owner, files);
    fs := new Fs(sb, e, ino, owner);
  }

  /** The log's contents at commit: the blocks the transaction changed, as they are now. */
  method Pinned(fs: Fs, g: L.Layout) returns (m: L.Mem)
    requires Placed(g, fs.sb) && fs.Tracked() && |fs.blk| == fs.sb.size
    requires |fs.logged| < L.LOGSIZE && |fs.logged| < g.nlog - 1
    ensures L.GoodMem(g, m) && |m.lh| == |fs.logged|
    ensures forall b :: b in m.dirty <==> b in fs.logged
    ensures forall b | b in m.dirty :: b < |fs.blk| && m.dirty[b] == fs.blk[b]
  {
    var lh := InOrder(fs.logged);
    forall i | 0 <= i < |lh| ensures lh[i] < g.size && !L.InLog(g, lh[i]) {
      assert lh[i] in lh;
    }
    m := L.Mem(lh, map b | b in fs.logged :: fs.blk[b]);
  }

  /** With its blocks written home, the disk is what the file system sees. */
  lemma Written(fs: Fs, g: L.Layout, disk: L.Disk, m: L.Mem)
    requires Placed(g, fs.sb) && fs.Tracked() && Agree(fs.sb, fs.base, disk) && |fs.blk| == fs.sb.size
    requires forall b :: b in m.dirty <==> b in fs.logged
    requires forall b | b in m.dirty :: b < |fs.blk| && m.dirty[b] == fs.blk[b]
    ensures Agree(fs.sb, fs.blk, L.Update(disk, m))
  {
  }

  /** Disks that differ in the log alone agree. */
  lemma CleanAgrees(sb: Superblock, g: L.Layout, blk: Blocks, d: L.Disk, e: L.Disk)
    requires Placed(g, sb) && L.Clean(g, d, e) && Agree(sb, blk, d)
    ensures Agree(sb, blk, e)
  {
  }

  /** One transaction: all of its calls take effect on the disk, or none. */
  method Transact(fs: Fs, g: L.Layout, disk: L.Disk, t: Txn, ghost files: seq<seq<byte>>)
    returns (fs': Fs, disk': L.Disk, r: Report)
    requires Settled(fs, g, disk, files) && GoodTxn(t, |files|)
    modifies fs`blk, fs`ino, fs`owner, fs`logged, fs`base
    ensures fs'.sb == fs.sb && (fs' == fs || fresh(fs')) && Accounted(fs.sb, files, t, r)
    ensures !r.full && r.n < L.LOGSIZE && r.n < g.nlog - 1 ==> Committed(g, disk, t, r.n, disk')
    ensures Survives(g, t, r) <==>
      !r.full && r.n < L.LOGSIZE && r.n < g.nlog - 1 && (t.end.Commits? || t.end.k > r.n)
    ensures Settled(fs', g, disk', if Survives(g, t, r) then PlainRun(files, t.calls).0 else files)
  {
    hide Owned, Bitmap, FilesAre, OnDisk, Plain, Used, L.Clean, L.GoodMem, L.Update, L.Play, Agree;
    hide Placed, GoodCall, Fs.Tracked, Needs, Room, Cost;
    ghost var blk0, ino0, owner0 := fs.blk, fs.ino, fs.owner;
    LogOk(fs.sb, g, disk);
    fs.Begin();
    var replies, full := Run(fs, t.calls, files);
    r := Report(full, |fs.logged|);
    if full || r.n >= L.LOGSIZE || r.n >= g.nlog - 1 {
      L.RecoverClean(g, disk, disk);
      disk' := L.Recover(g, disk);
      CleanSelf(g, disk, disk');
      fs' := Reboot(fs.sb, g, disk, disk', blk0, ino0, owner0, files);
      return;
    }
    ghost var after := PlainRun(files, t.calls).0;
    HasShape(fs);
    var m := Pinned(fs, g);
    Written(fs, g, disk, m);
    disk' := L.Play(g, disk, RoundOf(t, m));
    if t.end.Commits? {
      CleanAgrees(fs.sb, g, fs.blk, L.Update(disk, m), disk');
      fs' := fs;
    } else if t.end.k > r.n {
      fs' := Reboot(fs.sb, g, L.Update(disk, m), disk', fs.blk, fs.ino, fs.owner, after);
    } else {
      fs' := Reboot(fs.sb, g, disk, disk', blk0, ino0, owner0, files);
    }
  }

  lemma LogOk(sb: Superblock, g: L.Layout, disk: L.Disk)
    requires Placed(g, sb) && L.Clean(g, disk, disk)
    ensures L.Readable(g, disk)
  {
  }

  lemma CleanSelf(g: L.Layout, d: L.Disk, e: L.Disk)
    requires L.Clean(g, d, e)
    ensures L.Clean(g, e, e)
  {
  }

  lemma HasShape(fs: Fs)
    requires Owned(fs.sb, fs.blk, fs.ino, fs.owner)
    ensures |fs.blk| == fs.sb.size
  {
  }

  /**
   * Any number of transactions, each of which commits or is cut off by a crash at any disk write, with recoveries that
   * crash too: afterwards the file system holds the files as the transactions left them that survived, whole and in
   * order, with one slot for each used block.
   */
  method Transactions(fs: Fs, g: L.Layout, disk: L.Disk, txns: seq<Txn>, ghost files: seq<seq<byte>>)
    returns (fs': Fs, disk': L.Disk, reports: seq<Report>)
    requires Settled(fs, g, disk, files) && forall i | 0 <= i < |txns| :: GoodTxn(txns[i], |files|)
    modifies fs`blk, fs`ino, fs`owner, fs`logged, fs`base
    ensures |reports| == |txns| && fs'.sb == fs.sb && (fs' == fs || fresh(fs'))
    ensures forall i | 0 <= i < |txns| ::
      Accounted(fs.sb, Survivors(g, files, txns[..i], reports[..i]), txns[i], reports[i])
    ensures Settled(fs', g, disk', Survivors(g, files, txns, reports))
    ensures OneSlotPerBlock(fs'.sb, disk', fs'.ino)
  {
    hide Settled, Survives, GoodTxn, PlainRun, Accounted;
    fs', disk', reports := fs, disk, [];
    var i := 0;
    assert txns[..0] == [];
    while i < |txns|
      invariant 0 <= i == |reports| <= |txns| && fs'.sb == fs.sb && (fs' == fs || fresh(fs'))
      invariant Settled(fs', g, disk', Survivors(g, files, txns[..i], reports))
      invariant forall j | 0 <= j < i ::
        Accounted(fs.sb, Survivors(g, files, txns[..j], reports[..j]), txns[j], reports[j])
    {
      var r;
      ghost var now := Survivors(g, files, txns[..i], reports);
      fs', disk', r := Transact(fs', g, disk', txns[i], now);
      assert txns[..i + 1][..i] == txns[..i] && (reports + [r])[..i] == reports;
      assert forall j | 0 <= j <= i :: (reports + [r])[..j] == reports[..j];
      reports := reports + [r];
      i := i + 1;
    }
    assert txns[..i] == txns;
    OnTheDisk(fs', g, disk', Survivors(g, files, txns, reports));
  }

  lemma OnTheDisk(fs: Fs, g: L.Layout, disk: L.Disk, files: seq<seq<byte>>)
    requires Settled(fs, g, disk, files)
    ensures OneSlotPerBlock(fs.sb, disk, fs.ino) && FilesAre(fs.sb, disk, fs.ino, files)
  {
    hide Owned, Bitmap, FilesAre, OnDisk, OneSlotPerBlock, Agree;
    OnlyHome(fs.sb, fs.blk, disk, fs.ino, fs.owner, files);
    OwnedIsOne(fs.sb, disk, fs.ino, fs.owner);
  }
}
