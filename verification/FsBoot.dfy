/** From mkfs's image to a running file system: the image is a state the calls of fs.c start from. */
module FsBoot {
  import opened Block
  import opened FsModel
  import FsCode
  import opened FsRuns
  import opened FsCount
  import opened FsCrash
  import opened Mkfs
  import Log
  import LogSpace

  // The log's place -------------------------------------------------------------------------------

  /** What initlog reads from the superblock mkfs writes. */
  const LOG: Log.Layout := Log.Layout(2, NLOG, FSSIZE)

  /** Every block the file system logs has its home outside the log, the first inode block too. */
  lemma LogIsApart(b: nat)
    requires b < FSSIZE
    ensures Log.GoodLayout(LOG) && LogSpace.Roomy(LOG)
    ensures Log.InLog(LOG, b) <==> 2 <= b < SB.inodestart
    ensures forall k: nat | k < NINODES :: SB.inodestart <= IBlock(SB, k) < SB.bmapstart
    ensures SB.bmapstart <= BBlock(SB, b) < SB.dstart
    ensures forall k: nat | k < NINODES :: !Log.InLog(LOG, IBlock(SB, k))
    ensures !Log.InLog(LOG, BBlock(SB, b)) && (SB.dstart <= b ==> !Log.InLog(LOG, b))
  {
  }

  /** With the log mkfs makes, operations never panic exactly when each logs fewer than ten distinct blocks. */
  lemma LogSuffices(k: nat)
    ensures LogSpace.PanicFree(LOG, k) <==> k < LogSpace.MAXOPBLOCKS
  {
    LogIsApart(0);
    LogSpace.PanicFreeIff(LOG, k);
  }

  // The files of the image ------------------------------------------------------------------------

  /** The files a kernel finds: the root, which mkfs made longer than its entries, and the files copied. */
  function Found(hosts: seq<HostFile>): (files: seq<seq<byte>>)
    requires |hosts| < 0xFFFE && forall h | h in hosts :: |h.name| == 14
    ensures |files| == NINODES
  {
    seq(NINODES, k requires 0 <= k < NINODES => if k == 1 then Padded(Root(hosts)) else Content(hosts, k))
  }

  /**
   * Boot from an image. Unless the root's entries fill blocks, the file system holds the image's files as the calls
   * need it to.
   */
  method Mount(image: Image, hosts: seq<HostFile>) returns (fs: FsCode.Fs)
    requires |hosts| < 0xFFFE && forall h | h in hosts :: |h.name| == 14
    requires Made(image, hosts)
    ensures fresh(fs) && fs.sb == SB && fs.blk == image.blk && Quiet(fs) && fs.Tracked()
    ensures (|hosts| + 2) % 32 != 0 ==> Holds(fs, Found(hosts))
  {
    hide Word, Used, Bitmap, Owned, OnDisk, Grown, Bytes, OneSlotPerBlock, Content, Root, Padded, HeadsAre, Found;
    OwnersExist(SB, image.blk, image.ino);
    ghost var owner :| Owned(SB, image.blk, image.ino, owner) && Bitmap(SB, image.blk, owner, {});
    OwnedShape(SB, image.blk, image.ino, owner);
    fs := new FsCode.Fs(SB, image.blk, image.ino, owner);
    if (|hosts| + 2) % 32 != 0 {
      FilesFound(image, hosts);
    }
  }

  lemma FilesFound(image: Image, hosts: seq<HostFile>)
    requires |hosts| < 0xFFFE && forall h | h in hosts :: |h.name| == 14
    requires Made(image, hosts) && (|hosts| + 2) % 32 != 0
    ensures FilesAre(SB, image.blk, image.ino, Found(hosts))
  {
    hide Grown, Bytes, Content, Root, HeadsAre, OnDisk;
    assert |Padded(Root(hosts))| == (|Root(hosts)| / BSIZE + 1) * BSIZE;
  }

  /**
   * mkfs, boot and any run of calls: when the files fit and the root's entries do not fill blocks, every reply is the
   * one plain byte arrays would give that start as mkfs's files. Only a write after which the files would take more
   * blocks than mkfs's disk has ends the run early.
   */
  method BootAndRun(hosts: seq<HostFile>, calls: seq<Call>)
    returns (out: Outcome, fs: FsCode.Fs?, replies: seq<Reply>, full: bool)
    requires |hosts| < 0xFFFE && forall h | h in hosts :: |h.name| == 14
    requires forall i | 0 <= i < |calls| :: GoodCall(calls[i], NINODES)
    ensures out == Fate(hosts) && (out.Ok? <==> AllFit(hosts)) && (out.Ok? <==> fs != null)
    ensures fs != null ==> fresh(fs) && fs.sb == SB
    ensures fs != null && (|hosts| + 2) % 32 != 0 ==>
      && replies == PlainRun(Found(hosts), calls).1[..Served(Room(SB), Found(hosts), calls)]
      && (full <==> Served(Room(SB), Found(hosts), calls) < |calls|)
      && (!full ==> Holds(fs, PlainRun(Found(hosts), calls).0))
  {
    hide Holds, Quiet, Made, Found, AllFit, Plain, Fate, Used, Needs, Room;
    fs, replies, full := null, [], false;
    var image;
    out, image := Mkfs.Mkfs(hosts);
    if out.Ok? {
      fs := Mount(image, hosts);
      if (|hosts| + 2) % 32 != 0 {
        replies, full := Run(fs, calls, Found(hosts));
      }
    }
  }

  /**
   * mkfs, boot and any transactions, with crashes at any disk writes: afterwards the disk holds mkfs's files as the
   * transactions left them that survived.
   */
  method BootAndTransact(hosts: seq<HostFile>, txns: seq<Txn>)
    returns (out: Outcome, fs: FsCode.Fs?, disk: Log.Disk, reports: seq<Report>)
    requires |hosts| < 0xFFFE && forall h | h in hosts :: |h.name| == 14
    requires forall i | 0 <= i < |txns| :: GoodTxn(txns[i], NINODES)
    ensures out == Fate(hosts) && (out.Ok? <==> AllFit(hosts)) && (out.Ok? <==> fs != null)
    ensures fs != null ==> fresh(fs) && fs.sb == SB
    ensures fs != null && (|hosts| + 2) % 32 != 0 ==>
      && |reports| == |txns|
      && (forall i | 0 <= i < |txns| ::
            Accounted(SB, Survivors(LOG, Found(hosts), txns[..i], reports[..i]), txns[i], reports[i]))
      && Settled(fs, LOG, disk, Survivors(LOG, Found(hosts), txns, reports))
  {
    hide Holds, Made, Found, AllFit, Fate, Settled, Survivors, Accounted, GoodTxn;
    fs, disk, reports := null, [], [];
    var image;
    out, image := Mkfs.Mkfs(hosts);
    if out.Ok? {
      var first := Mount(image, hosts);
      fs, disk := first, image.blk;
      if (|hosts| + 2) % 32 != 0 {
        EmptyLog(image, hosts, first);
        fs, disk, reports := Transactions(first, LOG, disk, txns, Found(hosts));
      }
    }
  }

  /** mkfs leaves the log empty. */
  lemma EmptyLog(image: Image, hosts: seq<HostFile>, fs: FsCode.Fs)
    requires |hosts| < 0xFFFE && forall h | h in hosts :: |h.name| == 14
    requires Made(image, hosts) && fs.sb == SB && fs.blk == image.blk && Holds(fs, Found(hosts))
    ensures Settled(fs, LOG, image.blk, Found(hosts))
  {
    hide Word, Used, Bitmap, At, OnDisk, FileIs, Found, Root, Grown, Bytes, HeadsAre;
    ZeroWords();
    LogIsApart(0);
  }
}
