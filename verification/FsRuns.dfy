/** Whole runs of file-system calls: who owns each block, and what every file reads as. */
module FsRuns {
  import opened Block
  import opened FsModel
  import opened FsCode
  import opened FsCount

  // Ownership, without the owner map -----------------------------------------------------

  /** A data block's bit is set exactly when one slot holds it, and no two slots hold one block. */
  ghost predicate OneSlotPerBlock(sb: Superblock, blk: Blocks, ino: seq<Ino>)
  {
    && Shape(sb, blk, ino) && 0 < sb.dstart
    && (forall b: nat | b < sb.dstart :: Used(sb, blk, b))
    && (forall s | IsSlot(sb, s) && At(sb, blk, ino, s) != 0 :: sb.dstart <= At(sb, blk, ino, s) < sb.size)
    && (forall s, t | IsSlot(sb, s) && IsSlot(sb, t) && At(sb, blk, ino, s) == At(sb, blk, ino, t) != 0 :: s == t)
    && (forall b: nat | sb.dstart <= b < sb.size :: Used(sb, blk, b) <==> Holder(sb, blk, ino, b))
  }

  ghost predicate Holder(sb: Superblock, blk: Blocks, ino: seq<Ino>, b: nat)
    requires Shape(sb, blk, ino)
  {
    exists s :: IsSlot(sb, s) && At(sb, blk, ino, s) == b
  }

  /** The owner map the calls keep says no more and no less than that. */
  lemma {:induction false} OwnersExist(sb: Superblock, blk: Blocks, ino: seq<Ino>)
    ensures OneSlotPerBlock(sb, blk, ino) <==>
      exists owner :: Owned(sb, blk, ino, owner) && Bitmap(sb, blk, owner, {})
  {
    hide Used, Word;
    if OneSlotPerBlock(sb, blk, ino) {
      var owner := Owners(sb, blk, ino);
      assert Owned(sb, blk, ino, owner) && Bitmap(sb, blk, owner, {});
    }
    if owner :| Owned(sb, blk, ino, owner) && Bitmap(sb, blk, owner, {}) {
      OwnedIsOne(sb, blk, ino, owner);
    }
  }

  ghost function Owners(sb: Superblock, blk: Blocks, ino: seq<Ino>): (owner: map<nat, FsModel.Slot>)
    requires OneSlotPerBlock(sb, blk, ino)
    ensures forall b: nat :: b in owner <==> sb.dstart <= b < sb.size && Used(sb, blk, b)
    ensures forall b | b in owner :: IsSlot(sb, owner[b]) && At(sb, blk, ino, owner[b]) == b
  {
    map b: nat | sb.dstart <= b < sb.size && Used(sb, blk, b) ::
      var s :| IsSlot(sb, s) && At(sb, blk, ino, s) == b; s
  }

  lemma OwnedIsOne(sb: Superblock, blk: Blocks, ino: seq<Ino>, owner: map<nat, FsModel.Slot>)
    requires Owned(sb, blk, ino, owner) && Bitmap(sb, blk, owner, {})
    ensures OneSlotPerBlock(sb, blk, ino)
  {
    hide Used, Word;
    forall b: nat | sb.dstart <= b < sb.size && b in owner ensures Holder(sb, blk, ino, b) {
      assert IsSlot(sb, owner[b]);
    }
  }

  // Calls ----------------------------------------------------------------------------------

  /** Between calls, with no inode locked. */
  ghost predicate Quiet(fs: Fs)
    reads fs
  {
    && Owned(fs.sb, fs.blk, fs.ino, fs.owner) && Bitmap(fs.sb, fs.blk, fs.owner, {})
    && forall k: nat | k < fs.sb.ninodes :: OnDisk(fs.sb, fs.blk, fs.ino, k)
  }

  /** Read the inode from disk. */
  method Ilock(fs: Fs, inum: nat) returns (ip: Inode)
    requires Quiet(fs) && inum < fs.sb.ninodes
    ensures fresh(ip) && fresh(ip.addrs) && ip.inum == inum && fs.Valid(ip)
  {
    hide Word, Used, Bitmap;
    ip := new Inode(inum);
    Regions(fs.sb, inum, 0);
    assert OnDisk(fs.sb, fs.blk, fs.ino, inum);
    var bp := fs.Bread(IBlock(fs.sb, inum));
    var d := 16 * (inum % IPB);
    ip.size := Word(bp, d + 2);
    var i := 0;
    while i <= NDIRECT
      invariant 0 <= i <= NDIRECT + 1 && ip.size == Word(bp, d + 2)
      invariant forall j | 0 <= j < i :: ip.addrs[j] == fs.ino[inum].addrs[j]
    {
      assert DWord(fs.sb, fs.blk, inum, 3 + i) == fs.ino[inum].addrs[i];
      ip.addrs[i] := Word(bp, d + 3 + i);
      i := i + 1;
    }
    assert DWord(fs.sb, fs.blk, inum, 2) == fs.ino[inum].size;
    assert ip.addrs[..] == fs.ino[inum].addrs;
  }

  datatype Call =
    | Write(inum: nat, off: nat, src: seq<byte>)
    | Read(inum: nat, off: nat, n: nat)
    | Trunc(inum: nat)

  predicate GoodCall(call: Call, ninodes: nat)
  {
    && call.inum < ninodes
    && (call.Write? ==> call.off < MAXWORD && |call.src| < MAXWORD)
    && (call.Read? ==> call.off < MAXWORD && call.n < MAXWORD)
  }

  datatype Reply = Failed | Wrote(n: nat) | Data(bytes: seq<byte>) | Done

  /** The call on files as byte arrays, with no blocks. */
  function Plain(files: seq<seq<byte>>, call: Call): (r: (seq<seq<byte>>, Reply))
    requires call.inum < |files|
    ensures |r.0| == |files|
  {
    var c := files[call.inum];
    match call
    case Write(k, off, src) =>
      if off > |c| || off + |src| > MAXFILE * BSIZE then (files, Failed)
      else (files[k := Splice(c, off, src)], Wrote(|src|))
    case Read(k, off, n) =>
      if off > |c| || off + n >= MAXWORD then (files, Failed)
      else (files, Data(if off + n > |c| then c[off..] else c[off..off + n]))
    case Trunc(k) => (files[k := []], Done)
  }

  /** File k is the byte array c, and maps exactly the blocks it needs. */
  ghost predicate FileIs(sb: Superblock, blk: Blocks, ino: seq<Ino>, k: nat, c: seq<byte>)
    requires Shape(sb, blk, ino) && k < sb.ninodes
  {
    && Grown(sb, blk, ino, k, |c|) && ino[k].size == |c|
    && Bytes(sb, blk, ino, k, |c|) == c
  }

  ghost predicate FilesAre(sb: Superblock, blk: Blocks, ino: seq<Ino>, files: seq<seq<byte>>)
  {
    && Shape(sb, blk, ino) && |files| == sb.ninodes
    && forall k: nat | k < |files| :: FileIs(sb, blk, ino, k, files[k])
  }

  ghost predicate Holds(fs: Fs, files: seq<seq<byte>>)
    reads fs
  {
    Quiet(fs) && FilesAre(fs.sb, fs.blk, fs.ino, files)
  }

  /** A call changed one file; the others it left alone. */
  lemma Updated(sb: Superblock, blk: Blocks, ino: seq<Ino>, blk': Blocks, ino': seq<Ino>,
                files: seq<seq<byte>>, k: nat, c: seq<byte>)
    requires FilesAre(sb, blk, ino, files) && k < |files|
    requires Others(sb, blk, ino, blk', ino', k) && FileIs(sb, blk', ino', k, c)
    ensures FilesAre(sb, blk', ino', files[k := c])
  {
    hide At, FileSlot;
    forall i: nat | i < |files| && i != k ensures FileIs(sb, blk', ino', i, files[i]) {
      assert FileIs(sb, blk, ino, i, files[i]);
      SameBytes(sb, blk, ino, blk', ino', i, |files[i]|);
    }
  }

  /** No more blocks than these are logged by a call that returns. */
  function Cost(sb: Superblock, call: Call): nat
  {
    match call
    case Write(_, off, src) => Rounds(off, |src|) + BitmapBlocks(sb) + 2
    case Read(_, _, _) => 0
    case Trunc(_) => BitmapBlocks(sb) + 1
  }

  /** Files that a file system holds fit on its disk. */
  lemma HeldFit(fs: Fs, files: seq<seq<byte>>)
    requires Holds(fs, files)
    ensures |files| == fs.sb.ninodes && Needs(files) <= Room(fs.sb)
  {
    hide Owned, Bitmap, OnDisk, Grown, Bytes, Needs, Room;
    forall k: nat | k < fs.sb.ninodes ensures Grown(fs.sb, fs.blk, fs.ino, k, |files[k]|) {
      assert FileIs(fs.sb, fs.blk, fs.ino, k, files[k]);
    }
    FilesFit(fs.sb, fs.blk, fs.ino, fs.owner, files);
  }

  /** A write that ends in the panic is of files that do not fit. */
  lemma PanicShort(sb: Superblock, blk: Blocks, ino: seq<Ino>, blk': Blocks, ino': seq<Ino>,
                   owner': map<nat, FsModel.Slot>, files: seq<seq<byte>>, k: nat, m: nat, c: seq<byte>)
    requires FilesAre(sb, blk, ino, files) && k < |files| && m < |c|
    requires Others(sb, blk, ino, blk', ino', k) && Jammed(sb, blk', ino', owner', k, m)
    ensures Needs(files[k := c]) > Room(sb)
  {
    hide At, FileSlot, Owned, Bitmap, Needs, Room, Jammed;
    forall i: nat | i < |files| && i != k ensures Grown(sb, blk', ino', i, |files[i]|) {
      assert FileIs(sb, blk, ino, i, files[i]);
      SameBytes(sb, blk, ino, blk', ino', i, |files[i]|);
    }
    JammedShort(sb, blk', ino', owner', files[k := c], k, m);
  }

  method ServeWrite(fs: Fs, call: Call, ghost files: seq<seq<byte>>) returns (r: Option<Reply>)
    requires call.Write? && Holds(fs, files) && GoodCall(call, fs.sb.ninodes)
    requires fs.Tracked()
    modifies fs`blk, fs`ino, fs`owner, fs`logged
    ensures fs.Tracked()
    ensures r.Some? ==> Holds(fs, Plain(files, call).0) && r.value == Plain(files, call).1
    ensures r.None? ==> Needs(Plain(files, call).0) > Room(fs.sb)
    ensures r.None? ==> |fs.blk| == fs.sb.size && forall b: nat | b < fs.sb.size :: Used(fs.sb, fs.blk, b)
    ensures r.Some? ==> |fs.logged| <= |old(fs.logged)| + Cost(fs.sb, call)
  {
    var k, off, src := call.inum, call.off, call.src;
    hide Word, Used, Bitmap, Owned, OnDisk, Grown, Bytes, Others, Splice, Fs.Tracked, Jammed;
    assert FileIs(fs.sb, fs.blk, fs.ino, k, files[k]);
    ghost var blk, ino, logged := fs.blk, fs.ino, fs.logged;
    var ip := Ilock(fs, k);
    var n, panic, data := fs.Writei(ip, src, off);
    if panic {
      ghost var m: nat :| |files[k]| <= m < off + |src| && Jammed(fs.sb, fs.blk, fs.ino, fs.owner, k, m);
      Exhausted(fs.sb, fs.blk, fs.ino, fs.owner, k, m);
      PanicShort(fs.sb, blk, ino, fs.blk, fs.ino, fs.owner, files, k, m, Splice(files[k], off, src));
      return None;
    }
    LoggedSize(fs.sb, logged, fs.logged, data, ip.addrs[NDIRECT], k);
    if n == -1 {
      return Some(Failed);
    }
    Updated(fs.sb, blk, ino, fs.blk, fs.ino, files, k, Splice(files[k], off, src));
    r := Some(Wrote(n));
  }

  method ServeRead(fs: Fs, k: nat, off: nat, n: nat, ghost files: seq<seq<byte>>) returns (r: Reply)
    requires Holds(fs, files) && GoodCall(Read(k, off, n), fs.sb.ninodes)
    requires fs.Tracked()
    modifies fs`blk, fs`ino, fs`owner, fs`logged
    ensures fs.Tracked()
    ensures Holds(fs, files) && r == Plain(files, Read(k, off, n)).1
    ensures fs.blk == old(fs.blk) && fs.logged == old(fs.logged)
  {
    hide Word, Used, Bitmap, Owned, OnDisk, Grown, Bytes, Fs.Tracked;
    assert FileIs(fs.sb, fs.blk, fs.ino, k, files[k]);
    ghost var blk, ino := fs.blk, fs.ino;
    var ip := Ilock(fs, k);
    var m, dst, panic := fs.Readi(ip, off, n);
    r := if m == -1 then Failed else Data(dst);
  }

  method ServeTrunc(fs: Fs, k: nat, ghost files: seq<seq<byte>>) returns (ok: bool)
    requires Holds(fs, files) && k < fs.sb.ninodes
    requires fs.Tracked()
    modifies fs`blk, fs`ino, fs`owner, fs`logged
    ensures fs.Tracked()
    ensures ok && Holds(fs, files[k := []])
    ensures |fs.logged| <= |old(fs.logged)| + BitmapBlocks(fs.sb) + 1
  {
    hide Word, Used, Bitmap, Owned, OnDisk, Grown, Others, Fs.Tracked;
    assert FileIs(fs.sb, fs.blk, fs.ino, k, files[k]);
    ghost var blk, ino, logged := fs.blk, fs.ino, fs.logged;
    var ip := Ilock(fs, k);
    ok := fs.Itrunc(ip);
    LoggedSize(fs.sb, logged, fs.logged, {}, IBlock(fs.sb, k), k);
    Updated(fs.sb, blk, ino, fs.blk, fs.ino, files, k, []);
  }

  /** One call, with its inode locked around it. None is the panic "balloc: out of blocks". */
  method Serve(fs: Fs, call: Call, ghost files: seq<seq<byte>>) returns (r: Option<Reply>)
    requires Holds(fs, files) && GoodCall(call, fs.sb.ninodes)
    requires fs.Tracked()
    modifies fs`blk, fs`ino, fs`owner, fs`logged
    ensures fs.Tracked()
    ensures r.Some? ==> Holds(fs, Plain(files, call).0) && r.value == Plain(files, call).1
    ensures r.None? ==> Needs(Plain(files, call).0) > Room(fs.sb)
    ensures r.None? ==> |fs.blk| == fs.sb.size && forall b: nat | b < fs.sb.size :: Used(fs.sb, fs.blk, b)
    ensures r.Some? ==> |fs.logged| <= |old(fs.logged)| + Cost(fs.sb, call)
    ensures r.Some? <==> Needs(Plain(files, call).0) <= Room(fs.sb)
    ensures !call.Write? ==> r.Some?
    ensures call.Read? ==> fs.blk == old(fs.blk)
  {
    hide Holds, Used, Splice, Fs.Tracked, Needs, Room, BitmapBlocks, Rounds;
    HeldFit(fs, files);
    if call.Write? {
      r := ServeWrite(fs, call, files);
    } else if call.Read? {
      var d := ServeRead(fs, call.inum, call.off, call.n, files);
      r := Some(d);
    } else {
      var ok := ServeTrunc(fs, call.inum, files);
      r := Some(Done);
    }
    if r.Some? {
      HeldFit(fs, Plain(files, call).0);
    }
  }

  function PlainRun(files: seq<seq<byte>>, calls: seq<Call>): (r: (seq<seq<byte>>, seq<Reply>))
    requires forall i | 0 <= i < |calls| :: GoodCall(calls[i], |files|)
    ensures |r.0| == |files| && |r.1| == |calls|
    decreases |calls|
  {
    if calls == [] then (files, [])
    else
      assert GoodCall(calls[0], |files|);
      var p := Plain(files, calls[0]);
      var q := PlainRun(p.0, calls[1..]);
      (q.0, [p.1] + q.1)
  }

  /** How many of the calls are served before one wants more blocks than there are. */
  function Served(room: nat, files: seq<seq<byte>>, calls: seq<Call>): (n: nat)
    requires forall i | 0 <= i < |calls| :: GoodCall(calls[i], |files|)
    ensures n <= |calls|
    decreases |calls|
  {
    if calls == [] then 0
    else
      assert GoodCall(calls[0], |files|);
      var after := Plain(files, calls[0]).0;
      if Needs(after) > room then 0 else 1 + Served(room, after, calls[1..])
  }

  function Costs(sb: Superblock, calls: seq<Call>): nat
  {
    if calls == [] then 0 else Cost(sb, calls[0]) + Costs(sb, calls[1..])
  }

  /** A whole run of calls on any files, one at a time. Every reply is the one files that were plain byte arrays would
      give, and every state on the way keeps one slot for each used block. `full` is a run cut short by the panic when
      no block is free: at the first call after which the files would take more blocks than the disk has. */
  method Run(fs: Fs, calls: seq<Call>, ghost files: seq<seq<byte>>) returns (replies: seq<Reply>, full: bool)
    requires Holds(fs, files) && |files| == fs.sb.ninodes
    requires forall i | 0 <= i < |calls| :: GoodCall(calls[i], |files|)
    requires fs.Tracked()
    modifies fs`blk, fs`ino, fs`owner, fs`logged
    ensures fs.Tracked()
    ensures replies == PlainRun(files, calls).1[..Served(Room(fs.sb), files, calls)]
    ensures full <==> Served(Room(fs.sb), files, calls) < |calls|
    ensures !full ==> Holds(fs, PlainRun(files, calls).0) && OneSlotPerBlock(fs.sb, fs.blk, fs.ino)
    ensures !full ==> |fs.logged| <= |old(fs.logged)| + Costs(fs.sb, calls)
    ensures full ==> calls[|replies|].Write?
    ensures full ==> |fs.blk| == fs.sb.size && forall b: nat | b < fs.sb.size :: Used(fs.sb, fs.blk, b)
    decreases |calls|
  {
    hide Word, Used, Bitmap, Owned, OnDisk, Grown, Bytes, Plain, FilesAre;
    hide OneSlotPerBlock, Fs.Tracked, Needs, Room, Cost;
    if calls == [] {
      OwnedIsOne(fs.sb, fs.blk, fs.ino, fs.owner);
      return [], false;
    }
    var r := Serve(fs, calls[0], files);
    if r.None? {
      return [], true;
    }
    replies, full := Run(fs, calls[1..], Plain(files, calls[0]).0);
    replies := [r.value] + replies;
  }
}
