/** fs.c as it runs, one system call at a time: the bitmap, inode and data blocks change in place. */
module FsCode {
  import opened Block
  import opened FsModel

  datatype Option<T> = None | Some(value: T)

  /** struct inode, as far as the block map goes. */
  class Inode {
    const inum: nat
    var size: nat
    const addrs: array<nat>

    constructor (inum: nat)
      ensures this.inum == inum && size == 0 && fresh(addrs)
      ensures addrs.Length == NDIRECT + 1 && forall i | 0 <= i <= NDIRECT :: addrs[i] == 0
    {
      this.inum, size := inum, 0;
      addrs := new nat[NDIRECT + 1](_ => 0);
    }

    ghost function Value(): Ino
      reads this, addrs
    {
      Ino(size, addrs[..])
    }
  }

  class Fs {
    const sb: Superblock
    var blk: Blocks
    // the inodes, and the owner of each allocated block
    ghost var ino: seq<Ino>
    ghost var owner: map<nat, Slot>
    // the blocks handed to log_write since the transaction began, and all blocks as they were then
    var logged: set<nat>
    ghost var base: Blocks

    /** Since the transaction began blocks changed by way of log_write only, and none in the log or before it. */
    ghost predicate Tracked()
      reads this`blk, this`base, this`logged
    {
      && |base| == |blk|
      && (forall b: nat | b < |blk| && b !in logged :: blk[b] == base[b])
      && (forall b | b in logged :: sb.inodestart <= b < |blk|)
    }

    /** The disk a booting kernel finds; ino and owner say what is on it. */
    constructor (sb: Superblock, blk: Blocks, ghost ino: seq<Ino>, ghost owner: map<nat, Slot>)
      ensures this.sb == sb && this.blk == blk && this.ino == ino && this.owner == owner
      ensures Tracked() && base == blk && logged == {}
    {
      this.sb, this.blk := sb, blk;
      this.ino, this.owner := ino, owner;
      base, logged := blk, {};
    }

    /** A transaction begins. */
    method Begin()
      modifies this`base, this`logged
      ensures Tracked() && base == blk && logged == {}
    {
      base, logged := blk, {};
    }

    /** Between the steps of a call on ip. */
    ghost predicate Consistent(ip: Inode)
      reads this, ip, ip.addrs
    {
      && Owned(sb, blk, ino, owner)
      && Bitmap(sb, blk, owner, {})
      && ip.inum < sb.ninodes && ino[ip.inum] == ip.Value()
      && forall k: nat | k < sb.ninodes && k != ip.inum :: OnDisk(sb, blk, ino, k)
    }

    /** Between calls: ip is locked and agrees with the disk. */
    ghost predicate Valid(ip: Inode)
      reads this, ip, ip.addrs
    {
      Consistent(ip) && OnDisk(sb, blk, ino, ip.inum)
    }

    method Bread(b: nat) returns (bp: Block)
      requires b < |blk|
      ensures bp == blk[b]
    {
      bp := blk[b];
    }

    method LogWrite(b: nat, bp: Block)
      requires sb.inodestart <= b < |blk|
      requires Tracked()
      modifies this`blk, this`logged
      ensures Tracked()
      ensures blk == old(blk)[b := bp] && logged == old(logged) + {b}
    {
      blk := blk[b := bp];
      logged := logged + {b};
    }

    /** Allocate a zeroed disk block; None is the panic "balloc: out of blocks". */
    method Balloc() returns (r: Option<nat>)
      requires GoodSb(sb) && |blk| == sb.size
      requires forall c: nat | c < sb.dstart :: Used(sb, blk, c)
      requires Tracked()
      modifies this`blk, this`logged
      ensures Tracked()
      ensures |blk| == sb.size
      ensures r.None? ==> blk == old(blk) && forall c: nat | c < sb.size :: Used(sb, blk, c)
      ensures r.Some? ==>
        var b := r.value;
        && sb.dstart <= b < sb.size && !Used(sb, old(blk), b)
        && (forall c: nat | c < b :: Used(sb, old(blk), c))
        && blk == old(blk)[BBlock(sb, b) := Marked(sb, old(blk), b, true)][b := Zero()]
        && logged == old(logged) + {BBlock(sb, b), b}
    {
      hide Bit, Used, Marked, BBlock, Tracked;
      var b := 0;
      while b < sb.size
        invariant Tracked()
        invariant b % BPB == 0 && blk == old(blk) && logged == old(logged)
        invariant forall c: nat | c < b && c < sb.size :: Used(sb, blk, c)
      {
        BitOf(sb, blk, b, 0);
        var bp := Bread(BBlock(sb, b));
        var bi := 0;
        while bi < BPB && b + bi < sb.size
          invariant Tracked()
          invariant 0 <= bi <= BPB && blk == old(blk) && logged == old(logged)
          invariant forall c: nat | c < b + bi && c < sb.size :: Used(sb, blk, c)
        {
          BitOf(sb, blk, b, bi);
          if !Bit(bp[bi / 8], bi % 8) {
            bp := bp[bi / 8 := SetBit(bp[bi / 8], bi % 8)];
            TakeBlock(BBlock(sb, b), bp, b + bi);
            return Some(b + bi);
          }
          bi := bi + 1;
        }
        b := b + BPB;
      }
      return None;
    }

    /** balloc where it has found block b free: mark it used in its bitmap block, and zero it. */
    method TakeBlock(bitmap: nat, bp: Block, b: nat)
      requires sb.inodestart <= bitmap < |blk| && sb.inodestart <= b < |blk|
      requires Tracked()
      modifies this`blk, this`logged
      ensures Tracked()
      ensures blk == old(blk)[bitmap := bp][b := Zero()] && logged == old(logged) + {bitmap, b}
    {
      hide Tracked;
      LogWrite(bitmap, bp);
      Bzero(b);
    }

    method Bzero(b: nat)
      requires sb.inodestart <= b < |blk|
      requires Tracked()
      modifies this`blk, this`logged
      ensures Tracked()
      ensures blk == old(blk)[b := Zero()] && logged == old(logged) + {b}
    {
      var bp := Bread(b);
      bp := Zero();
      LogWrite(b, bp);
    }

    /** Free a disk block; false is the panic "freeing free block". */
    method Bfree(b: nat) returns (ok: bool)
      requires GoodSb(sb) && |blk| == sb.size && b < sb.size
      requires Tracked()
      modifies this`blk, this`logged
      ensures Tracked()
      ensures ok <==> Used(sb, old(blk), b)
      ensures ok ==> blk == old(blk)[BBlock(sb, b) := Marked(sb, old(blk), b, false)]
      ensures ok ==> logged == old(logged) + {BBlock(sb, b)}
      ensures !ok ==> blk == old(blk) && logged == old(logged)
    {
      var bp := Bread(BBlock(sb, b));
      var bi := b % BPB;
      if !Bit(bp[bi / 8], bi % 8) {
        return false;
      }
      bp := bp[bi / 8 := ClearBit(bp[bi / 8], bi % 8)];
      LogWrite(BBlock(sb, b), bp);
      ok := true;
    }
 
    /** The block address of block bn of ip, allocated if it has none. None is a panic: bn is
        out of range or the disk is full. */
    method Bmap(ip: Inode, bn: nat) returns (r: Option<nat>)
      requires Consistent(ip)
      requires Tracked()
      modifies this`blk, this`ino, this`owner, this`logged, ip.addrs
      ensures Tracked()
      ensures r.None? ==> bn >= MAXFILE || (|blk| == sb.size && forall c: nat | c < sb.size :: Used(sb, blk, c))
      ensures r.Some? ==> bn < MAXFILE && Consistent(ip) && r.value == FileBlock(sb, blk, ino, ip.inum, bn) != 0
      ensures r.None? ==> bn >= MAXFILE || FileBlock(sb, old(blk), old(ino), ip.inum, bn) == 0
      ensures r.None? && bn < MAXFILE ==> Mapped(sb, old(blk), old(ino), old(owner), blk, ino, owner, ip.inum, -1)
      ensures r.None? && bn < NDIRECT ==> ino == old(ino)
      ensures r.Some? ==> IndKept(old(ino)[ip.inum], ino[ip.inum], bn)
      ensures r.Some? ==>
        Mapped(sb, old(blk), old(ino), old(owner), blk, ino, owner, ip.inum,
               if FileBlock(sb, old(blk), old(ino), ip.inum, bn) == 0 then bn else -1)
      ensures r.Some? && FileBlock(sb, old(blk), old(ino), ip.inum, bn) != 0 ==>
        blk == old(blk) && ino == old(ino) && owner == old(owner) && logged == old(logged)
      ensures r.Some? ==> forall c | c in logged - old(logged) ::
        InBitmap(sb, c) || c == r.value || c == ip.addrs[NDIRECT] != 0
    {
      hide Word, Used, Marked, OnDisk, SameFile, Mapped, Others, Tracked;
      if bn < NDIRECT {
        var addr := ip.addrs[bn];
        ghost var blk0 := blk;
        if addr == 0 {
          var b := Balloc();
          if b.None? {
            MappedRefl(sb, blk, ino, owner, ip.inum, -1);
            return None;
          }
          addr := b.value;
          ip.addrs[bn] := addr;
          NoteDirect(ip, blk0, bn, addr);
        } else {
          MappedRefl(sb, blk, ino, owner, ip.inum, -1);
        }
        return Some(addr);
      }
      if bn < MAXFILE {
        r := BmapIndirect(ip, bn);
        return r;
      }
      return None;
    }

    /** The part of bmap behind the indirect block. */
    method BmapIndirect(ip: Inode, bn: nat) returns (r: Option<nat>)
      requires NDIRECT <= bn < MAXFILE
      requires Consistent(ip)
      requires Tracked()
      modifies this`blk, this`ino, this`owner, this`logged, ip.addrs
      ensures Tracked()
      ensures r.None? ==> bn >= MAXFILE || (|blk| == sb.size && forall c: nat | c < sb.size :: Used(sb, blk, c))
      ensures r.Some? ==> bn < MAXFILE && Consistent(ip) && r.value == FileBlock(sb, blk, ino, ip.inum, bn) != 0
      ensures r.None? ==> bn >= MAXFILE || FileBlock(sb, old(blk), old(ino), ip.inum, bn) == 0
      ensures r.None? ==> Mapped(sb, old(blk), old(ino), old(owner), blk, ino, owner, ip.inum, -1)
      ensures r.Some? ==> IndKept(old(ino)[ip.inum], ino[ip.inum], bn)
      ensures r.Some? ==>
        Mapped(sb, old(blk), old(ino), old(owner), blk, ino, owner, ip.inum,
               if FileBlock(sb, old(blk), old(ino), ip.inum, bn) == 0 then bn else -1)
      ensures r.Some? && FileBlock(sb, old(blk), old(ino), ip.inum, bn) != 0 ==>
        blk == old(blk) && ino == old(ino) && owner == old(owner) && logged == old(logged)
      ensures r.Some? ==> forall c | c in logged - old(logged) ::
        InBitmap(sb, c) || c == r.value || c == ip.addrs[NDIRECT] != 0
    {
      hide Word, Used, Marked, OnDisk, SameFile, Mapped, Others, Tracked;
      var j := bn - NDIRECT;
      r := BmapInd(ip);
      if r.None? {
        return None;
      }
      ghost var blk1, ino1, owner1 := blk, ino, owner;
      IndirectHome(sb, blk, ino, owner, ip.inum);
      var bp := Bread(r.value);
      var addr := Word(bp, j);
      if addr == 0 {
        var b := Balloc();
        if b.None? {
          MappedRefl(sb, blk, ino, owner, ip.inum, -1);
          return None;
        }
        addr := b.value;
        bp := SetWord(bp, j, addr);
        LogWrite(r.value, bp);
        NoteEntry(ip, blk1, j, addr);
        MappedTrans(sb, old(blk), old(ino), old(owner), blk1, ino1, owner1, blk, ino, owner, ip.inum, bn);
      }
      return Some(addr);
    }

    /** The address of ip's indirect block, allocated if it has none. */
    method BmapInd(ip: Inode) returns (r: Option<nat>)
      requires Consistent(ip)
      requires Tracked()
      modifies this`blk, this`ino, this`owner, this`logged, ip.addrs
      ensures Tracked()
      ensures r.None? ==> |blk| == sb.size && forall c: nat | c < sb.size :: Used(sb, blk, c)
      ensures r.None? ==> old(ip.addrs[NDIRECT]) == 0
      ensures r.Some? ==> Consistent(ip) && r.value == ip.addrs[NDIRECT] != 0
      ensures Mapped(sb, old(blk), old(ino), old(owner), blk, ino, owner, ip.inum, -1)
      ensures r.Some? && old(ip.addrs[NDIRECT]) == 0 ==> forall j: nat | j < NINDIRECT :: Word(blk[r.value], j) == 0
      ensures r.Some? && old(ip.addrs[NDIRECT]) != 0 ==>
        blk == old(blk) && ino == old(ino) && owner == old(owner) && logged == old(logged)
      ensures r.Some? ==> forall c | c in logged - old(logged) ::
        InBitmap(sb, c) || c == r.value || c == ip.addrs[NDIRECT] != 0
    {
      hide Word, Used, Marked, OnDisk, SameFile, Mapped, Others, Tracked;
      var addr := ip.addrs[NDIRECT];
      ghost var blk0 := blk;
      if addr == 0 {
        var b := Balloc();
        if b.None? {
          MappedRefl(sb, blk, ino, owner, ip.inum, -1);
          return None;
        }
        addr := b.value;
        ip.addrs[NDIRECT] := addr;
        NoteInd(ip, blk0, addr);
        ZeroWords();
      } else {
        MappedRefl(sb, blk, ino, owner, ip.inum, -1);
      }
      return Some(addr);
    }

    /** Ghost bookkeeping after `ip->addrs[bn] = b`. */
    ghost method NoteDirect(ip: Inode, blk0: Blocks, bn: nat, b: nat)
      requires Owned(sb, blk0, ino, owner) && Bitmap(sb, blk0, owner, {}) && ip.inum < sb.ninodes
      requires bn < NDIRECT && ino[ip.inum].addrs[bn] == 0 && b < sb.size && !Used(sb, blk0, b)
      requires blk == Allocated(sb, blk0, b)
      requires ip.Value() == Ino(ino[ip.inum].size, ino[ip.inum].addrs[bn := b])
      requires forall k: nat | k < sb.ninodes && k != ip.inum :: OnDisk(sb, blk0, ino, k)
      modifies this`ino, this`owner
      ensures Consistent(ip)
      ensures Mapped(sb, blk0, old(ino), old(owner), blk, ino, owner, ip.inum, bn)
      ensures FileBlock(sb, blk, ino, ip.inum, bn) == b
      ensures ino[ip.inum].addrs[NDIRECT] == old(ino)[ip.inum].addrs[NDIRECT]
    {
      hide Word, Used, OnDisk, SameFile;
      MapDirect(sb, blk0, ino, owner, ip.inum, bn, b);
      ino := SetAddr(ino, ip.inum, bn, b);
      owner := owner[b := Direct(ip.inum, bn)];
    }

    /** Ghost bookkeeping after `ip->addrs[NDIRECT] = b`. */
    ghost method NoteInd(ip: Inode, blk0: Blocks, b: nat)
      requires Owned(sb, blk0, ino, owner) && Bitmap(sb, blk0, owner, {}) && ip.inum < sb.ninodes
      requires ino[ip.inum].addrs[NDIRECT] == 0 && b < sb.size && !Used(sb, blk0, b)
      requires blk == Allocated(sb, blk0, b)
      requires ip.Value() == Ino(ino[ip.inum].size, ino[ip.inum].addrs[NDIRECT := b])
      requires forall k: nat | k < sb.ninodes && k != ip.inum :: OnDisk(sb, blk0, ino, k)
      modifies this`ino, this`owner
      ensures Consistent(ip)
      ensures Mapped(sb, blk0, old(ino), old(owner), blk, ino, owner, ip.inum, -1)
      ensures ino[ip.inum].addrs[NDIRECT] == b
    {
      hide Word, Used, OnDisk, SameFile;
      MapInd(sb, blk0, ino, owner, ip.inum, b);
      ino := SetAddr(ino, ip.inum, NDIRECT, b);
      owner := owner[b := Ind(ip.inum)];
    }

    /** Ghost bookkeeping after entry j of ip's indirect block was set to b. */
    ghost method NoteEntry(ip: Inode, blk0: Blocks, j: nat, b: nat)
      requires Owned(sb, blk0, ino, owner) && Bitmap(sb, blk0, owner, {}) && ip.inum < sb.ninodes
      requires j < NINDIRECT && b < sb.size && !Used(sb, blk0, b) && ino[ip.inum] == ip.Value()
      requires ip.addrs[NDIRECT] != 0 && Word(blk0[ip.addrs[NDIRECT]], j) == 0
      requires blk == EntrySet(sb, blk0, ino, ip.inum, j, b)
      requires forall k: nat | k < sb.ninodes && k != ip.inum :: OnDisk(sb, blk0, ino, k)
      modifies this`owner
      ensures Consistent(ip)
      ensures Mapped(sb, blk0, ino, old(owner), blk, ino, owner, ip.inum, NDIRECT + j)
      ensures FileBlock(sb, blk, ino, ip.inum, NDIRECT + j) == b
    {
      hide Word, Used, OnDisk, SameFile;
      MapEntry(sb, blk0, ino, owner, ip.inum, j, b);
      owner := owner[b := Entry(ip.inum, j)];
    }

    /** Copy a modified in-memory inode to disk: the size and the address words. */
    method Iupdate(ip: Inode)
      requires Consistent(ip) && ip.size < MAXWORD
      requires Tracked()
      modifies this`blk, this`logged
      ensures Tracked()
      ensures Valid(ip)
      ensures logged == old(logged) + {IBlock(sb, ip.inum)}
      ensures forall k: nat | k < sb.ninodes :: SameFile(sb, old(blk), ino, blk, ino, k, -1)
    {
      hide Word, Used, Marked, SameFile, Bitmap, Owned, Tracked;
      ghost var blk0 := blk;
      var k := ip.inum;
      ConsistentShape(ip);
      Regions(sb, k, 0);
      var bp := Bread(IBlock(sb, k));
      var d := 16 * (k % IPB);
      bp := SetWord(bp, d + 2, ip.size);
      var i := 0;
      while i <= NDIRECT
        invariant 0 <= i <= NDIRECT + 1
        invariant Word(bp, d + 2) == ip.size
        invariant forall j: nat | j < i :: Word(bp, d + 3 + j) == ip.addrs[j]
        invariant forall w: nat | w < WORDS && !(d + 2 <= w < d + 16) :: Word(bp, w) == Word(blk[IBlock(sb, k)], w)
      {
        bp := SetWord(bp, d + 3 + i, ip.addrs[i]);
        i := i + 1;
      }
      LogWrite(IBlock(sb, k), bp);
      InodeBlockFiles(sb, blk0, ino, owner, k, bp);
      forall i: nat | i < sb.ninodes && i != k ensures OnDisk(sb, blk, ino, i) {
        Regions(sb, i, 0);
        if IBlock(sb, i) == IBlock(sb, k) {
          assert i % IPB != k % IPB;
          KeepWords(sb, blk0, ino, blk, i);
        } else {
          KeepOnDisk(sb, blk0, ino, blk, ino, i);
        }
      }
    }

    lemma ConsistentShape(ip: Inode)
      requires Consistent(ip)
      ensures Shape(sb, blk, ino) && 0 < sb.dstart && Owned(sb, blk, ino, owner) && Bitmap(sb, blk, owner, {})
      ensures ip.inum < sb.ninodes && ino[ip.inum] == ip.Value() && ip.addrs.Length == NDIRECT + 1
    {
    }

    /** One round of writei's loop: `piece` goes to byte off, within one block of a file whose
        first m bytes are mapped. False is the panic "balloc: out of blocks". */
    method WriteBlock(ip: Inode, off: nat, piece: seq<byte>, ghost m: nat) returns (ok: bool, ghost addr: nat)
      requires Consistent(ip) && Grown(sb, blk, ino, ip.inum, m)
      requires off <= m && 0 < |piece| && off % BSIZE + |piece| <= BSIZE && off + |piece| <= MAXFILE * BSIZE
      requires Tracked()
      modifies this`blk, this`ino, this`owner, this`logged, ip.addrs
      ensures Tracked()
      ensures !ok ==> off == m && Jammed(sb, blk, ino, owner, ip.inum, m)
      ensures !ok ==> Others(sb, old(blk), old(ino), blk, ino, ip.inum)
      ensures ok ==> Consistent(ip) && Grown(sb, blk, ino, ip.inum, Max(m, off + |piece|))
      ensures ok ==> Bytes(sb, blk, ino, ip.inum, Max(m, off + |piece|)) ==
                     Splice(old(Bytes(sb, blk, ino, ip.inum, m)), off, piece)
      ensures ok ==> Others(sb, old(blk), old(ino), blk, ino, ip.inum)
      ensures ok && off < m ==> ino == old(ino) && (old(OnDisk(sb, blk, ino, ip.inum)) ==> Valid(ip))
      ensures ok ==> forall c | c in logged - old(logged) ::
        InBitmap(sb, c) || c == addr || c == ip.addrs[NDIRECT] != 0
      ensures ok && old(ip.addrs[NDIRECT]) != 0 ==> ip.addrs[NDIRECT] == old(ip.addrs[NDIRECT])
    {
      hide Word, Used, Marked, SameFile, Bitmap, OnDisk, At, InBitmap, FileSlot, Mapped, Others, Owned, Tracked;
      var bn := off / BSIZE;
      ghost var k, m' := ip.inum, Max(m, off + |piece|);
      ghost var blk0, ino0, owner0 := blk, ino, owner;
      ok, addr := false, 0;
      ConsistentShape(ip);
      var a := Bmap(ip, bn);
      if a.None? {
        JammedAt(sb, blk0, ino0, owner0, blk, ino, owner, k, m, off);
        return;
      }
      addr := a.value;
      ghost var blk1 := blk;
      ConsistentShape(ip);
      GrownStep(sb, blk0, ino0, owner0, blk, ino, owner, k, bn, m, off + |piece|);
      BlockInRange(sb, blk, ino, owner, k, bn);
      var bp := Bread(a.value);
      bp := Splice(bp, off % BSIZE, piece);
      LogWrite(a.value, bp);
      WriteEffect(sb, blk0, ino0, owner0, blk1, ino, owner, k, bn, m, off, piece);
      ok := true;
    }

    /** The end of a writei that went past the size: record the new size, here and on disk. */
    method Grow(ip: Inode, size: nat)
      requires Consistent(ip) && Grown(sb, blk, ino, ip.inum, size)
      requires Tracked()
      modifies this`blk, this`logged, this`ino, ip`size
      ensures Tracked()
      ensures Valid(ip) && ip.size == size && Grown(sb, blk, ino, ip.inum, size)
      ensures Bytes(sb, blk, ino, ip.inum, size) == old(Bytes(sb, blk, ino, ip.inum, size))
      ensures logged == old(logged) + {IBlock(sb, ip.inum)}
      ensures Others(sb, old(blk), old(ino), blk, ino, ip.inum)
    {
      hide Word, Used, Marked, Bitmap, OnDisk, At, SameFile, Grown, FileByte, FileBlock, Tracked;
      ghost var k, blk0, ino0 := ip.inum, blk, ino;
      ConsistentShape(ip);
      assert size < MAXWORD by { GrownBound(sb, blk, ino, k, size); }
      ip.size := size;
      ino := ino[k := ino[k].(size := size)];
      SetSize(sb, blk, ino0, owner, k, size);
      Iupdate(ip);
      ConsistentShape(ip);
      SameBytes(sb, blk0, ino, blk, ino, k, size);
      OthersLift(sb, blk0, ino0, blk, ino, k);
    }

    /** writei on a regular file: write src at byte off. -1 is an error return; `panic` is "balloc:
        out of blocks". Offsets are 32-bit. The blocks logged are the bitmap's, the inode's, the
        indirect block and `data`. */
    method Writei(ip: Inode, src: seq<byte>, off: nat) returns (r: int, panic: bool, ghost data: set<nat>)
      requires Valid(ip) && Grown(sb, blk, ino, ip.inum, ip.size)
      requires off < MAXWORD && |src| < MAXWORD
      requires Tracked()
      modifies this`blk, this`ino, this`owner, this`logged, ip`size, ip.addrs
      ensures Tracked()
      ensures panic ==> off <= old(ip.size) && off + |src| <= MAXFILE * BSIZE
      ensures panic ==> exists m: nat | old(ip.size) <= m < off + |src| :: Jammed(sb, blk, ino, owner, ip.inum, m)
      ensures Others(sb, old(blk), old(ino), blk, ino, ip.inum)
      ensures !panic ==> Valid(ip) && Grown(sb, blk, ino, ip.inum, ip.size)
      ensures !panic ==> r == if off > old(ip.size) || off + |src| > MAXFILE * BSIZE then -1 else |src|
      ensures !panic && r == -1 ==> blk == old(blk) && ino == old(ino) && logged == old(logged)
      ensures !panic && r != -1 ==>
        Bytes(sb, blk, ino, ip.inum, ip.size) == Splice(old(Bytes(sb, blk, ino, ip.inum, ip.size)), off, src)
      ensures !panic ==> |data| <= Rounds(off, |src|)
      ensures !panic ==> forall c | c in logged - old(logged) ::
        InBitmap(sb, c) || c in data || c == ip.addrs[NDIRECT] != 0 || c == IBlock(sb, ip.inum)
    {
      hide Word, Used, Marked, Bitmap, OnDisk, At, InBitmap, Mapped, Grown, Others, Owned, Tracked;
      hide Bytes, IBlock, Rounds, Splice, SameFile, FileSlot, Jammed, Consistent;
      data, panic := {}, false;
      ConsistentShape(ip);
      OthersRefl(sb, blk, ino, ip.inum);
      if off > ip.size || (off + |src|) % MAXWORD < off {
        return -1, false, {};
      }
      if (off + |src|) % MAXWORD > MAXFILE * BSIZE {
        return -1, false, {};
      }
      assert off + |src| <= MAXFILE * BSIZE;
      var tot, at := 0, off;
      ghost var k, size0 := ip.inum, ip.size;
      ghost var blk0, ino0 := blk, ino;
      ghost var bytes0 := Bytes(sb, blk, ino, k, size0);
      assert Splice(bytes0, off, src[..0]) == bytes0;
      while tot < |src|
        invariant Tracked()
        invariant 0 <= tot <= |src| && at == off + tot && ip.size == size0
        invariant Shape(sb, blk, ino) && Consistent(ip) && Grown(sb, blk, ino, k, Max(size0, at))
        invariant Bytes(sb, blk, ino, k, Max(size0, at)) == Splice(bytes0, off, src[..tot])
        invariant Others(sb, blk0, ino0, blk, ino, k)
        invariant at <= size0 ==> Valid(ip)
        invariant tot == |src| || tot == 0 || at % BSIZE == 0
        invariant |data| <= Rounds(off, tot)
        invariant forall c | c in logged - old(logged) ::
          InBitmap(sb, c) || c in data || c == ip.addrs[NDIRECT] != 0
      {
        var m := BSIZE - at % BSIZE;
        if |src| - tot < m {
          m := |src| - tot;
        }
        RoundsStep(off, tot, m, |src|);
        ghost var blk1, ino1 := blk, ino;
        var ok, addr := WriteBlock(ip, at, src[tot..tot + m], Max(size0, at));
        if !ok {
          OthersTrans(sb, blk0, ino0, blk1, ino1, blk, ino, k);
          return 0, true, data;
        }
        ConsistentShape(ip);
        OthersTrans(sb, blk0, ino0, blk1, ino1, blk, ino, k);
        SpliceMore(bytes0, off, src, tot, m);
        assert Max(Max(size0, at), at + m) == Max(size0, at + m);
        data := data + {addr};
        tot, at := tot + m, at + m;
      }
      assert src[..tot] == src;
      if |src| > 0 && at > ip.size {
        ghost var blk1, ino1 := blk, ino;
        Grow(ip, at);
        OthersTrans(sb, blk0, ino0, blk1, ino1, blk, ino, k);
      }
      r := |src|;
    }

    /** readi on a regular file: up to n bytes from byte off. -1 is an error return; `panic` is a
        panic inside bmap. A file that writei alone has grown is read without being changed. */
    method Readi(ip: Inode, off: nat, n: nat) returns (r: int, dst: seq<byte>, panic: bool)
      requires Valid(ip) && off < MAXWORD && n < MAXWORD
      requires Tracked()
      modifies this`blk, this`ino, this`owner, this`logged, ip.addrs
      ensures Tracked()
      ensures !panic ==> Consistent(ip) && |dst| == if r == -1 then 0 else r
      ensures !panic ==> r == if off > ip.size || off + n >= MAXWORD then -1
                              else if off + n > ip.size then ip.size - off else n
      ensures old(Grown(sb, blk, ino, ip.inum, ip.size)) ==>
        && !panic && blk == old(blk) && ino == old(ino) && owner == old(owner) && logged == old(logged)
        && Valid(ip)
        && (r != -1 ==> dst == Bytes(sb, blk, ino, ip.inum, ip.size)[off..off + r])
    {
      hide Word, Used, Marked, Bitmap, OnDisk, At, InBitmap, Mapped, Grown, Others, SameFile, FileSlot, Bytes, Tracked;
      ghost var grown, k, size := Grown(sb, blk, ino, ip.inum, ip.size), ip.inum, ip.size;
      dst, panic := [], false;
      if off > ip.size || (off + n) % MAXWORD < off {
        return -1, [], false;
      }
      var n' := n;
      if off + n > ip.size {
        n' := ip.size - off;
      }
      var tot, at := 0, off;
      while tot < n'
        invariant Tracked()
        invariant 0 <= tot <= n' && at == off + tot && |dst| == tot
        invariant Consistent(ip) && ip.size == size && at <= size
        invariant grown ==>
          && blk == old(blk) && ino == old(ino) && owner == old(owner) && logged == old(logged)
          && Grown(sb, blk, ino, k, size) && Valid(ip)
          && dst == Bytes(sb, blk, ino, k, size)[off..at]
      {
        var m := BSIZE - at % BSIZE;
        if n' - tot < m {
          m := n' - tot;
        }
        if grown {
          ReadPiece(sb, blk, ino, owner, k, size, at, m);
        }
        var a := Bmap(ip, at / BSIZE);
        if a.None? {
          return 0, dst, true;
        }
        BlockInRange(sb, blk, ino, owner, k, at / BSIZE);
        var bp := Bread(a.value);
        dst := dst + bp[at % BSIZE..at % BSIZE + m];
        if grown {
          Adjacent(Bytes(sb, blk, ino, k, size), off, at, m);
        }
        tot, at := tot + m, at + m;
      }
      r := n';
    }

    /** Truncate inode (discard contents). False would be the panic "freeing free block". */
    method Itrunc(ip: Inode) returns (ok: bool)
      requires Valid(ip)
      requires Tracked()
      modifies this`blk, this`ino, this`owner, this`logged, ip`size, ip.addrs
      ensures Tracked()
      ensures ok && Valid(ip) && ip.size == 0 && Grown(sb, blk, ino, ip.inum, 0)
      ensures owner == Disowned(old(owner), ip.inum)
      ensures forall b: nat | b < sb.size ::
        Used(sb, blk, b) <==> Used(sb, old(blk), b) && !(b in old(owner) && old(owner)[b].inum == ip.inum)
      ensures Others(sb, old(blk), old(ino), blk, ino, ip.inum)
      ensures forall c | c in logged - old(logged) :: InBitmap(sb, c) || c == IBlock(sb, ip.inum)
    {
      hide Word, Used, Marked, OnDisk, At, SameFile, Others, IBlock, Freeing, Grown, Tracked, InBitmap;
      ghost var k, blk0, ino0 := ip.inum, blk, ino;
      ConsistentShape(ip);
      ok := TruncDirect(ip);
      if ip.addrs[NDIRECT] != 0 {
        ok := TruncIndirect(ip, blk0);
        ip.addrs[NDIRECT] := 0;
      } else {
        NoIndirect(sb, blk0, ino, owner, blk, k);
      }
      TruncKeeps(sb, blk0, ino, owner, blk, k);
      ip.size := 0;
      ino := Truncated(ino, k);
      owner := Disowned(owner, k);
      ghost var blk1 := blk;
      assert ip.addrs[..] == seq(NDIRECT + 1, _ => 0);
      Iupdate(ip);
      OthersSame(sb, blk1, blk, ino, k);
      OthersTrans(sb, blk0, ino0, blk1, ino, blk, ino, k);
      SameBytes(sb, blk1, ino, blk, ino, k, 0);
    }

    /** itrunc's loop over the direct blocks. */
    method TruncDirect(ip: Inode) returns (ok: bool)
      requires Valid(ip)
      requires Tracked()
      modifies this`blk, this`logged, ip.addrs
      ensures Tracked()
      ensures ok && |blk| == sb.size && Freeing(sb, blk, owner, ip.inum, NDIRECT)
      ensures forall j | 0 <= j <= NDIRECT :: ip.addrs[j] == if j < NDIRECT then 0 else ino[ip.inum].addrs[j]
      ensures forall c: nat | c < sb.size && (sb.dstart <= c || c < sb.bmapstart) :: blk[c] == old(blk)[c]
      ensures forall c | c in logged - old(logged) :: InBitmap(sb, c)
    {
      hide Word, Used, Marked, OnDisk, At, IBlock, BBlock, SameFile, Freeing, Tracked, InBitmap;
      ghost var k, blk0 := ip.inum, blk;
      FreeingNone(sb, blk, owner, k);
      ok := true;
      var i := 0;
      while i < NDIRECT
        invariant Tracked()
        invariant ok && |blk| == sb.size && 0 <= i <= NDIRECT && Freeing(sb, blk, owner, k, i)
        invariant forall j | 0 <= j <= NDIRECT :: ip.addrs[j] == if j < i then 0 else ino[k].addrs[j]
        invariant forall c: nat | c < sb.size && (sb.dstart <= c || c < sb.bmapstart) :: blk[c] == blk0[c]
        invariant forall c | c in logged - old(logged) :: InBitmap(sb, c)
      {
        FreeStep(sb, blk0, ino, owner, blk, Direct(k, i));
        AtDirect(sb, blk0, ino, k, i);
        InBitmapBlock(sb, ip.addrs[i]);
        InBitmapIs(sb, ip.addrs[i]);
        if ip.addrs[i] != 0 {
          ok := Bfree(ip.addrs[i]);
          ip.addrs[i] := 0;
        }
        i := i + 1;
      }
    }

    /** The half of itrunc behind the indirect block. */
    method TruncIndirect(ip: Inode, ghost blk0: Blocks) returns (ok: bool)
      requires Owned(sb, blk0, ino, owner) && |blk| == sb.size && ip.inum < sb.ninodes && ip.addrs.Length == NDIRECT + 1
      requires 0 != ip.addrs[NDIRECT] == ino[ip.inum].addrs[NDIRECT]
      requires Freeing(sb, blk, owner, ip.inum, NDIRECT)
      requires forall c: nat | c < sb.size && (sb.dstart <= c || c < sb.bmapstart) :: blk[c] == blk0[c]
      requires Tracked()
      modifies this`blk, this`logged
      ensures Tracked()
      ensures ok && |blk| == sb.size
      ensures Freeing(sb, blk, owner, ip.inum, MAXFILE + 1)
      ensures forall c: nat | c < sb.size && (sb.dstart <= c || c < sb.bmapstart) :: blk[c] == blk0[c]
      ensures forall c | c in logged - old(logged) :: InBitmap(sb, c)
    {
      hide Word, Used, Marked, OnDisk, At, SameFile, Others, IBlock, BBlock, Freeing, Owned, Tracked, InBitmap;
      ghost var k := ip.inum;
      OwnedShape(sb, blk0, ino, owner);
      AtIndirect(sb, blk0, ino, owner, k);
      var bp := Bread(ip.addrs[NDIRECT]);
      var j := 0;
      while j < NINDIRECT
        invariant Tracked()
        invariant 0 <= j <= NINDIRECT && |blk| == sb.size && Freeing(sb, blk, owner, k, NDIRECT + j)
        invariant forall c: nat | c < sb.size && (sb.dstart <= c || c < sb.bmapstart) :: blk[c] == blk0[c]
        invariant forall c | c in logged - old(logged) :: InBitmap(sb, c)
      {
        FreeStep(sb, blk0, ino, owner, blk, Entry(k, j));
        AtEntry(sb, blk0, ino, k, j);
        var b := Word(bp, j);
        InBitmapBlock(sb, b);
        InBitmapIs(sb, b);
        if b != 0 {
          ok := Bfree(b);
        }
        j := j + 1;
      }
      FreeStep(sb, blk0, ino, owner, blk, Ind(k));
      InBitmapBlock(sb, ip.addrs[NDIRECT]);
      InBitmapIs(sb, ip.addrs[NDIRECT]);
      ok := Bfree(ip.addrs[NDIRECT]);
    }

    /** filewrite (file.c) on an inode: one transaction per chunk. `done` bytes were written, and
        ops[i] are the blocks chunk i logged; `panic` is a full disk, never a short write. */
    method Filewrite(ip: Inode, src: seq<byte>, off: nat)
      returns (r: int, off': nat, panic: bool, ghost done: nat, ghost ops: seq<set<nat>>)
      requires Valid(ip) && Grown(sb, blk, ino, ip.inum, ip.size)
      requires off + |src| < MAXWORD
      requires Tracked()
      modifies this`blk, this`ino, this`owner, this`logged, this`base, ip`size, ip.addrs
      ensures Tracked()
      ensures sb.size <= BPB ==> forall i | 0 <= i < |ops| :: |ops[i]| <= 7
      ensures !panic ==> Valid(ip) && Grown(sb, blk, ino, ip.inum, ip.size)
      ensures !panic ==> done <= |src| && off' == off + done && r == if done == |src| then |src| else -1
      ensures !panic && done < |src| ==> off > old(ip.size) || off + done + Chunk(|src| - done) > MAXFILE * BSIZE
      ensures !panic ==> Others(sb, old(blk), old(ino), blk, ino, ip.inum)
      ensures !panic && done == 0 ==>
        Bytes(sb, blk, ino, ip.inum, ip.size) == old(Bytes(sb, blk, ino, ip.inum, ip.size))
      ensures !panic && done > 0 ==>
        off <= old(ip.size) &&
        Bytes(sb, blk, ino, ip.inum, ip.size) == Splice(old(Bytes(sb, blk, ino, ip.inum, ip.size)), off, src[..done])
      ensures panic ==> |blk| == sb.size && forall c: nat | c < sb.size :: Used(sb, blk, c)
    {
      hide Word, Used, Marked, Bitmap, OnDisk, At, InBitmap, Mapped, Grown, Others, Tracked;
      hide Owned, Bytes, IBlock, SameFile, Splice, Jammed;
      panic, ops := false, [];
      ghost var k, blk0, ino0, size0 := ip.inum, blk, ino, ip.size;
      ConsistentShape(ip);
      OthersRefl(sb, blk, ino, k);
      ghost var bytes0 := Bytes(sb, blk, ino, k, ip.size);
      var i := 0;
      done := 0;
      while i < |src|
        invariant Tracked()
        invariant done == i <= |src| && |ops| >= 0
        invariant Shape(sb, blk, ino) && Valid(ip) && Grown(sb, blk, ino, k, ip.size)
        invariant Others(sb, blk0, ino0, blk, ino, k)
        invariant i == 0 ==> ip.size == size0 && Bytes(sb, blk, ino, k, ip.size) == bytes0
        invariant i > 0 ==> off <= size0 && Bytes(sb, blk, ino, k, ip.size) == Splice(bytes0, off, src[..i])
        invariant off <= size0 ==> off + i <= ip.size
        invariant sb.size <= BPB ==> forall j | 0 <= j < |ops| :: |ops[j]| <= 7
      {
        var n1 := Chunk(|src| - i);
        ghost var blk1, ino1, size1 := blk, ino, ip.size;
        Begin();
        var w, stop, data := Writei(ip, src[i..i + n1], off + i);
        ops := ops + [logged];
        if stop {
          ghost var m: nat :| Jammed(sb, blk, ino, owner, k, m);
          Exhausted(sb, blk, ino, owner, k, m);
          return 0, off, true, done, ops[..|ops| - 1];
        }
        OpSize(sb, logged, data, ip.addrs[NDIRECT], ip.inum, off + i, n1);
        ConsistentShape(ip);
        OthersTrans(sb, blk0, ino0, blk1, ino1, blk, ino, k);
        if w < 0 {
          break;
        }
        if w != n1 {
          return 0, off, true, done, ops;  // "short filewrite"
        }
        SpliceFirst(bytes0, off, src, i, n1);
        i := i + w;
        done := i;
      }
      off' := off + i;
      r := if i == |src| then |src| else -1;
    }
  }

  lemma Exhausted(sb: Superblock, blk: Blocks, ino: seq<Ino>, owner: map<nat, Slot>, k: nat, m: nat)
    requires Jammed(sb, blk, ino, owner, k, m)
    ensures |blk| == sb.size && GoodSb(sb) && forall c: nat | c < sb.size :: Used(sb, blk, c)
  {
  }

  ghost predicate InBitmap(sb: Superblock, c: nat)
  {
    exists b: nat | b < sb.size :: c == BBlock(sb, b)
  }

  lemma InBitmapIs(sb: Superblock, b: nat)
    ensures b < sb.size ==> InBitmap(sb, BBlock(sb, b))
  {
  }

  const MAXOPBLOCKS: nat := 10

  /** How much of the remaining n bytes filewrite writes in one transaction. */
  function Chunk(n: nat): (n1: nat)
    ensures n1 <= 3 * BSIZE && (n1 < 3 * BSIZE ==> n1 == n) && n1 <= n
  {
    var max := ((MAXOPBLOCKS - 1 - 1 - 2) / 2) * 512;
    if n > max then max else n
  }

  lemma OpSize(sb: Superblock, logged: set<nat>, data: set<nat>, ind: nat, inum: nat, off: nat, n: nat)
    requires |data| <= Rounds(off, n) && n <= Chunk(n)
    requires forall c | c in logged :: InBitmap(sb, c) || c in data || c == ind || c == IBlock(sb, inum)
    ensures sb.size <= BPB ==> |logged| <= 7
  {
    LoggedSize(sb, {}, logged, data, ind, inum);
    assert Rounds(off, n) <= 4;
  }

  function BitmapBlocks(sb: Superblock): nat
  {
    (sb.size + BPB - 1) / BPB
  }

  /** A call logs its data blocks, the indirect block, the inode's block and blocks of the bitmap. */
  lemma LoggedSize(sb: Superblock, logged0: set<nat>, logged: set<nat>, data: set<nat>, ind: nat, inum: nat)
    requires forall c | c in logged - logged0 :: InBitmap(sb, c) || c in data || c == ind || c == IBlock(sb, inum)
    ensures |logged| <= |logged0| + |data| + BitmapBlocks(sb) + 2
    ensures data == {} && ind == IBlock(sb, inum) ==> |logged| <= |logged0| + BitmapBlocks(sb) + 1
  {
    var bits, two := Span(sb.bmapstart, BitmapBlocks(sb)), {ind, IBlock(sb, inum)};
    assert |two| <= 2 && (ind == IBlock(sb, inum) ==> |two| == 1);
    SubsetSize(logged, logged0 + data + bits + two);
  }

  lemma SpliceFirst<T>(c: seq<T>, off: nat, src: seq<T>, i: nat, m: nat)
    requires i + m <= |src|
    ensures src[..0] == [] && src[0..m] == src[..m]
    ensures off <= |c| ==>
      Splice(Splice(c, off, src[..i]), off + i, src[i..i + m]) == Splice(c, off, src[..i + m])
  {
    if off <= |c| {
      SpliceMore(c, off, src, i, m);
    }
  }
}
