/** mkfs.c: building the first file-system image. */
module Mkfs {
  import opened Block
  import opened FsModel
  import opened FsRuns

  const FSSIZE: nat := 1000
  const NINODES: nat := 200
  const NLOG: nat := 30
  const NINODEBLOCKS: nat := NINODES / IPB + 1
  const NBITMAP: nat := FSSIZE / (BSIZE * 8) + 1
  const NMETA: nat := 2 + NLOG + NINODEBLOCKS + NBITMAP
  const SB: Superblock := Superblock(FSSIZE, NINODES, 2 + NLOG, 2 + NLOG + NINODEBLOCKS, NMETA)

  const NOINO: Ino := Ino(0, seq(NDIRECT + 1, _ => 0))

  /** A bitmap block with the bits below n set, as balloc's loop sets them. */
  function BitsBelow(n: nat): (bp: Block)
    requires n <= BPB
    ensures forall i: nat | i < BPB :: Bit(bp[i / 8], i % 8) <==> i < n
  {
    if n == 0 then NoBits(); Zero()
    else
      var bp := BitsBelow(n - 1);
      SetOne(bp, n - 1);
      bp[(n - 1) / 8 := SetBit(bp[(n - 1) / 8], (n - 1) % 8)]
  }

  lemma NoBits()
    ensures forall i: nat | i < BPB :: !Bit(Zero()[i / 8], i % 8)
  {
    forall i: nat ensures !Bit(0, i) {
      ZeroBit(i);
    }
  }

  lemma {:induction false} ZeroBit(i: nat)
    ensures !Bit(0, i)
  {
    if i > 0 {
      ZeroBit(i - 1);
    }
  }

  lemma SetOne(bp: Block, n: nat)
    requires n < BPB
    ensures forall i: nat | i < BPB ::
      Bit(bp[n / 8 := SetBit(bp[n / 8], n % 8)][i / 8], i % 8) <==> i == n || Bit(bp[i / 8], i % 8)
  {
    hide Bit;
    forall i: nat | i < BPB && i / 8 == n / 8 && i % 8 == n % 8 ensures i == n {
    }
  }

  /** A dinode; head is its first two words (type, major, minor, nlink). */
  datatype Dinode = Dinode(head: (nat, nat), ino: Ino)

  predicate Fits(d: Dinode) {
    && d.head.0 < MAXWORD && d.head.1 < MAXWORD && d.ino.size < MAXWORD
    && |d.ino.addrs| == NDIRECT + 1 && forall i | 0 <= i <= NDIRECT :: d.ino.addrs[i] < MAXWORD
  }

  function WordOf(d: Dinode, w: nat): (x: nat)
    requires Fits(d) && w < 16
    ensures x < MAXWORD
  {
    if w == 0 then d.head.0 else if w == 1 then d.head.1 else if w == 2 then d.ino.size else d.ino.addrs[w - 3]
  }

  /** The first two words of every dinode. */
  ghost predicate HeadsAre(blk: Blocks, head: seq<(nat, nat)>) {
    && |blk| == FSSIZE && |head| == NINODES
    && forall k: nat | k < NINODES :: DWord(SB, blk, k, 0) == head[k].0 && DWord(SB, blk, k, 1) == head[k].1
  }

  lemma HeadsKept(blk: Blocks, blk': Blocks, head: seq<(nat, nat)>)
    requires HeadsAre(blk, head) && |blk'| == FSSIZE && forall b: nat | b < SB.bmapstart :: blk'[b] == blk[b]
    ensures HeadsAre(blk', head)
  {
    hide Word;
    forall k: nat | k < NINODES ensures IBlock(SB, k) < SB.bmapstart {
    }
  }

  // How mkfs can end: the assertion fbn < MAXFILE fails, or there is no block or inode left. The code
  // does not check for the last two: it goes on past the end of the image or of the inodes.
  datatype Outcome = Ok | TooLong | Full | NoInode

  /** One round of iappend: a block when off is on a boundary, and the indirect block behind the direct ones. */
  lemma TakesStep(off: nat, n: nat)
    requires 0 < n && off % BSIZE + n <= BSIZE
    ensures Takes(off + n) ==
      Takes(off) + (if off % BSIZE == 0 then 1 else 0) + (if off == NDIRECT * BSIZE then 1 else 0)
  {
  }

  /** How appending more bytes to a file of `have` ends when the first free block is `free`. */
  function AppendFate(free: nat, have: nat, more: nat): Outcome {
    var len := have + more;
    if free + Takes(if len < MAXBYTES then len else MAXBYTES) > FSSIZE + Takes(have) then Full
    else if len > MAXBYTES then TooLong
    else Ok
  }

  /** A round that fails decides how all of it ends. */
  lemma PieceFails(free: nat, have: nat, more: nat, off: nat, n: nat, now: nat, out: Outcome)
    requires have <= off <= MAXBYTES && 0 < n && off + n <= have + more && off % BSIZE + n <= BSIZE
    requires now == free + Takes(off) - Takes(have) && now <= FSSIZE && !out.Ok?
    requires out == if off >= MAXBYTES then TooLong else if now + Takes(off + n) - Takes(off) > FSSIZE then Full else Ok
    ensures AppendFate(free, have, more) == out
  {
    hide Takes;
    var len := have + more;
    if off < MAXBYTES {
      assert off + n <= MAXBYTES;
      TakesMore(off + n, if len < MAXBYTES then len else MAXBYTES);
    }
  }

  /** With every round done the whole is. */
  lemma FateDone(free: nat, have: nat, more: nat, now: nat)
    requires have + more <= MAXBYTES && now == free + Takes(have + more) - Takes(have) && now <= FSSIZE
    ensures AppendFate(free, have, more) == Ok
  {
    hide Takes;
  }

  /** Appending in two parts comes to the same as appending at once. */
  lemma FateJoins(free: nat, have: nat, a: nat, b: nat)
    requires free <= FSSIZE && have <= MAXBYTES
    ensures AppendFate(free, have, a) != Ok ==> AppendFate(free, have, a + b) == AppendFate(free, have, a)
    ensures AppendFate(free, have, a) == Ok ==>
      0 <= free + Takes(have + a) - Takes(have) <= FSSIZE &&
      AppendFate(free, have, a + b) == AppendFate(free + Takes(have + a) - Takes(have), have + a, b)
  {
    hide Takes;
    var x, y := have + a, have + a + b;
    TakesMore(have, x);
    TakesMore(if x < MAXBYTES then x else MAXBYTES, if y < MAXBYTES then y else MAXBYTES);
  }

  /** The blocks it takes to map block fbn of an inode, where x is its address so far. */
  function Missing(din: Ino, x: nat, fbn: nat): nat
    requires |din.addrs| == NDIRECT + 1
  {
    (if x == 0 then 1 else 0) + if fbn >= NDIRECT && din.addrs[NDIRECT] == 0 then 1 else 0
  }

  class Image {
    var blk: Blocks
    var freeblock: nat
    var freeinode: nat
    ghost var ino: seq<Ino>
    ghost var head: seq<(nat, nat)>
    ghost var owner: map<nat, Slot>

    /** The image with the bitmap that balloc would write for it now. */
    ghost function Whole(): Blocks
      reads this
    {
      if |blk| == FSSIZE && freeblock <= FSSIZE then blk[SB.bmapstart := BitsBelow(freeblock)] else blk
    }

    /** But for inode k, which is being changed, the image is a file system. */
    ghost predicate Valid(k: int)
      reads this
    {
      && |blk| == FSSIZE && NMETA <= freeblock <= FSSIZE
      && (forall b: nat | freeblock <= b < FSSIZE || 2 <= b < SB.inodestart :: blk[b] == Zero())
      && (forall b | b in owner :: b < freeblock) && HeadsAre(Whole(), head)
      && Owned(SB, Whole(), ino, owner) && Bitmap(SB, Whole(), owner, {})
      && forall i: nat | i < NINODES && i != k :: OnDisk(SB, Whole(), ino, i)
    }

    /** Between the steps of main: the image is a file system with these files. */
    ghost predicate Ready(files: seq<seq<byte>>)
      reads this
    {
      && Valid(-1) && FilesAre(SB, Whole(), ino, files)
      && 1 <= freeinode <= NINODES
      && (forall k: nat | freeinode <= k < NINODES :: ino[k] == NOINO)
      && (forall k: nat | k < NINODES :: TailZero(SB, Whole(), ino, k, |files[k]|))
    }

    /** All blocks zero. The superblock's own contents are not part of the model. */
    constructor ()
      ensures Ready(seq(NINODES, _ => [])) && freeinode == 1 && freeblock == NMETA
      ensures head == seq(NINODES, _ => (0, 0))
    {
      blk := seq(FSSIZE, _ => Zero());
      freeblock, freeinode := NMETA, 1;
      ino, owner, head := seq(NINODES, _ => NOINO), map[], seq(NINODES, _ => (0, 0));
      new;
      ZeroWords();
      hide Word, Bit;
      FirstBits();
      assert forall k: nat | k < NINODES :: FileIs(SB, Whole(), ino, k, []);
    }

    lemma FirstBits()
      requires blk == seq(FSSIZE, _ => Zero()) && freeblock == NMETA && owner == map[]
      ensures Bitmap(SB, Whole(), owner, {})
    {
      hide Bit, BitsBelow;
      var bp := BitsBelow(NMETA);
      assert Whole() == blk[SB.bmapstart := bp];
      forall b: nat | b < FSSIZE ensures Used(SB, Whole(), b) <==> b < NMETA {
        assert b / BPB == 0 && b % BPB == b;
        assert Bit(bp[b / 8], b % 8) <==> b < NMETA;
      }
    }

    method Rinode(inum: nat) returns (d: Dinode)
      requires Valid(-1) && inum < NINODES
      ensures Fits(d) && d.ino == ino[inum] && d.head == head[inum]
    {
      hide Word, Bitmap, Owned, BitsBelow;
      Regions(SB, inum, 0);
      OwnedShape(SB, Whole(), ino, owner);
      assert OnDisk(SB, Whole(), ino, inum);
      var bp, at := blk[IBlock(SB, inum)], 16 * (inum % IPB);
      var addrs := [];
      var i := 0;
      while i <= NDIRECT
        invariant |addrs| == i <= NDIRECT + 1
        invariant forall j | 0 <= j < i :: addrs[j] == ino[inum].addrs[j]
      {
        assert DWord(SB, Whole(), inum, 3 + i) == ino[inum].addrs[i];
        addrs := addrs + [Word(bp, at + 3 + i)];
        i := i + 1;
      }
      assert DWord(SB, Whole(), inum, 2) == ino[inum].size;
      d := Dinode((Word(bp, at), Word(bp, at + 1)), Ino(Word(bp, at + 2), addrs));
    }

    method Winode(inum: nat, d: Dinode)
      requires Valid(inum) && inum < NINODES && Fits(d) && ino[inum] == d.ino
      modifies this`blk, this`head
      ensures Valid(-1) && head == old(head)[inum := d.head]
      ensures forall v: nat | v < 16 :: DWord(SB, Whole(), inum, v) == WordOf(d, v)
      ensures forall k: nat | k < NINODES :: SameFile(SB, old(Whole()), ino, Whole(), ino, k, -1)
    {
      hide Word, SameFile, Bitmap, Owned, BitsBelow;
      ghost var blk0 := Whole();
      Regions(SB, inum, 0);
      var bp, at := blk[IBlock(SB, inum)], 16 * (inum % IPB);
      var w := 0;
      while w < 16
        invariant 0 <= w <= 16
        invariant forall v: nat | v < w :: Word(bp, at + v) == WordOf(d, v)
        invariant forall v: nat | v < WORDS && !(at <= v < at + 16) :: Word(bp, v) == Word(blk[IBlock(SB, inum)], v)
      {
        bp := SetWord(bp, at + w, WordOf(d, w));
        w := w + 1;
      }
      blk := blk[IBlock(SB, inum) := bp];
      assert Whole() == blk0[IBlock(SB, inum) := bp];
      InodeBlockFiles(SB, blk0, ino, owner, inum, bp);
      Written(blk0, Whole(), ino, owner, inum, bp, d);
      HeadWritten(blk0, head, inum, bp, d);
      head := head[inum := d.head];
    }

    /** `freeblock++`: the block the kernel's balloc would have taken. */
    method TakeBlock(k: int) returns (b: nat)
      requires Valid(k) && freeblock < FSSIZE
      modifies this`freeblock
      ensures b == old(freeblock) && !Used(SB, old(Whole()), b)
      ensures Whole() == Allocated(SB, old(Whole()), b)
      ensures freeblock == b + 1
    {
      hide Word, Bit, Owned;
      b := freeblock;
      freeblock := freeblock + 1;
      assert BBlock(SB, b) == SB.bmapstart;
      assert b % BPB == b;
    }

    /** Ghost bookkeeping after file inum came to map one more block. */
    ghost method Note(inum: nat, blk0: Blocks, ino': seq<Ino>, owner': map<nat, Slot>, but: int)
      requires Mapped(SB, blk0, ino, owner, Whole(), ino', owner', inum, but)
      requires |blk| == FSSIZE && NMETA <= freeblock <= FSSIZE
      requires forall b: nat | freeblock <= b < FSSIZE || 2 <= b < SB.inodestart :: blk[b] == Zero()
      requires forall b | b in owner' :: b < freeblock
      requires HeadsAre(blk0, head) && forall b: nat | b < SB.bmapstart :: Whole()[b] == blk0[b]
      requires Shape(SB, blk0, ino) && forall i: nat | i < NINODES && i != inum :: OnDisk(SB, blk0, ino, i)
      modifies this`ino, this`owner
      ensures Valid(inum) && ino == ino' && owner == owner'
    {
      hide Word, Used, BitsBelow, OnDisk, SameFile;
      HeadsKept(blk0, Whole(), head);
      ino, owner := ino', owner';
    }

    /** The part of iappend's loop that finds or makes block fbn of the file. */
    method MapBlock(inum: nat, din: Ino, fbn: nat) returns (out: Outcome, din': Ino, x: nat)
      requires Valid(inum) && inum < NINODES && ino[inum] == din && fbn < MAXFILE
      modifies this`blk, this`freeblock, this`ino, this`owner
      ensures var missing := Missing(din, old(FileBlock(SB, Whole(), ino, inum, fbn)), fbn);
        out == if old(freeblock) + missing > FSSIZE then Full else Ok
      ensures out.Ok? ==> freeblock == old(freeblock) + Missing(din, old(FileBlock(SB, Whole(), ino, inum, fbn)), fbn)
      ensures out.Ok? ==> Valid(inum) && ino[inum] == din' && x == FileBlock(SB, Whole(), ino, inum, fbn) != 0
      ensures out.Ok? ==>
        Mapped(SB, old(Whole()), old(ino), old(owner), Whole(), ino, owner, inum,
               if FileBlock(SB, old(Whole()), old(ino), inum, fbn) == 0 then fbn else -1)
      ensures out.Ok? && FileBlock(SB, old(Whole()), old(ino), inum, fbn) != 0 ==>
        blk == old(blk) && ino == old(ino) && freeblock == old(freeblock)
      ensures out.Ok? ==> IndKept(old(ino)[inum], ino[inum], fbn)
      ensures out.Ok? && old(FileBlock(SB, Whole(), ino, inum, fbn)) == 0 ==> blk[x] == Zero()
    {
      hide Word, Used, BitsBelow, OnDisk, SameFile, Mapped;
      OwnedShape(SB, Whole(), ino, owner);
      if fbn >= NDIRECT {
        out, din', x := MapEntryBlock(inum, din, fbn);
        return;
      }
      x := din.addrs[fbn];
      if x == 0 {
        if freeblock == FSSIZE {
          return Full, din, 0;
        }
        ghost var blk0 := Whole();
        x := TakeBlock(inum);
        MapDirect(SB, blk0, ino, owner, inum, fbn, x);
        Note(inum, blk0, SetAddr(ino, inum, fbn, x), owner[x := Direct(inum, fbn)], fbn);
      } else {
        MappedRefl(SB, Whole(), ino, owner, inum, -1);
      }
      return Ok, din.(addrs := din.addrs[fbn := x]), x;
    }

    method MapInd(inum: nat, din: Ino) returns (out: Outcome, din': Ino)
      requires Valid(inum) && inum < NINODES && ino[inum] == din
      modifies this`freeblock, this`ino, this`owner
      ensures out == if old(freeblock) == FSSIZE && din.addrs[NDIRECT] == 0 then Full else Ok
      ensures out.Ok? ==> freeblock == old(freeblock) + if din.addrs[NDIRECT] == 0 then 1 else 0
      ensures out.Ok? ==> Valid(inum) && ino[inum] == din' && din'.addrs[NDIRECT] != 0
      ensures out.Ok? ==> Mapped(SB, old(Whole()), old(ino), old(owner), Whole(), ino, owner, inum, -1)
      ensures out.Ok? && din.addrs[NDIRECT] != 0 ==>
        din' == din && Whole() == old(Whole()) && ino == old(ino) && freeblock == old(freeblock)
      ensures out.Ok? ==> NMETA <= din'.addrs[NDIRECT] < FSSIZE
      ensures out.Ok? && din.addrs[NDIRECT] == 0 ==> blk[din'.addrs[NDIRECT]] == Zero()
    {
      hide Word, Used, BitsBelow, OnDisk, SameFile, Mapped;
      OwnedShape(SB, Whole(), ino, owner);
      AtIndirect(SB, Whole(), ino, owner, inum);
      if din.addrs[NDIRECT] == 0 {
        if freeblock == FSSIZE {
          return Full, din;
        }
        din' := NewInd(inum, din);
        return Ok, din';
      }
      MappedRefl(SB, Whole(), ino, owner, inum, -1);
      return Ok, din;
    }

    method NewInd(inum: nat, din: Ino) returns (din': Ino)
      requires Valid(inum) && inum < NINODES && ino[inum] == din && freeblock < FSSIZE
      requires |din.addrs| == NDIRECT + 1 && din.addrs[NDIRECT] == 0
      modifies this`freeblock, this`ino, this`owner
      ensures freeblock == old(freeblock) + 1 && Valid(inum) && ino[inum] == din' && |din'.addrs| == NDIRECT + 1
      ensures NMETA <= din'.addrs[NDIRECT] == old(freeblock) < FSSIZE && blk[old(freeblock)] == Zero()
      ensures Mapped(SB, old(Whole()), old(ino), old(owner), Whole(), ino, owner, inum, -1)
    {
      hide Word, Used, BitsBelow, OnDisk, SameFile, Mapped;
      OwnedShape(SB, Whole(), ino, owner);
      ghost var blk0 := Whole();
      var b := TakeBlock(inum);
      FsModel.MapInd(SB, blk0, ino, owner, inum, b);
      Note(inum, blk0, SetAddr(ino, inum, NDIRECT, b), owner[b := Ind(inum)], -1);
      din' := din.(addrs := din.addrs[NDIRECT := b]);
    }

    method MapEntryBlock(inum: nat, din: Ino, fbn: nat) returns (out: Outcome, din': Ino, x: nat)
      requires Valid(inum) && inum < NINODES && ino[inum] == din && NDIRECT <= fbn < MAXFILE
      modifies this`blk, this`freeblock, this`ino, this`owner
      ensures var missing := Missing(din, old(FileBlock(SB, Whole(), ino, inum, fbn)), fbn);
        out == if old(freeblock) + missing > FSSIZE then Full else Ok
      ensures out.Ok? ==> freeblock == old(freeblock) + Missing(din, old(FileBlock(SB, Whole(), ino, inum, fbn)), fbn)
      ensures out.Ok? ==> Valid(inum) && ino[inum] == din' && x == FileBlock(SB, Whole(), ino, inum, fbn) != 0
      ensures out.Ok? ==>
        Mapped(SB, old(Whole()), old(ino), old(owner), Whole(), ino, owner, inum,
               if FileBlock(SB, old(Whole()), old(ino), inum, fbn) == 0 then fbn else -1)
      ensures out.Ok? && FileBlock(SB, old(Whole()), old(ino), inum, fbn) != 0 ==>
        blk == old(blk) && ino == old(ino) && freeblock == old(freeblock)
      ensures out.Ok? ==> IndKept(old(ino)[inum], ino[inum], fbn)
      ensures out.Ok? && old(FileBlock(SB, Whole(), ino, inum, fbn)) == 0 ==> blk[x] == Zero()
    {
      hide Word, Used, BitsBelow, OnDisk, SameFile, Mapped, At;
      var j := fbn - NDIRECT;
      OwnedShape(SB, Whole(), ino, owner);
      EntryBlock(SB, Whole(), ino, inum, j);
      out, din' := MapInd(inum, din);
      x := 0;
      if out.Full? {
        return;
      }
      ghost var blk1, ino1, owner1 := Whole(), ino, owner;
      OwnedShape(SB, Whole(), ino, owner);
      EntryBlock(SB, Whole(), ino, inum, j);
      ZeroWords();
      var ind := din'.addrs[NDIRECT];
      x := Word(blk[ind], j);
      assert FileBlock(SB, old(Whole()), old(ino), inum, fbn) == x;
      if x == 0 {
        if freeblock == FSSIZE {
          return Full, din', 0;
        }
        x := NewEntry(inum, j, ind);
        MappedTrans(SB, old(Whole()), old(ino), old(owner), blk1, ino1, owner1, Whole(), ino, owner, inum, fbn);
      }
    }

    method NewEntry(inum: nat, j: nat, ind: nat) returns (x: nat)
      requires Valid(inum) && inum < NINODES && freeblock < FSSIZE && j < NINDIRECT
      requires 0 != ind == ino[inum].addrs[NDIRECT] < FSSIZE && Word(blk[ind], j) == 0
      modifies this`blk, this`freeblock, this`ino, this`owner
      ensures freeblock == old(freeblock) + 1
      ensures Valid(inum) && ino == old(ino)
      ensures x == FileBlock(SB, Whole(), ino, inum, NDIRECT + j) != 0 && blk[x] == Zero()
      ensures Mapped(SB, old(Whole()), ino, old(owner), Whole(), ino, owner, inum, NDIRECT + j)
    {
      hide Word, Used, BitsBelow, OnDisk, SameFile, Mapped;
      OwnedShape(SB, Whole(), ino, owner);
      AtIndirect(SB, Whole(), ino, owner, inum);
      ghost var blk0 := Whole();
      assert ind in owner;
      x := TakeBlock(inum);
      blk := blk[ind := SetWord(blk[ind], j, x)];
      MapEntry(SB, blk0, ino, owner, inum, j, x);
      assert Whole() == EntrySet(SB, blk0, ino, inum, j, x);
      Note(inum, blk0, ino, owner[x := Entry(inum, j)], NDIRECT + j);
    }

    /** Inside iappend: din is the inode, and the off bytes its blocks hold are c. */
    ghost predicate Appending(inum: nat, din: Ino, off: nat, c: seq<byte>)
      reads this
    {
      && Valid(inum) && inum < NINODES && ino[inum] == din
      && Grown(SB, Whole(), ino, inum, off) && Bytes(SB, Whole(), ino, inum, off) == c
      && TailZero(SB, Whole(), ino, inum, off)
    }

    /** One round of iappend's loop: `piece` goes to byte off, the end of what the file maps. */
    method AppendPiece(inum: nat, din: Ino, off: nat, piece: seq<byte>, ghost c: seq<byte>)
      returns (out: Outcome, din': Ino)
      requires Appending(inum, din, off, c)
      requires 0 < |piece| && off % BSIZE + |piece| <= BSIZE
      modifies this`blk, this`freeblock, this`ino, this`owner
      ensures out == if off >= MAXBYTES then TooLong
                     else if old(freeblock) + Takes(off + |piece|) - Takes(off) > FSSIZE then Full else Ok
      ensures out.Ok? ==> freeblock == old(freeblock) + Takes(off + |piece|) - Takes(off)
      ensures out.Ok? ==> Appending(inum, din', off + |piece|, c + piece) && din'.size == din.size
      ensures out.Ok? ==> Others(SB, old(Whole()), old(ino), Whole(), ino, inum)
    {
      hide Word, Used, BitsBelow, OnDisk, SameFile, Bitmap, At, FileSlot, Mapped, Others, Owned, Grown, Bytes, Splice;
      hide TailZero, HeadsAre, BlockByte;
      var fbn := off / BSIZE;
      din' := din;
      if fbn >= MAXFILE {
        return TooLong, din;
      }
      ghost var blk0, ino0, owner0 := Whole(), ino, owner;
      OwnedShape(SB, Whole(), ino, owner);
      PieceTakes(inum, din, off, |piece|, c);
      var x;
      out, din', x := MapBlock(inum, din, fbn);
      if out.Full? {
        return;
      }
      ghost var blk1 := Whole();
      OwnedShape(SB, Whole(), ino, owner);
      GrownStep(SB, blk0, ino0, owner0, blk1, ino, owner, inum, fbn, off, off + |piece|);
      WriteEffect(SB, blk0, ino0, owner0, blk1, ino, owner, inum, fbn, off, off, piece);
      MappedSize(SB, blk0, ino0, owner0, blk1, ino, owner, inum,
                 if FileBlock(SB, blk0, ino0, inum, fbn) == 0 then fbn else -1);
      SpliceEnd(Bytes(SB, blk0, ino0, inum, off), piece);
      InFile(blk1, inum, fbn);
      TailStep(SB, blk0, ino0, blk1, ino, owner, inum, off, piece, x);
      Wsect(x, Splice(blk[x], off - fbn * BSIZE, piece));
    }

    lemma PieceTakes(inum: nat, din: Ino, off: nat, n: nat, c: seq<byte>)
      requires Appending(inum, din, off, c) && 0 < n && off % BSIZE + n <= BSIZE && off < MAXBYTES
      ensures |din.addrs| == NDIRECT + 1
      ensures Missing(din, FileBlock(SB, Whole(), ino, inum, off / BSIZE), off / BSIZE) == Takes(off + n) - Takes(off)
    {
      hide Takes, Bytes, At, FileSlot, Bitmap, BitsBelow;
      TakesStep(off, n);
    }

    method Wsect(x: nat, data: Block)
      requires |blk| == FSSIZE && NMETA <= x < freeblock <= FSSIZE
      modifies this`blk
      ensures |blk| == FSSIZE && Whole() == old(Whole())[x := data]
      ensures HeadsAre(old(Whole()), head) ==> HeadsAre(Whole(), head)
      ensures forall b: nat | b < FSSIZE && b != x :: blk[b] == old(blk)[b]
    {
      hide BitsBelow, HeadsAre;
      ghost var blk0 := Whole();
      blk := blk[x := data];
      if HeadsAre(blk0, head) {
        HeadsKept(blk0, Whole(), head);
      }
    }

    lemma InFile(blk1: Blocks, inum: nat, fbn: nat)
      requires Valid(inum) && blk1 == Whole() && inum < NINODES && fbn < MAXFILE
      requires FileBlock(SB, blk1, ino, inum, fbn) != 0
      ensures NMETA <= FileBlock(SB, blk1, ino, inum, fbn) < freeblock
    {
      hide Word, BitsBelow, Bitmap;
      assert IsSlot(SB, FileSlot(inum, fbn));
    }

    /** Append xp to the file. TooLong is the failed assertion that the file has room. */
    method Iappend(inum: nat, xp: seq<byte>, ghost c: seq<byte>) returns (out: Outcome)
      requires Valid(-1) && inum < NINODES && FileIs(SB, Whole(), ino, inum, c)
      requires TailZero(SB, Whole(), ino, inum, |c|)
      modifies this`blk, this`freeblock, this`ino, this`owner, this`head
      ensures |c| <= MAXBYTES && out == AppendFate(old(freeblock), |c|, |xp|)
      ensures out.Ok? ==> freeblock == old(freeblock) + Takes(|c| + |xp|) - Takes(|c|)
      ensures out.Ok? ==> Valid(-1) && FileIs(SB, Whole(), ino, inum, c + xp) && head == old(head)
      ensures out.Ok? ==> TailZero(SB, Whole(), ino, inum, |c| + |xp|)
      ensures out.Ok? ==> Others(SB, old(Whole()), old(ino), Whole(), ino, inum)
    {
      hide Word, Used, BitsBelow, OnDisk, SameFile, Bitmap, At, FileSlot, Others;
      hide Owned, Grown, Bytes, Takes, AppendFate, TailZero, HeadsAre, Appending;
      AppendStarts(inum, c);
      ghost var blk0, ino0 := Whole(), ino;
      var d := Rinode(inum);
      var din, off, i := d.ino, d.ino.size, 0;
      assert c + xp[..0] == c;
      while i < |xp|
        invariant 0 <= i <= |xp| && off == |c| + i && din.size == |c| && head == old(head)
        invariant Appending(inum, din, off, c + xp[..i])
        invariant Others(SB, blk0, ino0, Whole(), ino, inum)
        invariant off <= MAXBYTES && freeblock == old(freeblock) + Takes(off) - Takes(|c|) <= FSSIZE
      {
        ghost var blk1, ino1, freeblock1 := Whole(), ino, freeblock;
        var n1 := if |xp| - i < (off / BSIZE + 1) * BSIZE - off then |xp| - i else (off / BSIZE + 1) * BSIZE - off;
        out, din := AppendPiece(inum, din, off, xp[i..i + n1], c + xp[..i]);
        if !out.Ok? {
          PieceFails(old(freeblock), |c|, |xp|, off, n1, freeblock1, out);
          return;
        }
        OthersTrans(SB, blk0, ino0, blk1, ino1, Whole(), ino, inum);
        Longer(c, xp, i, n1);
        i, off := i + n1, off + n1;
      }
      assert xp[..i] == xp;
      FateDone(old(freeblock), |c|, |xp|, freeblock);
      SetDinode(inum, Dinode(d.head, din.(size := off)), c + xp, blk0, ino0);
      out := Ok;
    }

    lemma AppendStarts(inum: nat, c: seq<byte>)
      requires Valid(-1) && inum < NINODES && FileIs(SB, Whole(), ino, inum, c)
      requires TailZero(SB, Whole(), ino, inum, |c|)
      ensures Appending(inum, ino[inum], |c|, c) && |c| <= MAXBYTES && freeblock <= FSSIZE
      ensures Others(SB, Whole(), ino, Whole(), ino, inum)
    {
      hide Word, Used, BitsBelow, OnDisk, SameFile, Bitmap, At, Others, Owned, Bytes, TailZero, HeadsAre;
      OwnedShape(SB, Whole(), ino, owner);
      OthersRefl(SB, Whole(), ino, inum);
      GrownBound(SB, Whole(), ino, inum, |c|);
    }

    method SetDinode(inum: nat, d: Dinode, ghost c: seq<byte>, ghost blk0: Blocks, ghost ino0: seq<Ino>)
      requires exists size :: Appending(inum, d.ino.(size := size), |c|, c)
      requires d.head.0 < MAXWORD && d.head.1 < MAXWORD && d.ino.size == |c|
      requires Others(SB, blk0, ino0, Whole(), ino, inum) && d.head == head[inum]
      modifies this`blk, this`ino, this`head
      ensures Valid(-1) && FileIs(SB, Whole(), ino, inum, c) && head == old(head)
      ensures TailZero(SB, Whole(), ino, inum, |c|)
      ensures Others(SB, blk0, ino0, Whole(), ino, inum)
    {
      hide Word, Used, BitsBelow, OnDisk, SameFile, Bitmap, At, FileSlot, Others, Owned, Grown, Bytes;
      ghost var blk1, ino1 := Whole(), ino;
      OwnedShape(SB, blk1, ino1, owner);
      GrownBound(SB, blk1, ino1, inum, |c|);
      SetSize(SB, blk1, ino1, owner, inum, |c|);
      ino := ino[inum := d.ino];
      assert ino == ino1[inum := ino1[inum].(size := |c|)];
      Winode(inum, d);
      OwnedShape(SB, Whole(), ino, owner);
      SameBytes(SB, blk1, ino, Whole(), ino, inum, |c|);
      TailSame(SB, blk1, ino1, blk1, ino, inum, |c|);
      TailSame(SB, blk1, ino, Whole(), ino, inum, |c|);
      OthersLift(SB, blk1, ino1, Whole(), ino, inum);
      OthersTrans(SB, blk0, ino0, blk1, ino1, Whole(), ino, inum);
    }

    method Ialloc(typ: nat, ghost files: seq<seq<byte>>) returns (out: Outcome, inum: nat)
      requires Ready(files) && typ < 0x1_0000
      modifies this`blk, this`freeinode, this`head
      ensures out.Ok? || out.NoInode?
      ensures out.NoInode? <==> old(freeinode) == NINODES
      ensures freeblock == old(freeblock)
      ensures out.Ok? ==> Ready(files) && inum == old(freeinode) < NINODES && freeinode == inum + 1 && files[inum] == []
      ensures out.Ok? ==> head == old(head)[inum := (typ, ONELINK)]
    {
      hide Word, Used, BitsBelow, OnDisk, SameFile, Bitmap, At, FileSlot, Others, Owned, Grown, Bytes;
      inum := freeinode;
      if inum == NINODES {
        return NoInode, 0;
      }
      freeinode := freeinode + 1;
      ghost var blk0 := Whole();
      assert FileIs(SB, blk0, ino, inum, files[inum]);
      Winode(inum, Dinode((typ, ONELINK), NOINO));
      OwnedShape(SB, Whole(), ino, owner);
      OthersSame(SB, blk0, Whole(), ino, inum);
      SameBytes(SB, blk0, ino, Whole(), ino, inum, 0);
      Updated(SB, blk0, ino, Whole(), ino, files, inum, []);
      assert files[inum := []] == files;
      TailsKept(blk0, ino, Whole(), ino, files, files, -1);
      out := Ok;
    }

    /** iappend on one of the image's files. */
    method Append(inum: nat, xp: seq<byte>, ghost files: seq<seq<byte>>) returns (out: Outcome)
      requires Ready(files) && 0 < inum < freeinode
      modifies this`blk, this`freeblock, this`ino, this`owner, this`head
      ensures |files[inum]| <= MAXBYTES && out == AppendFate(old(freeblock), |files[inum]|, |xp|)
      ensures out.Ok? ==> freeblock == old(freeblock) + Takes(|files[inum]| + |xp|) - Takes(|files[inum]|)
      ensures out.Ok? ==> Ready(files[inum := files[inum] + xp]) && head == old(head)
    {
      hide Word, Used, BitsBelow, OnDisk, SameFile, Bitmap, At, FileSlot, Owned, Grown, Bytes;
      ghost var blk0, ino0 := Whole(), ino;
      assert FileIs(SB, Whole(), ino, inum, files[inum]);
      out := Iappend(inum, xp, files[inum]);
      if out.Ok? {
        Updated(SB, blk0, ino0, Whole(), ino, files, inum, files[inum] + xp);
        TailsKept(blk0, ino0, Whole(), ino, files, files[inum := files[inum] + xp], inum);
      }
    }

    /** balloc: write the bitmap that marks the first `used` blocks. */
    method Balloc(used: nat)
      requires |blk| == FSSIZE && used == freeblock <= FSSIZE
      modifies this`blk
      ensures blk == old(Whole()) && Whole() == blk
    {
      var buf, i := Zero(), 0;
      while i < used
        invariant 0 <= i <= used && buf == BitsBelow(i)
      {
        buf := buf[i / 8 := SetBit(buf[i / 8], i % 8)];
        i := i + 1;
      }
      blk := blk[SB.bmapstart := buf];
    }

    /** "fix size of root inode dir": round it up, past the next block boundary. */
    method FixRoot(ghost files: seq<seq<byte>>)
      requires Ready(files) && freeinode > 1
      modifies this`blk, this`ino, this`head
      ensures Valid(-1) && ino[1].size == (|files[1]| / BSIZE + 1) * BSIZE && head == old(head)
      ensures forall k: nat | k < NINODES && k != 1 :: FileIs(SB, Whole(), ino, k, files[k])
      ensures Grown(SB, Whole(), ino, 1, |files[1]|) && Bytes(SB, Whole(), ino, 1, |files[1]|) == files[1]
      ensures Grown(SB, Whole(), ino, 1, ino[1].size) <==> |files[1]| % BSIZE != 0
      ensures |files[1]| % BSIZE != 0 ==> Bytes(SB, Whole(), ino, 1, ino[1].size) == Padded(files[1])
    {
      hide Word, Used, BitsBelow, OnDisk, SameFile, Bitmap, At, FileSlot, Owned, Grown, Bytes;
      ghost var blk0, ino0, m := Whole(), ino, |files[1]|;
      OwnedShape(SB, blk0, ino0, owner);
      assert FileIs(SB, blk0, ino0, 1, files[1]);
      GrownBound(SB, blk0, ino0, 1, m);
      var d := Rinode(1);
      var off := (d.ino.size / BSIZE + 1) * BSIZE;
      SetSize(SB, blk0, ino0, owner, 1, off);
      ino := ino[1 := ino[1].(size := off)];
      Winode(1, d.(ino := d.ino.(size := off)));
      OwnedShape(SB, Whole(), ino, owner);
      SameBytes(SB, blk0, ino, Whole(), ino, 1, m);
      RoundUp(SB, Whole(), ino, 1, m);
      TailSame(SB, blk0, ino0, blk0, ino, 1, m);
      TailSame(SB, blk0, ino, Whole(), ino, 1, m);
      if m % BSIZE != 0 {
        PaddedBytes(SB, Whole(), ino, 1, files[1]);
      }
      forall k: nat | k < NINODES && k != 1 ensures FileIs(SB, Whole(), ino, k, files[k]) {
        assert FileIs(SB, blk0, ino0, k, files[k]);
        SameTrans(SB, blk0, ino0, blk0, ino, Whole(), ino, k, -1, -1);
        SameBytes(SB, blk0, ino0, Whole(), ino, k, |files[k]|);
      }
    }
  }

  /** c and zeros to the end of its last block. */
  function Padded(c: seq<byte>): (r: seq<byte>) {
    c + seq(BSIZE - |c| % BSIZE, _ => 0)
  }

  /** Behind the first m bytes of file k the block they end in is zero. */
  ghost predicate TailZero(sb: Superblock, blk: Blocks, ino: seq<Ino>, k: nat, m: nat)
    requires Shape(sb, blk, ino) && k < sb.ninodes
  {
    m % BSIZE != 0 && m / BSIZE < MAXFILE ==>
      forall q: nat | m % BSIZE <= q < BSIZE :: BlockByte(sb, blk, ino, k, m / BSIZE, q) == 0
  }

  lemma TailSame(sb: Superblock, blk: Blocks, ino: seq<Ino>, blk': Blocks, ino': seq<Ino>, k: nat, m: nat)
    requires Shape(sb, blk, ino) && Shape(sb, blk', ino') && k < sb.ninodes
    requires SameFile(sb, blk, ino, blk', ino', k, -1) && Grown(sb, blk, ino, k, m) && TailZero(sb, blk, ino, k, m)
    ensures TailZero(sb, blk', ino', k, m)
  {
    hide At, FileSlot;
    var bn := m / BSIZE;
    if m % BSIZE != 0 && bn < MAXFILE {
      assert bn * BSIZE < m;
      forall q: nat | q < BSIZE ensures BlockByte(sb, blk', ino', k, bn, q) == BlockByte(sb, blk, ino, k, bn, q) {
        assert FileBlock(sb, blk', ino', k, bn) == FileBlock(sb, blk, ino, k, bn) != 0;
      }
    }
  }

  /** One piece more, written to the block x. */
  lemma TailStep(sb: Superblock, blk0: Blocks, ino0: seq<Ino>, blk1: Blocks, ino1: seq<Ino>, owner1: map<nat, Slot>,
                 k: nat, off: nat, piece: seq<byte>, x: nat)
    requires Shape(sb, blk0, ino0) && k < sb.ninodes && off / BSIZE < MAXFILE
    requires Owned(sb, blk1, ino1, owner1) && Bitmap(sb, blk1, owner1, {})
    requires Grown(sb, blk0, ino0, k, off) && TailZero(sb, blk0, ino0, k, off) && off % BSIZE + |piece| <= BSIZE
    requires 0 != x == FileBlock(sb, blk1, ino1, k, off / BSIZE) < sb.size
    requires FileBlock(sb, blk0, ino0, k, off / BSIZE) == 0 ==> blk1[x] == Zero()
    requires FileBlock(sb, blk0, ino0, k, off / BSIZE) != 0 ==> blk1 == blk0 && ino1 == ino0
    ensures var blk2 := blk1[x := Splice(blk1[x], off % BSIZE, piece)];
            Shape(sb, blk2, ino1) && TailZero(sb, blk2, ino1, k, off + |piece|)
  {
    hide At, FileSlot, Owned, Bitmap, Others, SameFile, OnDisk;
    OwnedShape(sb, blk1, ino1, owner1);
    var data: Block := Splice(blk1[x], off % BSIZE, piece);
    DataFiles(sb, blk1, ino1, owner1, k, off / BSIZE, data);
    OwnedShape(sb, blk1[x := data], ino1, owner1);
    var end := off + |piece|;
    if end % BSIZE != 0 {
      assert end / BSIZE == off / BSIZE && end % BSIZE == off % BSIZE + |piece|;
      forall q: nat | end % BSIZE <= q < BSIZE ensures blk1[x][q] == 0 {
        if blk1[x] != Zero() {
          assert BlockByte(sb, blk0, ino0, k, off / BSIZE, q) == 0;
        }
      }
    }
  }

  /** All files but the one that changed end in zeros as before. */
  lemma TailsKept(blk: Blocks, ino: seq<Ino>, blk': Blocks, ino': seq<Ino>, files: seq<seq<byte>>,
                  files': seq<seq<byte>>, k: int)
    requires FilesAre(SB, blk, ino, files) && |files'| == NINODES && Shape(SB, blk', ino')
    requires forall i: nat | i < NINODES && i != k ::
      files'[i] == files[i] && TailZero(SB, blk, ino, i, |files[i]|) && SameFile(SB, blk, ino, blk', ino', i, -1)
    requires 0 <= k < NINODES ==> TailZero(SB, blk', ino', k, |files'[k]|)
    ensures forall i: nat | i < NINODES :: TailZero(SB, blk', ino', i, |files'[i]|)
  {
    hide TailZero, SameFile, Grown, Bytes;
    forall i: nat | i < NINODES && i != k ensures TailZero(SB, blk', ino', i, |files'[i]|) {
      assert FileIs(SB, blk, ino, i, files[i]);
      TailSame(SB, blk, ino, blk', ino', i, |files[i]|);
    }
  }

  lemma PaddedBytes(sb: Superblock, blk: Blocks, ino: seq<Ino>, k: nat, c: seq<byte>)
    requires Shape(sb, blk, ino) && k < sb.ninodes && |c| % BSIZE != 0
    requires Grown(sb, blk, ino, k, |c|) && Bytes(sb, blk, ino, k, |c|) == c && TailZero(sb, blk, ino, k, |c|)
    requires Grown(sb, blk, ino, k, (|c| / BSIZE + 1) * BSIZE)
    ensures Bytes(sb, blk, ino, k, (|c| / BSIZE + 1) * BSIZE) == Padded(c)
  {
    hide BlockByte;
    var b := Bytes(sb, blk, ino, k, (|c| / BSIZE + 1) * BSIZE);
    forall p | 0 <= p < |b| ensures b[p] == Padded(c)[p] {
      if p < |c| {
        assert c[p] == FileByte(sb, blk, ino, k, p);
      } else {
        assert p / BSIZE == |c| / BSIZE;
      }
    }
  }

  /** Rounding up past a block boundary keeps to the mapped blocks unless the size was on one. */
  lemma RoundUp(sb: Superblock, blk: Blocks, ino: seq<Ino>, k: nat, m: nat)
    requires Shape(sb, blk, ino) && k < sb.ninodes && Grown(sb, blk, ino, k, m)
    ensures Grown(sb, blk, ino, k, (m / BSIZE + 1) * BSIZE) <==> m % BSIZE != 0
  {
    hide At, FileSlot;
    var n := (m / BSIZE + 1) * BSIZE;
    if m % BSIZE == 0 && m / BSIZE < MAXFILE {
      assert FileBlock(sb, blk, ino, k, m / BSIZE) == 0;
    }
    assert forall bn: nat {:trigger FileBlock(sb, blk, ino, k, bn)} | m % BSIZE != 0 ::
      bn * BSIZE < m <==> bn * BSIZE < n;
  }

  lemma Longer<T>(c: seq<T>, xp: seq<T>, i: nat, n: nat)
    requires i + n <= |xp|
    ensures c + xp[..i] + xp[i..i + n] == c + xp[..i + n]
  {
  }

  lemma SpliceEnd<T>(c: seq<T>, s: seq<T>)
    ensures Splice(c, |c|, s) == c + s
  {
  }

  lemma MappedSize(sb: Superblock, blk: Blocks, ino: seq<Ino>, owner: map<nat, Slot>,
                   blk': Blocks, ino': seq<Ino>, owner': map<nat, Slot>, k: nat, but: int)
    requires Mapped(sb, blk, ino, owner, blk', ino', owner', k, but)
    ensures k < |ino| && k < |ino'| && ino'[k].size == ino[k].size
  {
  }

  /** The address of a block behind the indirect block. */
  lemma EntryBlock(sb: Superblock, blk: Blocks, ino: seq<Ino>, k: nat, j: nat)
    requires Shape(sb, blk, ino) && k < sb.ninodes && j < NINDIRECT
    ensures var ind := ino[k].addrs[NDIRECT];
            FileBlock(sb, blk, ino, k, NDIRECT + j) == if ind == 0 then 0 else Word(blk[ind], j)
  {
  }

  lemma HeadWritten(blk0: Blocks, head: seq<(nat, nat)>, inum: nat, bp: Block, d: Dinode)
    requires HeadsAre(blk0, head) && inum < NINODES && Fits(d)
    requires forall v: nat | v < 16 :: Word(bp, 16 * (inum % IPB) + v) == WordOf(d, v)
    requires forall v: nat | v < WORDS && !(16 * (inum % IPB) <= v < 16 * (inum % IPB) + 16) ::
      Word(bp, v) == Word(blk0[IBlock(SB, inum)], v)
    ensures HeadsAre(blk0[IBlock(SB, inum) := bp], head[inum := d.head])
  {
    hide Word;
    var blk1 := blk0[IBlock(SB, inum) := bp];
    forall k: nat, v: nat | k < NINODES && v < 2
      ensures DWord(SB, blk1, k, v) == if k == inum then WordOf(d, v) else DWord(SB, blk0, k, v)
    {
      if k != inum && IBlock(SB, k) == IBlock(SB, inum) {
        assert k % IPB != inum % IPB;
      }
    }
  }

  lemma Written(blk0: Blocks, blk1: Blocks, ino: seq<Ino>, owner: map<nat, Slot>, inum: nat, bp: Block, d: Dinode)
    requires Owned(SB, blk0, ino, owner) && Owned(SB, blk1, ino, owner) && inum < NINODES
    requires forall i: nat | i < NINODES && i != inum :: OnDisk(SB, blk0, ino, i)
    requires blk1 == blk0[IBlock(SB, inum) := bp] && Fits(d) && d.ino == ino[inum]
    requires forall v: nat | v < 16 :: Word(bp, 16 * (inum % IPB) + v) == WordOf(d, v)
    requires forall v: nat | v < WORDS && !(16 * (inum % IPB) <= v < 16 * (inum % IPB) + 16) ::
      Word(bp, v) == Word(blk0[IBlock(SB, inum)], v)
    ensures forall i: nat | i < NINODES :: OnDisk(SB, blk1, ino, i)
  {
    hide Word, Bitmap, BitsBelow;
    forall i: nat | i < NINODES ensures OnDisk(SB, blk1, ino, i) {
      Regions(SB, i, 0);
      if i == inum {
        assert Word(bp, 16 * (inum % IPB) + 2) == WordOf(d, 2);
        forall j: nat | j <= NDIRECT ensures DWord(SB, blk1, i, 3 + j) == ino[i].addrs[j] {
          assert Word(bp, 16 * (inum % IPB) + (3 + j)) == WordOf(d, 3 + j);
        }
      } else if IBlock(SB, i) == IBlock(SB, inum) {
        assert i % IPB != inum % IPB;
        KeepWords(SB, blk0, ino, blk1, i);
      } else {
        KeepOnDisk(SB, blk0, ino, blk1, ino, i);
      }
    }
  }

  // A file given to mkfs: its name padded to 14 bytes, and its contents as read piece by piece.
  datatype HostFile = HostFile(name: seq<byte>, pieces: seq<seq<byte>>)

  function Dirent(inum: nat, name: seq<byte>): (e: seq<byte>)
    requires inum < 0x1_0000
    ensures |e| == 2 + |name|
  {
    [inum % 256, inum / 256] + name
  }

  function Name(s: seq<byte>): (n: seq<byte>)
    requires |s| <= 14
    ensures |n| == 14
  {
    s + seq(14 - |s|, _ => 0)
  }

  /** The root directory: ".", ".." and the files in order, numbered from 2 on. */
  function Root(hosts: seq<HostFile>): (c: seq<byte>)
    requires |hosts| < 0xFFFE && forall h | h in hosts :: |h.name| == 14
    ensures |c| == 16 * (|hosts| + 2)
  {
    if hosts == [] then Dirent(1, Name([46])) + Dirent(1, Name([46, 46]))
    else Root(hosts[..|hosts| - 1]) + Dirent(|hosts| + 1, hosts[|hosts| - 1].name)
  }

  function Concat(pieces: seq<seq<byte>>): seq<byte> {
    if pieces == [] then [] else Concat(pieces[..|pieces| - 1]) + pieces[|pieces| - 1]
  }

  const T_DIR: nat := 1
  const T_FILE: nat := 2

  // minor 0 and nlink 1, in one word
  const ONELINK: nat := 0x1_0000

  /** Type and link count of inode k, when there are so many files beside the root. */
  function HeadOf(nfiles: nat, k: nat): (nat, nat) {
    if k == 1 then (T_DIR, ONELINK) else if 2 <= k < nfiles + 2 then (T_FILE, ONELINK) else (0, 0)
  }

  function Heads(nfiles: nat): (head: seq<(nat, nat)>)
    ensures |head| == NINODES
  {
    seq(NINODES, k requires 0 <= k < NINODES => HeadOf(nfiles, k))
  }

  /** What inode k other than the root holds. */
  function Content(hosts: seq<HostFile>, k: nat): seq<byte> {
    if 2 <= k < |hosts| + 2 then Concat(hosts[k - 2].pieces) else []
  }

  /** The files after main has copied `hosts`. */
  ghost predicate Copied(files: seq<seq<byte>>, hosts: seq<HostFile>)
    requires |hosts| < 0xFFFE && forall h | h in hosts :: |h.name| == 14
  {
    && |files| == NINODES && |hosts| + 2 <= NINODES && files[1] == Root(hosts)
    && forall k: nat | k < NINODES && k != 1 :: files[k] == Content(hosts, k)
  }

  // How main ends -----------------------------------------------------------------------------------

  /** How copying one more file ends, when n have been copied: a root entry of 16 bytes, then `size` bytes. */
  function CopyFate(free: nat, n: nat, size: nat): Outcome {
    var entry := AppendFate(free, 16 * (n + 2), 16);
    if n + 2 >= NINODES then NoInode
    else if entry != Ok then entry
    else AppendFate(free + Takes(16 * (n + 3)) - Takes(16 * (n + 2)), 0, size)
  }

  function Size(host: HostFile): nat { |Concat(host.pieces)| }

  function AllTake(hosts: seq<HostFile>): nat {
    if hosts == [] then 0 else AllTake(hosts[..|hosts| - 1]) + Takes(Size(hosts[|hosts| - 1]))
  }

  /** The first free block when main has copied all of hosts. */
  function FreeAfter(hosts: seq<HostFile>): nat {
    NMETA + Takes(16 * (|hosts| + 2)) + AllTake(hosts)
  }

  /** How main ends: with the first file that does not fit, if there is one. */
  function Fate(hosts: seq<HostFile>): Outcome {
    if hosts == [] then Ok
    else
      var n := |hosts| - 1;
      if Fate(hosts[..n]) != Ok then Fate(hosts[..n]) else CopyFate(FreeAfter(hosts[..n]), n, Size(hosts[n]))
  }

  /** The files fit: inodes, the size of each, and blocks in all. */
  predicate AllFit(hosts: seq<HostFile>) {
    && |hosts| + 2 <= NINODES && FreeAfter(hosts) <= FSSIZE
    && forall h | h in hosts :: Size(h) <= MAXBYTES
  }

  lemma CopyFits(free: nat, n: nat, size: nat)
    requires free <= FSSIZE
    ensures Takes(16 * (n + 2)) <= Takes(16 * (n + 3))
    ensures CopyFate(free, n, size) == Ok <==>
      n + 2 < NINODES && size <= MAXBYTES && free + Takes(16 * (n + 3)) - Takes(16 * (n + 2)) + Takes(size) <= FSSIZE
    ensures CopyFate(free, n, size) == NoInode <==> n + 2 >= NINODES
  {
    hide Takes;
    TakesMore(16 * (n + 2), 16 * (n + 3));
    NothingTaken();
  }

  lemma NothingTaken()
    ensures Takes(0) == 0
  {
  }

  /**
   * main ends well if and only if the files fit, and for want of an inode if and only if the first 198 fit and there
   * are more.
   */
  lemma {:induction false} FateIff(hosts: seq<HostFile>)
    ensures Fate(hosts) == Ok <==> AllFit(hosts)
    ensures Fate(hosts) == NoInode <==> |hosts| + 2 > NINODES && AllFit(hosts[..NINODES - 2])
    decreases |hosts|
  {
    hide Takes, CopyFate, Concat;
    if hosts == [] {
      RootTakes();
    } else {
      var n := |hosts| - 1;
      var most := hosts[..n];
      FateIff(most);
      assert forall h | h in hosts :: h in most || h == hosts[n];
      assert n + 2 > NINODES ==> most[..NINODES - 2] == hosts[..NINODES - 2];
      assert n + 2 == NINODES ==> most == hosts[..NINODES - 2];
      if Fate(most) == Ok {
        CopyFits(FreeAfter(most), n, Size(hosts[n]));
      } else {
        CopyGrows(n);
      }
    }
  }

  lemma CopyGrows(n: nat)
    ensures Takes(16 * (n + 2)) <= Takes(16 * (n + 3))
  {
    TakesMore(16 * (n + 2), 16 * (n + 3));
  }

  lemma RootTakes()
    ensures Takes(0) == 0 && Takes(16) == 1 && Takes(16 * 2) == 1
    ensures AppendFate(NMETA, 0, 16) == Ok && AppendFate(NMETA + 1, 16, 16) == Ok
  {
  }

  /** Once a file did not fit, that is how main ends. */
  lemma {:induction false} FateSettled(hosts: seq<HostFile>, n: nat)
    requires n <= |hosts| && Fate(hosts[..n]) != Ok
    ensures Fate(hosts) == Fate(hosts[..n])
    decreases |hosts|
  {
    hide CopyFate, FreeAfter;
    if n < |hosts| {
      assert hosts[..|hosts| - 1][..n] == hosts[..n];
      FateSettled(hosts[..|hosts| - 1], n);
    } else {
      assert hosts[..n] == hosts;
    }
  }

  /** The loop of main that copies the pieces of one file. */
  method CopyPieces(image: Image, inum: nat, pieces: seq<seq<byte>>, ghost files: seq<seq<byte>>) returns (out: Outcome)
    requires image.Ready(files) && 0 < inum < image.freeinode && files[inum] == []
    modifies image`blk, image`freeblock, image`ino, image`owner, image`head
    ensures out == AppendFate(old(image.freeblock), 0, |Concat(pieces)|)
    ensures out.Ok? ==> image.freeblock == old(image.freeblock) + Takes(|Concat(pieces)|)
    ensures out.Ok? ==> image.Ready(files[inum := Concat(pieces)]) && image.head == old(image.head)
  {
    hide FilesAre, Image.Ready, Image.Valid, AppendFate, Takes;
    var i := 0;
    NothingTaken();
    FreeBelow(image, files);
    assert files[inum := []] == files;
    ghost var free := image.freeblock;
    NoneFails(free);
    while i < |pieces|
      invariant 0 <= i <= |pieces| && 0 < inum < image.freeinode && image.Ready(files[inum := Concat(pieces[..i])])
      invariant |Concat(pieces[..i])| <= MAXBYTES && AppendFate(free, 0, |Concat(pieces[..i])|) == Ok
      invariant image.freeblock == free + Takes(|Concat(pieces[..i])|) && image.head == old(image.head)
    {
      ghost var fs, c := files[inum := Concat(pieces[..i])], Concat(pieces[..i]);
      assert pieces[..i + 1][..i] == pieces[..i];
      FateJoins(free, 0, |c|, |pieces[i]|);
      out := image.Append(inum, pieces[i], fs);
      FailsForGood(free, pieces, i + 1);
      FateOk(free, 0, |c| + |pieces[i]|);
      if !out.Ok? {
        return;
      }
      assert fs[inum := fs[inum] + pieces[i]] == files[inum := Concat(pieces[..i + 1])];
      i := i + 1;
    }
    assert pieces[..i] == pieces;
    out := Ok;
  }

  lemma FreeBelow(image: Image, files: seq<seq<byte>>)
    requires image.Ready(files)
    ensures |files| == NINODES && NMETA <= image.freeblock <= FSSIZE && image.freeinode <= NINODES
  {
  }

  lemma NoneFails(free: nat)
    requires free <= FSSIZE
    ensures AppendFate(free, 0, 0) == Ok
  {
  }

  lemma FateOk(free: nat, have: nat, more: nat)
    ensures AppendFate(free, have, more) == Ok ==> have + more <= MAXBYTES
  {
  }

  /** A piece that does not fit decides for all of the file. */
  lemma {:induction false} FailsForGood(free: nat, pieces: seq<seq<byte>>, i: nat)
    requires free <= FSSIZE && i <= |pieces|
    ensures AppendFate(free, 0, |Concat(pieces[..i])|) != Ok ==>
      AppendFate(free, 0, |Concat(pieces)|) == AppendFate(free, 0, |Concat(pieces[..i])|)
    decreases |pieces|
  {
    hide AppendFate, Takes;
    if i < |pieces| {
      var most := pieces[..|pieces| - 1];
      assert most[..i] == pieces[..i];
      FailsForGood(free, most, i);
      FateJoins(free, 0, |Concat(most)|, |pieces[|pieces| - 1]|);
    } else {
      assert pieces[..i] == pieces;
    }
  }

  /** main's loop for one file: an inode, an entry in the root and the contents. */
  method CopyFile(image: Image, host: HostFile, ghost done: seq<HostFile>, ghost files0: seq<seq<byte>>)
    returns (out: Outcome, ghost files: seq<seq<byte>>)
    requires |host.name| == 14 && |done| < 0xFFFD && forall h | h in done :: |h.name| == 14
    requires image.Ready(files0) && Copied(files0, done) && image.freeinode == |done| + 2
    requires image.head == Heads(|done|)
    modifies image
    ensures out == CopyFate(old(image.freeblock), |done|, Size(host))
    ensures out.Ok? ==> image.Ready(files) && Copied(files, done + [host]) && image.freeinode == |done| + 3
    ensures out.Ok? ==> image.head == Heads(|done| + 1)
    ensures out.Ok? ==>
      image.freeblock == old(image.freeblock) + Takes(16 * (|done| + 3)) - Takes(16 * (|done| + 2)) + Takes(Size(host))
  {
    hide FilesAre, Image.Ready, Image.Valid, Concat, Dirent, Name, AppendFate, Takes;
    files := files0;
    var inum;
    out, inum := image.Ialloc(T_FILE, files);
    if out.NoInode? {
      return;
    }
    out := image.Append(1, Dirent(inum, host.name), files);
    if !out.Ok? {
      return;
    }
    files := files[1 := files[1] + Dirent(inum, host.name)];
    out := CopyPieces(image, inum, host.pieces, files);
    files := files[inum := Concat(host.pieces)];
    assert (done + [host])[..|done|] == done;
  }

  /** main up to its loop: the root directory with "." and "..". */
  method MakeRoot() returns (image: Image, ghost files: seq<seq<byte>>)
    ensures fresh(image) && image.Ready(files) && Copied(files, []) && image.freeinode == 2
    ensures image.freeblock == FreeAfter([])
    ensures image.head == Heads(0)
  {
    hide FilesAre, Image.Ready, Image.Valid, Dirent, Name, AppendFate, Takes;
    RootTakes();
    image := new Image();
    files := seq(NINODES, _ => []);
    var out, root := image.Ialloc(T_DIR, files);
    out := image.Append(1, Dirent(1, Name([46])), files);
    files := files[1 := files[1] + Dirent(1, Name([46]))];
    out := image.Append(1, Dirent(1, Name([46, 46])), files);
    files := files[1 := files[1] + Dirent(1, Name([46, 46]))];
    assert files[1] == Root([]);
  }

  /**
   * main: an image with these files if they fit. It is a file system whose data blocks each have one slot; only the
   * root directory may claim a block it does not have, exactly when its entries fill blocks.
   */
  method Mkfs(hosts: seq<HostFile>) returns (out: Outcome, image: Image)
    requires |hosts| < 0xFFFE && forall h | h in hosts :: |h.name| == 14
    ensures fresh(image) && out == Fate(hosts) && (out.Ok? <==> AllFit(hosts))
    ensures out.Ok? ==> Made(image, hosts)
  {
    hide Made, FilesAre, Image.Ready, Image.Valid, Image.Whole, CopyFate, AllFit, Takes, AllTake;
    ghost var files;
    out := Ok;
    FateIff(hosts);
    image, files := MakeRoot();
    var i := 0;
    while i < |hosts|
      invariant 0 <= i <= |hosts| && fresh(image) && image.freeinode == i + 2
      invariant image.Ready(files) && Copied(files, hosts[..i])
      invariant image.head == Heads(i)
      invariant Fate(hosts[..i]) == Ok && image.freeblock == FreeAfter(hosts[..i])
    {
      hide *;
      NextFile(hosts, i, image.freeblock);
      out, files := CopyFile(image, hosts[i], hosts[..i], files);
      if !out.Ok? {
        return;
      }
      assert hosts[..i] + [hosts[i]] == hosts[..i + 1];
      i := i + 1;
    }
    assert hosts[..i] == hosts;
    Finish(image, hosts, files);
    out := Ok;
  }

  lemma NextFile(hosts: seq<HostFile>, i: nat, free: nat)
    requires i < |hosts| && Fate(hosts[..i]) == Ok && free == FreeAfter(hosts[..i])
    ensures var fate := CopyFate(free, i, Size(hosts[i]));
      && Fate(hosts[..i + 1]) == fate && (fate != Ok ==> Fate(hosts) == fate)
      && FreeAfter(hosts[..i + 1]) == free + Takes(16 * (i + 3)) - Takes(16 * (i + 2)) + Takes(Size(hosts[i]))
  {
    hide Takes, CopyFate, Size;
    assert hosts[..i + 1][..i] == hosts[..i];
    if Fate(hosts[..i + 1]) != Ok {
      FateSettled(hosts, i + 1);
    }
  }

  /** A finished image of these files. */
  ghost predicate Made(image: Image, hosts: seq<HostFile>)
    requires |hosts| < 0xFFFE && forall h | h in hosts :: |h.name| == 14
    reads image
  {
    && OneSlotPerBlock(SB, image.blk, image.ino)
    && (forall b: nat | 2 <= b < SB.inodestart :: image.blk[b] == Zero())
    && (forall k: nat | k < NINODES :: OnDisk(SB, image.blk, image.ino, k))
    && HeadsAre(image.blk, Heads(|hosts|))
    && (forall k: nat | k < NINODES && k != 1 :: FileIs(SB, image.blk, image.ino, k, Content(hosts, k)))
    && Grown(SB, image.blk, image.ino, 1, |Root(hosts)|)
    && Bytes(SB, image.blk, image.ino, 1, |Root(hosts)|) == Root(hosts)
    && image.ino[1].size == (|Root(hosts)| / BSIZE + 1) * BSIZE
    && (Grown(SB, image.blk, image.ino, 1, image.ino[1].size) <==> (|hosts| + 2) % 32 != 0)
    && (Grown(SB, image.blk, image.ino, 1, image.ino[1].size) ==>
          Bytes(SB, image.blk, image.ino, 1, image.ino[1].size) == Padded(Root(hosts)))
  }

  /** main after its loop. */
  method Finish(image: Image, hosts: seq<HostFile>, ghost files: seq<seq<byte>>)
    requires |hosts| < 0xFFFE && forall h | h in hosts :: |h.name| == 14
    requires image.Ready(files) && Copied(files, hosts) && image.freeinode > 1
    requires image.head == Heads(|hosts|)
    modifies image`blk, image`ino, image`head
    ensures Made(image, hosts)
  {
    hide Word, Used, BitsBelow, OnDisk, SameFile, Bitmap, At, FileSlot, Owned, Grown, Bytes;
    image.FixRoot(files);
    image.Balloc(image.freeblock);
    OwnedIsOne(SB, image.blk, image.ino, image.owner);
    OwnedShape(SB, image.blk, image.ino, image.owner);
  }

  /** Thirty files of one block at most always fit, and fill the root's block. */
  lemma ThirtyFit(hosts: seq<HostFile>)
    requires |hosts| == 30 && forall h | h in hosts :: Size(h) <= BSIZE
    ensures AllFit(hosts) && (|hosts| + 2) % 32 == 0
  {
    SmallTake(hosts);
  }

  lemma {:induction false} SmallTake(hosts: seq<HostFile>)
    requires forall h | h in hosts :: Size(h) <= BSIZE
    ensures AllTake(hosts) <= |hosts|
  {
    if hosts != [] {
      SmallTake(hosts[..|hosts| - 1]);
    }
  }

  /** An image of thirty files, whose root claims a block it does not have. */
  method BrokenRoot(hosts: seq<HostFile>) returns (image: Image)
    requires |hosts| == 30 && forall h | h in hosts :: |h.name| == 14 && Size(h) <= BSIZE
    ensures Made(image, hosts) && !Grown(SB, image.blk, image.ino, 1, image.ino[1].size)
  {
    ThirtyFit(hosts);
    var out;
    out, image := Mkfs(hosts);
  }
}
