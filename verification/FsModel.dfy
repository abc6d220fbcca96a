/**
 * File-system state (fs.c): the block bitmap, block maps of inodes and who owns each block.
 *
 * `blk` is the disk as the running system sees it through the buffer cache; `ino[k]` is inode k,
 * in memory where it is cached and on disk elsewhere.
 */
module FsModel {
  import opened Block

  const NDIRECT: nat := 12
  const NINDIRECT: nat := WORDS
  const MAXFILE: nat := NDIRECT + NINDIRECT
  const BPB: nat := 8 * BSIZE
  const IPB: nat := 8

  /** The superblock fields used here; `dstart` is the first data block (mkfs's nmeta). */
  datatype Superblock = Superblock(size: nat, ninodes: nat, inodestart: nat, bmapstart: nat, dstart: nat)

  datatype Ino = Ino(size: nat, addrs: seq<nat>)

  /** A place that can hold a block number. */
  datatype Slot = Direct(inum: nat, i: nat) | Ind(inum: nat) | Entry(inum: nat, j: nat)

  type Blocks = seq<Block>

  function IBlock(sb: Superblock, inum: nat): nat
  {
    inum / IPB + sb.inodestart
  }

  function BBlock(sb: Superblock, b: nat): nat
  {
    b / BPB + sb.bmapstart
  }

  /** boot, super, log | inodes | bitmap | data */
  predicate GoodSb(sb: Superblock)
  {
    && 0 < sb.inodestart <= sb.bmapstart
    && (forall k: nat | k < sb.ninodes :: IBlock(sb, k) < sb.bmapstart)
    && (forall b: nat | b < sb.size :: BBlock(sb, b) < sb.dstart)
    && sb.dstart <= sb.size <= MAXWORD
  }

  predicate Shape(sb: Superblock, blk: Blocks, ino: seq<Ino>)
  {
    && GoodSb(sb)
    && |blk| == sb.size && |ino| == sb.ninodes
    && (forall k | 0 <= k < |ino| :: |ino[k].addrs| == NDIRECT + 1)
    && (forall k, i | 0 <= k < |ino| && 0 <= i <= NDIRECT :: ino[k].addrs[i] < sb.size)
  }

  predicate Used(sb: Superblock, blk: Blocks, b: nat)
    requires GoodSb(sb) && |blk| == sb.size && b < sb.size
  {
    var bi := b % BPB;
    Bit(blk[BBlock(sb, b)][bi / 8], bi % 8)
  }

  predicate IsSlot(sb: Superblock, s: Slot)
  {
    && s.inum < sb.ninodes
    && (s.Direct? ==> s.i < NDIRECT)
    && (s.Entry? ==> s.j < NINDIRECT)
  }

  /** The block number a slot holds, 0 for none. */
  function At(sb: Superblock, blk: Blocks, ino: seq<Ino>, s: Slot): nat
    requires Shape(sb, blk, ino) && IsSlot(sb, s)
  {
    var addrs := ino[s.inum].addrs;
    match s
    case Direct(_, i) => addrs[i]
    case Ind(_) => addrs[NDIRECT]
    case Entry(_, j) => if addrs[NDIRECT] == 0 then 0 else Word(blk[addrs[NDIRECT]], j)
  }

  /** `owner` names, for each block some slot holds, the only slot that holds it. */
  ghost predicate Owned(sb: Superblock, blk: Blocks, ino: seq<Ino>, owner: map<nat, Slot>)
  {
    && Shape(sb, blk, ino)
    && 0 < sb.dstart
    && (forall b | b in owner :: sb.dstart <= b < sb.size && IsSlot(sb, owner[b]) && At(sb, blk, ino, owner[b]) == b)
    && (forall s | IsSlot(sb, s) && At(sb, blk, ino, s) != 0 ::
          At(sb, blk, ino, s) in owner && owner[At(sb, blk, ino, s)] == s)
  }

  /** A bit is set iff its block is metadata, owned by a slot, or `extra` (allocated just now). */
  ghost predicate Bitmap(sb: Superblock, blk: Blocks, owner: map<nat, Slot>, extra: set<nat>)
  {
    && GoodSb(sb) && |blk| == sb.size
    && forall b: nat | b < sb.size :: Used(sb, blk, b) <==> b < sb.dstart || b in owner || b in extra
  }

  lemma UsedFrame(sb: Superblock, blk: Blocks, blk': Blocks, b: nat)
    requires GoodSb(sb) && |blk| == |blk'| == sb.size && b < sb.size
    requires blk[BBlock(sb, b)] == blk'[BBlock(sb, b)]
    ensures Used(sb, blk, b) == Used(sb, blk', b)
  {
  }

  // How the ownership map changes ---------------------------------------------------

  /** Writing a block that is not an indirect block changes no slot. */
  lemma WriteData(sb: Superblock, blk: Blocks, ino: seq<Ino>, owner: map<nat, Slot>, b: nat, data: Block)
    requires Owned(sb, blk, ino, owner) && b < sb.size
    requires b in owner ==> !owner[b].Ind?
    ensures Owned(sb, blk[b := data], ino, owner)
  {
    hide Word;
    forall s | IsSlot(sb, s)
      ensures At(sb, blk[b := data], ino, s) == At(sb, blk, ino, s)
    {
      assert At(sb, blk, ino, Ind(s.inum)) == ino[s.inum].addrs[NDIRECT];
    }
  }

  function SetAddr(ino: seq<Ino>, k: nat, i: nat, b: nat): (ino': seq<Ino>)
    requires k < |ino| && i < |ino[k].addrs|
  {
    ino[k := ino[k].(addrs := ino[k].addrs[i := b])]
  }

  lemma SetDirect(sb: Superblock, blk: Blocks, ino: seq<Ino>, owner: map<nat, Slot>, k: nat, i: nat, b: nat)
    requires Owned(sb, blk, ino, owner) && k < sb.ninodes && i < NDIRECT
    requires ino[k].addrs[i] == 0 && sb.dstart <= b < sb.size && b !in owner
    ensures Owned(sb, blk, SetAddr(ino, k, i, b), owner[b := Direct(k, i)])
  {
    hide Word;
    var ino' := SetAddr(ino, k, i, b);
    forall s | IsSlot(sb, s)
      ensures At(sb, blk, ino', s) == if s == Direct(k, i) then b else At(sb, blk, ino, s)
    {
    }
  }

  lemma SetInd(sb: Superblock, blk: Blocks, ino: seq<Ino>, owner: map<nat, Slot>, k: nat, b: nat)
    requires Owned(sb, blk, ino, owner) && k < sb.ninodes
    requires ino[k].addrs[NDIRECT] == 0 && sb.dstart <= b < sb.size && b !in owner && blk[b] == Zero()
    ensures Owned(sb, blk, SetAddr(ino, k, NDIRECT, b), owner[b := Ind(k)])
  {
    ZeroWords();
    hide Word;
    var ino' := SetAddr(ino, k, NDIRECT, b);
    forall s | IsSlot(sb, s)
      ensures At(sb, blk, ino', s) == if s == Ind(k) then b else At(sb, blk, ino, s)
    {
    }
  }

  lemma SetEntry(sb: Superblock, blk: Blocks, ino: seq<Ino>, owner: map<nat, Slot>, k: nat, j: nat, b: nat)
    requires Owned(sb, blk, ino, owner) && k < sb.ninodes && j < NINDIRECT
    requires ino[k].addrs[NDIRECT] != 0 && Word(blk[ino[k].addrs[NDIRECT]], j) == 0
    requires sb.dstart <= b < sb.size && b !in owner
    ensures var ind := ino[k].addrs[NDIRECT];
            Owned(sb, blk[ind := SetWord(blk[ind], j, b)], ino, owner[b := Entry(k, j)])
  {
    hide Word;
    var ind := ino[k].addrs[NDIRECT];
    var blk' := blk[ind := SetWord(blk[ind], j, b)];
    assert At(sb, blk, ino, Ind(k)) == ind;
    forall s | IsSlot(sb, s)
      ensures At(sb, blk', ino, s) == if s == Entry(k, j) then b else At(sb, blk, ino, s)
    {
      if s.Entry? && ino[s.inum].addrs[NDIRECT] == ind {
        assert At(sb, blk, ino, Ind(s.inum)) == ind;
      }
    }
  }

  lemma OwnedShape(sb: Superblock, blk: Blocks, ino: seq<Ino>, owner: map<nat, Slot>)
    requires Owned(sb, blk, ino, owner)
    ensures Shape(sb, blk, ino) && 0 < sb.dstart
  {
  }

  // The bitmap ------------------------------------------------------------------------

  lemma Regions(sb: Superblock, k: nat, b: nat)
    requires GoodSb(sb) && k < sb.ninodes && b < sb.size && 0 < sb.size
    ensures 0 < sb.inodestart <= IBlock(sb, k) < BBlock(sb, b) < sb.dstart
  {
    assert IBlock(sb, k) < sb.bmapstart;
  }

  /** The bitmap block of b after setting or clearing b's bit. */
  function Marked(sb: Superblock, blk: Blocks, b: nat, v: bool): (bp: Block)
    requires GoodSb(sb) && |blk| == sb.size && b < sb.size
  {
    var bp, bi := blk[BBlock(sb, b)], b % BPB;
    bp[bi / 8 := if v then SetBit(bp[bi / 8], bi % 8) else ClearBit(bp[bi / 8], bi % 8)]
  }

  lemma MarkedBits(sb: Superblock, blk: Blocks, b: nat, v: bool, c: nat)
    requires GoodSb(sb) && |blk| == sb.size && b < sb.size && c < sb.size
    ensures var blk' := blk[BBlock(sb, b) := Marked(sb, blk, b, v)];
            Used(sb, blk', c) == if c == b then v else Used(sb, blk, c)
  {
    if BBlock(sb, c) == BBlock(sb, b) {
      var bi, ci := b % BPB, c % BPB;
      assert c / BPB == b / BPB;
      assert bi / 8 == ci / 8 && bi % 8 == ci % 8 ==> b == c;
    }
  }

  /** Bit bi of the bitmap block that starts with block b. */
  lemma BitOf(sb: Superblock, blk: Blocks, b: nat, bi: nat)
    requires GoodSb(sb) && |blk| == sb.size && b % BPB == 0 && bi < BPB && b + bi < sb.size
    ensures sb.bmapstart <= BBlock(sb, b + bi) == BBlock(sb, b) < sb.dstart
    ensures Used(sb, blk, b + bi) == Bit(blk[BBlock(sb, b)][bi / 8], bi % 8)
    ensures var bp := blk[BBlock(sb, b)];
            Marked(sb, blk, b + bi, true) == bp[bi / 8 := SetBit(bp[bi / 8], bi % 8)]
  {
    hide Bit;
    assert (b + bi) % BPB == bi && (b + bi) / BPB == b / BPB;
  }

  // Inodes on disk ----------------------------------------------------------------------

  /** Word w of dinode k: 0 holds type and major, 1 minor and nlink, 2 the size, then addrs. */
  function DWord(sb: Superblock, blk: Blocks, k: nat, w: nat): nat
    requires GoodSb(sb) && |blk| == sb.size && k < sb.ninodes && w < 16
    requires IBlock(sb, k) < |blk|
  {
    Word(blk[IBlock(sb, k)], 16 * (k % IPB) + w)
  }

  ghost predicate OnDisk(sb: Superblock, blk: Blocks, ino: seq<Ino>, k: nat)
    requires Shape(sb, blk, ino) && k < sb.ninodes && 0 < sb.dstart
  {
    Regions(sb, k, 0);
    && DWord(sb, blk, k, 2) == ino[k].size
    && forall i: nat | i <= NDIRECT :: DWord(sb, blk, k, 3 + i) == ino[k].addrs[i]
  }

  // File contents ------------------------------------------------------------------------

  /** The slot for block bn of a file. */
  function FileSlot(k: nat, bn: nat): (s: Slot)
    requires bn < MAXFILE
  {
    if bn < NDIRECT then Direct(k, bn) else Entry(k, bn - NDIRECT)
  }

  function FileBlock(sb: Superblock, blk: Blocks, ino: seq<Ino>, k: nat, bn: nat): nat
    requires Shape(sb, blk, ino) && k < sb.ninodes && bn < MAXFILE
  {
    At(sb, blk, ino, FileSlot(k, bn))
  }

  /** Exactly the blocks below byte m are mapped. */
  ghost predicate Grown(sb: Superblock, blk: Blocks, ino: seq<Ino>, k: nat, m: nat)
    requires Shape(sb, blk, ino) && k < sb.ninodes
  {
    && m <= MAXFILE * BSIZE
    && (forall bn: nat | bn < MAXFILE :: FileBlock(sb, blk, ino, k, bn) != 0 <==> bn * BSIZE < m)
    && (ino[k].addrs[NDIRECT] != 0 <==> NDIRECT * BSIZE < m)
  }

  /** The first m bytes of file k. */
  ghost function Bytes(sb: Superblock, blk: Blocks, ino: seq<Ino>, k: nat, m: nat): (s: seq<byte>)
    requires Shape(sb, blk, ino) && k < sb.ninodes && Grown(sb, blk, ino, k, m)
    ensures |s| == m
  {
    seq(m, p requires 0 <= p < m => FileByte(sb, blk, ino, k, p))
  }

  ghost function FileByte(sb: Superblock, blk: Blocks, ino: seq<Ino>, k: nat, p: nat): byte
    requires Shape(sb, blk, ino) && k < sb.ninodes && p < MAXFILE * BSIZE
  {
    BlockByte(sb, blk, ino, k, p / BSIZE, p % BSIZE)
  }

  ghost function BlockByte(sb: Superblock, blk: Blocks, ino: seq<Ino>, k: nat, bn: nat, q: nat): byte
    requires Shape(sb, blk, ino) && k < sb.ninodes && bn < MAXFILE && q < BSIZE
  {
    var a := FileBlock(sb, blk, ino, k, bn);
    if a < |blk| then blk[a][q] else 0
  }

  /** File k is the same in both states, except perhaps for block `but`. */
  ghost predicate SameFile(sb: Superblock, blk: Blocks, ino: seq<Ino>, blk': Blocks, ino': seq<Ino>, k: nat, but: int)
    requires Shape(sb, blk, ino) && Shape(sb, blk', ino') && k < sb.ninodes
  {
    && (forall bn: nat | bn < MAXFILE && bn != but ::
          FileBlock(sb, blk', ino', k, bn) == FileBlock(sb, blk, ino, k, bn))
    && (forall bn: nat | bn < MAXFILE && bn != but && 0 < FileBlock(sb, blk, ino, k, bn) < sb.size ::
          blk'[FileBlock(sb, blk, ino, k, bn)] == blk[FileBlock(sb, blk, ino, k, bn)])
  }

  /** Nothing changed in any inode but k. */
  ghost predicate Others(sb: Superblock, blk: Blocks, ino: seq<Ino>, blk': Blocks, ino': seq<Ino>, k: nat)
  {
    && Shape(sb, blk, ino) && Shape(sb, blk', ino')
    && forall i: nat | i < sb.ninodes && i != k :: ino'[i] == ino[i] && SameFile(sb, blk, ino, blk', ino', i, -1)
  }

  // Frames -------------------------------------------------------------------------------

  /** Slots and files depend on owned blocks only. */
  lemma KeepOwned(sb: Superblock, blk: Blocks, ino: seq<Ino>, owner: map<nat, Slot>, blk': Blocks)
    requires Owned(sb, blk, ino, owner) && |blk'| == |blk|
    requires forall c | c in owner :: blk'[c] == blk[c]
    ensures Owned(sb, blk', ino, owner)
    ensures forall k: nat | k < sb.ninodes :: SameFile(sb, blk, ino, blk', ino, k, -1)
  {
    hide Word;
    forall s | IsSlot(sb, s)
      ensures At(sb, blk', ino, s) == At(sb, blk, ino, s)
    {
      assert At(sb, blk, ino, Ind(s.inum)) == ino[s.inum].addrs[NDIRECT];
    }
  }

  lemma KeepOnDisk(sb: Superblock, blk: Blocks, ino: seq<Ino>, blk': Blocks, ino': seq<Ino>, k: nat)
    requires Shape(sb, blk, ino) && Shape(sb, blk', ino') && k < sb.ninodes && 0 < sb.dstart
    requires OnDisk(sb, blk, ino, k) && ino'[k] == ino[k]
    requires IBlock(sb, k) < sb.size ==> blk'[IBlock(sb, k)] == blk[IBlock(sb, k)]
    ensures OnDisk(sb, blk', ino', k)
  {
    Regions(sb, k, 0);
    hide Word;
  }

  lemma KeepWords(sb: Superblock, blk: Blocks, ino: seq<Ino>, blk': Blocks, k: nat)
    requires Shape(sb, blk, ino) && Shape(sb, blk', ino) && k < sb.ninodes && IBlock(sb, k) < sb.size && 0 < sb.dstart
    requires forall w: nat | 2 <= w < 16 :: DWord(sb, blk', k, w) == DWord(sb, blk, k, w)
    requires OnDisk(sb, blk, ino, k)
    ensures OnDisk(sb, blk', ino, k)
  {
    hide Word;
    forall i: nat | i <= NDIRECT ensures DWord(sb, blk', k, 3 + i) == ino[k].addrs[i] {
      var w := 3 + i;
      assert DWord(sb, blk', k, w) == DWord(sb, blk, k, w);
    }
  }

  /** What balloc does to the disk: b's bit is set and b is zeroed. */
  function Allocated(sb: Superblock, blk: Blocks, b: nat): (blk': Blocks)
    requires GoodSb(sb) && |blk| == sb.size && b < sb.size
  {
    blk[BBlock(sb, b) := Marked(sb, blk, b, true)][b := Zero()]
  }

  lemma AllocKeeps(sb: Superblock, blk: Blocks, ino: seq<Ino>, owner: map<nat, Slot>, b: nat)
    requires Owned(sb, blk, ino, owner) && Bitmap(sb, blk, owner, {})
    requires b < sb.size && !Used(sb, blk, b)
    ensures var blk' := Allocated(sb, blk, b);
            && b !in owner && sb.dstart <= b
            && Owned(sb, blk', ino, owner)
            && (forall k: nat | k < sb.ninodes :: SameFile(sb, blk, ino, blk', ino, k, -1))
            && (forall k: nat | k < sb.ninodes && OnDisk(sb, blk, ino, k) :: OnDisk(sb, blk', ino, k))
  {
    hide Used, Marked, At, SameFile;
    var blk' := Allocated(sb, blk, b);
    KeepOwned(sb, blk, ino, owner, blk');
    forall k: nat | k < sb.ninodes && OnDisk(sb, blk, ino, k) ensures OnDisk(sb, blk', ino, k) {
      Regions(sb, k, b);
      KeepOnDisk(sb, blk, ino, blk', ino, k);
    }
  }

  lemma AllocBits(sb: Superblock, blk: Blocks, owner: map<nat, Slot>, b: nat)
    requires Bitmap(sb, blk, owner, {}) && b < sb.size && !Used(sb, blk, b)
    ensures Bitmap(sb, Allocated(sb, blk, b), owner, {b})
  {
    hide Used, Marked;
    var blk1 := blk[BBlock(sb, b) := Marked(sb, blk, b, true)];
    var blk' := Allocated(sb, blk, b);
    forall c: nat | c < sb.size
      ensures Used(sb, blk', c) == (c == b || Used(sb, blk, c))
    {
      MarkedBits(sb, blk, b, true, c);
      UsedFrame(sb, blk1, blk', c);
    }
  }

  // The three ways bmap maps a block -------------------------------------------------------

  /** The state after a step of bmap on file k that mapped `but` (or no block of the file). */
  ghost predicate Mapped(sb: Superblock, blk: Blocks, ino: seq<Ino>, owner: map<nat, Slot>,
                         blk': Blocks, ino': seq<Ino>, owner': map<nat, Slot>, k: nat, but: int)
  {
    && Owned(sb, blk, ino, owner) && Owned(sb, blk', ino', owner')
    && k < sb.ninodes && ino'[k].size == ino[k].size
    && Bitmap(sb, blk', owner', {})
    && SameFile(sb, blk, ino, blk', ino', k, but)
    && Others(sb, blk, ino, blk', ino', k)
    && (forall i: nat | i < sb.ninodes && i != k && OnDisk(sb, blk, ino, i) :: OnDisk(sb, blk', ino', i))
  }

  lemma MapDirect(sb: Superblock, blk: Blocks, ino: seq<Ino>, owner: map<nat, Slot>, k: nat, bn: nat, b: nat)
    requires Owned(sb, blk, ino, owner) && Bitmap(sb, blk, owner, {})
    requires k < sb.ninodes && bn < NDIRECT && ino[k].addrs[bn] == 0
    requires b < sb.size && !Used(sb, blk, b)
    ensures var blk', ino', owner' := Allocated(sb, blk, b), SetAddr(ino, k, bn, b), owner[b := Direct(k, bn)];
            && Mapped(sb, blk, ino, owner, blk', ino', owner', k, bn)
            && FileBlock(sb, blk', ino', k, bn) == b
  {
    hide Used, Marked, Word, OnDisk;
    var blk', ino', owner' := Allocated(sb, blk, b), SetAddr(ino, k, bn, b), owner[b := Direct(k, bn)];
    AllocKeeps(sb, blk, ino, owner, b);
    AllocBits(sb, blk, owner, b);
    SetDirect(sb, blk', ino, owner, k, bn, b);
    forall i: nat | i < sb.ninodes && i != k && OnDisk(sb, blk, ino, i) ensures OnDisk(sb, blk', ino', i) {
      KeepOnDisk(sb, blk', ino, blk', ino', i);
    }
  }

  lemma MapInd(sb: Superblock, blk: Blocks, ino: seq<Ino>, owner: map<nat, Slot>, k: nat, b: nat)
    requires Owned(sb, blk, ino, owner) && Bitmap(sb, blk, owner, {})
    requires k < sb.ninodes && ino[k].addrs[NDIRECT] == 0
    requires b < sb.size && !Used(sb, blk, b)
    ensures var blk', ino', owner' := Allocated(sb, blk, b), SetAddr(ino, k, NDIRECT, b), owner[b := Ind(k)];
            Mapped(sb, blk, ino, owner, blk', ino', owner', k, -1)
  {
    hide Used, Marked, OnDisk;
    var blk', ino', owner' := Allocated(sb, blk, b), SetAddr(ino, k, NDIRECT, b), owner[b := Ind(k)];
    AllocKeeps(sb, blk, ino, owner, b);
    AllocBits(sb, blk, owner, b);
    SetInd(sb, blk', ino, owner, k, b);
    ZeroWords();
    hide Word;
    forall i: nat | i < sb.ninodes && i != k && OnDisk(sb, blk, ino, i) ensures OnDisk(sb, blk', ino', i) {
      KeepOnDisk(sb, blk', ino, blk', ino', i);
    }
  }

  /** The indirect block of k, with entry j set to the block b that balloc returned. */
  function EntrySet(sb: Superblock, blk: Blocks, ino: seq<Ino>, k: nat, j: nat, b: nat): (blk': Blocks)
    requires Shape(sb, blk, ino) && k < sb.ninodes && j < NINDIRECT && b < sb.size
  {
    var ind := ino[k].addrs[NDIRECT];
    Allocated(sb, blk, b)[ind := SetWord(blk[ind], j, b)]
  }

  lemma MapEntry(sb: Superblock, blk: Blocks, ino: seq<Ino>, owner: map<nat, Slot>, k: nat, j: nat, b: nat)
    requires Owned(sb, blk, ino, owner) && Bitmap(sb, blk, owner, {})
    requires k < sb.ninodes && j < NINDIRECT
    requires ino[k].addrs[NDIRECT] != 0 && Word(blk[ino[k].addrs[NDIRECT]], j) == 0
    requires b < sb.size && !Used(sb, blk, b)
    ensures var blk', owner' := EntrySet(sb, blk, ino, k, j, b), owner[b := Entry(k, j)];
            && Mapped(sb, blk, ino, owner, blk', ino, owner', k, NDIRECT + j)
            && FileBlock(sb, blk', ino, k, NDIRECT + j) == b
  {
    hide Used, Marked, Word, OnDisk;
    var ind := ino[k].addrs[NDIRECT];
    var blk1, blk', owner' := Allocated(sb, blk, b), EntrySet(sb, blk, ino, k, j, b), owner[b := Entry(k, j)];
    assert At(sb, blk, ino, Ind(k)) == ind;
    Regions(sb, k, b);
    AllocKeeps(sb, blk, ino, owner, b);
    AllocBits(sb, blk, owner, b);
    SetEntry(sb, blk1, ino, owner, k, j, b);
    forall c: nat | c < sb.size ensures Used(sb, blk', c) == Used(sb, blk1, c) {
      Regions(sb, k, c);
      UsedFrame(sb, blk1, blk', c);
    }
    forall i: nat | i < sb.ninodes && OnDisk(sb, blk, ino, i) ensures OnDisk(sb, blk', ino, i) {
      Regions(sb, i, ind);
      KeepOnDisk(sb, blk1, ino, blk', ino, i);
    }
    EntryFiles(sb, blk1, ino, owner, k, j, b);
  }

  /** Setting an entry changes no other block of any file. */
  lemma EntryFiles(sb: Superblock, blk: Blocks, ino: seq<Ino>, owner: map<nat, Slot>, k: nat, j: nat, b: nat)
    requires Owned(sb, blk, ino, owner) && k < sb.ninodes && j < NINDIRECT && b < sb.size
    requires ino[k].addrs[NDIRECT] != 0
    ensures var ind := ino[k].addrs[NDIRECT];
            var blk' := blk[ind := SetWord(blk[ind], j, b)];
            && SameFile(sb, blk, ino, blk', ino, k, NDIRECT + j)
            && (forall i: nat | i < sb.ninodes && i != k :: SameFile(sb, blk, ino, blk', ino, i, -1))
            && FileBlock(sb, blk', ino, k, NDIRECT + j) == b
  {
    hide Word;
    var ind := ino[k].addrs[NDIRECT];
    var blk' := blk[ind := SetWord(blk[ind], j, b)];
    assert At(sb, blk, ino, Ind(k)) == ind;
    forall s | IsSlot(sb, s) && s != Entry(k, j)
      ensures At(sb, blk', ino, s) == At(sb, blk, ino, s)
      ensures !s.Ind? ==> At(sb, blk, ino, s) != ind
    {
      assert At(sb, blk, ino, Ind(s.inum)) == ino[s.inum].addrs[NDIRECT];
    }
  }

  /** Mapping block bn allocates an indirect block only for bn >= NDIRECT, and then surely. */
  ghost predicate IndKept(i0: Ino, i1: Ino, bn: nat)
    requires |i0.addrs| == |i1.addrs| == NDIRECT + 1
  {
    && (bn >= NDIRECT ==> i1.addrs[NDIRECT] != 0)
    && (bn < NDIRECT || i0.addrs[NDIRECT] != 0 ==> i1.addrs[NDIRECT] == i0.addrs[NDIRECT])
  }

  lemma MappedTrans(sb: Superblock, blk0: Blocks, ino0: seq<Ino>, owner0: map<nat, Slot>,
                    blk1: Blocks, ino1: seq<Ino>, owner1: map<nat, Slot>,
                    blk2: Blocks, ino2: seq<Ino>, owner2: map<nat, Slot>, k: nat, but: int)
    requires Mapped(sb, blk0, ino0, owner0, blk1, ino1, owner1, k, -1)
    requires Mapped(sb, blk1, ino1, owner1, blk2, ino2, owner2, k, but)
    ensures Mapped(sb, blk0, ino0, owner0, blk2, ino2, owner2, k, but)
  {
    hide At, OnDisk, Used, IsSlot;
  }

  lemma MappedRefl(sb: Superblock, blk: Blocks, ino: seq<Ino>, owner: map<nat, Slot>, k: nat, but: int)
    requires Owned(sb, blk, ino, owner) && Bitmap(sb, blk, owner, {}) && k < sb.ninodes
    ensures Mapped(sb, blk, ino, owner, blk, ino, owner, k, but)
  {
    hide At, OnDisk, Used, IsSlot;
  }

  // Writing data -----------------------------------------------------------------------------

  /** Writing a block of file k leaves everything else as it was. */
  lemma DataFiles(sb: Superblock, blk: Blocks, ino: seq<Ino>, owner: map<nat, Slot>, k: nat, bn: nat, data: Block)
    requires Owned(sb, blk, ino, owner) && Bitmap(sb, blk, owner, {}) && k < sb.ninodes && bn < MAXFILE
    requires FileBlock(sb, blk, ino, k, bn) != 0
    ensures var blk' := blk[FileBlock(sb, blk, ino, k, bn) := data];
            && Owned(sb, blk', ino, owner) && Bitmap(sb, blk', owner, {})
            && Others(sb, blk, ino, blk', ino, k)
            && SameFile(sb, blk, ino, blk', ino, k, bn)
            && FileBlock(sb, blk', ino, k, bn) == FileBlock(sb, blk, ino, k, bn)
            && (forall i: nat | i < sb.ninodes && OnDisk(sb, blk, ino, i) :: OnDisk(sb, blk', ino, i))
  {
    hide Word, Used, OnDisk;
    var a := FileBlock(sb, blk, ino, k, bn);
    var blk' := blk[a := data];
    WriteData(sb, blk, ino, owner, a, data);
    forall s | IsSlot(sb, s)
      ensures At(sb, blk', ino, s) == At(sb, blk, ino, s)
      ensures At(sb, blk, ino, s) == a ==> s == FileSlot(k, bn)
    {
      assert At(sb, blk, ino, Ind(s.inum)) == ino[s.inum].addrs[NDIRECT];
    }
    forall c: nat | c < sb.size ensures Used(sb, blk', c) == Used(sb, blk, c) {
      Regions(sb, k, c);
      UsedFrame(sb, blk, blk', c);
    }
    forall i: nat | i < sb.ninodes && OnDisk(sb, blk, ino, i) ensures OnDisk(sb, blk', ino, i) {
      Regions(sb, i, a);
      KeepOnDisk(sb, blk, ino, blk', ino, i);
    }
  }

  /** Writing an inode block leaves slots, bits and files as they were. */
  lemma InodeBlockFiles(sb: Superblock, blk: Blocks, ino: seq<Ino>, owner: map<nat, Slot>, k: nat, data: Block)
    requires Owned(sb, blk, ino, owner) && Bitmap(sb, blk, owner, {}) && k < sb.ninodes
    requires IBlock(sb, k) < sb.size
    ensures var blk' := blk[IBlock(sb, k) := data];
            && Owned(sb, blk', ino, owner) && Bitmap(sb, blk', owner, {})
            && forall i: nat | i < sb.ninodes :: SameFile(sb, blk, ino, blk', ino, i, -1)
  {
    hide Word, Used, At, SameFile;
    var blk' := blk[IBlock(sb, k) := data];
    Regions(sb, k, 0);
    KeepOwned(sb, blk, ino, owner, blk');
    forall c: nat | c < sb.size ensures Used(sb, blk', c) == Used(sb, blk, c) {
      Regions(sb, k, c);
      UsedFrame(sb, blk, blk', c);
    }
  }

  /** c with s written over it from byte off on. */
  function Splice<T>(c: seq<T>, off: nat, s: seq<T>): (r: seq<T>)
    requires off <= |c|
    ensures |r| == if off + |s| <= |c| then |c| else off + |s|
    ensures forall p | 0 <= p < |r| :: r[p] == if off <= p < off + |s| then s[p - off] else c[p]
  {
    c[..off] + s + if off + |s| <= |c| then c[off + |s|..] else []
  }

  lemma SpliceTwice<T>(c: seq<T>, off: nat, s: seq<T>, t: seq<T>)
    requires off <= |c|
    ensures Splice(Splice(c, off, s), off + |s|, t) == Splice(c, off, s + t)
  {
  }

  function Max(a: nat, b: nat): nat
  {
    if a < b then b else a
  }

  /** Mapping block bn (bn <= m / BSIZE) lets the file grow to any end within that block. */
  lemma GrownStep(sb: Superblock, blk: Blocks, ino: seq<Ino>, owner: map<nat, Slot>,
                  blk': Blocks, ino': seq<Ino>, owner': map<nat, Slot>, k: nat, bn: nat, m: nat, e: nat)
    requires Owned(sb, blk, ino, owner) && k < sb.ninodes && Grown(sb, blk, ino, k, m)
    requires Mapped(sb, blk, ino, owner, blk', ino', owner', k,
                    if bn < MAXFILE && FileBlock(sb, blk, ino, k, bn) == 0 then bn else -1)
    requires bn < MAXFILE && bn * BSIZE <= m && bn * BSIZE < e <= bn * BSIZE + BSIZE
    requires FileBlock(sb, blk', ino', k, bn) != 0
    requires bn >= NDIRECT ==> ino'[k].addrs[NDIRECT] != 0
    requires bn < NDIRECT || ino[k].addrs[NDIRECT] != 0 ==> ino'[k].addrs[NDIRECT] == ino[k].addrs[NDIRECT]
    ensures Grown(sb, blk', ino', k, Max(m, e))
  {
    hide At, FileSlot, OnDisk, Used, Owned, Bitmap, Others;
  }

  lemma SpliceBytes(sb: Superblock, blk: Blocks, ino: seq<Ino>, m: nat,
                    blk': Blocks, ino': seq<Ino>, m': nat, k: nat, bn: nat, off: nat, piece: seq<byte>)
    requires Shape(sb, blk, ino) && Shape(sb, blk', ino') && k < sb.ninodes
    requires Grown(sb, blk, ino, k, m) && Grown(sb, blk', ino', k, m')
    requires bn < MAXFILE && SameFile(sb, blk, ino, blk', ino', k, bn)
    requires off / BSIZE == bn && off <= m && off % BSIZE + |piece| <= BSIZE && m' == Max(m, off + |piece|)
    requires forall q: nat | q < BSIZE ::
      BlockByte(sb, blk', ino', k, bn, q) ==
        if off % BSIZE <= q < off % BSIZE + |piece| then piece[q - off % BSIZE]
        else if bn * BSIZE < m then BlockByte(sb, blk, ino, k, bn, q)
        else BlockByte(sb, blk', ino', k, bn, q)
    ensures Bytes(sb, blk', ino', k, m') == Splice(Bytes(sb, blk, ino, k, m), off, piece)
  {
    hide At, FileSlot;
    var c := Bytes(sb, blk, ino, k, m);
    forall p: nat | p < m'
      ensures FileByte(sb, blk', ino', k, p) == Splice(c, off, piece)[p]
    {
      if p / BSIZE == bn {
        hide FileBlock, BlockByte;
        assert p == bn * BSIZE + p % BSIZE;
        assert off == bn * BSIZE + off % BSIZE;
      } else {
        OtherByte(sb, blk, ino, blk', ino', k, bn, p);
        assert p < m;
      }
    }
  }

  lemma OtherByte(sb: Superblock, blk: Blocks, ino: seq<Ino>, blk': Blocks, ino': seq<Ino>, k: nat, bn: int, p: nat)
    requires Shape(sb, blk, ino) && Shape(sb, blk', ino') && k < sb.ninodes && p < MAXFILE * BSIZE
    requires SameFile(sb, blk, ino, blk', ino', k, bn) && p / BSIZE != bn
    requires FileBlock(sb, blk, ino, k, p / BSIZE) != 0
    ensures FileByte(sb, blk', ino', k, p) == FileByte(sb, blk, ino, k, p)
  {
    hide At, FileSlot;
  }

  lemma SameTrans(sb: Superblock, blk0: Blocks, ino0: seq<Ino>, blk1: Blocks, ino1: seq<Ino>,
                  blk2: Blocks, ino2: seq<Ino>, k: nat, but0: int, but: int)
    requires Shape(sb, blk0, ino0) && Shape(sb, blk1, ino1) && Shape(sb, blk2, ino2) && k < sb.ninodes
    requires SameFile(sb, blk0, ino0, blk1, ino1, k, but0) && SameFile(sb, blk1, ino1, blk2, ino2, k, but)
    requires but0 == but || but0 == -1
    ensures SameFile(sb, blk0, ino0, blk2, ino2, k, but)
  {
    hide At, FileSlot;
  }

  lemma OthersTrans(sb: Superblock, blk0: Blocks, ino0: seq<Ino>, blk1: Blocks, ino1: seq<Ino>,
                    blk2: Blocks, ino2: seq<Ino>, k: nat)
    requires Others(sb, blk0, ino0, blk1, ino1, k) && Others(sb, blk1, ino1, blk2, ino2, k)
    ensures Others(sb, blk0, ino0, blk2, ino2, k)
  {
    hide SameFile;
    forall i: nat | i < sb.ninodes && i != k ensures SameFile(sb, blk0, ino0, blk2, ino2, i, -1) {
      SameTrans(sb, blk0, ino0, blk1, ino1, blk2, ino2, i, -1, -1);
    }
  }

  /** bmap and the block write of one round of writei, together. */
  lemma WriteEffect(sb: Superblock, blk0: Blocks, ino0: seq<Ino>, owner0: map<nat, Slot>,
                    blk1: Blocks, ino1: seq<Ino>, owner1: map<nat, Slot>,
                    k: nat, bn: nat, m: nat, off: nat, piece: seq<byte>)
    requires Owned(sb, blk0, ino0, owner0) && k < sb.ninodes && Grown(sb, blk0, ino0, k, m)
    requires off <= m && 0 < |piece| && off % BSIZE + |piece| <= BSIZE && off / BSIZE == bn < MAXFILE
    requires Mapped(sb, blk0, ino0, owner0, blk1, ino1, owner1, k,
                    if FileBlock(sb, blk0, ino0, k, bn) == 0 then bn else -1)
    requires FileBlock(sb, blk0, ino0, k, bn) != 0 ==> blk1 == blk0 && ino1 == ino0
    requires FileBlock(sb, blk1, ino1, k, bn) != 0 && Grown(sb, blk1, ino1, k, Max(m, off + |piece|))
    ensures var a, m' := FileBlock(sb, blk1, ino1, k, bn), Max(m, off + |piece|);
            a < sb.size &&
            var blk2 := blk1[a := Splice(blk1[a], off % BSIZE, piece)];
            && Owned(sb, blk2, ino1, owner1) && Bitmap(sb, blk2, owner1, {})
            && Grown(sb, blk2, ino1, k, m')
            && Bytes(sb, blk2, ino1, k, m') == Splice(Bytes(sb, blk0, ino0, k, m), off, piece)
            && Others(sb, blk0, ino0, blk2, ino1, k)
            && (forall i: nat | i < sb.ninodes && OnDisk(sb, blk1, ino1, i) :: OnDisk(sb, blk2, ino1, i))
  {
    hide Word, Used, OnDisk, SameFile, Bitmap, At, FileSlot, IsSlot;
    var a, m' := FileBlock(sb, blk1, ino1, k, bn), Max(m, off + |piece|);
    BlockInRange(sb, blk1, ino1, owner1, k, bn);
    var data: Block := Splice(blk1[a], off % BSIZE, piece);
    var blk2 := blk1[a := data];
    DataFiles(sb, blk1, ino1, owner1, k, bn, data);
    OthersTrans(sb, blk0, ino0, blk1, ino1, blk2, ino1, k);
    SameTrans(sb, blk0, ino0, blk1, ino1, blk2, ino1, k,
              if FileBlock(sb, blk0, ino0, k, bn) == 0 then bn else -1, bn);
    GrownSame(sb, blk1, blk2, ino1, k, bn, m');
    SpliceBytes(sb, blk0, ino0, m, blk2, ino1, m', k, bn, off, piece);
  }

  lemma BlockInRange(sb: Superblock, blk: Blocks, ino: seq<Ino>, owner: map<nat, Slot>, k: nat, bn: nat)
    requires Owned(sb, blk, ino, owner) && k < sb.ninodes && bn < MAXFILE
    ensures FileBlock(sb, blk, ino, k, bn) < sb.size
    ensures FileBlock(sb, blk, ino, k, bn) != 0 ==> sb.inodestart <= FileBlock(sb, blk, ino, k, bn)
  {
    hide Word;
    var b := FileBlock(sb, blk, ino, k, bn);
    assert IsSlot(sb, FileSlot(k, bn));
    assert b != 0 ==> b in owner && BBlock(sb, b) < sb.dstart;
  }

  /** An indirect block lies behind the inodes. */
  lemma IndirectHome(sb: Superblock, blk: Blocks, ino: seq<Ino>, owner: map<nat, Slot>, k: nat)
    requires Owned(sb, blk, ino, owner) && k < sb.ninodes && ino[k].addrs[NDIRECT] != 0
    ensures sb.inodestart <= ino[k].addrs[NDIRECT] < sb.size
  {
    hide Word;
    assert IsSlot(sb, Ind(k)) && At(sb, blk, ino, Ind(k)) in owner;
    assert BBlock(sb, ino[k].addrs[NDIRECT]) < sb.dstart;
  }

  lemma GrownSame(sb: Superblock, blk: Blocks, blk': Blocks, ino: seq<Ino>, k: nat, bn: nat, m: nat)
    requires Shape(sb, blk, ino) && Shape(sb, blk', ino) && k < sb.ninodes && Grown(sb, blk, ino, k, m)
    requires SameFile(sb, blk, ino, blk', ino, k, bn)
    requires bn < MAXFILE ==> FileBlock(sb, blk', ino, k, bn) == FileBlock(sb, blk, ino, k, bn)
    ensures Grown(sb, blk', ino, k, m)
  {
    hide At, FileSlot;
  }

  lemma OthersRefl(sb: Superblock, blk: Blocks, ino: seq<Ino>, k: nat)
    requires Shape(sb, blk, ino)
    ensures Others(sb, blk, ino, blk, ino, k)
  {
    hide At, FileSlot;
  }

  lemma OthersLift(sb: Superblock, blk: Blocks, ino: seq<Ino>, blk': Blocks, ino': seq<Ino>, k: nat)
    requires Shape(sb, blk, ino) && Shape(sb, blk, ino') && Shape(sb, blk', ino') && k < sb.ninodes
    requires forall i: nat | i < sb.ninodes && i != k :: ino'[i] == ino[i]
    requires forall i: nat | i < sb.ninodes :: SameFile(sb, blk, ino, blk, ino', i, -1)
    requires forall i: nat | i < sb.ninodes :: SameFile(sb, blk, ino', blk', ino', i, -1)
    ensures Others(sb, blk, ino, blk', ino', k)
  {
    hide SameFile;
    forall i: nat | i < sb.ninodes && i != k ensures SameFile(sb, blk, ino, blk', ino', i, -1) {
      SameTrans(sb, blk, ino, blk, ino', blk', ino', i, -1, -1);
    }
  }

  lemma GrownBound(sb: Superblock, blk: Blocks, ino: seq<Ino>, k: nat, m: nat)
    requires Shape(sb, blk, ino) && k < sb.ninodes && Grown(sb, blk, ino, k, m)
    ensures m <= MAXFILE * BSIZE < MAXWORD
  {
  }

  /** Changing an inode's size changes no slot and no block of any file. */
  lemma SetSize(sb: Superblock, blk: Blocks, ino: seq<Ino>, owner: map<nat, Slot>, k: nat, size: nat)
    requires Owned(sb, blk, ino, owner) && k < sb.ninodes
    ensures var ino' := ino[k := ino[k].(size := size)];
            && Owned(sb, blk, ino', owner)
            && (forall i: nat | i < sb.ninodes :: SameFile(sb, blk, ino, blk, ino', i, -1))
            && (forall m: nat | Grown(sb, blk, ino, k, m) ::
                  Grown(sb, blk, ino', k, m) && Bytes(sb, blk, ino', k, m) == Bytes(sb, blk, ino, k, m))
            && (forall i: nat | i < sb.ninodes && i != k && OnDisk(sb, blk, ino, i) :: OnDisk(sb, blk, ino', i))
  {
    hide Word;
    var ino' := ino[k := ino[k].(size := size)];
    forall s | IsSlot(sb, s) ensures At(sb, blk, ino', s) == At(sb, blk, ino, s) {
    }
    forall i: nat | i < sb.ninodes && i != k && OnDisk(sb, blk, ino, i) ensures OnDisk(sb, blk, ino', i) {
      KeepOnDisk(sb, blk, ino, blk, ino', i);
    }
    forall m: nat | Grown(sb, blk, ino, k, m)
      ensures Grown(sb, blk, ino', k, m) && Bytes(sb, blk, ino', k, m) == Bytes(sb, blk, ino, k, m)
    {
      SameBytes(sb, blk, ino, blk, ino', k, m);
    }
  }

  lemma SameBytes(sb: Superblock, blk: Blocks, ino: seq<Ino>, blk': Blocks, ino': seq<Ino>, k: nat, m: nat)
    requires Shape(sb, blk, ino) && Shape(sb, blk', ino') && k < sb.ninodes && Grown(sb, blk, ino, k, m)
    requires SameFile(sb, blk, ino, blk', ino', k, -1) && ino'[k].addrs == ino[k].addrs
    ensures Grown(sb, blk', ino', k, m) && Bytes(sb, blk', ino', k, m) == Bytes(sb, blk, ino, k, m)
  {
    hide At, FileSlot;
    forall p: nat | p < m ensures FileByte(sb, blk', ino', k, p) == FileByte(sb, blk, ino, k, p) {
      OtherByte(sb, blk, ino, blk', ino', k, -1, p);
    }
  }

  /** Blocks touched by the first tot bytes from byte off on. */
  function Rounds(off: nat, tot: nat): nat
  {
    if tot == 0 then 0 else (off % BSIZE + tot + BSIZE - 1) / BSIZE
  }

  lemma RoundsStep(off: nat, tot: nat, m: nat, n: nat)
    requires tot + m <= n && 0 < m && (tot == 0 || (off + tot) % BSIZE == 0)
    requires m == BSIZE - (off + tot) % BSIZE || (tot + m == n && m <= BSIZE - (off + tot) % BSIZE)
    ensures Rounds(off, tot) + 1 <= Rounds(off, tot + m)
    ensures tot + m == n || (off + tot + m) % BSIZE == 0
  {
    if tot > 0 {
      assert (off % BSIZE + tot) % BSIZE == 0;
    }
  }

  lemma SpliceMore<T>(c: seq<T>, off: nat, src: seq<T>, tot: nat, m: nat)
    requires off <= |c| && tot + m <= |src|
    ensures Splice(Splice(c, off, src[..tot]), off + tot, src[tot..tot + m]) == Splice(c, off, src[..tot + m])
  {
    SpliceTwice(c, off, src[..tot], src[tot..tot + m]);
    assert src[..tot] + src[tot..tot + m] == src[..tot + m];
  }

  // Reading data -------------------------------------------------------------------------------

  lemma ReadPiece(sb: Superblock, blk: Blocks, ino: seq<Ino>, owner: map<nat, Slot>, k: nat, size: nat, at: nat, m: nat)
    requires Owned(sb, blk, ino, owner) && k < sb.ninodes && Grown(sb, blk, ino, k, size)
    requires at < size && at + m <= size && at % BSIZE + m <= BSIZE
    ensures at / BSIZE < MAXFILE
    ensures var a := FileBlock(sb, blk, ino, k, at / BSIZE);
            0 < a < sb.size && blk[a][at % BSIZE..at % BSIZE + m] == Bytes(sb, blk, ino, k, size)[at..at + m]
  {
    hide At, FileSlot;
    var bn := at / BSIZE;
    BlockInRange(sb, blk, ino, owner, k, bn);
    var a := FileBlock(sb, blk, ino, k, bn);
    assert bn * BSIZE <= at < size;
    var c := Bytes(sb, blk, ino, k, size);
    forall p | at <= p < at + m ensures c[p] == blk[a][p - at + at % BSIZE] {
      assert p / BSIZE == bn && p % BSIZE == at % BSIZE + p - at;
      assert c[p] == FileByte(sb, blk, ino, k, p);
    }
    var x, y := blk[a][at % BSIZE..at % BSIZE + m], c[at..at + m];
    assert forall i | 0 <= i < m :: x[i] == y[i] by {
      forall i | 0 <= i < m ensures x[i] == y[i] {
        assert c[at + i] == blk[a][i + at % BSIZE];
      }
    }
  }

  lemma Adjacent<T>(c: seq<T>, i: nat, j: nat, m: nat)
    requires i <= j && j + m <= |c|
    ensures c[i..j] + c[j..j + m] == c[i..j + m]
  {
  }

  // Running out of blocks --------------------------------------------------------------------------

  /** Where a panic for want of a block leaves file k: mapped up to byte m, where a block begins, with perhaps the
      indirect block for what comes next, and every block of the disk in use. */
  ghost predicate Jammed(sb: Superblock, blk: Blocks, ino: seq<Ino>, owner: map<nat, Slot>, k: nat, m: nat)
  {
    && Owned(sb, blk, ino, owner) && Bitmap(sb, blk, owner, {}) && k < sb.ninodes
    && m < MAXFILE * BSIZE && m % BSIZE == 0
    && (forall bn: nat | bn < MAXFILE :: FileBlock(sb, blk, ino, k, bn) != 0 <==> bn * BSIZE < m)
    && (ino[k].addrs[NDIRECT] != 0 ==> NDIRECT * BSIZE <= m)
    && (forall b: nat | b < sb.size :: Used(sb, blk, b))
  }

  lemma JammedAt(sb: Superblock, blk: Blocks, ino: seq<Ino>, owner: map<nat, Slot>,
                 blk': Blocks, ino': seq<Ino>, owner': map<nat, Slot>, k: nat, m: nat, off: nat)
    requires Owned(sb, blk, ino, owner) && k < sb.ninodes && Grown(sb, blk, ino, k, m)
    requires Mapped(sb, blk, ino, owner, blk', ino', owner', k, -1)
    requires off <= m && off < MAXFILE * BSIZE && FileBlock(sb, blk, ino, k, off / BSIZE) == 0
    requires off / BSIZE < NDIRECT ==> ino'[k].addrs[NDIRECT] == ino[k].addrs[NDIRECT]
    requires forall b: nat | b < sb.size :: Used(sb, blk', b)
    ensures m == off && Jammed(sb, blk', ino', owner', k, off) && Others(sb, blk, ino, blk', ino', k)
  {
    hide At, FileSlot, OnDisk, Used, Owned, Bitmap, Others;
    var bn := off / BSIZE;
    assert bn * BSIZE >= m;
    assert off == m == bn * BSIZE;
  }

  // Truncation -----------------------------------------------------------------------------------

  /** The order in which itrunc frees an inode's slots. */
  function Rank(s: Slot): nat
  {
    match s
    case Direct(_, i) => i
    case Entry(_, j) => NDIRECT + j
    case Ind(_) => MAXFILE
  }

  /** The bitmap when itrunc has freed the slots of inode k with rank below n. */
  ghost predicate Freeing(sb: Superblock, blk: Blocks, owner: map<nat, Slot>, k: nat, n: nat)
  {
    && GoodSb(sb) && |blk| == sb.size
    && forall b: nat | b < sb.size ::
         Used(sb, blk, b) <==> b < sb.dstart || (b in owner && !(owner[b].inum == k && Rank(owner[b]) < n))
  }

  lemma FreeStep(sb: Superblock, blk0: Blocks, ino: seq<Ino>, owner: map<nat, Slot>, blk: Blocks, s: Slot)
    requires Owned(sb, blk0, ino, owner) && IsSlot(sb, s)
    requires (s.Direct? ==> s.i < NDIRECT) && Freeing(sb, blk, owner, s.inum, Rank(s))
    ensures At(sb, blk0, ino, s) == 0 ==> Freeing(sb, blk, owner, s.inum, Rank(s) + 1)
    ensures var b := At(sb, blk0, ino, s);
            b != 0 ==>
              && b < sb.size && Used(sb, blk, b)
              && Freeing(sb, blk[BBlock(sb, b) := Marked(sb, blk, b, false)], owner, s.inum, Rank(s) + 1)
  {
    hide Word, Used, Marked;
    var b := At(sb, blk0, ino, s);
    forall c | c in owner && owner[c].inum == s.inum && Rank(owner[c]) == Rank(s) ensures c == b {
      assert IsSlot(sb, owner[c]);
      assert owner[c] == s;
    }
    if b != 0 {
      var blk' := blk[BBlock(sb, b) := Marked(sb, blk, b, false)];
      forall c: nat | c < sb.size ensures Used(sb, blk', c) == (c != b && Used(sb, blk, c)) {
        MarkedBits(sb, blk, b, false, c);
      }
    }
  }

  /** Inode k without its blocks. */
  function Truncated(ino: seq<Ino>, k: nat): (ino': seq<Ino>)
    requires k < |ino|
  {
    ino[k := Ino(0, seq(NDIRECT + 1, _ => 0))]
  }

  ghost function Disowned(owner: map<nat, Slot>, k: nat): (owner': map<nat, Slot>)
  {
    map b | b in owner && owner[b].inum != k :: owner[b]
  }

  lemma TruncKeeps(sb: Superblock, blk: Blocks, ino: seq<Ino>, owner: map<nat, Slot>, blk': Blocks, k: nat)
    requires Owned(sb, blk, ino, owner) && k < sb.ninodes && |blk'| == |blk|
    requires forall c: nat | c < |blk| && (sb.dstart <= c || c < sb.bmapstart) :: blk'[c] == blk[c]
    requires Freeing(sb, blk', owner, k, MAXFILE + 1)
    ensures var ino', owner' := Truncated(ino, k), Disowned(owner, k);
            && Owned(sb, blk', ino', owner') && Bitmap(sb, blk', owner', {})
            && Others(sb, blk, ino, blk', ino', k)
            && Grown(sb, blk', ino', k, 0)
            && (forall i: nat | i < sb.ninodes && i != k && OnDisk(sb, blk, ino, i) :: OnDisk(sb, blk', ino', i))
  {
    hide Word, Used;
    var ino', owner' := Truncated(ino, k), Disowned(owner, k);
    KeepOwned(sb, blk, ino, owner, blk');
    forall s | IsSlot(sb, s)
      ensures At(sb, blk', ino', s) == if s.inum == k then 0 else At(sb, blk', ino, s)
    {
    }
    forall i: nat | i < sb.ninodes && i != k && OnDisk(sb, blk, ino, i) ensures OnDisk(sb, blk', ino', i) {
      Regions(sb, i, 0);
      KeepOnDisk(sb, blk, ino, blk', ino', i);
    }
  }

  lemma AtDirect(sb: Superblock, blk: Blocks, ino: seq<Ino>, k: nat, i: nat)
    requires Shape(sb, blk, ino) && k < sb.ninodes && i < NDIRECT
    ensures At(sb, blk, ino, Direct(k, i)) == ino[k].addrs[i]
  {
  }

  lemma AtEntry(sb: Superblock, blk: Blocks, ino: seq<Ino>, k: nat, j: nat)
    requires Shape(sb, blk, ino) && k < sb.ninodes && j < NINDIRECT && ino[k].addrs[NDIRECT] != 0
    ensures At(sb, blk, ino, Entry(k, j)) == Word(blk[ino[k].addrs[NDIRECT]], j)
  {
  }

  lemma AtIndirect(sb: Superblock, blk: Blocks, ino: seq<Ino>, owner: map<nat, Slot>, k: nat)
    requires Owned(sb, blk, ino, owner) && k < sb.ninodes
    ensures At(sb, blk, ino, Ind(k)) == ino[k].addrs[NDIRECT]
    ensures ino[k].addrs[NDIRECT] != 0 ==> sb.dstart <= ino[k].addrs[NDIRECT] < sb.size
  {
    assert IsSlot(sb, Ind(k));
  }

  lemma NoIndirect(sb: Superblock, blk0: Blocks, ino: seq<Ino>, owner: map<nat, Slot>, blk: Blocks, k: nat)
    requires Owned(sb, blk0, ino, owner) && k < sb.ninodes && ino[k].addrs[NDIRECT] == 0
    requires Freeing(sb, blk, owner, k, NDIRECT)
    ensures Freeing(sb, blk, owner, k, MAXFILE + 1)
  {
    hide Used;
    forall c | c in owner && owner[c].inum == k ensures Rank(owner[c]) < NDIRECT {
      assert At(sb, blk0, ino, owner[c]) == c;
    }
  }

  lemma OthersSame(sb: Superblock, blk: Blocks, blk': Blocks, ino: seq<Ino>, k: nat)
    requires Shape(sb, blk, ino) && Shape(sb, blk', ino)
    requires forall i: nat | i < sb.ninodes :: SameFile(sb, blk, ino, blk', ino, i, -1)
    ensures Others(sb, blk, ino, blk', ino, k)
  {
    hide SameFile;
  }

  lemma FreeingNone(sb: Superblock, blk: Blocks, owner: map<nat, Slot>, k: nat)
    requires Bitmap(sb, blk, owner, {})
    ensures Freeing(sb, blk, owner, k, 0)
  {
    hide Used;
  }

  lemma InBitmapBlock(sb: Superblock, b: nat)
    requires GoodSb(sb)
    ensures b < sb.size ==> sb.bmapstart <= BBlock(sb, b) < sb.dstart
  {
  }

  // Counting --------------------------------------------------------------------------------------

  const MAXBYTES: nat := MAXFILE * BSIZE

  /** The blocks a file of m bytes takes, its indirect block included. */
  function Takes(m: nat): nat {
    (m + BSIZE - 1) / BSIZE + if m > NDIRECT * BSIZE then 1 else 0
  }

  lemma TakesMore(m: nat, n: nat)
    requires m <= n
    ensures Takes(m) <= Takes(n)
  {
  }

  /** The n numbers from lo on. */
  ghost function Span(lo: nat, n: nat): (s: set<nat>)
    ensures |s| == n && forall b: nat :: b in s <==> lo <= b < lo + n
  {
    if n == 0 then {} else Span(lo, n - 1) + {lo + n - 1}
  }

  lemma {:induction false} SubsetSize<T>(a: set<T>, b: set<T>)
    requires a <= b
    ensures |a| <= |b|
  {
    if a != {} {
      var x :| x in a;
      SubsetSize(a - {x}, b - {x});
    }
  }
}
