/** How many blocks files take: a disk runs out exactly when they come to more than its data blocks. */
module FsCount {
  import opened Block
  import opened FsModel

  /** The blocks that files of these contents take together. */
  function Needs(files: seq<seq<byte>>): nat
  {
    if files == [] then 0 else Needs(files[..|files| - 1]) + Takes(|files[|files| - 1]|)
  }

  function Room(sb: Superblock): nat
  {
    if sb.dstart <= sb.size then sb.size - sb.dstart else 0
  }

  ghost function HeldBy(owner: map<nat, Slot>, k: nat): set<nat>
  {
    set b | b in owner && owner[b].inum == k
  }

  ghost function HeldBelow(owner: map<nat, Slot>, n: nat): set<nat>
  {
    set b | b in owner && owner[b].inum < n
  }

  /** The blocks held come to what the files need; to less, if file k holds less. */
  lemma {:induction false} Tally(owner: map<nat, Slot>, files: seq<seq<byte>>, k: int)
    requires forall i: nat | i < |files| && i != k :: |HeldBy(owner, i)| == Takes(|files[i]|)
    requires 0 <= k < |files| ==> |HeldBy(owner, k)| < Takes(|files[k]|)
    ensures |HeldBelow(owner, |files|)| <= Needs(files)
    ensures |HeldBelow(owner, |files|)| == Needs(files) <==> !(0 <= k < |files|)
  {
    hide Takes;
    if files == [] {
      assert HeldBelow(owner, 0) == {};
    } else {
      var n := |files| - 1;
      Tally(owner, files[..n], k);
      assert HeldBelow(owner, n + 1) == HeldBelow(owner, n) + HeldBy(owner, n);
      assert HeldBelow(owner, n) * HeldBy(owner, n) == {};
    }
  }

  /** The first n blocks of file k. */
  ghost function First(sb: Superblock, blk: Blocks, ino: seq<Ino>, k: nat, n: nat): set<nat>
    requires Shape(sb, blk, ino) && k < sb.ninodes && n <= MAXFILE
  {
    set bn: nat | bn < n :: FileBlock(sb, blk, ino, k, bn)
  }

  lemma {:induction false} FirstCount(sb: Superblock, blk: Blocks, ino: seq<Ino>, owner: map<nat, Slot>, k: nat, n: nat)
    requires Owned(sb, blk, ino, owner) && k < sb.ninodes && n <= MAXFILE
    requires forall bn: nat | bn < n :: FileBlock(sb, blk, ino, k, bn) != 0
    ensures |First(sb, blk, ino, k, n)| == n
  {
    hide At, FileSlot, Owned;
    OwnedShape(sb, blk, ino, owner);
    if n > 0 {
      FirstCount(sb, blk, ino, owner, k, n - 1);
      forall bn: nat | bn < n - 1 ensures FileBlock(sb, blk, ino, k, bn) != FileBlock(sb, blk, ino, k, n - 1) {
        NotTwice(sb, blk, ino, owner, k, bn, n - 1);
      }
      assert First(sb, blk, ino, k, n) == First(sb, blk, ino, k, n - 1) + {FileBlock(sb, blk, ino, k, n - 1)};
    }
  }

  lemma NotTwice(sb: Superblock, blk: Blocks, ino: seq<Ino>, owner: map<nat, Slot>, k: nat, i: nat, j: nat)
    requires Owned(sb, blk, ino, owner) && k < sb.ninodes && i < j < MAXFILE && FileBlock(sb, blk, ino, k, i) != 0
    ensures FileBlock(sb, blk, ino, k, i) != FileBlock(sb, blk, ino, k, j)
  {
    hide At;
    assert IsSlot(sb, FileSlot(k, i)) && IsSlot(sb, FileSlot(k, j));
  }

  /** A file holds its blocks and its indirect block. */
  lemma HeldCount(sb: Superblock, blk: Blocks, ino: seq<Ino>, owner: map<nat, Slot>, k: nat, n: nat)
    requires Owned(sb, blk, ino, owner) && k < sb.ninodes && n <= MAXFILE
    requires forall bn: nat | bn < MAXFILE :: FileBlock(sb, blk, ino, k, bn) != 0 <==> bn < n
    ensures |HeldBy(owner, k)| == n + if ino[k].addrs[NDIRECT] != 0 then 1 else 0
  {
    hide Word;
    var held, first := HeldBy(owner, k), First(sb, blk, ino, k, n);
    var ind := ino[k].addrs[NDIRECT];
    FirstCount(sb, blk, ino, owner, k, n);
    AtIndirect(sb, blk, ino, owner, k);
    assert IsSlot(sb, Ind(k));
    forall bn: nat | bn < n ensures FileBlock(sb, blk, ino, k, bn) in held - {ind} {
      assert IsSlot(sb, FileSlot(k, bn));
    }
    forall b | b in held ensures b in first || b == ind {
      var s := owner[b];
      if !s.Ind? {
        var bn := if s.Direct? then s.i else NDIRECT + s.j;
        assert FileSlot(k, bn) == s && FileBlock(sb, blk, ino, k, bn) == b;
      }
    }
    assert ind != 0 ==> ind in held;
    assert held == if ind != 0 then first + {ind} else first;
  }

  lemma GrownTakes(sb: Superblock, blk: Blocks, ino: seq<Ino>, owner: map<nat, Slot>, k: nat, m: nat)
    requires Owned(sb, blk, ino, owner) && k < sb.ninodes && Grown(sb, blk, ino, k, m)
    ensures |HeldBy(owner, k)| == Takes(m)
  {
    hide At, FileSlot, Word;
    HeldCount(sb, blk, ino, owner, k, (m + BSIZE - 1) / BSIZE);
  }

  lemma JammedTakes(sb: Superblock, blk: Blocks, ino: seq<Ino>, owner: map<nat, Slot>, k: nat, m: nat, n: nat)
    requires Jammed(sb, blk, ino, owner, k, m) && m < n
    ensures |HeldBy(owner, k)| < Takes(n)
  {
    hide At, FileSlot, Word, Owned, Bitmap;
    OwnedShape(sb, blk, ino, owner);
    HeldCount(sb, blk, ino, owner, k, m / BSIZE);
    TakesMore(m + 1, n);
  }

  /** The blocks held are data blocks, and all of those when every block is in use. */
  lemma OwnedRoom(sb: Superblock, blk: Blocks, ino: seq<Ino>, owner: map<nat, Slot>)
    requires Owned(sb, blk, ino, owner) && Bitmap(sb, blk, owner, {})
    ensures |HeldBelow(owner, sb.ninodes)| <= Room(sb)
    ensures (forall b: nat | b < sb.size :: Used(sb, blk, b)) ==> |HeldBelow(owner, sb.ninodes)| == Room(sb)
  {
    hide Used, Word;
    var held, all := HeldBelow(owner, sb.ninodes), Span(sb.dstart, sb.size - sb.dstart);
    assert held <= all;
    SubsetSize(held, all);
    if forall b: nat | b < sb.size :: Used(sb, blk, b) {
      assert held == all;
    }
  }

  /** Files that are on the disk fit on it. */
  lemma FilesFit(sb: Superblock, blk: Blocks, ino: seq<Ino>, owner: map<nat, Slot>, files: seq<seq<byte>>)
    requires Owned(sb, blk, ino, owner) && Bitmap(sb, blk, owner, {}) && |files| == sb.ninodes
    requires forall k: nat | k < sb.ninodes :: Grown(sb, blk, ino, k, |files[k]|)
    ensures Needs(files) <= Room(sb)
  {
    hide Owned, Bitmap, Grown, Takes, Needs, Room;
    forall k: nat | k < |files| ensures |HeldBy(owner, k)| == Takes(|files[k]|) {
      GrownTakes(sb, blk, ino, owner, k, |files[k]|);
    }
    Tally(owner, files, -1);
    OwnedRoom(sb, blk, ino, owner);
  }

  /** When a block is wanted beyond byte m of file k and there is none, files of which k is longer do not fit. */
  lemma JammedShort(sb: Superblock, blk: Blocks, ino: seq<Ino>, owner: map<nat, Slot>, files: seq<seq<byte>>, k: nat,
                    m: nat)
    requires Jammed(sb, blk, ino, owner, k, m) && |files| == sb.ninodes && m < |files[k]|
    requires forall i: nat | i < sb.ninodes && i != k :: Grown(sb, blk, ino, i, |files[i]|)
    ensures Needs(files) > Room(sb)
  {
    hide Owned, Bitmap, Grown, Takes, Needs, Room;
    forall i: nat | i < |files| && i != k ensures |HeldBy(owner, i)| == Takes(|files[i]|) {
      GrownTakes(sb, blk, ino, owner, i, |files[i]|);
    }
    JammedTakes(sb, blk, ino, owner, k, m, |files[k]|);
    Tally(owner, files, k);
    OwnedRoom(sb, blk, ino, owner);
  }
}
