/** Directories as fs.h lays them out on disk, and mkfs's image as a start of runs of directory operations. */
module FsDirs {
  import opened Block
  import opened FsModel
  import opened FsRuns
  import opened Mkfs
  import FsBoot
  import Links

  const DIRENT: nat := 16

  /** A name on disk, up to the first zero. */
  function Text(b: seq<byte>): (t: string)
    ensures |t| <= |b|
  {
    if b == [] || b[0] == 0 then "" else [b[0] as char] + Text(b[1..])
  }

  function EntryOf(b: seq<byte>): Links.Entry
    requires |b| == DIRENT
  {
    var lo: int, hi: int := b[0], b[1];
    Links.Entry(lo + 256 * hi, Text(b[2..]))
  }

  /** The entries of a directory with these contents. */
  function Ents(c: seq<byte>): (ents: seq<Links.Entry>)
    requires |c| % DIRENT == 0
    ensures |ents| == |c| / DIRENT
    decreases |c|
  {
    if c == [] then [] else Ents(c[..|c| - DIRENT]) + [EntryOf(c[|c| - DIRENT..])]
  }

  function KindOf(typ: nat): Links.Kind
  {
    if typ == 0 then Links.Free else if typ == T_DIR then Links.Dir else if typ == T_FILE then Links.File else Links.Dev
  }

  /** Inode k of a disk with these files, not in the inode cache. */
  function NodeOf(blk: Blocks, files: seq<seq<byte>>, k: nat): Links.Node
    requires |blk| == FSSIZE && |files| == NINODES && k < NINODES
  {
    Regions(SB, k, 0);
    var kind := KindOf(DWord(SB, blk, k, 0) % 0x1_0000);
    var ents := if kind.Dir? && |files[k]| % DIRENT == 0 then Ents(files[k]) else [];
    Links.Node(kind, DWord(SB, blk, k, 1) / 0x1_0000, ents, 0, false)
  }

  function Tree(blk: Blocks, files: seq<seq<byte>>): Links.State
    requires |blk| == FSSIZE && |files| == NINODES
  {
    Links.State(seq(NINODES, k requires 0 <= k < NINODES => NodeOf(blk, files, k)), multiset{})
  }

  function Names(hosts: seq<HostFile>): (names: seq<Links.Name>)
    requires forall h | h in hosts :: |h.name| == 14
    ensures |names| == |hosts|
  {
    seq(|hosts|, k requires 0 <= k < |hosts| => Text(hosts[k].name))
  }

  lemma AddEntry(c: seq<byte>, e: seq<byte>)
    requires |c| % DIRENT == 0 && |e| == DIRENT
    ensures |c + e| % DIRENT == 0 && Ents(c + e) == Ents(c) + [EntryOf(e)]
  {
    assert (c + e)[..|c + e| - DIRENT] == c && (c + e)[|c + e| - DIRENT..] == e;
  }

  lemma DirentIs(inum: nat, name: seq<byte>)
    requires inum < 0x1_0000 && |name| == 14
    ensures EntryOf(Dirent(inum, name)) == Links.Entry(inum, Text(name))
  {
    assert Dirent(inum, name)[2..] == name;
  }

  lemma DotNames()
    ensures Text(Name([46])) == Links.DOT && Text(Name([46, 46])) == Links.DOTDOT
  {
    var one, two := Name([46]), Name([46, 46]);
    assert one[1..][0] == 0 && two[1..][0] == 46 && two[1..][1..][0] == 0;
    assert Text(one[1..]) == "" && Text(two[1..][1..]) == "";
  }

  /** The entries mkfs writes. */
  lemma {:induction false} RootIs(hosts: seq<HostFile>)
    requires |hosts| < 0xFFFE && forall h | h in hosts :: |h.name| == 14
    ensures |Root(hosts)| % DIRENT == 0 && Ents(Root(hosts)) == Links.RootEnts(Names(hosts), 0)
    decreases |hosts|
  {
    hide Dirent, EntryOf, Name, Text;
    if hosts == [] {
      var dot, dots := Dirent(1, Name([46])), Dirent(1, Name([46, 46]));
      AddEntry([], dot);
      AddEntry(dot, dots);
      assert [] + dot == dot;
      DirentIs(1, Name([46]));
      DirentIs(1, Name([46, 46]));
      DotNames();
      assert Links.RootEnts([], 0) == [Links.Entry(1, Links.DOT), Links.Entry(1, Links.DOTDOT)];
    } else {
      var n := |hosts| - 1;
      RootIs(hosts[..n]);
      AddEntry(Root(hosts[..n]), Dirent(n + 2, hosts[n].name));
      DirentIs(n + 2, hosts[n].name);
      MoreEnts(hosts);
    }
  }

  lemma MoreEnts(hosts: seq<HostFile>)
    requires hosts != [] && forall h | h in hosts :: |h.name| == 14
    ensures var n := |hosts| - 1;
            Links.RootEnts(Names(hosts), 0) ==
              Links.RootEnts(Names(hosts[..n]), 0) + [Links.Entry(n + 2, Text(hosts[n].name))]
  {
    hide Text;
  }

  function Zeros(n: nat): (z: seq<byte>)
    ensures |z| == n
  {
    seq(n, _ => 0)
  }

  lemma ZeroEntry()
    ensures EntryOf(Zeros(DIRENT)) == Links.UNUSED
  {
    assert Zeros(DIRENT)[2..][0] == 0;
  }

  lemma {:induction false} ZeroEnts(c: seq<byte>, n: nat)
    requires |c| % DIRENT == 0
    ensures |c + Zeros(DIRENT * n)| % DIRENT == 0
    ensures Ents(c + Zeros(DIRENT * n)) == Ents(c) + seq(n, _ => Links.UNUSED)
  {
    hide Ents, EntryOf;
    if n == 0 {
      assert c + Zeros(0) == c;
    } else {
      ZeroEnts(c, n - 1);
      AddEntry(c + Zeros(DIRENT * (n - 1)), Zeros(DIRENT));
      assert c + Zeros(DIRENT * n) == c + Zeros(DIRENT * (n - 1)) + Zeros(DIRENT);
      ZeroEntry();
      assert seq(n, _ => Links.UNUSED) == seq(n - 1, _ => Links.UNUSED) + [Links.UNUSED];
    }
  }

  /** Unused entries in mkfs's root, to the end of its last block. */
  function Padding(n: nat): nat
  {
    32 - (n + 2) % 32
  }

  lemma PaddedIs(c: seq<byte>, n: nat)
    requires |c| == DIRENT * (n + 2)
    ensures Padded(c) == c + Zeros(DIRENT * Padding(n))
  {
    assert BSIZE - |c| % BSIZE == DIRENT * Padding(n);
  }

  lemma PaddedEnts(names: seq<Links.Name>, unused: nat)
    ensures Links.RootEnts(names, unused) == Links.RootEnts(names, 0) + seq(unused, _ => Links.UNUSED)
  {
  }

  lemma FoundRoot(hosts: seq<HostFile>)
    requires |hosts| < 0xFFFE && forall h | h in hosts :: |h.name| == 14
    ensures |Padded(Root(hosts))| % DIRENT == 0
    ensures Ents(Padded(Root(hosts))) == Links.RootEnts(Names(hosts), Padding(|hosts|))
  {
    hide Root, Ents, Names, Links.RootEnts, Padded, Padding, Zeros;
    RootIs(hosts);
    ZeroEnts(Root(hosts), Padding(|hosts|));
    PaddedIs(Root(hosts), |hosts|);
    PaddedEnts(Names(hosts), Padding(|hosts|));
  }

  lemma NodeStarts(blk: Blocks, hosts: seq<HostFile>, k: nat)
    requires |hosts| + 2 <= NINODES && (forall h | h in hosts :: |h.name| == 14) && k < NINODES
    requires |blk| == FSSIZE && HeadsAre(blk, Heads(|hosts|))
    ensures NodeOf(blk, FsBoot.Found(hosts), k) == Links.Start(NINODES, Names(hosts), Padding(|hosts|)).nodes[k]
  {
    hide Root, Ents, Padded, Names, Links.RootEnts, DWord, Padding;
    FoundRoot(hosts);
    assert DWord(SB, blk, k, 0) == HeadOf(|hosts|, k).0 && DWord(SB, blk, k, 1) == HeadOf(|hosts|, k).1;
  }

  /** mkfs's image is a start of runs of directory operations: its tree is the model's, as read from its blocks. */
  lemma ImageStarts(image: Image, hosts: seq<HostFile>)
    requires |hosts| + 2 <= NINODES && forall h | h in hosts :: |h.name| == 14
    requires Made(image, hosts) && (|hosts| + 2) % 32 != 0
    ensures FilesAre(SB, image.blk, image.ino, FsBoot.Found(hosts))
    ensures Tree(image.blk, FsBoot.Found(hosts)) == Links.Start(NINODES, Names(hosts), Padding(|hosts|))
    ensures Links.Inv(Tree(image.blk, FsBoot.Found(hosts))) <==> Links.Proper(Names(hosts))
  {
    hide Root, FilesAre, FsBoot.Found, Names, NodeOf, Heads, DWord, OneSlotPerBlock, OnDisk, FileIs, Grown;
    hide Bytes, Links.Inv, Links.Proper, Padding;
    FsBoot.FilesFound(image, hosts);
    Links.StartIs(NINODES, Names(hosts), Padding(|hosts|));
    var tree, start := Tree(image.blk, FsBoot.Found(hosts)), Links.Start(NINODES, Names(hosts), Padding(|hosts|));
    forall k: nat | k < NINODES ensures tree.nodes[k] == start.nodes[k] {
      NodeStarts(image.blk, hosts, k);
    }
  }
}
