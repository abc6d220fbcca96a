/** Who holds a block while calls on different inodes interleave (fs.c), between balloc and the store of its result. */
module FsShared {
  import opened Block
  import opened FsModel

  // A step is what a process does while it holds the buffer of a bitmap block, or with the inode locked whose slot it
  // changes. Free is bfree and the clearing of the slot at once: nobody else can read the slot before it is cleared,
  // since its inode is locked. hands are the blocks balloc has given out that are not stored yet, each with the
  // process that has it.

  datatype Sys = Sys(blk: Blocks, owner: map<nat, Slot>, hands: map<nat, nat>)

  datatype Step =
    | Alloc(t: nat)                   // balloc, short of its panic
    | Store(t: nat, b: nat, s: Slot)  // bmap stores what balloc gave t, in a slot it found to be 0
    | Free(b: nat)                    // bfree in itrunc, of a block of the inode that is locked
    | Write(b: nat, data: Block)

  /** A block is in a slot, or in the hand of a process. */
  predicate Held(s: Sys, b: nat) {
    b in s.owner || b in s.hands
  }

  /** A used block is metadata or is held, by one slot or one process; a slot holds one block. */
  ghost predicate Inv(sb: Superblock, s: Sys) {
    && GoodSb(sb) && |s.blk| == sb.size && 0 < sb.dstart
    && (forall b: nat | b < sb.size :: Used(sb, s.blk, b) <==> b < sb.dstart || Held(s, b))
    && (forall b: nat | Held(s, b) :: sb.dstart <= b < sb.size)
    && (forall b | b in s.owner :: b !in s.hands)
    && (forall b, c | b in s.owner && c in s.owner && s.owner[b] == s.owner[c] :: b == c)
  }

  /** The first free block, or size: what balloc finds. */
  function FirstFree(sb: Superblock, blk: Blocks, b: nat): (r: nat)
    requires GoodSb(sb) && |blk| == sb.size && b <= sb.size
    ensures b <= r <= sb.size && (r < sb.size ==> !Used(sb, blk, r))
    ensures forall c: nat | b <= c < r :: Used(sb, blk, c)
    decreases sb.size - b
  {
    if b == sb.size || !Used(sb, blk, b) then b else FirstFree(sb, blk, b + 1)
  }

  predicate Enabled(sb: Superblock, s: Sys, step: Step)
    requires GoodSb(sb) && |s.blk| == sb.size
  {
    match step
    case Alloc(_) => FirstFree(sb, s.blk, 0) < sb.size
    case Store(t, b, slot) => b in s.hands && s.hands[b] == t && forall c | c in s.owner :: s.owner[c] != slot
    case Free(b) => b in s.owner
    case Write(b, _) => Held(s, b) && b < sb.size
  }

  /** The panic "freeing free block". */
  predicate Panics(sb: Superblock, s: Sys, step: Step)
    requires GoodSb(sb) && |s.blk| == sb.size
  {
    step.Free? && (step.b >= sb.size || !Used(sb, s.blk, step.b))
  }

  function Next(sb: Superblock, s: Sys, step: Step): Sys
    requires GoodSb(sb) && |s.blk| == sb.size && Enabled(sb, s, step) && !Panics(sb, s, step)
  {
    match step
    case Alloc(t) =>
      var b := FirstFree(sb, s.blk, 0);
      s.(blk := Allocated(sb, s.blk, b), hands := s.hands[b := t])
    case Store(_, b, slot) => s.(owner := s.owner[b := slot], hands := s.hands - {b})
    case Free(b) => s.(blk := s.blk[BBlock(sb, b) := Marked(sb, s.blk, b, false)], owner := s.owner - {b})
    case Write(b, data) => s.(blk := s.blk[b := data])
  }

  lemma AllocUses(sb: Superblock, blk: Blocks, b: nat)
    requires GoodSb(sb) && |blk| == sb.size && sb.dstart <= b < sb.size
    ensures |Allocated(sb, blk, b)| == sb.size
    ensures forall c: nat | c < sb.size :: Used(sb, Allocated(sb, blk, b), c) == (c == b || Used(sb, blk, c))
  {
    hide Used, Marked;
    var blk1 := blk[BBlock(sb, b) := Marked(sb, blk, b, true)];
    forall c: nat | c < sb.size ensures Used(sb, Allocated(sb, blk, b), c) == (c == b || Used(sb, blk, c)) {
      MarkedBits(sb, blk, b, true, c);
      UsedFrame(sb, blk1, Allocated(sb, blk, b), c);
    }
  }

  lemma FreeUses(sb: Superblock, blk: Blocks, b: nat)
    requires GoodSb(sb) && |blk| == sb.size && b < sb.size
    ensures forall c: nat | c < sb.size ::
      Used(sb, blk[BBlock(sb, b) := Marked(sb, blk, b, false)], c) == (c != b && Used(sb, blk, c))
  {
    hide Used, Marked;
    forall c: nat | c < sb.size
      ensures Used(sb, blk[BBlock(sb, b) := Marked(sb, blk, b, false)], c) == (c != b && Used(sb, blk, c))
    {
      MarkedBits(sb, blk, b, false, c);
    }
  }

  lemma WriteUses(sb: Superblock, blk: Blocks, b: nat, data: Block)
    requires GoodSb(sb) && |blk| == sb.size && sb.dstart <= b < sb.size
    ensures forall c: nat | c < sb.size :: Used(sb, blk[b := data], c) == Used(sb, blk, c)
  {
    hide Used;
    forall c: nat | c < sb.size ensures Used(sb, blk[b := data], c) == Used(sb, blk, c) {
      UsedFrame(sb, blk, blk[b := data], c);
    }
  }

  lemma AllocKeeps(sb: Superblock, s: Sys, step: Step)
    requires Inv(sb, s) && Enabled(sb, s, step) && step.Alloc?
    ensures Inv(sb, Next(sb, s, step))
    ensures var b := FirstFree(sb, s.blk, 0); 0 < b && sb.dstart <= b && !Held(s, b)
  {
    hide Used, Allocated, Marked;
    var b, t := FirstFree(sb, s.blk, 0), Next(sb, s, step);
    AllocUses(sb, s.blk, b);
    assert forall c: nat :: Held(t, c) <==> Held(s, c) || c == b;
    forall c: nat | c < sb.size ensures Used(sb, t.blk, c) <==> c < sb.dstart || Held(t, c) {
      assert Used(sb, s.blk, c) <==> c < sb.dstart || Held(s, c);
    }
  }

  lemma StoreKeeps(sb: Superblock, s: Sys, step: Step)
    requires Inv(sb, s) && Enabled(sb, s, step) && step.Store?
    ensures Inv(sb, Next(sb, s, step))
  {
    hide Used;
    var t := Next(sb, s, step);
    assert forall c: nat :: Held(t, c) <==> Held(s, c);
  }

  lemma FreeKeeps(sb: Superblock, s: Sys, step: Step)
    requires Inv(sb, s) && Enabled(sb, s, step) && step.Free?
    ensures !Panics(sb, s, step) && Inv(sb, Next(sb, s, step))
  {
    hide Used, Marked;
    assert Held(s, step.b);
    FreeUses(sb, s.blk, step.b);
    var t := Next(sb, s, step);
    forall c: nat ensures Held(t, c) <==> Held(s, c) && c != step.b {
    }
    forall c: nat | c < sb.size ensures Used(sb, t.blk, c) <==> c < sb.dstart || Held(t, c) {
      assert Used(sb, s.blk, c) <==> c < sb.dstart || Held(s, c);
    }
  }

  lemma WriteKeeps(sb: Superblock, s: Sys, step: Step)
    requires Inv(sb, s) && Enabled(sb, s, step) && step.Write?
    ensures Inv(sb, Next(sb, s, step))
  {
    hide Used;
    assert Held(s, step.b);
    WriteUses(sb, s.blk, step.b, step.data);
    var t := Next(sb, s, step);
    forall c: nat ensures Held(t, c) <==> Held(s, c) {
    }
    forall c: nat | c < sb.size ensures Used(sb, t.blk, c) <==> c < sb.dstart || Held(t, c) {
      assert Used(sb, s.blk, c) <==> c < sb.dstart || Held(s, c);
    }
  }

  /** What balloc gives no slot and no process has; bfree does not panic; and each used block keeps one holder. */
  lemma {:induction false} StepKeeps(sb: Superblock, s: Sys, step: Step)
    requires Inv(sb, s) && Enabled(sb, s, step)
    ensures !Panics(sb, s, step) && Inv(sb, Next(sb, s, step))
    ensures step.Alloc? ==> var b := FirstFree(sb, s.blk, 0); 0 < b && sb.dstart <= b && !Held(s, b)
  {
    hide Inv, Enabled, Next, Used, Held;
    match step
    case Alloc(_) => AllocKeeps(sb, s, step);
    case Store(_, _, _) => StoreKeeps(sb, s, step);
    case Free(_) => FreeKeeps(sb, s, step);
    case Write(_, _) => WriteKeeps(sb, s, step);
  }

  /** Between steps of a run nothing panics: with a block free for each balloc every step can be taken. */
  predicate Legal(sb: Superblock, s: Sys, run: seq<Step>)
    requires GoodSb(sb)
    decreases |run|
  {
    run == [] ||
    (|s.blk| == sb.size && Enabled(sb, s, run[0]) && !Panics(sb, s, run[0]) && Legal(sb, Next(sb, s, run[0]), run[1..]))
  }

  function Exec(sb: Superblock, s: Sys, run: seq<Step>): Sys
    requires GoodSb(sb) && Legal(sb, s, run)
    decreases |run|
  {
    if run == [] then s else Exec(sb, Next(sb, s, run[0]), run[1..])
  }

  /**
   * In every interleaving of calls from a file system whose owners are known, a block is used exactly when it is
   * metadata or has one holder, and the next step of any process does not panic.
   */
  lemma {:induction false} SharedRuns(sb: Superblock, s: Sys, ino: seq<Ino>, run: seq<Step>, step: Step)
    requires Owned(sb, s.blk, ino, s.owner) && Bitmap(sb, s.blk, s.owner, {}) && s.hands == map[]
    requires Legal(sb, s, run)
    ensures var t := Exec(sb, s, run); Inv(sb, t) && (Enabled(sb, t, step) ==> !Panics(sb, t, step))
  {
    hide Used;
    RunKeeps(sb, s, run, step);
  }

  lemma {:induction false} RunKeeps(sb: Superblock, s: Sys, run: seq<Step>, step: Step)
    requires Inv(sb, s) && Legal(sb, s, run)
    ensures var t := Exec(sb, s, run); Inv(sb, t) && (Enabled(sb, t, step) ==> !Panics(sb, t, step))
    decreases |run|
  {
    hide Inv, Next, Enabled, Panics;
    InvSize(sb, s);
    if run == [] {
      if Enabled(sb, s, step) {
        StepKeeps(sb, s, step);
      }
    } else {
      StepKeeps(sb, s, run[0]);
      RunKeeps(sb, Next(sb, s, run[0]), run[1..], step);
    }
  }

  lemma InvSize(sb: Superblock, s: Sys)
    requires Inv(sb, s)
    ensures GoodSb(sb) && |s.blk| == sb.size
  {
  }
}
