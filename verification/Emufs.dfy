/** emufs (lab 11, emufs.c): a bitmap, ten inodes of four block pointers each, and an encrypting mount. */
module Emufs {
  const BLOCKSIZE: nat := 512
  const MAX_BLOCKS: nat := 42
  const MAX_FILE_SIZE: nat := 4
  const MAX_FILES: nat := 10

  type byte = x: int | 0 <= x < 256
  type Block = b: seq<byte> | |b| == BLOCKSIZE witness seq(BLOCKSIZE, _ => 0)

  // The name fits name[10] with its NUL.
  type Name = n: string | |n| < 10 witness ""

  // blocks[j] is -1 for no block
  datatype Inode = Inode(used: bool, name: Name, size: int, blocks: seq<int>)

  // What the superblock and the metadata block hold.
  datatype Meta = Meta(size: nat, bitmap: seq<char>, inodes: seq<Inode>)

  // Allocation as a function ----------------------------------------------------------------------

  /** Block b is the j-th of used inode i. */
  predicate Holds(m: Meta, i: nat, j: nat, b: int)
    requires i < |m.inodes| && j < |m.inodes[i].blocks|
  {
    m.inodes[i].used && m.inodes[i].blocks[j] == b
  }

  predicate Shape(m: Meta) {
    && 2 <= m.size <= MAX_BLOCKS && |m.bitmap| == MAX_BLOCKS && |m.inodes| == MAX_FILES
    && forall i | 0 <= i < MAX_FILES :: |m.inodes[i].blocks| == MAX_FILE_SIZE
  }

  /** Two used slots that name one block are the same slot. */
  predicate Apart(m: Meta, i: nat, j: nat, k: nat, l: nat)
    requires Shape(m) && i < MAX_FILES && j < MAX_FILE_SIZE && k < MAX_FILES && l < MAX_FILE_SIZE
  {
    var b := m.inodes[i].blocks[j];
    b != -1 && Holds(m, i, j, b) && Holds(m, k, l, b) ==> i == k && j == l
  }

  /** Each used slot is empty or names a block of its own. */
  ghost predicate Slots(m: Meta)
    requires Shape(m)
  {
    && (forall i, j | 0 <= i < MAX_FILES && 0 <= j < MAX_FILE_SIZE && m.inodes[i].used ::
          m.inodes[i].blocks[j] == -1 || 2 <= m.inodes[i].blocks[j] < m.size)
    && (forall i, j, k, l |
          0 <= i < MAX_FILES && 0 <= j < MAX_FILE_SIZE && 0 <= k < MAX_FILES && 0 <= l < MAX_FILE_SIZE ::
          Apart(m, i, j, k, l))
  }

  ghost predicate Taken(m: Meta, b: int)
    requires Shape(m)
  {
    exists i, j :: 0 <= i < MAX_FILES && 0 <= j < MAX_FILE_SIZE && Holds(m, i, j, b)
  }

  /** A data block is marked '1' exactly when one used slot names it, and '0' otherwise. */
  ghost predicate Good(m: Meta) {
    && Shape(m) && Slots(m)
    && m.bitmap[0] == m.bitmap[1] == '1'
    && (forall b | 2 <= b < m.size :: m.bitmap[b] == if Taken(m, b) then '1' else '0')
    && (forall b | m.size <= b < MAX_BLOCKS :: m.bitmap[b] == 'x')
  }

  /** The first free block from b on, or size. */
  function FirstFree(m: Meta, b: nat): (j: nat)
    requires b <= m.size <= |m.bitmap|
    ensures b <= j <= m.size && (j < m.size ==> m.bitmap[j] == '0')
    ensures forall k | b <= k < j :: m.bitmap[k] != '0'
    decreases m.size - b
  {
    if b == m.size || m.bitmap[b] == '0' then b else FirstFree(m, b + 1)
  }

  function SetBlock(m: Meta, i: nat, j: nat, b: nat): Meta
    requires i < |m.inodes| && j < |m.inodes[i].blocks| && b < |m.bitmap|
  {
    var id := m.inodes[i];
    m.(bitmap := m.bitmap[b := '1'], inodes := m.inodes[i := id.(blocks := id.blocks[j := b])])
  }

  /** ewrite's loop from slot j on: every empty slot below end gets the first free block. */
  function Assign(m: Meta, i: nat, j: nat, end: nat): (r: Meta)
    requires Shape(m) && i < MAX_FILES && j <= end <= MAX_FILE_SIZE
    ensures Shape(r) && r.size == m.size
    decreases end - j
  {
    if j == end then m
    else
      var b := FirstFree(m, 2);
      if m.inodes[i].blocks[j] == -1 && b < m.size then Assign(SetBlock(m, i, j, b), i, j + 1, end)
      else Assign(m, i, j + 1, end)
  }

  lemma SetHolds(m: Meta, i: nat, j: nat, b: nat, k: nat, l: nat, c: int)
    requires Shape(m) && i < MAX_FILES && j < MAX_FILE_SIZE && k < MAX_FILES && l < MAX_FILE_SIZE && b < m.size
    requires m.inodes[i].used
    ensures Holds(SetBlock(m, i, j, b), k, l, c) <==> if k == i && l == j then c == b else Holds(m, k, l, c)
  {
  }

  lemma SetSlots(m: Meta, i: nat, j: nat, b: nat)
    requires Shape(m) && Slots(m) && i < MAX_FILES && j < MAX_FILE_SIZE && 2 <= b < m.size
    requires m.inodes[i].used && !Taken(m, b)
    ensures Slots(SetBlock(m, i, j, b))
  {
    var r := SetBlock(m, i, j, b);
    forall p, q, k, l | 0 <= p < MAX_FILES && 0 <= q < MAX_FILE_SIZE && 0 <= k < MAX_FILES && 0 <= l < MAX_FILE_SIZE
      ensures Apart(r, p, q, k, l)
    {
      assert Apart(m, p, q, k, l);
      var c := r.inodes[p].blocks[q];
      SetHolds(m, i, j, b, p, q, c);
      SetHolds(m, i, j, b, k, l, c);
      assert c == b && !(k == i && l == j) ==> !Holds(m, k, l, b);
    }
  }

  lemma SetTaken(m: Meta, i: nat, j: nat, b: nat, c: int)
    requires Shape(m) && i < MAX_FILES && j < MAX_FILE_SIZE && b < m.size
    requires m.inodes[i].used && m.inodes[i].blocks[j] == -1
    ensures c != -1 ==> (Taken(SetBlock(m, i, j, b), c) <==> c == b || Taken(m, c))
  {
    var r := SetBlock(m, i, j, b);
    SetHolds(m, i, j, b, i, j, c);
    if Taken(m, c) {
      var k, l :| 0 <= k < MAX_FILES && 0 <= l < MAX_FILE_SIZE && Holds(m, k, l, c);
      SetHolds(m, i, j, b, k, l, c);
    }
    if Taken(r, c) {
      var k, l :| 0 <= k < MAX_FILES && 0 <= l < MAX_FILE_SIZE && Holds(r, k, l, c);
      SetHolds(m, i, j, b, k, l, c);
    }
  }

  lemma {:induction false} SetKeeps(m: Meta, i: nat, j: nat)
    requires Good(m) && i < MAX_FILES && j < MAX_FILE_SIZE && m.inodes[i].used && m.inodes[i].blocks[j] == -1
    requires FirstFree(m, 2) < m.size
    ensures Good(SetBlock(m, i, j, FirstFree(m, 2)))
  {
    hide Slots, Taken, FirstFree;
    var b := FirstFree(m, 2);
    SetSlots(m, i, j, b);
    forall c | 2 <= c < m.size ensures Taken(SetBlock(m, i, j, b), c) <==> c == b || Taken(m, c) {
      SetTaken(m, i, j, b, c);
    }
  }

  lemma {:induction false} AssignKeeps(m: Meta, i: nat, j: nat, end: nat)
    requires Good(m) && i < MAX_FILES && j <= end <= MAX_FILE_SIZE && m.inodes[i].used
    ensures Good(Assign(m, i, j, end))
    decreases end - j
  {
    hide Slots, Taken;
    if j < end {
      var b := FirstFree(m, 2);
      if m.inodes[i].blocks[j] == -1 && b < m.size {
        SetKeeps(m, i, j);
        AssignKeeps(SetBlock(m, i, j, b), i, j + 1, end);
      } else {
        AssignKeeps(m, i, j + 1, end);
      }
    }
  }

  /** new_blocks_required: how many of the slots j to end - 1 are empty. */
  function Need(blocks: seq<int>, j: nat, end: nat): (n: nat)
    requires j <= end <= |blocks|
    decreases end - j
  {
    if j == end then 0 else (if blocks[j] == -1 then 1 else 0) + Need(blocks, j + 1, end)
  }

  /** no_of_blocks_available: how many blocks from b on are free. */
  function Avail(bitmap: seq<char>, b: nat, size: nat): (n: nat)
    requires b <= size <= |bitmap|
    decreases size - b
  {
    if b == size then 0 else (if bitmap[b] == '0' then 1 else 0) + Avail(bitmap, b + 1, size)
  }

  lemma {:induction false} NeedIs(blocks: seq<int>, j: nat, end: nat)
    requires j <= end <= |blocks|
    ensures Need(blocks, j, end) == |set k: nat | j <= k < end && blocks[k] == -1|
    decreases end - j
  {
    var now := set k: nat | j <= k < end && blocks[k] == -1;
    if j < end {
      NeedIs(blocks, j + 1, end);
      var rest := set k: nat | j + 1 <= k < end && blocks[k] == -1;
      assert now == if blocks[j] == -1 then rest + {j} else rest;
    } else {
      assert now == {};
    }
  }

  lemma {:induction false} AvailIs(bitmap: seq<char>, b: nat, size: nat)
    requires b <= size <= |bitmap|
    ensures Avail(bitmap, b, size) == |set k: nat | b <= k < size && bitmap[k] == '0'|
    decreases size - b
  {
    var now := set k: nat | b <= k < size && bitmap[k] == '0';
    if b < size {
      AvailIs(bitmap, b + 1, size);
      var rest := set k: nat | b + 1 <= k < size && bitmap[k] == '0';
      assert now == if bitmap[b] == '0' then rest + {b} else rest;
    } else {
      assert now == {};
    }
  }

  lemma {:induction false} AvailFirst(m: Meta, b: nat)
    requires b <= m.size <= |m.bitmap|
    ensures Avail(m.bitmap, b, m.size) > 0 <==> FirstFree(m, b) < m.size
    decreases m.size - b
  {
    if b < m.size && m.bitmap[b] != '0' {
      AvailFirst(m, b + 1);
    }
  }

  lemma {:induction false} AvailSet(s: seq<char>, b: nat, size: nat, c: nat)
    requires b <= size <= |s| && c < size && s[c] == '0'
    ensures Avail(s[c := '1'], b, size) == Avail(s, b, size) - if b <= c then 1 else 0
    decreases size - b
  {
    if b < size {
      AvailSet(s, b + 1, size, c);
    }
  }

  lemma {:induction false} NeedSet(blocks: seq<int>, j: nat, end: nat, k: nat, b: int)
    requires k < j <= end <= |blocks|
    ensures Need(blocks[k := b], j, end) == Need(blocks, j, end)
    decreases end - j
  {
    if j < end {
      NeedSet(blocks, j + 1, end, k, b);
    }
  }

  /** The slots from j below end were filled where empty, and nothing else of any inode changed. */
  predicate Filled(m: Meta, r: Meta, i: nat, j: nat, end: nat)
    requires Shape(m) && Shape(r) && i < MAX_FILES && j <= end <= MAX_FILE_SIZE
  {
    && (forall k | 0 <= k < MAX_FILES && k != i :: r.inodes[k] == m.inodes[k])
    && r.inodes[i].(blocks := m.inodes[i].blocks) == m.inodes[i]
    && (forall k | 0 <= k < MAX_FILE_SIZE :: m.inodes[i].blocks[k] != -1 || !(j <= k < end) ==>
          r.inodes[i].blocks[k] == m.inodes[i].blocks[k])
    && (forall k | j <= k < end :: r.inodes[i].blocks[k] != -1)
  }

  /** With as many free blocks as empty slots, every slot is filled. */
  lemma {:induction false} AssignFills(m: Meta, i: nat, j: nat, end: nat)
    requires Shape(m) && i < MAX_FILES && j <= end <= MAX_FILE_SIZE
    requires Need(m.inodes[i].blocks, j, end) <= Avail(m.bitmap, 2, m.size)
    ensures Filled(m, Assign(m, i, j, end), i, j, end)
    decreases end - j
  {
    if j < end {
      var b := FirstFree(m, 2);
      AvailFirst(m, 2);
      if m.inodes[i].blocks[j] == -1 {
        var n := SetBlock(m, i, j, b);
        AvailSet(m.bitmap, 2, m.size, b);
        NeedSet(m.inodes[i].blocks, j + 1, end, j, b);
        AssignFills(n, i, j + 1, end);
      } else {
        AssignFills(m, i, j + 1, end);
      }
    }
  }

  // The operations on the metadata ----------------------------------------------------------------

  datatype Option<+T> = None | Some(value: T)

  /** ewrite refuses to pass four blocks, or to start without enough free blocks. */
  function DoWrite(m: Meta, i: nat, off: nat, size: nat): (r: Option<Meta>)
    requires Shape(m) && i < MAX_FILES
    ensures r.Some? ==> Shape(r.value)
  {
    var j := off / BLOCKSIZE;
    var end := j + size / BLOCKSIZE;
    if off + size > MAX_FILE_SIZE * BLOCKSIZE then None
    else if Need(m.inodes[i].blocks, j, end) > Avail(m.bitmap, 2, m.size) then None
    else
      var r := Assign(m, i, j, end);
      Some(r.(inodes := r.inodes[i := r.inodes[i].(size := off + size)]))
  }

  predicate Is(id: Inode, name: Name) { id.used && id.name == name }

  /** The first used inode of that name from k on, or MAX_FILES. */
  function Named(m: Meta, name: Name, k: nat): (i: nat)
    requires Shape(m) && k <= MAX_FILES
    ensures k <= i <= MAX_FILES && (i < MAX_FILES ==> Is(m.inodes[i], name))
    ensures forall l | k <= l < i :: !Is(m.inodes[l], name)
    decreases MAX_FILES - k
  {
    if k == MAX_FILES || Is(m.inodes[k], name) then k else Named(m, name, k + 1)
  }

  function FirstUnused(m: Meta, k: nat): (i: nat)
    requires Shape(m) && k <= MAX_FILES
    ensures k <= i <= MAX_FILES && (i < MAX_FILES ==> !m.inodes[i].used)
    ensures forall l | k <= l < i :: m.inodes[l].used
    decreases MAX_FILES - k
  {
    if k == MAX_FILES || !m.inodes[k].used then k else FirstUnused(m, k + 1)
  }

  function NewInode(name: Name): Inode { Inode(true, name, 0, [-1, -1, -1, -1]) }

  /** The metadata after eopen, and the inode number, which is MAX_FILES when there is none. */
  function DoOpen(m: Meta, name: Name): (r: (Meta, nat))
    requires Shape(m)
    ensures Shape(r.0) && r.1 <= MAX_FILES
    ensures r.1 < MAX_FILES ==> Is(r.0.inodes[r.1], name)
  {
    var i := Named(m, name, 0);
    if i < MAX_FILES then (m, i)
    else
      var u := FirstUnused(m, 0);
      if u < MAX_FILES then (m.(inodes := m.inodes[u := NewInode(name)]), u) else (m, MAX_FILES)
  }

  /** create_file_system marks every inode unused and leaves the rest of it as malloc gave it. */
  function Formatted(size: nat, junk: seq<Inode>): Meta {
    Meta(size,
         seq(MAX_BLOCKS, b => if b < 2 then '1' else if b < size then '0' else 'x'),
         seq(|junk|, k requires 0 <= k < |junk| => junk[k].(used := false)))
  }

  // Runs ------------------------------------------------------------------------------------------

  /** No two used inodes share a name. */
  predicate NamesDiffer(m: Meta)
    requires Shape(m)
  {
    forall i, k | 0 <= i < k < MAX_FILES && m.inodes[i].used && m.inodes[k].used :: m.inodes[i].name != m.inodes[k].name
  }

  /** A write that stops on a device error saves no metadata. */
  datatype Step =
    | Format(junk: seq<Inode>)
    | Open(name: Name)
    | Write(i: nat, off: nat, size: nat, deviceFails: bool)
    | Read(i: nat, off: nat, size: nat)

  predicate Enabled(m: Meta, s: Step)
    requires Shape(m)
  {
    match s
    case Format(junk) => |junk| == MAX_FILES && forall k | 0 <= k < MAX_FILES :: |junk[k].blocks| == MAX_FILE_SIZE
    case Open(_) => true
    case Write(i, _, _, _) => i < MAX_FILES && m.inodes[i].used
    case Read(i, _, _) => i < MAX_FILES && m.inodes[i].used
  }

  function Next(m: Meta, s: Step): (r: Meta)
    requires Shape(m) && Enabled(m, s)
    ensures Shape(r)
  {
    match s
    case Format(junk) => Formatted(m.size, junk)
    case Open(name) => DoOpen(m, name).0
    case Write(i, off, size, fails) =>
      var r := DoWrite(m, i, off, size);
      if fails || r.None? then m else r.value
    case Read(_, _, _) => m
  }

  predicate Run(ms: seq<Meta>, steps: seq<Step>) {
    && |ms| == |steps| + 1
    && forall k | 0 <= k < |steps| :: Shape(ms[k]) && Enabled(ms[k], steps[k]) && ms[k + 1] == Next(ms[k], steps[k])
  }

  lemma FormatGood(m: Meta, junk: seq<Inode>)
    requires Shape(m) && Enabled(m, Format(junk))
    ensures Good(Formatted(m.size, junk)) && NamesDiffer(Formatted(m.size, junk))
  {
  }

  /** Changing an inode without changing which blocks its used slots name keeps Good. */
  lemma InodeKeeps(m: Meta, u: nat, id: Inode)
    requires Good(m) && u < MAX_FILES && |id.blocks| == MAX_FILE_SIZE
    requires if m.inodes[u].used then id.used && id.blocks == m.inodes[u].blocks
             else forall j | 0 <= j < MAX_FILE_SIZE :: id.blocks[j] == -1
    ensures Good(m.(inodes := m.inodes[u := id]))
  {
    var r := m.(inodes := m.inodes[u := id]);
    forall k, l, c | 0 <= k < MAX_FILES && 0 <= l < MAX_FILE_SIZE && c != -1
      ensures Holds(r, k, l, c) <==> Holds(m, k, l, c)
    {
    }
    forall p, q, k, l | 0 <= p < MAX_FILES && 0 <= q < MAX_FILE_SIZE && 0 <= k < MAX_FILES && 0 <= l < MAX_FILE_SIZE
      ensures Apart(r, p, q, k, l)
    {
      assert Apart(m, p, q, k, l);
    }
    forall b | 2 <= b < m.size ensures Taken(r, b) <==> Taken(m, b) {
      if Taken(m, b) {
        var k, l :| 0 <= k < MAX_FILES && 0 <= l < MAX_FILE_SIZE && Holds(m, k, l, b);
        assert Holds(r, k, l, b);
      }
    }
  }

  lemma WriteKeeps(m: Meta, i: nat, off: nat, size: nat)
    requires Good(m) && NamesDiffer(m) && i < MAX_FILES && m.inodes[i].used && DoWrite(m, i, off, size).Some?
    ensures Good(DoWrite(m, i, off, size).value) && NamesDiffer(DoWrite(m, i, off, size).value)
  {
    hide Slots, Taken;
    var j := off / BLOCKSIZE;
    var end := j + size / BLOCKSIZE;
    AssignKeeps(m, i, j, end);
    AssignFills(m, i, j, end);
    var r := Assign(m, i, j, end);
    InodeKeeps(r, i, r.inodes[i].(size := off + size));
  }

  lemma {:induction false} StepKeeps(m: Meta, s: Step)
    requires Good(m) && NamesDiffer(m) && Enabled(m, s)
    ensures Good(Next(m, s)) && NamesDiffer(Next(m, s))
  {
    hide Slots, Taken, DoWrite;
    match s
    case Format(junk) => FormatGood(m, junk);
    case Open(name) =>
      var i := Named(m, name, 0);
      var u := FirstUnused(m, 0);
      if i == MAX_FILES && u < MAX_FILES {
        InodeKeeps(m, u, NewInode(name));
      }
    case Write(i, off, size, fails) =>
      if !fails && DoWrite(m, i, off, size).Some? {
        WriteKeeps(m, i, off, size);
      }
    case Read(_, _, _) =>
  }

  /**
   * From formatting on, whatever is opened, written or refused, a data block is marked used exactly when one
   * slot of one used inode names it, and a name opens one inode.
   */
  lemma {:induction false} EmufsRuns(ms: seq<Meta>, steps: seq<Step>, k: nat)
    requires Run(ms, steps) && k < |steps| && steps[0].Format?
    ensures Good(ms[k + 1]) && NamesDiffer(ms[k + 1])
  {
    if k == 0 {
      FormatGood(ms[0], steps[0].junk);
    } else {
      EmufsRuns(ms, steps, k - 1);
      StepKeeps(ms[k], steps[k]);
    }
  }
}
