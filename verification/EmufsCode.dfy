/** emufs.c as code: each call reads the metadata block into a copy and saves it at the end. */
module EmufsCode {
  // disk holds the data blocks as the device has them, so encrypted ones when the mount encrypts.

  import opened Emufs

  function Flip(b: Block): (r: Block)
    ensures forall k | 0 <= k < BLOCKSIZE :: r[k] == 255 - b[k]
  {
    seq(BLOCKSIZE, k requires 0 <= k < BLOCKSIZE => 255 - b[k])
  }

  function Cipher(encrypted: bool, b: Block): Block { if encrypted then Flip(b) else b }

  lemma CipherTwice(encrypted: bool, b: Block)
    ensures Cipher(encrypted, Cipher(encrypted, b)) == b
  {
  }

  /** The k-th block of a buffer. */
  function Piece(data: seq<byte>, k: nat): (r: Block)
    requires (k + 1) * BLOCKSIZE <= |data|
    ensures forall x | 0 <= x < BLOCKSIZE :: r[x] == data[k * BLOCKSIZE + x]
  {
    data[k * BLOCKSIZE..(k + 1) * BLOCKSIZE]
  }

  /** Handles stay good: no used inode became unused. */
  predicate StillUsed(m: Meta, n: Meta)
    requires Shape(m) && Shape(n)
  {
    forall i | 0 <= i < MAX_FILES && m.inodes[i].used :: n.inodes[i].used
  }

  predicate Fits(m: Meta, disk: seq<Block>) {
    |disk| == m.size
  }

  /** What block j of file i reads as, if it has one. */
  function FileBlock(m: Meta, disk: seq<Block>, encrypted: bool, i: nat, j: nat): Option<Block>
    requires Shape(m) && i < MAX_FILES && j < MAX_FILE_SIZE
  {
    var b := m.inodes[i].blocks[j];
    if 0 <= b < |disk| then Some(Cipher(encrypted, disk[b])) else None
  }

  /** A filled slot names a data block. */
  lemma SlotInRange(m: Meta, i: nat, j: nat)
    requires Good(m) && i < MAX_FILES && j < MAX_FILE_SIZE && m.inodes[i].used && m.inodes[i].blocks[j] != -1
    ensures 2 <= m.inodes[i].blocks[j] < m.size
  {
  }

  /** The blocks a write fills are not blocks of any other slot. */
  lemma Untouched(m: Meta, goal: Meta, i: nat, start: nat, end: nat, p: nat, q: nat, k: nat)
    requires Shape(m) && Good(goal) && i < MAX_FILES && p < MAX_FILES
    requires q < MAX_FILE_SIZE && start <= k < end <= MAX_FILE_SIZE
    requires Filled(m, goal, i, start, end) && m.inodes[p].used && m.inodes[i].used
    requires m.inodes[p].blocks[q] != -1 && !(p == i && q == k)
    ensures goal.inodes[i].blocks[k] != m.inodes[p].blocks[q]
  {
    assert Apart(goal, i, k, p, q);
  }

  /** Only the first blocks of the write, up to slot k, may differ on the device. */
  ghost predicate OnlySlots(before: seq<Block>, after: seq<Block>, blocks: seq<int>, start: nat, k: nat)
    requires start <= k <= |blocks|
  {
    && |before| == |after|
    && forall c | 0 <= c < |before| && (forall q | start <= q < k :: blocks[q] != c) :: after[c] == before[c]
  }

  ghost predicate Stored(disk: seq<Block>, encrypted: bool, blocks: seq<int>, start: nat, k: nat, data: seq<byte>)
    requires start <= k <= |blocks| && (k - start) * BLOCKSIZE <= |data|
  {
    forall q | start <= q < k :: 0 <= blocks[q] < |disk| && disk[blocks[q]] == Cipher(encrypted, Piece(data, q - start))
  }

  /** No other block of any file reads differently. */
  ghost predicate OthersRead(m: Meta, disk: seq<Block>, n: Meta, after: seq<Block>, encrypted: bool, i: nat,
                             start: nat, end: nat)
    requires Shape(m) && Shape(n)
  {
    forall p, q | 0 <= p < MAX_FILES && 0 <= q < MAX_FILE_SIZE && m.inodes[p].used && !(p == i && start <= q < end) ::
      FileBlock(n, after, encrypted, p, q) == FileBlock(m, disk, encrypted, p, q)
  }

  lemma OthersKept(m: Meta, goal: Meta, n: Meta, disk: seq<Block>, after: seq<Block>, encrypted: bool, i: nat,
                   start: nat, k: nat, end: nat)
    requires Good(m) && Good(goal) && i < MAX_FILES
    requires start <= k <= end <= MAX_FILE_SIZE && m.inodes[i].used && Fits(m, disk)
    requires Filled(m, goal, i, start, end) && OnlySlots(disk, after, goal.inodes[i].blocks, start, k)
    requires Shape(n)
    requires forall p | 0 <= p < MAX_FILES ::
      n.inodes[p].blocks == m.inodes[p].blocks || n.inodes[p].blocks == goal.inodes[p].blocks
    ensures OthersRead(m, disk, n, after, encrypted, i, start, end)
  {
    hide Slots;
    forall p, q | 0 <= p < MAX_FILES && 0 <= q < MAX_FILE_SIZE && m.inodes[p].used && !(p == i && start <= q < end)
      ensures FileBlock(n, after, encrypted, p, q) == FileBlock(m, disk, encrypted, p, q)
    {
      assert n.inodes[p].blocks[q] == m.inodes[p].blocks[q];
      if m.inodes[p].blocks[q] != -1 {
        SlotInRange(m, p, q);
        forall l | start <= l < k ensures goal.inodes[i].blocks[l] != m.inodes[p].blocks[q] {
          Untouched(m, goal, i, start, end, p, q, l);
        }
      }
    }
  }

  /** One more block stored leaves the earlier ones as they are. */
  lemma StoreOne(goal: Meta, i: nat, start: nat, k: nat, disk: seq<Block>, now: seq<Block>, encrypted: bool,
                 data: seq<byte>)
    requires Good(goal) && i < MAX_FILES && start <= k < MAX_FILE_SIZE && goal.inodes[i].used && Fits(goal, now)
    requires forall q | start <= q <= k :: goal.inodes[i].blocks[q] != -1
    requires (k + 1 - start) * BLOCKSIZE <= |data|
    requires OnlySlots(disk, now, goal.inodes[i].blocks, start, k)
    requires Stored(now, encrypted, goal.inodes[i].blocks, start, k, data)
    ensures 2 <= goal.inodes[i].blocks[k] < |now|
    ensures var next := now[goal.inodes[i].blocks[k] := Cipher(encrypted, Piece(data, k - start))];
      && OnlySlots(disk, next, goal.inodes[i].blocks, start, k + 1)
      && Stored(next, encrypted, goal.inodes[i].blocks, start, k + 1, data)
  {
    SlotInRange(goal, i, k);
    forall q | start <= q < k ensures goal.inodes[i].blocks[q] != goal.inodes[i].blocks[k] {
      assert Apart(goal, i, q, i, k);
    }
  }

  lemma GoalIs(m: Meta, i: nat, start: nat, end: nat)
    requires Good(m) && i < MAX_FILES && start <= end <= MAX_FILE_SIZE && m.inodes[i].used
    requires Need(m.inodes[i].blocks, start, end) <= Avail(m.bitmap, 2, m.size)
    ensures Shape(m) && Good(Assign(m, i, start, end)) && Assign(m, i, start, end).inodes[i].used
    ensures forall n: Meta | Shape(n) :: Assign(n, i, end, end) == n
  {
    AssignKeeps(m, i, start, end);
    AssignFills(m, i, start, end);
  }

  lemma NothingStored(disk: seq<Block>, encrypted: bool, blocks: seq<int>, start: nat, data: seq<byte>)
    requires start <= |blocks|
    ensures OnlySlots(disk, disk, blocks, start, start) && Stored(disk, encrypted, blocks, start, start, data)
  {
  }

  lemma MoreSlots(before: seq<Block>, after: seq<Block>, blocks: seq<int>, start: nat, k: nat, end: nat)
    requires start <= k <= end <= |blocks| && OnlySlots(before, after, blocks, start, k)
    ensures OnlySlots(before, after, blocks, start, end)
  {
  }

  /** What the loop of ewrite does to slot k is what Assign does first; the slot then has its final block. */
  lemma OneSlot(m: Meta, i: nat, k: nat, end: nat)
    requires Shape(m) && i < MAX_FILES && k < end <= MAX_FILE_SIZE
    requires Need(m.inodes[i].blocks, k, end) <= Avail(m.bitmap, 2, m.size)
    ensures var b := FirstFree(m, 2);
      var n := if m.inodes[i].blocks[k] == -1 && b < m.size then SetBlock(m, i, k, b) else m;
      && (m.inodes[i].blocks[k] == -1 ==> b < m.size)
      && Assign(n, i, k + 1, end) == Assign(m, i, k, end)
      && Need(n.inodes[i].blocks, k + 1, end) <= Avail(n.bitmap, 2, n.size)
      && Assign(m, i, k, end).inodes[i].blocks[k] == n.inodes[i].blocks[k] != -1
  {
    var b := FirstFree(m, 2);
    AvailFirst(m, 2);
    var n := if m.inodes[i].blocks[k] == -1 && b < m.size then SetBlock(m, i, k, b) else m;
    if m.inodes[i].blocks[k] == -1 {
      AvailSet(m.bitmap, 2, m.size, b);
      NeedSet(m.inodes[i].blocks, k + 1, end, k, b);
    }
    AssignFills(n, i, k + 1, end);
  }

  lemma NothingGot(m: Meta, disk: seq<Block>, i: nat, start: nat)
    requires Shape(m) && i < MAX_FILES && start <= MAX_FILE_SIZE
    ensures Wrote(m, disk, false, i, start, 0, [])
  {
  }

  lemma OneMore(m: Meta, disk: seq<Block>, i: nat, start: nat, k: nat, got: seq<byte>)
    requires Shape(m) && i < MAX_FILES && start <= k < MAX_FILE_SIZE && 0 <= m.inodes[i].blocks[k] < |disk|
    requires Wrote(m, disk, false, i, start, k - start, got) && |got| == (k - start) * BLOCKSIZE
    ensures Wrote(m, disk, false, i, start, k + 1 - start, got + disk[m.inodes[i].blocks[k]])
  {
    var next := got + disk[m.inodes[i].blocks[k]];
    forall q | start <= q < k + 1 ensures FileBlock(m, disk, false, i, q) == Some(Piece(next, q - start)) {
      assert q < k ==> Piece(next, q - start) == Piece(got, q - start);
      assert q < k ==> FileBlock(m, disk, false, i, q) == Some(Piece(got, q - start));
      assert q == k ==> Piece(next, q - start) == disk[m.inodes[i].blocks[k]];
    }
  }

  lemma DecryptedIs(m: Meta, disk: seq<Block>, i: nat, start: nat, n: nat, raw: seq<byte>, got: seq<byte>)
    requires Shape(m) && i < MAX_FILES && Wrote(m, disk, false, i, start, n, raw)
    requires |got| == |raw| && forall k | 0 <= k < |got| :: got[k] == 255 - raw[k]
    ensures Wrote(m, disk, true, i, start, n, got)
  {
    forall q | start <= q < start + n ensures FileBlock(m, disk, true, i, q) == Some(Piece(got, q - start)) {
      assert FileBlock(m, disk, false, i, q) == Some(Piece(raw, q - start));
      assert Flip(Piece(raw, q - start)) == Piece(got, q - start);
    }
  }

  /** What reads as written can be read. */
  lemma WroteReads(m: Meta, disk: seq<Block>, encrypted: bool, i: nat, start: nat, n: nat, data: seq<byte>)
    requires Shape(m) && i < MAX_FILES && Wrote(m, disk, encrypted, i, start, n, data)
    ensures !ReadFails(m, i, start, n, {})
  {
    forall k | start <= k < start + n ensures m.inodes[i].blocks[k] != -1 {
      assert FileBlock(m, disk, encrypted, i, k) == Some(Piece(data, k - start));
    }
  }

  lemma SameBytes(m: Meta, disk: seq<Block>, encrypted: bool, i: nat, start: nat, n: nat, a: seq<byte>, b: seq<byte>)
    requires Shape(m) && i < MAX_FILES && |a| == |b| == n * BLOCKSIZE
    requires Wrote(m, disk, encrypted, i, start, n, a) && Wrote(m, disk, encrypted, i, start, n, b)
    ensures a == b
  {
    forall x | 0 <= x < |a| ensures a[x] == b[x] {
      var k := x / BLOCKSIZE;
      assert FileBlock(m, disk, encrypted, i, start + k) == Some(Piece(a, k));
      assert FileBlock(m, disk, encrypted, i, start + k) == Some(Piece(b, k));
      assert a[x] == Piece(a, k)[x % BLOCKSIZE] && b[x] == Piece(b, k)[x % BLOCKSIZE];
    }
  }

  /** The device fails on one of the slots j to end - 1. */
  predicate Broken(blocks: seq<int>, j: nat, end: nat, bad: set<int>) {
    exists k | j <= k < end <= |blocks| :: blocks[k] in bad
  }

  /** A write is refused, or the device fails on one of its blocks. */
  predicate WriteFails(m: Meta, i: nat, off: nat, size: nat, bad: set<int>)
    requires Shape(m) && i < MAX_FILES
  {
    var d := DoWrite(m, i, off, size);
    d.None? || Broken(d.value.inodes[i].blocks, off / BLOCKSIZE, off / BLOCKSIZE + size / BLOCKSIZE, bad)
  }

  lemma FailsIff(m: Meta, i: nat, off: nat, size: nat, bad: set<int>)
    requires Shape(m) && i < MAX_FILES
    ensures var j, end := off / BLOCKSIZE, off / BLOCKSIZE + size / BLOCKSIZE;
      WriteFails(m, i, off, size, bad) <==>
      || off + size > MAX_FILE_SIZE * BLOCKSIZE
      || Need(m.inodes[i].blocks, j, end) > Avail(m.bitmap, 2, m.size)
      || Broken(Assign(m, i, j, end).inodes[i].blocks, j, end, bad)
  {
    hide Assign, Need, Avail;
    var j, end := off / BLOCKSIZE, off / BLOCKSIZE + size / BLOCKSIZE;
    if off + size <= MAX_FILE_SIZE * BLOCKSIZE && Need(m.inodes[i].blocks, j, end) <= Avail(m.bitmap, 2, m.size) {
      assert DoWrite(m, i, off, size).value.inodes[i].blocks == Assign(m, i, j, end).inodes[i].blocks;
    }
  }

  /** A write is refused for want of room, counted in sets of slots and blocks. */
  lemma RefusedIff(m: Meta, i: nat, off: nat, size: nat)
    requires Shape(m) && i < MAX_FILES
    ensures var j, blocks := off / BLOCKSIZE, m.inodes[i].blocks;
      DoWrite(m, i, off, size).None? <==>
      || off + size > MAX_FILE_SIZE * BLOCKSIZE
      || |set k: nat | j <= k < j + size / BLOCKSIZE && k < MAX_FILE_SIZE && blocks[k] == -1| >
         |set b: nat | 2 <= b < m.size && m.bitmap[b] == '0'|
  {
    hide Need, Avail, Assign;
    if off + size <= MAX_FILE_SIZE * BLOCKSIZE {
      var j, blocks := off / BLOCKSIZE, m.inodes[i].blocks;
      var end := j + size / BLOCKSIZE;
      NeedIs(blocks, j, end);
      AvailIs(m.bitmap, 2, m.size);
      assert (set k: nat | j <= k < end && k < MAX_FILE_SIZE && blocks[k] == -1) ==
        (set k: nat | j <= k < end && blocks[k] == -1);
    }
  }

  lemma NothingRead(m: Meta, disk: seq<Block>, encrypted: bool, i: nat, start: nat, end: nat)
    requires Shape(m)
    ensures OthersRead(m, disk, m, disk, encrypted, i, start, end)
  {
  }

  /** A read passes the end of the inode, meets an empty slot, or the device fails on one of its blocks. */
  predicate ReadFails(m: Meta, i: nat, start: nat, n: nat, bad: set<int>)
    requires Shape(m) && i < MAX_FILES
  {
    start + n > MAX_FILE_SIZE || exists k | start <= k < start + n ::
      m.inodes[i].blocks[k] == -1 || m.inodes[i].blocks[k] in bad
  }

  /** Slots start to start + n - 1 of file i read as the pieces of data. */
  ghost predicate Wrote(m: Meta, disk: seq<Block>, encrypted: bool, i: nat, start: nat, n: nat, data: seq<byte>)
    requires Shape(m) && i < MAX_FILES
  {
    && start + n <= MAX_FILE_SIZE && n * BLOCKSIZE <= |data|
    && forall k | start <= k < start + n :: FileBlock(m, disk, encrypted, i, k) == Some(Piece(data, k - start))
  }

  lemma StoredReads(m: Meta, disk: seq<Block>, encrypted: bool, i: nat, start: nat, end: nat, data: seq<byte>)
    requires Shape(m) && i < MAX_FILES && start <= end <= MAX_FILE_SIZE && (end - start) * BLOCKSIZE <= |data|
    requires Stored(disk, encrypted, m.inodes[i].blocks, start, end, data)
    ensures Wrote(m, disk, encrypted, i, start, end - start, data)
  {
    forall k | start <= k < end ensures FileBlock(m, disk, encrypted, i, k) == Some(Piece(data, k - start)) {
      CipherTwice(encrypted, Piece(data, k - start));
    }
  }

  method Encrypt(input: Block, encrypted: array<byte>)
    requires encrypted.Length == BLOCKSIZE
    modifies encrypted
    ensures encrypted[..] == Flip(input) && forall k | 0 <= k < BLOCKSIZE :: encrypted[k] == 255 - input[k]
  {
    var i := 0;
    while i < BLOCKSIZE
      invariant 0 <= i <= BLOCKSIZE
      invariant forall k | 0 <= k < i :: encrypted[k] == 255 - input[k]
    {
      encrypted[i] := 255 - input[i];
      i := i + 1;
    }
  }

  method Decrypt(input: seq<byte>, n: nat, data: array<byte>)
    requires |input| == n * BLOCKSIZE <= data.Length
    modifies data
    ensures forall k | 0 <= k < |input| :: data[k] == 255 - input[k]
    ensures data[|input|..] == old(data[|input|..])
  {
    var i := 0;
    while i < n
      invariant 0 <= i <= n
      invariant forall k | 0 <= k < i * BLOCKSIZE :: data[k] == 255 - input[k]
      invariant forall k | |input| <= k < data.Length :: data[k] == old(data[k])
    {
      var j := 0;
      while j < BLOCKSIZE
        invariant 0 <= j <= BLOCKSIZE
        invariant forall k | 0 <= k < i * BLOCKSIZE + j :: data[k] == 255 - input[k]
        invariant forall k | |input| <= k < data.Length :: data[k] == old(data[k])
      {
        data[i * BLOCKSIZE + j] := 255 - input[i * BLOCKSIZE + j];
        j := j + 1;
      }
      i := i + 1;
    }
  }

  // The copy on a mount that does not encrypt -----------------------------------------------------

  /** Where a C string ends, or the length when nothing ends it. */
  function FirstNul(s: seq<byte>): (n: nat)
    ensures n <= |s| && (n < |s| ==> s[n] == 0) && forall k | 0 <= k < n :: s[k] != 0
  {
    if s == [] || s[0] == 0 then 0 else 1 + FirstNul(s[1..])
  }

  /** The string at src ends, and with its NUL it fits in size bytes. */
  predicate Copies(src: seq<byte>, size: nat) {
    FirstNul(src) < |src| && FirstNul(src) < size
  }

  /** A buffer after strcpy. */
  function AfterCopy(data: seq<byte>, src: seq<byte>): (r: seq<byte>)
    requires Copies(src, |data|)
    ensures |r| == |data|
  {
    src[..FirstNul(src) + 1] + data[FirstNul(src) + 1..]
  }

  /** Behind the first NUL of data the buffer holds the same bytes. */
  predicate Already(was: seq<byte>, data: seq<byte>)
    requires |data| <= |was|
  {
    forall k | FirstNul(data) < k < |data| :: was[k] == data[k]
  }

  method Strcpy(data: array<byte>, src: seq<byte>)
    requires Copies(src, data.Length)
    modifies data
    ensures data[..] == AfterCopy(old(data[..]), src)
  {
    var i := 0;
    while src[i] != 0
      invariant 0 <= i <= FirstNul(src)
      invariant forall k | 0 <= k < data.Length :: data[k] == if k < i then src[k] else old(data[k])
      decreases |src| - i
    {
      data[i] := src[i];
      i := i + 1;
    }
    data[i] := 0;
  }

  lemma CopyGives(was: seq<byte>, data: seq<byte>, behind: seq<byte>)
    requires |data| <= |was| && Copies(data + behind, |was|)
    ensures AfterCopy(was, data + behind)[..|data|] == data <==> Already(was, data)
  {
    var z := FirstNul(data + behind);
    var r := AfterCopy(was, data + behind);
    if z < |data| {
      assert (data + behind)[z] == data[z];
      assert FirstNul(data) == z by {
        assert forall k | 0 <= k < z :: data[k] == (data + behind)[k];
      }
      assert forall k | 0 <= k < |data| :: r[k] == if k <= z then data[k] else was[k];
      assert r[..|data|] == data ==> forall k | 0 <= k < |data| :: r[..|data|][k] == data[k];
    } else {
      assert forall k | 0 <= k < |data| :: (data + behind)[k] == data[k];
      assert FirstNul(data) == |data|;
      assert r[..|data|] == data;
    }
  }

  /** A block of zeros does not come back into a buffer of ones. */
  lemma ZerosAreLost()
    ensures var zeros: seq<byte>, ones: seq<byte> := seq(BLOCKSIZE, _ => 0), seq(BLOCKSIZE, _ => 1);
      Copies(zeros, BLOCKSIZE) && !Already(ones, zeros) && AfterCopy(ones, zeros) != zeros
  {
    var zeros: seq<byte>, ones: seq<byte> := seq(BLOCKSIZE, _ => 0), seq(BLOCKSIZE, _ => 1);
    assert FirstNul(zeros) == 0;
    assert zeros[1] != ones[1] && AfterCopy(ones, zeros)[1] == ones[1];
  }

  /** The bytes of n blocks of file i from slot start on, as the device has them. */
  function Raw(m: Meta, disk: seq<Block>, i: nat, start: nat, n: nat): seq<byte>
    requires Shape(m) && i < MAX_FILES
  {
    if n == 0 then []
    else
      var last := start + n - 1;
      var b := if last < MAX_FILE_SIZE then m.inodes[i].blocks[last] else -1;
      Raw(m, disk, i, start, n - 1) + if 0 <= b < |disk| then disk[b] else []
  }

  lemma {:induction false} RawIs(m: Meta, disk: seq<Block>, i: nat, start: nat, n: nat, raw: seq<byte>)
    requires Shape(m) && i < MAX_FILES && |raw| == n * BLOCKSIZE && Wrote(m, disk, false, i, start, n, raw)
    ensures Raw(m, disk, i, start, n) == raw
  {
    if n > 0 {
      var pre := raw[..(n - 1) * BLOCKSIZE];
      forall k | start <= k < start + n - 1 ensures FileBlock(m, disk, false, i, k) == Some(Piece(pre, k - start)) {
        assert FileBlock(m, disk, false, i, k) == Some(Piece(raw, k - start));
        assert Piece(raw, k - start) == Piece(pre, k - start);
      }
      RawIs(m, disk, i, start, n - 1, pre);
      assert FileBlock(m, disk, false, i, start + n - 1) == Some(Piece(raw, n - 1));
      assert raw == pre + Piece(raw, n - 1);
    }
  }

  /** The search in ewrite: the first free block, or size. */
  method FindFree(m: Meta) returns (j: nat)
    requires Shape(m)
    ensures j == FirstFree(m, 2)
  {
    j := 2;
    while j < m.size && m.bitmap[j] != '0'
      invariant 2 <= j <= m.size && FirstFree(m, j) == FirstFree(m, 2)
    {
      j := j + 1;
    }
  }

  /** ewrite's counts of the blocks it lacks and of the free blocks. */
  method HasRoom(m: Meta, i: nat, start: nat, end: nat) returns (ok: bool)
    requires Shape(m) && i < MAX_FILES && start <= end <= MAX_FILE_SIZE
    ensures ok <==> Need(m.inodes[i].blocks, start, end) <= Avail(m.bitmap, 2, m.size)
  {
    var required, k := 0, start;
    while k < end
      invariant start <= k <= end && required + Need(m.inodes[i].blocks, k, end) == Need(m.inodes[i].blocks, start, end)
    {
      if m.inodes[i].blocks[k] == -1 {
        required := required + 1;
      }
      k := k + 1;
    }
    var available, b := 0, 2;
    while b < m.size
      invariant 2 <= b <= m.size && available + Avail(m.bitmap, b, m.size) == Avail(m.bitmap, 2, m.size)
    {
      if m.bitmap[b] == '0' {
        available := available + 1;
      }
      b := b + 1;
    }
    ok := required <= available;
  }

  class File {
    var offset: nat
    const inode: nat

    constructor (inode: nat)
      ensures this.inode == inode && offset == 0
    {
      this.inode := inode;
      offset := 0;
    }

    method Eseek(offset: nat)
      modifies this
      ensures this.offset == offset
    {
      this.offset := offset;
    }
  }

  class Mount {
    var meta: Meta
    var disk: seq<Block>
    var encrypted: bool

    ghost predicate Valid()
      reads this
    {
      Good(meta) && NamesDiffer(meta) && Fits(meta, disk)
    }

    /** f is a handle eopen gave since the device was formatted. */
    ghost predicate Handle(f: File)
      reads this
    {
      Shape(meta) && f.inode < MAX_FILES && meta.inodes[f.inode].used
    }

    method CreateFileSystem(encrypted: bool, junk: seq<Inode>)
      requires Shape(meta) && Fits(meta, disk) && Enabled(meta, Format(junk))
      modifies this
      ensures Valid() && this.encrypted == encrypted && disk == old(disk)
      ensures meta == Formatted(old(meta).size, junk) && forall i | 0 <= i < MAX_FILES :: !meta.inodes[i].used
    {
      this.encrypted := encrypted;
      var bitmap := meta.bitmap[0 := '1'][1 := '1'];
      var i := 2;
      while i < meta.size
        invariant 2 <= i <= meta.size && |bitmap| == MAX_BLOCKS && meta == old(meta)
        invariant forall k | 0 <= k < i :: bitmap[k] == if k < 2 then '1' else '0'
        invariant this.encrypted == encrypted && disk == old(disk)
      {
        bitmap := bitmap[i := '0'];
        i := i + 1;
      }
      while i < MAX_BLOCKS
        invariant meta.size <= i <= MAX_BLOCKS && |bitmap| == MAX_BLOCKS && meta == old(meta)
        invariant forall k | 0 <= k < i :: bitmap[k] == if k < 2 then '1' else if k < meta.size then '0' else 'x'
        invariant this.encrypted == encrypted && disk == old(disk)
      {
        bitmap := bitmap[i := 'x'];
        i := i + 1;
      }
      var inodes := junk;
      i := 0;
      while i < MAX_FILES
        invariant 0 <= i <= MAX_FILES && |inodes| == MAX_FILES && meta == old(meta)
        invariant forall k | 0 <= k < MAX_FILES :: inodes[k] == if k < i then junk[k].(used := false) else junk[k]
        invariant this.encrypted == encrypted && disk == old(disk)
      {
        inodes := inodes[i := inodes[i].(used := false)];
        i := i + 1;
      }
      FormatGood(meta, junk);
      assert Meta(meta.size, bitmap, inodes) == Formatted(meta.size, junk);
      meta := Meta(meta.size, bitmap, inodes);
    }

    method Eopen(name: Name) returns (f: File?)
      requires Valid()
      modifies this
      ensures Valid() && disk == old(disk) && encrypted == old(encrypted)
      ensures meta == Next(old(meta), Open(name))
      ensures f != null ==> fresh(f) && f.offset == 0 && f.inode < MAX_FILES && Handle(f)
      ensures f == null <==> forall i | 0 <= i < MAX_FILES ::
        old(meta).inodes[i].used && old(meta).inodes[i].name != name
      ensures f != null && old(meta).inodes[f.inode].used ==> meta == old(meta) && meta.inodes[f.inode].name == name
      ensures f != null && !old(meta).inodes[f.inode].used ==>
        && (forall i | 0 <= i < MAX_FILES && old(meta).inodes[i].used :: old(meta).inodes[i].name != name)
        && (forall i | 0 <= i < f.inode :: old(meta).inodes[i].used)
        && meta == old(meta).(inodes := old(meta).inodes[f.inode := Inode(true, name, 0, [-1, -1, -1, -1])])
      ensures f == null ==> meta == old(meta)
      ensures StillUsed(old(meta), meta)
    {
      var m := meta;
      var index := 0;
      while index < MAX_FILES && !(m.inodes[index].used && m.inodes[index].name == name)
        invariant 0 <= index <= MAX_FILES && Named(m, name, index) == Named(m, name, 0)
      {
        index := index + 1;
      }
      if index == MAX_FILES {
        index := 0;
        while index < MAX_FILES && m.inodes[index].used
          invariant 0 <= index <= MAX_FILES && FirstUnused(m, index) == FirstUnused(m, 0)
        {
          index := index + 1;
        }
        if index == MAX_FILES {
          return null;
        }
        m := m.(inodes := m.inodes[index := Inode(true, name, 0, [-1, -1, -1, -1])]);
      }
      StepKeeps(meta, Open(name));
      f := new File(index);
      meta := m;
    }

    /** The second loop of ewrite: each block gets a place and is written; None when the device fails. */
    method WriteSlots(i: nat, data: seq<byte>, start: nat, end: nat, bad: set<int>) returns (r: Option<Meta>)
      requires Valid() && i < MAX_FILES && meta.inodes[i].used && start <= end <= MAX_FILE_SIZE
      requires (end - start) * BLOCKSIZE <= |data|
      requires Need(meta.inodes[i].blocks, start, end) <= Avail(meta.bitmap, 2, meta.size)
      modifies this`disk
      ensures |disk| == |old(disk)|
      ensures OnlySlots(old(disk), disk, Assign(meta, i, start, end).inodes[i].blocks, start, end)
      ensures r.None? <==> Broken(Assign(meta, i, start, end).inodes[i].blocks, start, end, bad)
      ensures r.Some? ==> r.value == Assign(meta, i, start, end)
      ensures r.Some? ==> Stored(disk, encrypted, Assign(meta, i, start, end).inodes[i].blocks, start, end, data)
    {
      hide Good, Slots, Stored, OnlySlots, Filled, Assign, Need, Avail, FirstFree, Flip, Piece, NamesDiffer;
      GoalIs(meta, i, start, end);
      var m := meta;
      ghost var goal := Assign(m, i, start, end);
      ghost var blocks := goal.inodes[i].blocks;
      NothingStored(disk, encrypted, blocks, start, data);
      var enc := new byte[BLOCKSIZE];
      var k := start;
      while k < end
        invariant start <= k <= end && Shape(m) && m.size == meta.size
        invariant Assign(m, i, k, end) == goal && m.inodes[i].used
        invariant Need(m.inodes[i].blocks, k, end) <= Avail(m.bitmap, 2, m.size)
        invariant OnlySlots(old(disk), disk, blocks, start, k)
        invariant Stored(disk, encrypted, blocks, start, k, data) && |disk| == meta.size
        invariant forall q | start <= q < k :: blocks[q] != -1 && blocks[q] !in bad
      {
        OneSlot(m, i, k, end);
        if m.inodes[i].blocks[k] == -1 {
          var j := FindFree(m);
          m := SetBlock(m, i, k, j);
        }
        var b := m.inodes[i].blocks[k];
        var out := Piece(data, k - start);
        if encrypted {
          Encrypt(out, enc);
          out := enc[..];
        }
        StoreOne(goal, i, start, k, old(disk), disk, encrypted, data);
        if b in bad {
          MoreSlots(old(disk), disk, blocks, start, k, end);
          return None;
        }
        disk := disk[b := out];
        k := k + 1;
      }
      r := Some(m);
    }

    /** bad names the blocks the device fails to write. */
    method Ewrite(f: File, data: seq<byte>, size: nat, bad: set<int>) returns (r: int)
      requires Valid() && Handle(f) && size <= |data|
      modifies this`meta, this`disk, f
      ensures Valid()
      ensures r == -1 <==> WriteFails(old(meta), f.inode, old(f.offset), size, bad)
      ensures meta == Next(old(meta), Write(f.inode, old(f.offset), size, r == -1))
      ensures var id, j := old(meta).inodes[f.inode], old(f.offset) / BLOCKSIZE;
        var refused :=
          || old(f.offset) + size > MAX_FILE_SIZE * BLOCKSIZE
          || |set k: nat | j <= k < j + size / BLOCKSIZE && k < MAX_FILE_SIZE && id.blocks[k] == -1| >
             |set b: nat | 2 <= b < old(meta).size && old(meta).bitmap[b] == '0'|;
        (refused ==> r == -1) && (bad == {} && r == -1 ==> refused)
      ensures r == -1 ==> meta == old(meta) && f.offset == old(f.offset)
      ensures r != -1 ==> r == size && f.offset == old(f.offset) + size
      ensures r != -1 ==> meta.inodes[f.inode].size == old(f.offset) + size
      ensures r != -1 ==> forall p | 0 <= p < MAX_FILES && p != f.inode :: meta.inodes[p] == old(meta).inodes[p]
      ensures r != -1 ==> Some(meta) == DoWrite(old(meta), f.inode, old(f.offset), size)
      ensures r != -1 ==> Wrote(meta, disk, encrypted, f.inode, old(f.offset) / BLOCKSIZE, size / BLOCKSIZE, data)
      ensures var start := old(f.offset) / BLOCKSIZE;
        OthersRead(old(meta), old(disk), meta, disk, encrypted, f.inode, start, start + size / BLOCKSIZE)
      ensures StillUsed(old(meta), meta)
    {
      hide Good, Slots, Stored, OnlySlots, Assign, Need, Avail, OthersRead, Wrote, WriteFails, NamesDiffer;
      var i := f.inode;
      FailsIff(meta, i, f.offset, size, bad);
      RefusedIff(meta, i, f.offset, size);
      NothingRead(meta, disk, encrypted, i, f.offset / BLOCKSIZE, f.offset / BLOCKSIZE + size / BLOCKSIZE);
      if f.offset + size > MAX_FILE_SIZE * BLOCKSIZE {
        return -1;
      }
      var start := f.offset / BLOCKSIZE;
      var end := start + size / BLOCKSIZE;
      var room := HasRoom(meta, i, start, end);
      if !room {
        return -1;
      }
      ghost var goal := Assign(meta, i, start, end);
      AssignFills(meta, i, start, end);
      AssignKeeps(meta, i, start, end);
      var done := WriteSlots(i, data, start, end, bad);
      OthersKept(meta, goal, meta, old(disk), disk, encrypted, i, start, end, end);
      if done == None {
        return -1;
      }
      var m := done.value.(inodes := done.value.inodes[i := done.value.inodes[i].(size := f.offset + size)]);
      WriteKeeps(meta, i, f.offset, size);
      OthersKept(meta, goal, m, old(disk), disk, encrypted, i, start, end, end);
      StoredReads(m, disk, encrypted, i, start, end, data);
      f.Eseek(f.offset + size);
      meta := m;
      r := size;
    }

    /** bad names the blocks the device fails to read; behind is the memory that follows the bytes read, for strcpy. */
    method Eread(f: File, size: nat, bad: set<int>, data: array<byte>, behind: seq<byte>) returns (r: int)
      requires Valid() && Handle(f)
      requires var start, n := f.offset / BLOCKSIZE, size / BLOCKSIZE;
        !ReadFails(meta, f.inode, start, n, bad) ==>
        if encrypted then n * BLOCKSIZE <= data.Length
        else Copies(Raw(meta, disk, f.inode, start, n) + behind, data.Length)
      modifies f, data
      ensures var start, n, blocks := old(f.offset) / BLOCKSIZE, size / BLOCKSIZE, meta.inodes[f.inode].blocks;
        r == -1 <==>
          start + n > MAX_FILE_SIZE || exists k | start <= k < start + n :: blocks[k] == -1 || blocks[k] in bad
      ensures r == -1 ==> f.offset == old(f.offset) && data[..] == old(data[..])
      ensures r != -1 ==> r == size && f.offset == old(f.offset) + size
      ensures r != -1 && encrypted ==> var n := size / BLOCKSIZE * BLOCKSIZE;
        && n <= data.Length && data[n..] == old(data[n..])
        && Wrote(meta, disk, true, f.inode, old(f.offset) / BLOCKSIZE, size / BLOCKSIZE, data[..n])
      ensures r != -1 && !encrypted ==>
        var raw := Raw(meta, disk, f.inode, old(f.offset) / BLOCKSIZE, size / BLOCKSIZE);
        data[..] == AfterCopy(old(data[..]), raw + behind)
    {
      hide Good, Wrote, NamesDiffer, Flip, Raw, Copies, AfterCopy, FirstNul;
      var start := f.offset / BLOCKSIZE;
      var n := size / BLOCKSIZE;
      ghost var slots := meta.inodes[f.inode].blocks;
      if start + n > MAX_FILE_SIZE {
        return -1;
      }
      var k := start;
      while k < start + n
        invariant start <= k <= start + n && forall q | start <= q < k :: slots[q] != -1
      {
        if meta.inodes[f.inode].blocks[k] == -1 {
          return -1;
        }
        k := k + 1;
      }
      NothingGot(meta, disk, f.inode, start);
      var dec := [];
      k := start;
      while k < start + n
        invariant start <= k <= start + n && |dec| == (k - start) * BLOCKSIZE
        invariant f.offset == old(f.offset) && data[..] == old(data[..])
        invariant Wrote(meta, disk, false, f.inode, start, k - start, dec)
        invariant forall q | start <= q < k :: slots[q] !in bad
      {
        SlotInRange(meta, f.inode, k);
        if meta.inodes[f.inode].blocks[k] in bad {
          return -1;
        }
        OneMore(meta, disk, f.inode, start, k, dec);
        dec := dec + disk[meta.inodes[f.inode].blocks[k]];
        k := k + 1;
      }
      if encrypted {
        Decrypt(dec, n, data);
        DecryptedIs(meta, disk, f.inode, start, n, dec, data[..n * BLOCKSIZE]);
      } else {
        RawIs(meta, disk, f.inode, start, n, dec);
        Strcpy(data, dec + behind);
      }
      f.Eseek(f.offset + size);
      r := size;
    }

    /**
     * On a device that works, what a block-aligned write of whole blocks accepts, a read after seeking back returns
     * if the mount encrypts. If it does not, the read stops at the first NUL, and returns the data if and only if the
     * buffer happened to hold the rest of them already.
     */
    method WriteSeekRead(f: File, data: seq<byte>, buf: array<byte>, behind: seq<byte>) returns (r: int)
      requires Valid() && Handle(f) && f.offset % BLOCKSIZE == 0 && |data| % BLOCKSIZE == 0 && |data| <= buf.Length
      requires !encrypted ==> Copies(data + behind, buf.Length)
      modifies this`meta, this`disk, f, buf
      ensures Valid()
      ensures r == -1 <==> DoWrite(old(meta), f.inode, old(f.offset), |data|).None?
      ensures r != -1 ==> r == |data|
      ensures r != -1 ==> (buf[..|data|] == data <==> encrypted || Already(old(buf[..]), data))
    {
      hide Good, NamesDiffer, DoWrite, Wrote, OthersRead, Raw, Copies, AfterCopy, FirstNul, Already;
      var off := f.offset;
      r := Ewrite(f, data, |data|, {});
      if r != -1 {
        f.Eseek(off);
        var start, n := off / BLOCKSIZE, |data| / BLOCKSIZE;
        WroteReads(meta, disk, encrypted, f.inode, start, n, data);
        if !encrypted {
          RawIs(meta, disk, f.inode, start, n, data);
          CopyGives(old(buf[..]), data, behind);
        }
        r := Eread(f, |data|, {}, buf, behind);
        if encrypted {
          SameBytes(meta, disk, true, f.inode, start, n, data, buf[..|data|]);
        }
      }
    }
  }
}
