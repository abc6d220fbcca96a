/** The buffer cache (bio.c), as a value and as the circular doubly linked list the code keeps. */
module Bio {
  // Cache is the state as a value, the buffers listed most recently released first, and the theorem about
  // it is that any run of it is a plain map of blocks. The methods of Bcache are the sections the code
  // runs under bcache.lock or a buffer's sleep lock, proved to do what the steps on values do.

  import opened Block

  const NBUF: nat := 30

  datatype Key = Key(dev: nat, blockno: nat)
  datatype Option<T> = None | Some(value: T)

  const ZERO: Key := Key(0, 0)

  // dirty is B_DIRTY: log.c has changed the buffer and not committed it. stamp says when the buffer
  // was last released.
  datatype Slot = Slot(key: Key, valid: bool, dirty: bool, refcnt: nat, data: Block, stamp: int)

  datatype Cache = Cache(slots: seq<Slot>, clock: int, disk: map<Key, Block>)

  /** Free to be recycled: in use by no process, and not pinned by the log. */
  predicate Idle(s: Slot) {
    s.refcnt == 0 && !s.dirty
  }

  /** The first slot that holds k, or |s|. */
  function Find(s: seq<Slot>, k: Key): (i: nat)
    ensures i <= |s| && (i < |s| ==> s[i].key == k)
    ensures forall j | 0 <= j < i :: s[j].key != k
  {
    if s == [] || s[0].key == k then 0 else 1 + Find(s[1..], k)
  }

  /** The last idle slot, or -1. */
  function Victim(s: seq<Slot>): (i: int)
    ensures -1 <= i < |s| && (i >= 0 ==> Idle(s[i]))
    ensures forall j | i < j < |s| :: !Idle(s[j])
  {
    if s == [] then -1
    else if Idle(s[|s| - 1]) then |s| - 1
    else Victim(s[..|s| - 1])
  }

  /** Most recently released first. */
  predicate Sorted(c: Cache) {
    && (forall i, j | 0 <= i < j < |c.slots| :: c.slots[i].stamp > c.slots[j].stamp)
    && (forall i | 0 <= i < |c.slots| :: c.slots[i].stamp <= c.clock)
  }

  /** No two slots hold the same key, but for the all-zero initial key. */
  predicate Keyed(s: seq<Slot>) {
    forall i, j | 0 <= i < |s| && 0 <= j < |s| && i != j && s[i].key != ZERO :: s[i].key != s[j].key
  }

  /** A slot nobody uses and the log has not pinned holds what the disk holds. */
  predicate Synced(s: Slot, disk: map<Key, Block>) {
    && (s.key == ZERO ==> Idle(s) && !s.valid)
    && (s.key != ZERO ==> s.key in disk)
    && (s.dirty ==> s.valid)
    && (s.valid && Idle(s) ==> s.data == disk[s.key])
  }

  predicate Good(c: Cache) {
    Sorted(c) && Keyed(c.slots) && forall i | 0 <= i < |c.slots| :: Synced(c.slots[i], c.disk)
  }

  /** What a reader of block k gets. */
  function Sees(c: Cache, k: Key): Block
    requires k in c.disk
  {
    var i := Find(c.slots, k);
    if i < |c.slots| && c.slots[i].valid then c.slots[i].data else c.disk[k]
  }

  datatype Step =
    | Bread(k: Key)
    | Edit(k: Key, data: Block)  // a process changes the buffer it holds
    | Pin(k: Key)                // log_write
    | Bwrite(k: Key)
    | Brelse(k: Key)

  predicate Held(c: Cache, k: Key) {
    var i := Find(c.slots, k);
    i < |c.slots| && k != ZERO && c.slots[i].refcnt > 0 && c.slots[i].valid
  }

  /** What callers owe: they use a buffer only while they hold it, and let go of it only when the log
      has pinned it or the disk has its contents. Bread has only its panic "bget: no buffers". */
  predicate Enabled(c: Cache, step: Step) {
    match step
    case Bread(k) => k != ZERO && k in c.disk && (Find(c.slots, k) < |c.slots| || Victim(c.slots) >= 0)
    case Edit(k, _) => Held(c, k)
    case Pin(k) => Held(c, k)
    case Bwrite(k) => Held(c, k)
    case Brelse(k) =>
      Held(c, k) && k in c.disk && var s := c.slots[Find(c.slots, k)]; s.dirty || s.data == c.disk[k]
  }

  function Get(c: Cache, k: Key): (r: Cache)
    requires Enabled(c, Bread(k))
  {
    var i := Find(c.slots, k);
    if i < |c.slots| then c.(slots := c.slots[i := c.slots[i].(refcnt := c.slots[i].refcnt + 1)])
    else
      var v := Victim(c.slots);
      c.(slots := c.slots[v := c.slots[v].(key := k, valid := false, dirty := false, refcnt := 1)])
  }

  function Fill(c: Cache, i: nat): Cache
    requires i < |c.slots| && c.slots[i].key in c.disk
  {
    if c.slots[i].valid then c
    else c.(slots := c.slots[i := c.slots[i].(data := c.disk[c.slots[i].key], valid := true, dirty := false)])
  }

  function Written(c: Cache, i: nat): Cache
    requires i < |c.slots|
  {
    var s := c.slots[i];
    c.(slots := c.slots[i := s.(dirty := false)], disk := c.disk[s.key := s.data])
  }

  function Release(c: Cache, i: nat): Cache
    requires i < |c.slots| && c.slots[i].refcnt > 0
  {
    var s := c.slots[i].(refcnt := c.slots[i].refcnt - 1);
    if s.refcnt > 0 then c.(slots := c.slots[i := s])
    else Cache([s.(stamp := c.clock + 1)] + c.slots[..i] + c.slots[i + 1..], c.clock + 1, c.disk)
  }

  function Next(c: Cache, step: Step): Cache
    requires Enabled(c, step)
  {
    var i := Find(c.slots, step.k);
    match step
    case Bread(k) =>
      var g := Get(c, k);
      Fill(g, if i < |c.slots| then i else Victim(c.slots))
    case Edit(_, d) => c.(slots := c.slots[i := c.slots[i].(data := d)])
    case Pin(_) => c.(slots := c.slots[i := c.slots[i].(dirty := true)])
    case Bwrite(_) => Written(c, i)
    case Brelse(_) => Release(c, i)
  }

  /** The same run on a plain map of blocks: only a change to a held buffer changes it. */
  function Plain(m: map<Key, Block>, step: Step): map<Key, Block> {
    if step.Edit? then m[step.k := step.data] else m
  }

  /** And the disk under it: only a write changes it, to what the map has there. */
  function PlainDisk(m: map<Key, Block>, disk: map<Key, Block>, step: Step): map<Key, Block> {
    if step.Bwrite? && step.k in m then disk[step.k := m[step.k]] else disk
  }

  ghost predicate Shows(c: Cache, m: map<Key, Block>) {
    m.Keys == c.disk.Keys && forall k | k in m :: Sees(c, k) == m[k]
  }

  lemma FindIs(s: seq<Slot>, k: Key, i: nat)
    requires Keyed(s) && k != ZERO && i < |s| && s[i].key == k
    ensures Find(s, k) == i
  {
  }

  /** Replacing one slot by another with the same key changes at most what readers of that key see. */
  lemma ReplaceKeeps(c: Cache, i: nat, s: Slot)
    requires Good(c) && i < |c.slots| && s.key == c.slots[i].key && s.key != ZERO
    requires s.stamp == c.slots[i].stamp && Synced(s, c.disk)
    ensures var n := c.(slots := c.slots[i := s]);
      && Good(n)
      && (forall k | k in c.disk && k != s.key :: Sees(n, k) == Sees(c, k))
      && Sees(n, s.key) == if s.valid then s.data else c.disk[s.key]
  {
    var n := c.(slots := c.slots[i := s]);
    assert Keyed(n.slots);
    FindIs(n.slots, s.key, i);
    forall k | k in c.disk && k != s.key ensures Find(n.slots, k) == Find(c.slots, k) {
      SameFind(c.slots, n.slots, k);
    }
  }

  lemma SameFind(s: seq<Slot>, t: seq<Slot>, k: Key)
    requires |s| == |t| && forall i | 0 <= i < |s| :: s[i].key == k <==> t[i].key == k
    ensures Find(s, k) == Find(t, k)
  {
  }

  /** Block 0 of device 0 is never cached. */
  lemma SeesZero(c: Cache)
    requires Good(c) && ZERO in c.disk
    ensures Sees(c, ZERO) == c.disk[ZERO]
  {
  }

  lemma RecycledGood(c: Cache, k: Key)
    requires Good(c) && Enabled(c, Bread(k)) && Find(c.slots, k) == |c.slots|
    ensures Good(Get(c, k))
  {
    hide Find, Victim;
    var v, n := Victim(c.slots), Get(c, k);
    assert Sorted(n);
    assert Keyed(n.slots);
  }

  lemma RecycledSees(c: Cache, k: Key, q: Key)
    requires Good(c) && Enabled(c, Bread(k)) && Find(c.slots, k) == |c.slots| && Good(Get(c, k)) && q in c.disk
    ensures Sees(Get(c, k), q) == Sees(c, q)
  {
    hide Victim, Sorted;
    var v, n := Victim(c.slots), Get(c, k);
    if q == k {
      FindIs(n.slots, k, v);
    } else if q == ZERO {
      SeesZero(c);
      SeesZero(n);
    } else if q == c.slots[v].key {
      FindIs(c.slots, q, v);
    } else {
      SameFind(c.slots, n.slots, q);
    }
  }

  /** Recycling takes the idle buffer that was released longest ago, and no reader can tell. */
  lemma {:induction false} RecycleKeeps(c: Cache, k: Key)
    requires Good(c) && Enabled(c, Bread(k)) && Find(c.slots, k) == |c.slots|
    ensures var v := Victim(c.slots); var n := Get(c, k);
      && Idle(c.slots[v]) && (forall i | 0 <= i < |c.slots| && Idle(c.slots[i]) :: c.slots[v].stamp <= c.slots[i].stamp)
      && Good(n) && n.slots[v].key == k && n.slots[v].refcnt == 1 && !n.slots[v].valid
      && forall q | q in c.disk :: Sees(n, q) == Sees(c, q)
  {
    hide Find, Sees, Keyed, Synced;
    RecycledGood(c, k);
    forall q | q in c.disk ensures Sees(Get(c, k), q) == Sees(c, q) {
      RecycledSees(c, k, q);
    }
  }

  /** Moving slot i to the front with a newer stamp, one user fewer. */
  lemma {:induction false} ReleaseKeeps(c: Cache, i: nat)
    requires Good(c) && i < |c.slots| && c.slots[i].refcnt > 0 && c.slots[i].valid
    requires c.slots[i].dirty || c.slots[i].data == c.disk[c.slots[i].key]
    ensures Good(Release(c, i)) && Release(c, i).disk == c.disk
    ensures forall q | q in c.disk :: Sees(Release(c, i), q) == Sees(c, q)
  {
    var s := c.slots[i].(refcnt := c.slots[i].refcnt - 1);
    if s.refcnt > 0 {
      ReplaceKeeps(c, i, s);
      FindIs(c.slots, s.key, i);
    } else {
      var n := Release(c, i);
      MovedGood(c, i);
      forall q | q in c.disk ensures Sees(n, q) == Sees(c, q) {
        MovedSees(c, i, q);
      }
    }
  }

  lemma MovedAt(c: Cache, i: nat)
    requires i < |c.slots| && c.slots[i].refcnt == 1
    ensures var n := Release(c, i);
      && |n.slots| == |c.slots| && n.slots[0] == c.slots[i].(refcnt := 0, stamp := c.clock + 1)
      && (forall j | 1 <= j < |c.slots| :: n.slots[j] == c.slots[From(i, j)])
  {
    Rotated(c.slots, Release(c, i).slots, i);
  }

  /** Where the element at j was before the one at i moved to the front. */
  function From(i: nat, j: nat): nat {
    if j == 0 then i else if j <= i then j - 1 else j
  }

  lemma Rotated<T>(s: seq<T>, t: seq<T>, i: nat)
    requires i < |s| && t != [] && t == [t[0]] + s[..i] + s[i + 1..]
    ensures |t| == |s| && forall j | 1 <= j < |s| :: t[j] == s[From(i, j)]
  {
  }

  lemma MovedGood(c: Cache, i: nat)
    requires Good(c) && i < |c.slots| && c.slots[i].refcnt == 1 && c.slots[i].valid
    requires c.slots[i].dirty || c.slots[i].data == c.disk[c.slots[i].key]
    ensures Good(Release(c, i))
  {
    var n := Release(c, i);
    MovedAt(c, i);
    assert n.clock == c.clock + 1 && n.disk == c.disk;
    hide Release;
    assert Sorted(n);
    assert Keyed(n.slots);
  }

  lemma MovedSees(c: Cache, i: nat, q: Key)
    requires Good(c) && i < |c.slots| && c.slots[i].refcnt == 1 && c.slots[i].valid
    requires Good(Release(c, i)) && q in c.disk
    ensures Sees(Release(c, i), q) == Sees(c, q)
  {
    var n := Release(c, i);
    MovedAt(c, i);
    assert n.disk == c.disk;
    hide Release, Sorted;
    if q == ZERO {
      SeesZero(c);
      SeesZero(n);
    } else {
      var f := Find(c.slots, q);
      if f < |c.slots| {
        FindIs(n.slots, q, if f < i then f + 1 else if f == i then 0 else f);
      }
    }
  }

  lemma GetGood(c: Cache, k: Key)
    requires Good(c) && Enabled(c, Bread(k))
    ensures Good(Get(c, k)) && Get(c, k).disk == c.disk
  {
    var i := Find(c.slots, k);
    if i < |c.slots| {
      ReplaceKeeps(c, i, c.slots[i].(refcnt := c.slots[i].refcnt + 1));
    } else {
      RecycledGood(c, k);
    }
  }

  lemma BreadKeeps(c: Cache, k: Key)
    requires Good(c) && Enabled(c, Bread(k))
    ensures var n := Next(c, Bread(k));
      Good(n) && n.disk == c.disk && forall q | q in c.disk :: Sees(n, q) == Sees(c, q)
  {
    hide Sorted, Keyed;
    var i := Find(c.slots, k);
    if i < |c.slots| {
      ReplaceKeeps(c, i, c.slots[i].(refcnt := c.slots[i].refcnt + 1));
    } else {
      RecycleKeeps(c, k);
      i := Victim(c.slots);
    }
    var g := Get(c, k);
    if !g.slots[i].valid {
      FindIs(g.slots, k, i);
      ReplaceKeeps(g, i, g.slots[i].(data := g.disk[k], valid := true, dirty := false));
    }
  }

  lemma BreadGives(c: Cache, k: Key, i: nat)
    requires Good(c) && Enabled(c, Bread(k)) && i < |c.slots| && Get(c, k).slots[i].key == k
    ensures i == if Find(c.slots, k) < |c.slots| then Find(c.slots, k) else Victim(c.slots)
    ensures Next(c, Bread(k)) == Fill(Get(c, k), i) && Good(Next(c, Bread(k)))
    ensures Fill(Get(c, k), i).slots[i].data == Sees(c, k)
  {
    GetGood(c, k);
    BreadKeeps(c, k);
    FindIs(Get(c, k).slots, k, i);
  }

  lemma EditKeeps(c: Cache, k: Key, s: Slot)
    requires Good(c) && Held(c, k) && s == c.slots[Find(c.slots, k)].(data := s.data, dirty := s.dirty)
    ensures var n := c.(slots := c.slots[Find(c.slots, k) := s]);
      Good(n) && k in c.disk && Sees(n, k) == s.data && forall q | q in c.disk && q != k :: Sees(n, q) == Sees(c, q)
  {
    hide Sorted, Keyed;
    ReplaceKeeps(c, Find(c.slots, k), s);
  }

  lemma ReleaseStep(c: Cache, k: Key)
    requires Good(c) && Enabled(c, Brelse(k))
    ensures var i := Find(c.slots, k);
      && i < |c.slots| && c.slots[i].key == k && c.slots[i].refcnt > 0
      && Next(c, Brelse(k)) == Release(c, i) && Good(Release(c, i)) && Release(c, i).disk == c.disk
  {
    ReleaseKeeps(c, Find(c.slots, k));
  }

  /** No step can be told apart from the same step on a plain map. */
  lemma {:induction false} StepRefines(c: Cache, step: Step, m: map<Key, Block>)
    requires Good(c) && Enabled(c, step) && Shows(c, m)
    ensures Good(Next(c, step)) && Shows(Next(c, step), Plain(m, step))
  {
    hide Sorted, Keyed, Get, Fill, Release, Written, Synced;
    var i := Find(c.slots, step.k);
    match step
    case Bread(k) => BreadKeeps(c, k);
    case Edit(k, d) => EditKeeps(c, k, c.slots[i].(data := d));
    case Pin(k) => EditKeeps(c, k, c.slots[i].(dirty := true));
    case Bwrite(k) => WriteKeeps(c, i);
    case Brelse(_) => ReleaseKeeps(c, i);
  }

  lemma WrittenGood(c: Cache, i: nat)
    requires Good(c) && i < |c.slots| && c.slots[i].valid
    ensures Good(Written(c, i))
  {
    var n := Written(c, i);
    assert Keyed(n.slots) && Sorted(n);
    forall j | 0 <= j < |n.slots| ensures Synced(n.slots[j], n.disk) {
      assert Synced(c.slots[j], c.disk);
    }
  }

  /** Writing the buffer to disk: its readers see it already, and so do all others from now on. */
  lemma WriteKeeps(c: Cache, i: nat)
    requires Good(c) && i < |c.slots| && c.slots[i].valid
    ensures var n := Written(c, i);
      Good(n) && n.disk.Keys == c.disk.Keys && forall q | q in c.disk :: Sees(n, q) == Sees(c, q)
  {
    hide Good;
    var n := Written(c, i);
    WrittenGood(c, i);
    WrittenSlot(c, i);
    forall q | q in c.disk ensures Find(n.slots, q) == Find(c.slots, q) {
      SameFind(c.slots, n.slots, q);
    }
  }

  lemma WrittenSlot(c: Cache, i: nat)
    requires Good(c) && i < |c.slots| && c.slots[i].valid
    ensures c.slots[i].key in c.disk && Find(c.slots, c.slots[i].key) == i
  {
    FindIs(c.slots, c.slots[i].key, i);
  }

  /** Only bwrite changes the disk, to what readers of its block see. */
  lemma StepDisk(c: Cache, step: Step, m: map<Key, Block>)
    requires Good(c) && Enabled(c, step) && Shows(c, m)
    ensures Next(c, step).disk == PlainDisk(m, c.disk, step)
  {
    hide Sorted, Keyed;
  }

  /** Once pinned, or written to disk, a held buffer may be let go. */
  lemma MayRelease(c: Cache, k: Key, step: Step)
    requires Good(c) && Held(c, k) && step in {Pin(k), Bwrite(k)}
    ensures Enabled(c, step) && Enabled(Next(c, step), Brelse(k))
    ensures step.Pin? ==> Next(c, step).slots[Find(c.slots, k)].dirty
  {
    hide Sorted;
    var i := Find(c.slots, k);
    if step.Pin? {
      EditKeeps(c, k, c.slots[i].(dirty := true));
    } else {
      WrittenGood(c, i);
    }
    FindIs(Next(c, step).slots, k, i);
  }

  /** The run is allowed at each of its steps. */
  predicate Legal(c: Cache, steps: seq<Step>)
    decreases |steps|
  {
    steps == [] || (Enabled(c, steps[0]) && Legal(Next(c, steps[0]), steps[1..]))
  }

  function Run(c: Cache, steps: seq<Step>): Cache
    requires Legal(c, steps)
    decreases |steps|
  {
    if steps == [] then c else Run(Next(c, steps[0]), steps[1..])
  }

  function RunPlain(m: map<Key, Block>, steps: seq<Step>): map<Key, Block>
    decreases |steps|
  {
    if steps == [] then m else RunPlain(Plain(m, steps[0]), steps[1..])
  }

  /** The disk's block k is what readers of k saw at the last bwrite of it, or was there from the start. */
  lemma {:induction false} DiskIsLastWrite(c: Cache, steps: seq<Step>, m: map<Key, Block>, i: nat, k: Key)
    requires Good(c) && Legal(c, steps) && Shows(c, m) && k in c.disk && i <= |steps|
    requires i > 0 ==> steps[i - 1] == Bwrite(k)
    requires forall j | i <= j < |steps| :: steps[j] != Bwrite(k)
    ensures k in Run(c, steps).disk && k in RunPlain(m, steps[..i])
    ensures Run(c, steps).disk[k] == if i == 0 then c.disk[k] else RunPlain(m, steps[..i])[k]
    decreases |steps|
  {
    hide Good, Sees, Enabled, Next;
    if steps != [] {
      var d, n := Next(c, steps[0]), Plain(m, steps[0]);
      StepRefines(c, steps[0], m);
      StepDisk(c, steps[0], m);
      if i == 0 {
        DiskIsLastWrite(d, steps[1..], n, 0, k);
      } else if i == 1 {
        DiskIsLastWrite(d, steps[1..], n, 0, k);
        assert steps[..1] == [steps[0]] && steps[..1][1..] == [];
      } else {
        DiskIsLastWrite(d, steps[1..], n, i - 1, k);
        assert steps[..i][1..] == steps[1..][..i - 1];
      }
    }
  }

  /** Over every run what readers see is the plain map: no modification is lost, none appears, and the
      list stays sorted by release with every key in it once. */
  lemma {:induction false} CacheIsBlockMap(c: Cache, steps: seq<Step>, m: map<Key, Block>)
    requires Good(c) && Legal(c, steps) && Shows(c, m)
    ensures Good(Run(c, steps)) && Shows(Run(c, steps), RunPlain(m, steps))
    decreases |steps|
  {
    if steps != [] {
      StepRefines(c, steps[0], m);
      CacheIsBlockMap(Next(c, steps[0]), steps[1..], Plain(m, steps[0]));
    }
  }

  /** The buffers as binit leaves them, the last one linked first. */
  function FreshSlots(): (slots: seq<Slot>)
    ensures |slots| == NBUF
  {
    seq(NBUF, i requires 0 <= i < NBUF => Slot(ZERO, false, false, 0, Zero(), NBUF - 1 - i))
  }

  lemma FreshCache(disk: map<Key, Block>)
    ensures Good(Cache(FreshSlots(), NBUF, disk)) && Shows(Cache(FreshSlots(), NBUF, disk), disk)
    ensures forall s | s in FreshSlots() :: Idle(s)
  {
    FreshGood(Cache(FreshSlots(), NBUF, disk));
  }

  lemma FreshGood(c: Cache)
    requires forall i | 0 <= i < |c.slots| :: c.slots[i].key == ZERO && Idle(c.slots[i]) && !c.slots[i].valid
    requires Sorted(c)
    ensures Good(c) && Shows(c, c.disk)
  {
  }

  // bcache.buf[0..NBUF), and bcache.head
  const HEAD: nat := NBUF

  /** Going round next from ring[0] visits ring in order, going round prev in reverse. */
  ghost predicate Linked(next: seq<nat>, prev: seq<nat>, ring: seq<nat>) {
    && |next| == |prev| == NBUF + 1 && |ring| > 0
    && (forall i | 0 <= i < |ring| :: ring[i] <= NBUF)
    && (forall i, j | 0 <= i < j < |ring| :: ring[i] != ring[j])
    && (forall i {:trigger next[ring[i]]} | 0 <= i < |ring| - 1 :: next[ring[i]] == ring[i + 1])
    && (forall i {:trigger prev[ring[i]]} | 0 < i < |ring| :: prev[ring[i]] == ring[i - 1])
    && next[ring[|ring| - 1]] == ring[0] && prev[ring[0]] == ring[|ring| - 1]
  }

  /** Each buffer is in the list once. */
  ghost predicate Permutes(list: seq<nat>) {
    && |list| == NBUF
    && (forall i | 0 <= i < NBUF :: list[i] < NBUF)
    && (forall i, j | 0 <= i < j < NBUF :: list[i] != list[j])
  }

  /** slots is what the buffers in the list hold. Only slots knows when they were released. */
  ghost predicate Holds(buf: seq<Slot>, list: seq<nat>, slots: seq<Slot>) {
    && |buf| == NBUF && |list| == |slots|
    && forall i | 0 <= i < |list| :: list[i] < NBUF && buf[list[i]] == slots[i].(stamp := 0)
  }

  lemma Detached(next: seq<nat>, prev: seq<nat>, ring: seq<nat>, i: nat)
    requires Linked(next, prev, ring) && 0 < i < |ring|
    ensures next[ring[i]] <= NBUF && prev[ring[i]] <= NBUF
    ensures var b := ring[i]; Linked(next[prev[b] := next[b]], prev[next[b] := prev[b]], ring[..i] + ring[i + 1..])
  {
  }

  lemma Attached(next: seq<nat>, prev: seq<nat>, ring: seq<nat>, b: nat)
    requires Linked(next, prev, ring) && b <= NBUF && forall i | 0 <= i < |ring| :: ring[i] != b
    ensures next[ring[0]] <= NBUF
    ensures var h := ring[0]; Linked(next[b := next[h]][h := b], prev[b := h][next[h] := b], [h, b] + ring[1..])
  {
  }

  /** The list after buffer list[i] was released: it moves to the front when nobody uses it. */
  function Moved(list: seq<nat>, i: nat, last: bool): seq<nat>
    requires i < |list|
  {
    if last then [list[i]] + (list[..i] + list[i + 1..]) else list
  }

  lemma MovedPermutes(list: seq<nat>, i: nat)
    requires Permutes(list) && i < NBUF
    ensures Permutes(Moved(list, i, true))
    ensures list[i] !in list[..i] + list[i + 1..]
  {
    var rest := list[..i] + list[i + 1..];
    var t := Moved(list, i, true);
    assert t == [list[i]] + list[..i] + list[i + 1..];
    Rotated(list, t, i);
    forall j, k | 0 <= j < k < NBUF ensures t[j] != t[k] {
      assert t[k] == list[From(i, k)] && t[j] == list[From(i, j)];
    }
    assert forall j | 0 <= j < NBUF - 1 :: rest[j] == t[j + 1];
  }

  lemma RotatedHolds(buf: seq<Slot>, list: seq<nat>, slots: seq<Slot>, i: nat, t: seq<nat>, n: seq<Slot>)
    requires Permutes(list) && Holds(buf, list, slots) && i < NBUF && |t| == |n| == NBUF && t[0] == list[i]
    requires forall j | 1 <= j < NBUF :: t[j] == list[From(i, j)]
    requires forall j | 1 <= j < NBUF :: n[j] == slots[From(i, j)]
    ensures Holds(buf[list[i] := n[0].(stamp := 0)], t, n)
  {
    forall j | 1 <= j < NBUF ensures t[j] < NBUF && t[j] != list[i] {
      var f := From(i, j);
      assert f != i && list[f] != list[i];
    }
  }

  lemma LastHolds(buf: seq<Slot>, list: seq<nat>, c: Cache, i: nat)
    requires Permutes(list) && Holds(buf, list, c.slots) && i < NBUF && c.slots[i].refcnt == 1
    ensures Holds(buf[list[i] := buf[list[i]].(refcnt := 0)], Moved(list, i, true), Release(c, i).slots)
  {
    var t, n := Moved(list, i, true), Release(c, i).slots;
    assert t == [list[i]] + list[..i] + list[i + 1..];
    Rotated(list, t, i);
    MovedAt(c, i);
    hide Release, Moved;
    assert n[0].(stamp := 0) == buf[list[i]].(refcnt := 0) && |list| == |c.slots| == NBUF;
    hide Permutes, Holds;
    RotatedHolds(buf, list, c.slots, i, t, n);
  }

  lemma ReleasedHolds(buf: seq<Slot>, list: seq<nat>, c: Cache, i: nat)
    requires Permutes(list) && Holds(buf, list, c.slots) && i < NBUF && c.slots[i].refcnt > 0
    ensures var s := buf[list[i]].(refcnt := buf[list[i]].refcnt - 1);
      Holds(buf[list[i] := s], Moved(list, i, s.refcnt == 0), Release(c, i).slots)
  {
    assert buf[list[i]].refcnt == c.slots[i].refcnt;
    if c.slots[i].refcnt == 1 {
      LastHolds(buf, list, c, i);
    }
  }

  lemma RingOfOne(next: seq<nat>, prev: seq<nat>)
    requires |next| == |prev| == NBUF + 1 && next[HEAD] == prev[HEAD] == HEAD
    ensures Linked(next, prev, [HEAD])
  {
  }

  lemma FreshHolds(buf: seq<Slot>, list: seq<nat>)
    requires |buf| == |list| == NBUF && forall i | 0 <= i < NBUF :: list[i] == NBUF - 1 - i
    requires forall i | 0 <= i < NBUF :: buf[i] == Slot(ZERO, false, false, 0, Zero(), 0)
    ensures Permutes(list) && Holds(buf, list, FreshSlots())
  {
  }

  class Bcache {
    var buf: array<Slot>
    var next: array<nat>
    var prev: array<nat>
    var disk: map<Key, Block>
    ghost var list: seq<nat>    // from the head on
    ghost var slots: seq<Slot>  // and what they hold
    ghost var clock: int

    ghost function Abs(): Cache
      reads this
    {
      Cache(slots, clock, disk)
    }

    ghost predicate Valid()
      reads this, buf, next, prev
    {
      && next != prev
      && Permutes(list) && Linked(next[..], prev[..], [HEAD] + list)
      && Holds(buf[..], list, slots)
      && Good(Abs())
    }

    /** binit: insert the empty buffers one by one behind the head. */
    constructor (disk: map<Key, Block>)
      ensures Valid() && fresh(buf) && fresh(next) && fresh(prev)
      ensures this.disk == disk && Shows(Abs(), disk) && forall s | s in slots :: Idle(s)
    {
      hide Shows, Good, Idle, Linked, Permutes, Holds, FreshSlots;
      var b := new Slot[NBUF](_ => Slot(ZERO, false, false, 0, Zero(), 0));
      var nx := new nat[NBUF + 1](_ => HEAD);
      var pv := new nat[NBUF + 1](_ => HEAD);
      ghost var l: seq<nat> := [];
      var n := 0;
      RingOfOne(nx[..], pv[..]);
      assert [HEAD] + l == [HEAD];
      while n < NBUF
        invariant n <= NBUF && |l| == n && Linked(nx[..], pv[..], [HEAD] + l)
        invariant forall i | 0 <= i < n :: l[i] == n - 1 - i
        invariant forall i | 0 <= i < NBUF :: b[i] == Slot(ZERO, false, false, 0, Zero(), 0)
      {
        Attached(nx[..], pv[..], [HEAD] + l, n);
        nx[n] := nx[HEAD];
        pv[n] := HEAD;
        pv[nx[HEAD]] := n;
        nx[HEAD] := n;
        assert [HEAD, n] + ([HEAD] + l)[1..] == [HEAD] + ([n] + l);
        l := [n] + l;
        n := n + 1;
      }
      buf, next, prev := b, nx, pv;
      list := l;
      slots := FreshSlots();
      clock := NBUF;
      this.disk := disk;
      new;
      FreshCache(disk);
      FreshHolds(buf[..], list);
    }

    /** The first loop of bget, from the head on. */
    method Lookup(k: Key) returns (r: Option<nat>, ghost i: nat)
      requires Valid()
      ensures i == Find(slots, k) && (r.Some? <==> i < NBUF)
      ensures r.Some? ==> r.value == list[i] < NBUF && buf[r.value].key == k
      ensures r.None? ==> forall j | 0 <= j < NBUF :: buf[list[j]].key != k
    {
      hide Good;
      var b := next[HEAD];
      ghost var ring := [HEAD] + list;
      i := 0;
      while b != HEAD
        invariant i <= NBUF && b == if i < NBUF then list[i] else HEAD
        invariant forall l | 0 <= l < i :: slots[l].key != k
        decreases NBUF - i
      {
        if buf[b].key == k {
          return Some(b), i;
        }
        assert next[ring[i + 1]] == if i + 1 < NBUF then ring[i + 2] else HEAD;
        b := next[b];
        i := i + 1;
      }
      return None, i;
    }

    /** The second loop of bget, backwards from the head. */
    method LookBack() returns (r: Option<nat>, ghost v: int)
      requires Valid()
      ensures v == Victim(slots) && (r.Some? <==> v >= 0)
      ensures r.Some? ==> r.value == list[v] < NBUF && buf[r.value].refcnt == 0 && !buf[r.value].dirty
      ensures forall j | v < j < NBUF :: buf[list[j]].refcnt > 0 || buf[list[j]].dirty
    {
      hide Good;
      var b := prev[HEAD];
      ghost var ring := [HEAD] + list;
      v := NBUF - 1;
      while b != HEAD
        invariant -1 <= v < NBUF && b == if v >= 0 then list[v] else HEAD
        invariant forall l | v < l < NBUF :: !Idle(slots[l])
        decreases v
      {
        if buf[b].refcnt == 0 && !buf[b].dirty {
          return Some(b), v;
        }
        assert prev[ring[v + 1]] == ring[v];
        b := prev[b];
        v := v - 1;
      }
      return None, v;
    }

    method Share(b: nat, ghost i: nat, k: Key)
      requires Valid() && k != ZERO && k in disk
      requires i == Find(slots, k) && i < NBUF && b == list[i]
      modifies this`slots, buf
      ensures Valid() && slots[i].key == k && Abs() == Get(old(Abs()), k)
      ensures old(buf[b]).key == k && buf[..] == old(buf[..])[b := old(buf[b]).(refcnt := old(buf[b]).refcnt + 1)]
    {
      hide Good, Victim, Linked;
      GetGood(Abs(), k);
      buf[b] := buf[b].(refcnt := buf[b].refcnt + 1);
      slots := slots[i := slots[i].(refcnt := buf[b].refcnt)];
      assert Abs() == Get(old(Abs()), k);
    }

    method Reuse(b: nat, ghost i: nat, k: Key)
      requires Valid() && k != ZERO && k in disk && Find(slots, k) == NBUF
      requires i == Victim(slots) && b == list[i]
      modifies this`slots, buf
      ensures Valid() && slots[i].key == k && Abs() == Get(old(Abs()), k)
      ensures old(buf[b]).refcnt == 0 && !old(buf[b]).dirty
      ensures buf[..] == old(buf[..])[b := old(buf[b]).(key := k, valid := false, refcnt := 1)]
    {
      hide Good, Victim, Linked;
      GetGood(Abs(), k);
      buf[b] := buf[b].(key := k, valid := false, dirty := false, refcnt := 1);
      slots := slots[i := slots[i].(key := k, valid := false, dirty := false, refcnt := 1)];
      assert Abs() == Get(old(Abs()), k);
    }

    /** Look through the cache for block k; if it is not there, recycle a buffer. None is the
        panic "bget: no buffers". */
    method Bget(k: Key) returns (r: Option<nat>, ghost i: int)
      requires Valid() && k != ZERO && k in disk
      modifies this`slots, buf
      ensures r.Some? <==> old(Enabled(Abs(), Step.Bread(k)))
      ensures Valid() && (r.Some? ==> 0 <= i < NBUF && list[i] == r.value && slots[i].key == k)
      ensures Abs() == if r.Some? then Get(old(Abs()), k) else old(Abs())
      ensures r.None? <==> forall j | 0 <= j < NBUF ::
        var s := old(buf[list[j]]); s.key != k && (s.refcnt > 0 || s.dirty)
      ensures r.Some? ==> r.value < NBUF && forall j | 0 <= j < NBUF && j != r.value :: buf[j] == old(buf[j])
      ensures r.Some? && old(buf[r.value]).key == k ==>
        buf[r.value] == old(buf[r.value]).(refcnt := old(buf[r.value]).refcnt + 1)
      ensures r.Some? && old(buf[r.value]).key != k ==>
        && old(buf[r.value]).refcnt == 0 && !old(buf[r.value]).dirty
        && buf[r.value] == old(buf[r.value]).(key := k, valid := false, refcnt := 1)
        && (forall j | 0 <= j < NBUF :: old(buf[list[j]]).key != k)
        && (forall j | i < j < NBUF :: old(buf[list[j]]).refcnt > 0 || old(buf[list[j]]).dirty)
    {
      hide Good, Linked, Get;
      r, i := Lookup(k);
      if r.Some? {
        Share(r.value, i, k);
        return;
      }
      r, i := LookBack();
      if r.Some? {
        Reuse(r.value, i, k);
      }
    }

    /** iderw on a buffer that is not valid. */
    method IdeRead(b: nat, ghost i: nat)
      requires buf.Length == NBUF && Permutes(list) && Holds(buf[..], list, slots) && i < NBUF && b == list[i]
      requires !buf[b].valid && buf[b].key in disk
      modifies this`slots, buf
      ensures Holds(buf[..], list, slots) && Abs() == Fill(old(Abs()), i)
      ensures buf[b].valid && buf[b].data == slots[i].data && buf[b].key == old(buf[b]).key
      ensures buf[b].refcnt == old(buf[b]).refcnt && forall j | 0 <= j < NBUF && j != b :: buf[j] == old(buf[j])
    {
      buf[b] := buf[b].(data := disk[buf[b].key], valid := true, dirty := false);
      slots := slots[i := slots[i].(data := buf[b].data, valid := true, dirty := false)];
    }

    /** A buffer that holds block k as its readers see it. */
    method Bread(k: Key) returns (r: Option<nat>, ghost i: int)
      requires Valid() && k != ZERO && k in disk
      modifies this`slots, buf
      ensures r.Some? <==> old(Enabled(Abs(), Step.Bread(k)))
      ensures Valid() && (r.Some? ==> 0 <= i < NBUF && list[i] == r.value && slots[i].key == k)
      ensures Abs() == if r.Some? then Next(old(Abs()), Step.Bread(k)) else old(Abs())
      ensures r.Some? ==> r.value < NBUF && buf[r.value].valid && buf[r.value].data == old(Sees(Abs(), k))
      ensures r.None? <==> forall j | 0 <= j < NBUF ::
        var s := old(buf[list[j]]); s.key != k && (s.refcnt > 0 || s.dirty)
      ensures r.Some? ==> buf[r.value].key == k
      ensures r.Some? ==> buf[r.value].refcnt == if old(buf[r.value]).key == k then old(buf[r.value]).refcnt + 1 else 1
      ensures r.Some? ==> forall j | 0 <= j < NBUF && j != r.value :: buf[j] == old(buf[j])
    {
      hide Good, Find, Sees, Get, Enabled, Next;
      ghost var c := Abs();
      r, i := Bget(k);
      if r.Some? {
        BreadGives(c, k, i);
        if !buf[r.value].valid {
          IdeRead(r.value, i);
        }
      }
    }

    /** Write a held buffer to disk. */
    method Bwrite(b: nat)
      requires Valid() && b < NBUF && Held(Abs(), buf[b].key) && b == list[Find(slots, buf[b].key)]
      modifies this`disk, this`slots, buf
      ensures Valid() && Abs() == Next(old(Abs()), Step.Bwrite(old(buf[b].key)))
      ensures disk == old(disk)[old(buf[b]).key := old(buf[b]).data]
      ensures buf[..] == old(buf[..])[b := old(buf[b]).(dirty := false)]
    {
      hide Good, Linked, Find;
      ghost var i := Find(slots, buf[b].key);
      WrittenGood(Abs(), i);
      buf[b] := buf[b].(dirty := true);
      disk := disk[buf[b].key := buf[b].data];
      buf[b] := buf[b].(dirty := false);
      slots := slots[i := slots[i].(dirty := false)];
      assert Abs() == Written(old(Abs()), i);
    }

    method Detach(b: nat, ghost rest: seq<nat>, ghost i: nat)
      requires next != prev && Linked(next[..], prev[..], [HEAD] + list) && i < |list| && b == list[i]
      requires rest == list[..i] + list[i + 1..]
      modifies next, prev
      ensures Linked(next[..], prev[..], [HEAD] + rest)
    {
      ghost var ring := [HEAD] + list;
      assert ring[..i + 1] + ring[i + 2..] == [HEAD] + rest;
      Detached(next[..], prev[..], ring, i + 1);
      prev[next[b]] := prev[b];
      next[prev[b]] := next[b];
    }

    method Attach(b: nat, ghost rest: seq<nat>)
      requires next != prev && Linked(next[..], prev[..], [HEAD] + rest)
      requires b < NBUF && b !in rest
      modifies next, prev
      ensures Linked(next[..], prev[..], [HEAD] + ([b] + rest))
    {
      ghost var ring := [HEAD] + rest;
      Attached(next[..], prev[..], ring, b);
      assert [HEAD, b] + ring[1..] == [HEAD] + ([b] + rest);
      next[b] := next[HEAD];
      prev[b] := HEAD;
      prev[next[HEAD]] := b;
      next[HEAD] := b;
    }

    /** The body of brelse on the list and the buffer. */
    method Drop(b: nat, ghost i: nat, ghost c: Cache)
      requires next != prev && Permutes(list) && Linked(next[..], prev[..], [HEAD] + list)
      requires Holds(buf[..], list, c.slots) && i < NBUF && b == list[i] && buf[b].refcnt > 0
      modifies this`list, buf, next, prev
      ensures Permutes(list) && Linked(next[..], prev[..], [HEAD] + list)
      ensures Holds(buf[..], list, Release(c, i).slots)
      ensures buf[..] == old(buf[..])[b := old(buf[b]).(refcnt := old(buf[b]).refcnt - 1)]
      ensures list == if buf[b].refcnt > 0 then old(list) else [b] + old(list)[..i] + old(list)[i + 1..]
    {
      ghost var rest := list[..i] + list[i + 1..];
      MovedPermutes(list, i);
      ReleasedHolds(buf[..], list, c, i);
      hide Linked, Permutes, Holds;
      buf[b] := buf[b].(refcnt := buf[b].refcnt - 1);
      if buf[b].refcnt == 0 {
        Detach(b, rest, i);
        Attach(b, rest);
      }
      assert buf[..] == old(buf[..])[b := buf[b]];
      list := Moved(list, i, buf[b].refcnt == 0);
    }

    /** Let go of a buffer whose contents are pinned or on disk. When nobody uses it any more it
        becomes the most recently released. */
    method Brelse(b: nat) returns (ghost i: nat)
      requires Valid() && b < NBUF && Enabled(Abs(), Step.Brelse(buf[b].key)) && b == list[Find(slots, buf[b].key)]
      modifies this`list, this`slots, this`clock, buf, next, prev
      ensures Valid() && Abs() == Next(old(Abs()), Step.Brelse(old(buf[b].key)))
      ensures buf[..] == old(buf[..])[b := old(buf[b]).(refcnt := old(buf[b]).refcnt - 1)]
      ensures i < NBUF && old(list)[i] == b
      ensures list == if buf[b].refcnt > 0 then old(list) else [b] + old(list)[..i] + old(list)[i + 1..]
    {
      hide Good, Linked, Release, Next, Find, Held, Enabled, Moved;
      i := Find(slots, buf[b].key);
      ghost var c := Abs();
      ReleaseStep(c, buf[b].key);
      Drop(b, i, c);
      slots, clock := Release(c, i).slots, Release(c, i).clock;
      assert Abs() == Release(c, i);
    }
  }
}
