/**
 * How many frames setupkvm and copyuvm take (vm.c), and so when copyuvm fails and when it loses a frame.
 */
module VmCost {
  import opened Vm
  import opened VmOps
  import opened VmSpaces
  import opened VmFork
  import opened VmRuns

  // Page tables that are missing ------------------------------------------------------------------

  /** The absent entries of a directory from x to y - 1. */
  function Miss(t: Table, x: nat, y: nat): nat
    requires y <= ENTRIES
    decreases y - x
  {
    if x >= y then 0 else (if t[x].Absent? then 1 else 0) + Miss(t, x + 1, y)
  }

  lemma {:induction false} MissFill(t: Table, u: Table, x: nat, y: nat, z: Idx)
    requires y <= ENTRIES && forall v: Idx :: u[v].Absent? <==> t[v].Absent? && v != z
    ensures Miss(t, x, y) == Miss(u, x, y) + if x <= z < y && t[z].Absent? then 1 else 0
    decreases y - x
  {
    if x < y {
      MissFill(t, u, x + 1, y, z);
    }
  }

  /** When just the entries from lo on are absent. */
  lemma {:induction false} MissFrom(t: Table, x: nat, y: nat, lo: nat)
    requires x <= y <= ENTRIES && forall z: Idx | x <= z < y :: t[z].Absent? <==> z >= lo
    ensures Miss(t, x, y) == if lo <= x then y - x else if lo >= y then 0 else y - lo
    decreases y - x
  {
    if x < y {
      MissFrom(t, x + 1, y, lo);
    }
  }

  lemma WalkCost(m: Mem, d: nat, p: nat)
    requires d in m.dirs && p < PAGES && Closed(m)
    ensures var w := Walk(m, d, p); var c := if m.dirs[d][Pdx(p)].Absent? then 1 else 0;
      && (w.1 <==> c <= |m.free|)
      && (w.1 ==> |w.0.free| == |m.free| - c)
      && (w.1 ==> forall x: Idx :: w.0.dirs[d][x].Absent? <==> m.dirs[d][x].Absent? && x != Pdx(p))
  {
  }

  /** After mapping pages p to p + n - 1 their directory entries are there. */
  ghost predicate Entered(t: Table, u: Table, p: nat, n: nat)
    requires 0 < n && p + n <= PAGES
  {
    forall x: Idx :: u[x].Absent? <==> t[x].Absent? && !(Pdx(p) <= x <= Pdx(p + n - 1))
  }

  /** mappages takes one frame for each page table that is missing. */
  lemma {:induction false} MapCost(m: Mem, d: nat, p: nat, n: nat, f: nat, flags: nat)
    requires d in m.dirs && 0 < n && p + n <= PAGES && Closed(m)
    ensures var r := MapPages(m, d, p, n, f, flags); var c := Miss(m.dirs[d], Pdx(p), Pdx(p + n - 1) + 1);
      && (r.1 <==> c <= |m.free|)
      && (r.1 ==> |r.0.free| == |m.free| - c && Entered(m.dirs[d], r.0.dirs[d], p, n))
    decreases n
  {
    hide Walk, SetPte, Closed, Pdx, Miss, Entered;
    WalkCost(m, d, p);
    InOrder(p, n);
    var w := Walk(m, d, p);
    if w.1 {
      var k := SetPte(w.0, d, Pdx(p), Ptx(p), Pte(f, flags));
      SetIs(w.0, d, p, Pte(f, flags));
      MissFill(m.dirs[d], k.dirs[d], Pdx(p), Pdx(p + n - 1) + 1, Pdx(p));
      if n > 1 {
        MapCost(k, d, p + 1, n - 1, f + 1, flags);
        FromNext(k.dirs[d], p, n);
        var r := MapPages(k, d, p + 1, n - 1, f + 1, flags);
        if r.1 {
          EntersBoth(m.dirs[d], k.dirs[d], r.0.dirs[d], p, n);
        }
      } else {
        MissFrom(k.dirs[d], Pdx(p), Pdx(p) + 1, Pdx(p) + 1);
        MapNone(k, d, p + 1, f + 1, flags);
        EntersOne(m.dirs[d], k.dirs[d], p);
      }
    } else {
      MissFirst(m.dirs[d], Pdx(p), Pdx(p + n - 1) + 1);
    }
  }

  lemma InOrder(p: nat, n: nat)
    requires 0 < n && p + n <= PAGES
    ensures Pdx(p) <= Pdx(p + n - 1)
  {
  }

  lemma EntersOne(t: Table, u: Table, p: nat)
    requires p < PAGES && forall x: Idx :: u[x].Absent? <==> t[x].Absent? && x != Pdx(p)
    ensures Entered(t, u, p, 1)
  {
  }

  lemma EntersBoth(t: Table, k: Table, u: Table, p: nat, n: nat)
    requires 1 < n && p + n <= PAGES && (forall x: Idx :: k[x].Absent? <==> t[x].Absent? && x != Pdx(p))
    requires Entered(k, u, p + 1, n - 1)
    ensures Entered(t, u, p, n)
  {
    assert p + 1 + (n - 1) - 1 == p + n - 1;
  }

  lemma MapNone(m: Mem, d: nat, p: nat, f: nat, flags: nat)
    requires d in m.dirs && p <= PAGES && Closed(m)
    ensures MapPages(m, d, p, 0, f, flags) == (m, true)
  {
  }

  lemma MissFirst(t: Table, x: nat, y: nat)
    requires x < y <= ENTRIES && t[x].Absent?
    ensures Miss(t, x, y) > 0
  {
  }

  /** With the entry of page p there, the rest of the range misses as much from page p + 1 on. */
  lemma FromNext(t: Table, p: nat, n: nat)
    requires 1 < n && p + n <= PAGES && t[Pdx(p)].Pte?
    ensures Miss(t, Pdx(p), Pdx(p + n - 1) + 1) == Miss(t, Pdx(p + 1), Pdx(p + n - 1) + 1)
    ensures Pdx(p) <= Pdx(p + 1) <= Pdx(p) + 1 && Pdx(p + 1) <= Pdx(p + n - 1)
  {
  }

  // setupkvm --------------------------------------------------------------------------------------

  /** The page tables of the kernel half. */
  const KERNTABS: nat := 64

  lemma RangesStep(m: Mem, d: nat, data: nat, i: nat)
    requires d in m.dirs && Closed(m) && 0x100 < data < 0xE000 && i < 4
    ensures |KMap(data)| == 4 && 0 < KMap(data)[i].n && KMap(data)[i].p + KMap(data)[i].n <= PAGES
    ensures var k := KMap(data)[i]; var r := MapPages(m, d, k.p, k.n, k.f, k.flags);
      MapRanges(m, d, KMap(data), i) == (if r.1 then MapRanges(r.0, d, KMap(data), i + 1) else r)
  {
    assert KMap(data)[i] in KMap(data);
  }

  lemma RangesEnd(m: Mem, d: nat, data: nat)
    requires d in m.dirs && Closed(m) && 0x100 < data < 0xE000
    ensures MapRanges(m, d, KMap(data), 4) == (m, true)
  {
  }

  /** The directory after the first i ranges: which entries of the kernel half are still absent. */
  predicate StillAbsent(data: nat, i: nat, x: Idx)
    requires 0 < data
  {
    && x >= USERDIR
    && !(1 <= i && x == USERDIR)
    && !(2 <= i && x <= USERDIR + (data - 1) / ENTRIES)
    && !(3 <= i && x <= 567)
    && !(4 <= i && x >= 1016)
  }

  /** The tables the i-th range takes. */
  function RangeTabs(data: nat, i: nat): int
    requires 0 < data
  {
    if i == 0 then 1 else if i == 1 then (data - 1) / ENTRIES else if i == 2 then 55 - (data - 1) / ENTRIES else 8
  }

  /** The directory entries the i-th range needs. */
  lemma RangeIs(data: nat, i: nat)
    requires 0x100 < data < 0xE000 && i < 4
    ensures var k, q := KMap(data)[i], (data - 1) / ENTRIES;
      && |KMap(data)| == 4 && 0 < k.n && k.p + k.n <= PAGES
      && Pdx(k.p) == (if i <= 1 then USERDIR else if i == 2 then USERDIR + data / ENTRIES else 1016)
      && Pdx(k.p + k.n - 1) ==
         (if i == 0 then USERDIR else if i == 1 then USERDIR + q else if i == 2 then 567 else 1023)
      && q <= 55 && q <= data / ENTRIES <= q + 1
  {
  }

  lemma RangeMiss(t: Table, data: nat, i: nat)
    requires 0x100 < data < 0xE000 && i < 4
    requires forall x: Idx | x >= USERDIR :: t[x].Absent? <==> StillAbsent(data, i, x)
    ensures var k := KMap(data)[i];
      k.p + k.n <= PAGES && 0 < k.n && Miss(t, Pdx(k.p), Pdx(k.p + k.n - 1) + 1) == RangeTabs(data, i)
  {
    hide KMap, Pdx, Miss;
    RangeIs(data, i);
    var k, q := KMap(data)[i], (data - 1) / ENTRIES;
    var first := if i == 1 then USERDIR + 1 else if i == 2 then USERDIR + 1 + q else 0;
    MissFrom(t, Pdx(k.p), Pdx(k.p + k.n - 1) + 1, first);
  }

  lemma RangeEnters(t: Table, u: Table, data: nat, i: nat)
    requires 0x100 < data < 0xE000 && i < 4
    requires forall x: Idx | x >= USERDIR :: t[x].Absent? <==> StillAbsent(data, i, x)
    requires var k := KMap(data)[i]; 0 < k.n && k.p + k.n <= PAGES && Entered(t, u, k.p, k.n)
    ensures forall x: Idx | x >= USERDIR :: u[x].Absent? <==> StillAbsent(data, i + 1, x)
    ensures forall x: Idx | x < USERDIR :: u[x].Absent? <==> t[x].Absent?
  {
    hide KMap, Pdx;
    RangeIs(data, i);
  }

  lemma RangeCost(m: Mem, d: nat, k: Range, c: int)
    requires d in m.dirs && Closed(m) && 0 < k.n && k.p + k.n <= PAGES
    requires Miss(m.dirs[d], Pdx(k.p), Pdx(k.p + k.n - 1) + 1) == c
    ensures var r := MapPages(m, d, k.p, k.n, k.f, k.flags);
      && (r.1 <==> c <= |m.free|)
      && (r.1 ==> |r.0.free| == |m.free| - c && Entered(m.dirs[d], r.0.dirs[d], k.p, k.n))
  {
    hide *;
    MapCost(m, d, k.p, k.n, k.f, k.flags);
  }

  lemma {:induction false} RangesCost(m: Mem, d: nat, data: nat, i: nat)
    requires d in m.dirs && Closed(m) && 0x100 < data < 0xE000 && i <= 4
    requires forall x: Idx | x >= USERDIR :: m.dirs[d][x].Absent? <==> StillAbsent(data, i, x)
    ensures var r := MapRanges(m, d, KMap(data), i); var c := RangesTabs(data, i);
      && (r.1 <==> c <= |m.free|)
      && (r.1 ==> |r.0.free| == |m.free| - c)
      && (r.1 ==> forall x: Idx | x < USERDIR :: r.0.dirs[d][x].Absent? <==> m.dirs[d][x].Absent?)
    decreases 4 - i
  {
    hide MapRanges, MapPages, Closed, KMap, StillAbsent, RangeTabs, Entered, Miss, Pdx, RangesTabs;
    if i == 4 {
      RangesEnd(m, d, data);
      TabsLeft(data, 0);
    } else {
      RangesStep(m, d, data, i);
      var k := KMap(data)[i];
      RangeIs(data, i);
      RangeMiss(m.dirs[d], data, i);
      RangeCost(m, d, k, RangeTabs(data, i));
      TabsLeft(data, i);
      var r := MapPages(m, d, k.p, k.n, k.f, k.flags);
      if r.1 {
        RangeEnters(m.dirs[d], r.0.dirs[d], data, i);
        RangesCost(r.0, d, data, i + 1);
      }
    }
  }

  function RangesTabs(data: nat, i: nat): int
    requires 0 < data && i <= 4
    decreases 4 - i
  {
    if i == 4 then 0 else RangeTabs(data, i) + RangesTabs(data, i + 1)
  }

  lemma TabsLeft(data: nat, i: nat)
    requires 0 < data <= 0xE000 && i < 4
    ensures RangesTabs(data, i) == RangeTabs(data, i) + RangesTabs(data, i + 1) && RangesTabs(data, i + 1) >= 0
    ensures RangesTabs(data, 0) == KERNTABS && RangesTabs(data, 4) == 0
  {
    assert RangesTabs(data, 3) == 8;
    assert RangesTabs(data, 2) == 63 - (data - 1) / ENTRIES;
    assert RangesTabs(data, 1) == 63;
  }

  /** setupkvm takes the directory and the kernel's page tables. */
  lemma SetupCost(m: Mem, data: nat)
    requires Closed(m) && 0x100 < data < 0xE000
    ensures var r := SetupKvm(m, data);
      && (r.1.Some? <==> KERNTABS + 1 <= |m.free|)
      && (r.1.Some? ==> |r.0.free| == |m.free| - KERNTABS - 1)
      && (r.1.Some? ==> forall x: Idx | x < USERDIR :: r.0.dirs[r.1.value][x].Absent?)
  {
    hide MapRanges, FreeVm, Closed;
    if m.free != [] {
      var d := m.free[0];
      RangesCost(AddDir(Take(m), d), d, data, 0);
      TabsLeft(data, 0);
    }
  }

  // copyuvm ---------------------------------------------------------------------------------------

  /** The frames the first r pages of an empty user half take, page tables included. */
  function Needs(r: nat): nat { r + (r + ENTRIES - 1) / ENTRIES }

  /** Some page from p to q - 1 opens a new table and finds one frame left of those the pages before it need. */
  ghost predicate Stuck(p: nat, q: nat, frames: nat)
    requires p <= q
  {
    exists r :: p <= r < q && r % ENTRIES == 0 && frames == Needs(r) - Needs(p) + 1
  }

  lemma NeedsNext(p: nat)
    ensures Needs(p + 1) == Needs(p) + if p % ENTRIES == 0 then 2 else 1
  {
  }

  lemma {:induction false} NeedsGrows(p: nat, r: nat)
    requires p <= r
    ensures Needs(r) >= Needs(p) + (r - p)
  {
  }

  lemma StuckNext(p: nat, q: nat, frames: nat)
    requires p < q
    ensures var c := if p % ENTRIES == 0 then 2 else 1;
      Stuck(p, q, frames) <==> if frames < c then frames == 1 else Stuck(p + 1, q, frames - c)
  {
    NeedsNext(p);
    var c := if p % ENTRIES == 0 then 2 else 1;
    if Stuck(p, q, frames) {
      var r :| p <= r < q && r % ENTRIES == 0 && frames == Needs(r) - Needs(p) + 1;
      if r > p {
        NeedsGrows(p + 1, r);
        assert p + 1 <= r < q && frames - c == Needs(r) - Needs(p + 1) + 1;
      }
    }
    if frames >= c && Stuck(p + 1, q, frames - c) {
      var r :| p + 1 <= r < q && r % ENTRIES == 0 && frames - c == Needs(r) - Needs(p + 1) + 1;
      assert p <= r < q && frames == Needs(r) - Needs(p) + 1;
    }
    assert frames == 1 && c == 2 ==> p <= p < q && frames == Needs(p) - Needs(p) + 1;
  }

  /** The page tables of the user half up to page p are there, and no more. */
  ghost predicate TabsTo(t: Table, p: nat) {
    forall x: Idx | x < USERDIR :: t[x].Absent? <==> x * ENTRIES >= p
  }

  lemma TabsNext(t: Table, u: Table, p: nat)
    requires p < USERPAGES && TabsTo(t, p) && forall x: Idx :: u[x].Absent? <==> t[x].Absent? && x != Pdx(p)
    ensures TabsTo(u, p + 1)
    ensures t[Pdx(p)].Absent? <==> p % ENTRIES == 0
  {
  }

  lemma {:induction false} CopyCost(m: Mem, d: nat, e: nat, p: nat, q: nat, all: set<nat>)
    requires Good(m, all) && e in m.dirs && d != e && p <= q <= USERPAGES
    requires AllPresent(m, d, p, q) && AllAbsent(m, e, p, q)
    requires TabsTo(m.dirs[e], p)
    ensures var r := CopyPages(m, d, e, p, q);
      && (r.1 == Done <==> Needs(q) - Needs(p) <= |m.free|)
      && (r.1.NoTable? <==> Stuck(p, q, |m.free|))
    decreases q - p
  {
    hide Good, Closed, Around, GotPage, GetPage, AllPresent, AllAbsent, Needs, Stuck, TabsTo;
    GoodIs(m, all);
    if p < q {
      FirstPresent(m, d, p, q);
      FirstAbsent(m, e, p, q);
      var src := Entry(m, d, p);
      GetPageKeeps(m, e, p, Bytes(m, src.frame), src.flags, all);
      GetPageCost(m, e, p, Bytes(m, src.frame), src.flags);
      var g := GetPage(m, e, p, Bytes(m, src.frame), src.flags);
      GotNone(m, e, p, Bytes(m, src.frame), src.flags);
      TabsIs(m.dirs[e], p);
      StuckNext(p, q, |m.free|);
      NeedsNext(p);
      NeedsGrows(p + 1, q);
      if g.1 == Done {
        RestAbsent(m, g.0, e, p, q);
        RestPresent(m, g.0, d, e, p, q);
        TabsNext(m.dirs[e], g.0.dirs[e], p);
        CopyCost(g.0, d, e, p + 1, q, all);
      }
    } else {
      NeverStuck(p, q, |m.free|);
    }
  }

  lemma NeverStuck(p: nat, q: nat, frames: nat)
    requires p == q
    ensures !Stuck(p, q, frames)
  {
  }

  lemma TabsIs(t: Table, p: nat)
    requires p < USERPAGES && TabsTo(t, p)
    ensures t[Pdx(p)].Absent? <==> p % ENTRIES == 0
  {
  }

  lemma GotNone(m: Mem, d: nat, p: nat, page: Page, flags: nat)
    requires d in m.dirs && p < PAGES && Closed(m)
    ensures GetPage(m, d, p, page, flags).1 == NoFrame <==> m.free == []
  {
  }

  /**
   * copyuvm of q pages has, when frames are free, one left just where it needs a page table beside the page: after
   * the directory, the kernel's tables and some number of full tables of pages, and before it has copied all.
   */
  predicate Loses(frames: nat, q: nat) {
    && frames >= KERNTABS + 2
    && (frames - KERNTABS - 2) % (ENTRIES + 1) == 0
    && (frames - KERNTABS - 2) / (ENTRIES + 1) * ENTRIES < q
  }

  lemma Multiple(j: nat)
    ensures (ENTRIES + 1) * j % (ENTRIES + 1) == 0 && (ENTRIES + 1) * j / (ENTRIES + 1) == j
    ensures j * ENTRIES % ENTRIES == 0 && Needs(j * ENTRIES) == (ENTRIES + 1) * j
  {
  }

  lemma StuckIs(q: nat, frames: nat)
    ensures Stuck(0, q, frames) <==> Loses(frames + KERNTABS + 1, q)
  {
    hide Needs;
    NeedsNone();
    if Stuck(0, q, frames) {
      var r :| 0 <= r < q && r % ENTRIES == 0 && frames == Needs(r) - Needs(0) + 1;
      Multiple(r / ENTRIES);
    }
    if Loses(frames + KERNTABS + 1, q) {
      var j: nat := (frames - 1) / (ENTRIES + 1);
      Multiple(j);
      StuckAt(j * ENTRIES, q, frames);
    }
  }

  lemma StuckAt(r: nat, q: nat, frames: nat)
    requires r < q && r % ENTRIES == 0 && frames == Needs(r) - Needs(0) + 1
    ensures Stuck(0, q, frames)
  {
  }

  /**
   * copyuvm succeeds if and only if there are frames for the kernel half, the pages and their tables; and it loses a
   * frame if and only if the number of free frames is one of those of Loses.
   */
  lemma {:induction false} CopyUvmCost(m: Mem, d: nat, sz: nat, data: nat, all: set<nat>)
    requires Good(m, all) && d in m.dirs && 0x100 < data < 0xE000 && sz <= KERNBASE && AllPresent(m, d, 0, Up(sz))
    ensures var r := CopyUvm(m, d, sz, data); r.1.Some? <==> KERNTABS + 1 + Needs(Up(sz)) <= |m.free|
    ensures var r := CopyUvm(m, d, sz, data); r.0.held != m.held <==> Loses(|m.free|, Up(sz))
  {
    hide Good, Closed, AllPresent, AllAbsent, SetupKvm, CopyPages, FreeVm, OthersSame;
    hide KernelHalf, SameMaps, Needs, Stuck, Loses;
    GoodIs(m, all);
    SetupKvmIs(m, data, all);
    SetupCost(m, data);
    CopyUvmIs(m, d, sz, data, all);
    var s := SetupKvm(m, data);
    if s.1.Some? {
      var e, q := s.1.value, Up(sz);
      PresentStill(m, s.0, d, e, q);
      FewerAbsent(s.0, e, 0, q, USERPAGES);
      NoTabs(s.0.dirs[e]);
      CopyCost(s.0, d, e, 0, q, all);
      StuckIs(q, |s.0.free|);
      NeedsNone();
    } else {
      FewFrames(|m.free|, Up(sz));
    }
  }

  lemma NeedsNone()
    ensures Needs(0) == 0
  {
  }

  lemma NoTabs(t: Table)
    requires forall x: Idx | x < USERDIR :: t[x].Absent?
    ensures TabsTo(t, 0)
  {
  }

  lemma FewFrames(frames: nat, q: nat)
    requires frames < KERNTABS + 1
    ensures !Loses(frames, q)
  {
  }

  // A run that loses a frame ----------------------------------------------------------------------

  const FRAMES: nat := 133
  const START: Sys := Sys(Mem(seq(FRAMES, i => i + 1), {}, map[], map[], map[]), map[])
  const LOSS: seq<Step> := [Setup, Grow(1, PGSIZE), Fork(1)]

  /** One process of one page forks when 66 frames are free: the fork fails, and one frame is in no one's hands. */
  lemma LossHappens(data: nat) returns (ss: seq<Sys>)
    requires 0x100 < data < 0xE000
    ensures Run(ss, LOSS, data) && ss[0] == START && Booted(START, set f: nat | f in START.mem.free)
    ensures ss[3].sizes == ss[2].sizes == map[1 := PGSIZE] && ss[2].mem.held == {} && |ss[3].mem.held| == 1
  {
    hide Inv, Next, Ready;
    var all := set f: nat | f in START.mem.free;
    BootedInv(START, all, data);
    InvReady(START, all, data);
    FirstSpace(data, all);
    var s1 := Next(START, Setup, data);
    InvReady(s1, all, data);
    OnePage(s1, data, all);
    var s2 := Next(s1, Grow(1, PGSIZE), data);
    InvReady(s2, all, data);
    NoFork(s2, data, all);
    ss := [START, s1, s2, Next(s2, Fork(1), data)];
    assert Taken(ss[0], LOSS[0], ss[1], data) && Taken(ss[1], LOSS[1], ss[2], data);
    assert Taken(ss[2], LOSS[2], ss[3], data);
  }

  lemma FirstSpace(data: nat, all: set<nat>)
    requires 0x100 < data < 0xE000 && Inv(START, all, data) && Ready(START)
    ensures var s1 := Next(START, Setup, data);
      && Inv(s1, all, data) && s1.sizes == map[1 := 0] && s1.mem.held == {} && |s1.mem.free| == FRAMES - KERNTABS - 1
      && 1 in s1.mem.dirs && forall x: Idx | x < USERDIR :: s1.mem.dirs[1][x].Absent?
  {
    SetupKeeps(START, all, data);
    hide Good, Sized, MapRanges, FreeVm, KernelHalf, AllAbsent, OthersSame, SameMaps;
    SetupCost(START.mem, data);
    SetupKvmIs(START.mem, data, all);
  }

  lemma OneFrame(m: Mem)
    requires Closed(m) && 1 in m.dirs && |m.free| == 68 && m.dirs[1][0].Absent?
    ensures AllocUvm(m, 1, 0, PGSIZE).1 == PGSIZE && |AllocUvm(m, 1, 0, PGSIZE).0.free| == 66
  {
    hide GetPage, Closed;
    GetPageCost(m, 1, 0, ZeroPage(), WUP);
    var g := GetPage(m, 1, 0, ZeroPage(), WUP);
    assert AllocPages(g.0, 1, 1, 1) == (g.0, Done);
    assert AllocPages(m, 1, 0, 1) == (g.0, Done);
  }

  lemma OnePage(s1: Sys, data: nat, all: set<nat>)
    requires 0x100 < data < 0xE000 && Inv(s1, all, data) && Ready(s1) && s1.sizes == map[1 := 0] && s1.mem.held == {}
    requires |s1.mem.free| == 68 && 1 in s1.mem.dirs && forall x: Idx | x < USERDIR :: s1.mem.dirs[1][x].Absent?
    ensures var s2 := Next(s1, Grow(1, PGSIZE), data);
      Inv(s2, all, data) && s2.sizes == map[1 := PGSIZE] && s2.mem.held == {} && |s2.mem.free| == 66
  {
    hide Good, Sized, AllocUvm, Around, Image, KernelHalf;
    StepKeepsIff(s1, Grow(1, PGSIZE), all, data);
    SizedIs(s1.mem, s1.sizes, 1, data);
    GrowKeepsIff(s1.mem, 1, 0, PGSIZE, all);
    OneFrame(s1.mem);
  }

  lemma NoFork(s2: Sys, data: nat, all: set<nat>)
    requires 0x100 < data < 0xE000 && Inv(s2, all, data) && Ready(s2)
    requires s2.sizes == map[1 := PGSIZE] && s2.mem.held == {}
    requires |s2.mem.free| == 66
    ensures var s3 := Next(s2, Fork(1), data); s3.sizes == s2.sizes && |s3.mem.held| == 1
  {
    hide Good, Sized, CopyUvm, Image, KernelHalf, AllPresent, OthersSame, SameMaps;
    SizedIs(s2.mem, s2.sizes, 1, data);
    CopyUvmIs(s2.mem, 1, PGSIZE, data, all);
    CopyUvmCost(s2.mem, 1, PGSIZE, data, all);
  }

  // What each step does to the sizes --------------------------------------------------------------

  /** Frames enough to take space d from sz bytes to newsz, page tables included. */
  predicate Suffices(m: Mem, d: nat, sz: nat, newsz: nat)
    requires d in m.dirs
  {
    Up(newsz) - Up(sz) + |NoTables(m.dirs[d], Up(sz), Up(newsz))| <= |m.free|
  }

  lemma GrowSize(s: Sys, d: nat, n: int, all: set<nat>, data: nat)
    requires Inv(s, all, data) && Ready(s) && Enabled(s, Grow(d, n)) && 0x100 < data < 0xE000
    ensures var sz := s.sizes[d];
      Next(s, Grow(d, n), data).sizes == s.sizes[d :=
        if n > 0 && !(sz + n < KERNBASE && Suffices(s.mem, d, sz, sz + n)) then sz
        else if sz + n <= 0 then sz
        else sz + n]
  {
    hide Good, Image, KernelHalf, GrowProc, NoTables;
    assert Image(s.mem, d, s.sizes[d]);
    GrowsIff(s.mem, d, s.sizes[d], n, all);
    GrowKeepsIff(s.mem, d, s.sizes[d], n, all);
  }

  lemma LoadSize(s: Sys, d: nat, newsz: nat, all: set<nat>, data: nat)
    requires Inv(s, all, data) && Ready(s) && Enabled(s, Load(d, newsz)) && 0x100 < data < 0xE000
    ensures var sz := s.sizes[d];
      Next(s, Load(d, newsz), data).sizes ==
        s.sizes[d := if sz <= newsz < KERNBASE && Suffices(s.mem, d, sz, newsz) then newsz else sz]
  {
    hide Good, Image, KernelHalf, AllocUvm, AllocPages, NoTables, AllNew, Around, SameMaps, Cost;
    var m, sz := s.mem, s.sizes[d];
    GoodIs(m, all);
    assert Image(m, d, sz);
    ImageTop(m, d, sz);
    AllocUvmIs(m, d, sz, newsz, all);
    if sz <= newsz < KERNBASE {
      DoneIff(m, d, Up(sz), Up(newsz));
      CostIs(m.dirs[d], Up(sz), Up(newsz));
    }
  }

  /** setupkvm makes a space, of no pages, when the frames suffice. */
  lemma SetupSpace(s: Sys, all: set<nat>, data: nat)
    requires Inv(s, all, data) && Ready(s) && 0x100 < data < 0xE000
    ensures |s.mem.free| < KERNTABS + 1 ==> Next(s, Setup, data).sizes == s.sizes
    ensures |s.mem.free| >= KERNTABS + 1 ==>
      exists e: nat :: e !in s.sizes && Next(s, Setup, data).sizes == s.sizes[e := 0]
  {
    hide Good, Image, KernelHalf, SetupKvm, AllAbsent, SameMaps;
    SetupCost(s.mem, data);
    SetupKvmIs(s.mem, data, all);
  }

  /** And fork a space as big as the parent's. */
  lemma ForkSpace(s: Sys, d: nat, all: set<nat>, data: nat)
    requires Inv(s, all, data) && Ready(s) && Enabled(s, Fork(d)) && 0x100 < data < 0xE000
    ensures var sz, t := s.sizes[d], Next(s, Fork(d), data).sizes;
      if |s.mem.free| < KERNTABS + 1 + Needs(Up(sz)) then t == s.sizes
      else exists e: nat :: e !in s.sizes && t == s.sizes[e := sz]
  {
    hide Good, Image, KernelHalf, CopyUvm, AllPresent, AllAbsent, AllCopied, SameMaps;
    assert Image(s.mem, d, s.sizes[d]);
    ImagePresent(s.mem, d, s.sizes[d]);
    CopyUvmCost(s.mem, d, s.sizes[d], data, all);
    CopyUvmIs(s.mem, d, s.sizes[d], data, all);
  }

  lemma ImagePresent(m: Mem, d: nat, sz: nat)
    requires Image(m, d, sz) && sz < KERNBASE
    ensures AllPresent(m, d, 0, Up(sz))
  {
  }

  // What is lost in a run -------------------------------------------------------------------------

  /** A fork that loses a frame. */
  predicate Losing(s: Sys, step: Step)
    requires Enabled(s, step)
  {
    step.Fork? && Loses(|s.mem.free|, Up(s.sizes[step.d]))
  }

  /** The frames kernel code has after a step, by what it took and gave back itself. */
  function HeldNext(s: Sys, step: Step): set<nat> {
    match step
    case Kalloc => if s.mem.free == [] then s.mem.held else s.mem.held + {s.mem.free[0]}
    case Kfree(f) => s.mem.held - {f}
    case _ => s.mem.held
  }

  /** Exactly the losing forks leave a frame in hand that nobody took. */
  lemma {:induction false} HeldIff(s: Sys, step: Step, all: set<nat>, data: nat)
    requires Good(s.mem, all) && Bounded(s.mem, s.sizes, data) && Ready(s) && 0x100 < data < 0xE000
    requires Enabled(s, step) && !Panics(s, step)
    ensures Next(s, step, data).mem.held == HeldNext(s, step) <==> !Losing(s, step)
    ensures Losing(s, step) ==> exists f :: f !in s.mem.held && Next(s, step, data).mem.held == s.mem.held + {f}
  {
    hide Good, Bounded, KernelHalf, SetupKvm, CopyUvm, AllocUvm, DeallocUvm, FreeVm;
    hide AllPresent, AllAbsent, SameMaps, OthersSame;
    hide Loses, Up, Wrap;
    match step
    case Setup => SetupKvmIs(s.mem, data, all);
    case Load(d, newsz) =>
      BoundedIs(s.mem, s.sizes, d, data);
      AllocUvmIs(s.mem, d, s.sizes[d], newsz, all);
    case Grow(d, n) =>
      BoundedIs(s.mem, s.sizes, d, data);
      GrowBounds(s.mem, d, s.sizes[d], n, all);
    case Fork(d) =>
      BoundedIs(s.mem, s.sizes, d, data);
      CopyUvmIs(s.mem, d, s.sizes[d], data, all);
      CopyUvmCost(s.mem, d, s.sizes[d], data, all);
      OneInHand(s.mem, CopyUvm(s.mem, d, s.sizes[d], data).0, CopyUvm(s.mem, d, s.sizes[d], data).2);
    case Exit(d) => FreeVmIs(s.mem, d, all);
    case Kalloc =>
    case Kfree(_) =>
  }

  lemma OneInHand(m: Mem, n: Mem, got: Got)
    requires HeldAfter(m, n, got)
    ensures n.held != m.held ==> exists f :: f !in m.held && n.held == m.held + {f}
  {
  }

  // owed are the frames kernel code took and has not given back; lost are those losing forks left in hand.
  datatype Books = Books(owed: set<nat>, lost: set<nat>, losses: nat)

  function BooksNext(b: Books, s: Sys, step: Step, t: Sys): Books
    requires Enabled(s, step)
  {
    if Losing(s, step) then Books(b.owed, b.lost + (t.mem.held - s.mem.held), b.losses + 1)
    else b.(owed := HeldNext(s.(mem := s.mem.(held := b.owed)), step))
  }

  /** The books after k steps. */
  function BooksAt(ss: seq<Sys>, steps: seq<Step>, k: nat): Books
    requires k <= |steps| < |ss| && forall i | 0 <= i < k :: Enabled(ss[i], steps[i])
  {
    if k == 0 then Books({}, {}, 0) else BooksNext(BooksAt(ss, steps, k - 1), ss[k - 1], steps[k - 1], ss[k])
  }

  /** Kernel code gives back only what it took. */
  ghost predicate Honest(ss: seq<Sys>, steps: seq<Step>, k: nat)
    requires k <= |steps| < |ss| && forall i | 0 <= i < k :: Enabled(ss[i], steps[i])
  {
    forall i | 0 <= i < k && steps[i].Kfree? :: steps[i].f in BooksAt(ss, steps, i).owed
  }

  ghost predicate Balanced(s: Sys, b: Books) {
    s.mem.held == b.owed + b.lost && b.owed !! b.lost && |b.lost| == b.losses
  }

  lemma BooksBalance(s: Sys, step: Step, t: Sys, b: Books, all: set<nat>, data: nat)
    requires Good(s.mem, all) && Bounded(s.mem, s.sizes, data) && Ready(s) && 0x100 < data < 0xE000
    requires Enabled(s, step) && !Panics(s, step) && t == Next(s, step, data)
    requires Balanced(s, b) && (step.Kfree? ==> step.f in b.owed)
    ensures Balanced(t, BooksNext(b, s, step, t))
  {
    hide Good, Bounded, Ready, Panics, Next, Losing, Enabled;
    HeldIff(s, step, all, data);
    if Losing(s, step) {
      var f :| f !in s.mem.held && t.mem.held == s.mem.held + {f};
      OneLost(s.mem.held, b.owed, b.lost, f);
    } else {
      if s.mem.free != [] {
        FreeNotHeld(s.mem, all);
      }
      OwedNext(s, step, b);
    }
  }

  lemma OneLost(held: set<nat>, owed: set<nat>, lost: set<nat>, f: nat)
    requires held == owed + lost && owed !! lost && f !in held
    ensures held + {f} - held == {f} && held + {f} == owed + (lost + {f})
    ensures owed !! lost + {f} && |lost + {f}| == |lost| + 1
  {
  }

  lemma OwedNext(s: Sys, step: Step, b: Books)
    requires Balanced(s, b) && (step.Kfree? ==> step.f in b.owed) && (s.mem.free != [] ==> s.mem.free[0] !in s.mem.held)
    ensures var owed := HeldNext(s.(mem := s.mem.(held := b.owed)), step);
      HeldNext(s, step) == owed + b.lost && owed !! b.lost
  {
  }

  lemma FreeNotHeld(m: Mem, all: set<nat>)
    requires Good(m, all) && m.free != []
    ensures m.free[0] !in m.held
  {
    assert Owns(m, Free, m.free[0]);
    assert !Owns(m, Held, m.free[0]);
  }

  /**
   * In every run from boot, up to a fork that panics, the frames in hand are those kernel code took and did not give
   * back, and one more for each losing fork: without such a fork none is lost.
   */
  lemma {:induction false} LossesAre(ss: seq<Sys>, steps: seq<Step>, k: nat, all: set<nat>, data: nat)
    requires 0x100 < data < 0xE000 && Run(ss, steps, data) && Booted(ss[0], all) && k <= |steps|
    requires forall i | 0 <= i < k :: Enabled(ss[i], steps[i]) && !Panics(ss[i], steps[i])
    requires Honest(ss, steps, k)
    ensures Good(ss[k].mem, all) && Balanced(ss[k], BooksAt(ss, steps, k))
    ensures (forall i | 0 <= i < k :: !Losing(ss[i], steps[i])) ==> ss[k].mem.held == BooksAt(ss, steps, k).owed
  {
    hide Good, Bounded, Next, Panics, Losing, BooksNext, Balanced;
    FramesAlways(ss, steps, k, all, data);
    if k == 0 {
      FirstBooks(ss, steps);
    } else {
      LossesAre(ss, steps, k - 1, all, data);
      FramesAlways(ss, steps, k - 1, all, data);
      assert Taken(ss[k - 1], steps[k - 1], ss[k], data);
      BooksBalance(ss[k - 1], steps[k - 1], ss[k], BooksAt(ss, steps, k - 1), all, data);
    }
    if forall i | 0 <= i < k :: !Losing(ss[i], steps[i]) {
      NoLosses(ss, steps, k);
      NoneLost(ss[k], BooksAt(ss, steps, k));
    }
  }

  lemma FirstBooks(ss: seq<Sys>, steps: seq<Step>)
    requires |steps| < |ss| && ss[0].mem.held == {}
    ensures Balanced(ss[0], BooksAt(ss, steps, 0))
  {
  }

  lemma {:induction false} NoLosses(ss: seq<Sys>, steps: seq<Step>, k: nat)
    requires k <= |steps| < |ss| && forall i | 0 <= i < k :: Enabled(ss[i], steps[i])
    requires forall i | 0 <= i < k :: !Losing(ss[i], steps[i])
    ensures BooksAt(ss, steps, k).losses == 0
  {
    if k > 0 {
      NoLosses(ss, steps, k - 1);
    }
  }

  lemma NoneLost(s: Sys, b: Books)
    requires Balanced(s, b) && b.losses == 0
    ensures s.mem.held == b.owed
  {
  }
}
