/**
 * setupkvm and copyuvm (vm.c): the kernel half every address space has, and the copy fork makes of the user half.
 */
module VmFork {
  import opened Vm
  import opened VmOps
  import opened VmSpaces

  const PAGES: nat := ENTRIES * ENTRIES

  // The kernel half -------------------------------------------------------------------------------

  /** n pages from page p on are mapped to the frames from f on. */
  datatype Range = Range(p: nat, n: nat, f: nat, flags: nat)

  /** kmap: the kernel's data start at physical page data, which the linker places after the text. */
  function KMap(data: nat): (ks: seq<Range>)
    requires 0x100 < data < 0xE000
    ensures forall k | k in ks :: USERPAGES <= k.p && k.p + k.n <= PAGES
  {
    [Range(0x80000, 0x100, 0, 3), Range(0x80100, data - 0x100, 0x100, 1),
     Range(0x80000 + data, 0xE000 - data, data, 3), Range(0xFE000, 0x2000, 0xFE000, 3)]
  }

  /** What page p of the kernel half maps to: physical memory from KERNBASE up to PHYSTOP, and the devices. */
  function KernelEntry(data: nat, p: nat): Pte
    requires p >= USERPAGES
  {
    if p < 0x8E000 then Pte(p - USERPAGES, if 0x80100 <= p < USERPAGES + data then 1 else 3)
    else if p < 0xFE000 then Absent
    else Pte(p, 3)
  }

  /** What page p maps to after the first i ranges. */
  function MapUpTo(ks: seq<Range>, i: nat, p: nat): Pte
    requires i <= |ks|
  {
    if i == 0 then Absent
    else
      var k := ks[i - 1];
      if k.p <= p < k.p + k.n then Pte(k.f + (p - k.p), k.flags) else MapUpTo(ks, i - 1, p)
  }

  lemma UptoRange(ks: seq<Range>, i: nat, p: nat)
    requires 0 < i <= |ks|
    ensures var k := ks[i - 1];
      MapUpTo(ks, i, p) == if k.p <= p < k.p + k.n then Pte(k.f + (p - k.p), k.flags) else MapUpTo(ks, i - 1, p)
  {
  }

  lemma KMapIs(data: nat, p: nat)
    requires 0x100 < data < 0xE000 && USERPAGES <= p < PAGES
    ensures MapUpTo(KMap(data), 4, p) == KernelEntry(data, p)
  {
    UptoRange(KMap(data), 1, p);
    UptoRange(KMap(data), 2, p);
    UptoRange(KMap(data), 3, p);
  }

  /** No page is mapped twice, so mappages does not panic. */
  lemma KMapApart(data: nat, i: nat, p: nat)
    requires 0x100 < data < 0xE000 && i < 4 && KMap(data)[i].p <= p < KMap(data)[i].p + KMap(data)[i].n
    ensures MapUpTo(KMap(data), i, p) == Absent
  {
    var ks := KMap(data);
    assert MapUpTo(ks, 1, p) == if ks[0].p <= p < ks[0].p + ks[0].n then Pte(ks[0].f + (p - ks[0].p), 3) else Absent;
  }

  function MapRanges(m: Mem, d: nat, ks: seq<Range>, i: nat): (r: (Mem, bool))
    requires d in m.dirs && Closed(m) && i <= |ks| && forall k | k in ks :: USERPAGES <= k.p && k.p + k.n <= PAGES
    ensures Closed(r.0) && OneDir(m, r.0, d)
    decreases |ks| - i
  {
    if i == |ks| then (m, true)
    else
      var r := MapPages(m, d, ks[i].p, ks[i].n, ks[i].f, ks[i].flags);
      if r.1 then MapRanges(r.0, d, ks, i + 1) else r
  }

  function SetupKvm(m: Mem, data: nat): (r: (Mem, Option<nat>))
    requires Closed(m) && 0x100 < data < 0xE000
    ensures Closed(r.0) && (r.1.Some? ==> r.1.value in r.0.dirs)
  {
    if m.free == [] then (m, None)
    else
      var d := m.free[0];
      var r := MapRanges(AddDir(Take(m), d), d, KMap(data), 0);
      if r.1 then (r.0, Some(d)) else (FreeVm(r.0, d), None)
  }

  /** Pages p to p + n - 1 are mapped to the frames from f on. */
  ghost predicate Mapped(m: Mem, d: nat, p: nat, n: nat, f: nat, flags: nat) {
    forall r | p <= r < p + n && r < PAGES :: Entry(m, d, r) == Pte(f + (r - p), flags)
  }

  lemma {:induction false} SetOne(m: Mem, d: nat, p: nat, e: Pte, all: set<nat>)
    requires Good(m, all) && d in m.dirs && USERPAGES <= p < PAGES && HasTable(m, d, Pdx(p))
    ensures var n := SetPte(m, d, Pdx(p), Ptx(p), e); Good(n, all) && Around(m, n, d, p, p + 1) && Entry(n, d, p) == e
  {
    hide Good, SameMaps, Around;
    GoodIs(m, all);
    SetKernelKeeps(m, d, Pdx(p), Ptx(p), e, all);
    SetPteAt(m, d, Pdx(p), Ptx(p), e);
    SameSelf(m);
    OneAround(m, m, SetPte(m, d, Pdx(p), Ptx(p), e), d, p);
  }

  /** mappages in the kernel half: a success maps the whole range, and nothing else changes either way. */
  lemma {:induction false} MapPagesKeeps(m: Mem, d: nat, p: nat, n: nat, f: nat, flags: nat, all: set<nat>)
    requires Good(m, all) && d in m.dirs && USERPAGES <= p && p + n <= PAGES
    ensures var r := MapPages(m, d, p, n, f, flags);
      && Good(r.0, all) && r.0.held == m.held && Around(m, r.0, d, p, p + n)
      && (forall g | g in r.0.free :: g in m.free)
      && (r.1 ==> Mapped(r.0, d, p, n, f, flags))
    decreases n
  {
    hide Good, SameMaps, Around, Mapped, Walk, SetPte;
    GoodIs(m, all);
    if n == 0 {
      AroundSelf(m, d, p, p);
      MappedNone(m, d, p, f, flags);
    } else {
      WalkKeeps(m, d, p, all);
      var w := Walk(m, d, p);
      SameAround(m, w.0, d, p, p + n);
      SameAround(m, w.0, d, p, p + 1);
      if w.1 {
        SetOne(w.0, d, p, Pte(f, flags), all);
        SetIs(w.0, d, p, Pte(f, flags));
        var k := SetPte(w.0, d, Pdx(p), Ptx(p), Pte(f, flags));
        AroundTrans(m, w.0, k, d, p, p + 1, p, p + 1);
        MapPagesKeeps(k, d, p + 1, n - 1, f + 1, flags, all);
        var r := MapPages(k, d, p + 1, n - 1, f + 1, flags);
        AroundTrans(m, k, r.0, d, p, p + 1, p + 1, p + n);
        if r.1 {
          MappedBoth(k, r.0, d, p, n, f, flags);
        }
      }
    }
  }

  lemma SetIs(m: Mem, d: nat, p: nat, e: Pte)
    requires p < PAGES && HasTable(m, d, Pdx(p))
    ensures var n := SetPte(m, d, Pdx(p), Ptx(p), e); n.free == m.free && n.held == m.held && n.dirs == m.dirs
  {
  }

  lemma MappedNone(m: Mem, d: nat, p: nat, f: nat, flags: nat)
    ensures Mapped(m, d, p, 0, f, flags)
  {
  }

  lemma MappedBoth(k: Mem, n: Mem, d: nat, p: nat, c: nat, f: nat, flags: nat)
    requires c > 0 && p + c <= PAGES && Entry(k, d, p) == Pte(f, flags)
    requires Around(k, n, d, p + 1, p + c) && Mapped(n, d, p + 1, c - 1, f + 1, flags)
    ensures Mapped(n, d, p, c, f, flags)
  {
    AroundPage(k, n, d, p + 1, p + c, p);
  }

  /** The kernel half holds the first i ranges. */
  ghost predicate Upto(m: Mem, d: nat, ks: seq<Range>, i: nat)
    requires i <= |ks|
  {
    forall r | USERPAGES <= r < PAGES :: Entry(m, d, r) == MapUpTo(ks, i, r)
  }

  ghost predicate KernelHalf(m: Mem, d: nat, data: nat) {
    forall r | USERPAGES <= r < PAGES :: Entry(m, d, r) == KernelEntry(data, r)
  }

  lemma UptoNext(m: Mem, n: Mem, d: nat, ks: seq<Range>, i: nat)
    requires i < |ks| && Upto(m, d, ks, i) && ks[i].p + ks[i].n <= PAGES
    requires Around(m, n, d, ks[i].p, ks[i].p + ks[i].n) && Mapped(n, d, ks[i].p, ks[i].n, ks[i].f, ks[i].flags)
    ensures Upto(n, d, ks, i + 1)
  {
    forall r | USERPAGES <= r < PAGES ensures Entry(n, d, r) == MapUpTo(ks, i + 1, r) {
      if !(ks[i].p <= r < ks[i].p + ks[i].n) {
        AroundPage(m, n, d, ks[i].p, ks[i].p + ks[i].n, r);
      }
    }
  }

  lemma AroundWider(m: Mem, n: Mem, d: nat, p: nat, q: nat, p': nat, q': nat)
    requires Around(m, n, d, p, q) && p' <= p && q <= q'
    ensures Around(m, n, d, p', q')
  {
  }

  lemma {:induction false} MapRangesKeeps(m: Mem, d: nat, ks: seq<Range>, i: nat, all: set<nat>)
    requires Good(m, all) && d in m.dirs && i <= |ks| && Upto(m, d, ks, i)
    requires forall k | k in ks :: USERPAGES <= k.p && k.p + k.n <= PAGES
    ensures var r := MapRanges(m, d, ks, i);
      && Good(r.0, all) && r.0.held == m.held && Around(m, r.0, d, USERPAGES, PAGES)
      && (forall g | g in r.0.free :: g in m.free)
      && (r.1 ==> Upto(r.0, d, ks, |ks|))
    decreases |ks| - i
  {
    hide Good, Around, Mapped, Upto, MapPages;
    GoodIs(m, all);
    if i == |ks| {
      AroundSelf(m, d, USERPAGES, PAGES);
    } else {
      var k := ks[i];
      assert k in ks;
      MapPagesKeeps(m, d, k.p, k.n, k.f, k.flags, all);
      var r := MapPages(m, d, k.p, k.n, k.f, k.flags);
      AroundWider(m, r.0, d, k.p, k.p + k.n, USERPAGES, PAGES);
      if r.1 {
        UptoNext(m, r.0, d, ks, i);
        MapRangesKeeps(r.0, d, ks, i + 1, all);
        AroundTrans(m, r.0, MapRanges(r.0, d, ks, i + 1).0, d, USERPAGES, PAGES, USERPAGES, PAGES);
      }
    }
  }

  /**
   * setupkvm gives a free frame as a directory with the kernel half mapped and no user page; or, without frames
   * enough, gives every frame it took back.
   */
  lemma {:induction false} SetupKvmIs(m: Mem, data: nat, all: set<nat>)
    requires Good(m, all) && 0x100 < data < 0xE000
    ensures var r := SetupKvm(m, data); Good(r.0, all) && r.0.held == m.held
    ensures SetupKvm(m, data).1 == None ==> var n := SetupKvm(m, data).0; n.dirs == m.dirs && SameMaps(m, n)
    ensures var r := SetupKvm(m, data); r.1.Some? ==>
      var d := r.1.value;
      && d in m.free && d !in m.dirs && r.0.dirs == m.dirs[d := r.0.dirs[d]] && OthersSame(m, r.0, d)
      && KernelHalf(r.0, d, data) && AllAbsent(r.0, d, 0, USERPAGES)
      && (forall g | g in r.0.free :: g in m.free)
  {
    hide Good, Around, SameMaps, OthersSame, Upto, KernelHalf, AllAbsent, MapRanges, FreeVm;
    GoodIs(m, all);
    SameSelf(m);
    if m.free != [] {
      var d := m.free[0];
      var t := Take(m);
      TakeKeeps(m, all);
      AddDirKeeps(t, d, all);
      var k := AddDir(t, d);
      SameTrans(m, t, k);
      FreshDir(t, d, data);
      var r := MapRanges(k, d, KMap(data), 0);
      MapRangesKeeps(k, d, KMap(data), 0, all);
      SetupEffect(m, k, r.0, d);
      if r.1 {
        UptoAll(k, r.0, d, data);
      } else {
        FreeVmIs(r.0, d, all);
        var n := FreeVm(r.0, d);
        assert n.dirs == m.dirs;
        SetupUndone(m, r.0, n, d);
      }
    }
  }

  lemma FreshDir(t: Mem, d: nat, data: nat)
    requires 0x100 < data < 0xE000
    ensures Upto(AddDir(t, d), d, KMap(data), 0) && AllAbsent(AddDir(t, d), d, 0, USERPAGES)
  {
  }

  lemma SetupEffect(m: Mem, k: Mem, n: Mem, d: nat)
    requires SameMaps(m, k) && Around(k, n, d, USERPAGES, PAGES)
    ensures OthersSame(m, n, d)
  {
    forall e, x, y | e != d ensures SameAt(m, n, e, x, y) {
      assert SameAt(m, k, e, x, y) && SameAt(k, n, e, x, y);
    }
  }

  lemma UptoAll(k: Mem, n: Mem, d: nat, data: nat)
    requires 0x100 < data < 0xE000 && Upto(n, d, KMap(data), 4)
    requires Around(k, n, d, USERPAGES, PAGES) && AllAbsent(k, d, 0, USERPAGES)
    ensures KernelHalf(n, d, data) && AllAbsent(n, d, 0, USERPAGES)
  {
    forall r | USERPAGES <= r < PAGES ensures Entry(n, d, r) == KernelEntry(data, r) {
      KMapIs(data, r);
    }
    forall r | 0 <= r < USERPAGES ensures Entry(n, d, r) == Absent {
      AroundPage(k, n, d, USERPAGES, PAGES, r);
    }
  }

  lemma SetupUndone(m: Mem, k: Mem, n: Mem, d: nat)
    requires OthersSame(m, k, d) && OthersSame(k, n, d) && d !in m.dirs && d !in n.dirs
    ensures SameMaps(m, n)
  {
    forall e, x, y ensures SameAt(m, n, e, x, y) {
      if e != d {
        assert SameAt(m, k, e, x, y) && SameAt(k, n, e, x, y);
      }
    }
  }

  // copyuvm ---------------------------------------------------------------------------------------

  ghost predicate AllPresent(m: Mem, d: nat, p: nat, q: nat) {
    forall r | p <= r < q <= USERPAGES :: Entry(m, d, r).Pte?
  }

  /** Each page is mapped in e with the flags it has in d, to a frame that was free and holds a copy of d's page. */
  ghost predicate AllCopied(m: Mem, n: Mem, d: nat, e: nat, p: nat, q: nat) {
    forall r | p <= r < q <= USERPAGES ::
      Entry(m, d, r).Pte? && GotPage(m, n, e, r, Bytes(m, Entry(m, d, r).frame), Entry(m, d, r).flags)
  }

  /** The loop of copyuvm; an absent page, where the source panics, stops it. */
  function CopyPages(m: Mem, d: nat, e: nat, p: nat, q: nat): (r: (Mem, Got))
    requires e in m.dirs && q <= USERPAGES && Closed(m)
    ensures Closed(r.0) && OneDir(m, r.0, e)
    decreases q - p
  {
    if p >= q then (m, Done)
    else
      var src := Entry(m, d, p);
      if src == Absent then (m, NoFrame)
      else
        var g := GetPage(m, e, p, Bytes(m, src.frame), src.flags);
        if g.1 == Done then CopyPages(g.0, d, e, p + 1, q) else g
  }

  function CopyUvm(m: Mem, d: nat, sz: nat, data: nat): (r: (Mem, Option<nat>, Got))
    requires Closed(m) && 0x100 < data < 0xE000 && sz <= KERNBASE
    ensures Closed(r.0)
  {
    var s := SetupKvm(m, data);
    if s.1 == None then (s.0, None, NoFrame)
    else
      var c := CopyPages(s.0, d, s.1.value, 0, Up(sz));
      if c.1 == Done then (c.0, s.1, Done) else (FreeVm(c.0, s.1.value), None, c.1)
  }

  lemma {:induction false} CopyPagesKeeps(m: Mem, d: nat, e: nat, p: nat, q: nat, all: set<nat>)
    requires Good(m, all) && e in m.dirs && d != e && p <= q <= USERPAGES
    requires AllPresent(m, d, p, q) && AllAbsent(m, e, p, q)
    ensures var r := CopyPages(m, d, e, p, q);
      && Good(r.0, all) && Around(m, r.0, e, p, q) && HeldAfter(m, r.0, r.1)
      && (forall g | g in r.0.free :: g in m.free)
      && (r.1 == Done ==> AllCopied(m, r.0, d, e, p, q))
    decreases q - p
  {
    hide Good, Around, GotPage, GetPage, AllCopied, AllPresent, AllAbsent;
    GoodIs(m, all);
    if p < q {
      FirstPresent(m, d, p, q);
      FirstAbsent(m, e, p, q);
      var src := Entry(m, d, p);
      GetPageKeeps(m, e, p, Bytes(m, src.frame), src.flags, all);
      var g := GetPage(m, e, p, Bytes(m, src.frame), src.flags);
      RestAbsent(m, g.0, e, p, q);
      RestPresent(m, g.0, d, e, p, q);
      if g.1 == Done {
        CopyPagesKeeps(g.0, d, e, p + 1, q, all);
        var r := CopyPages(g.0, d, e, p + 1, q);
        AroundTrans(m, g.0, r.0, e, p, p + 1, p + 1, q);
        if r.1 == Done {
          CopiedBoth(m, g.0, r.0, d, e, p, q);
        }
      } else {
        AroundMore(m, g.0, e, p, q);
      }
    } else {
      AroundSelf(m, e, p, q);
      CopiedNone(m, d, e, p, q);
    }
  }

  lemma FirstPresent(m: Mem, d: nat, p: nat, q: nat)
    requires AllPresent(m, d, p, q) && p < q <= USERPAGES
    ensures Entry(m, d, p).Pte?
  {
  }

  /** A change to space e leaves every page of d as it is. */
  lemma OtherPage(m: Mem, n: Mem, d: nat, e: nat, p: nat, q: nat, r: nat)
    requires Around(m, n, e, p, q) && d != e && r < USERPAGES
    ensures Entry(n, d, r) == Entry(m, d, r)
    ensures Entry(m, d, r).Pte? ==> Bytes(n, Entry(m, d, r).frame) == Bytes(m, Entry(m, d, r).frame)
  {
    assert SameAt(m, n, d, Pdx(r), Ptx(r));
  }

  lemma RestPresent(m: Mem, n: Mem, d: nat, e: nat, p: nat, q: nat)
    requires AllPresent(m, d, p, q) && Around(m, n, e, p, p + 1) && d != e
    ensures AllPresent(n, d, p + 1, q)
  {
    forall r | p + 1 <= r < q <= USERPAGES ensures Entry(n, d, r).Pte? {
      OtherPage(m, n, d, e, p, p + 1, r);
    }
  }

  lemma CopiedNone(m: Mem, d: nat, e: nat, p: nat, q: nat)
    requires p >= q
    ensures AllCopied(m, m, d, e, p, q)
  {
  }

  lemma CopiedBoth(m: Mem, k: Mem, n: Mem, d: nat, e: nat, p: nat, q: nat)
    requires p < q <= USERPAGES && d != e && Entry(m, d, p).Pte?
    requires GotPage(m, k, e, p, Bytes(m, Entry(m, d, p).frame), Entry(m, d, p).flags)
    requires Around(m, k, e, p, p + 1) && Around(k, n, e, p + 1, q) && AllCopied(k, n, d, e, p + 1, q)
    requires forall f | f in k.free :: f in m.free
    ensures AllCopied(m, n, d, e, p, q)
  {
    AroundPage(k, n, e, p + 1, q, p);
    forall r | p < r < q
      ensures Entry(m, d, r).Pte? && GotPage(m, n, e, r, Bytes(m, Entry(m, d, r).frame), Entry(m, d, r).flags)
    {
      OtherPage(m, k, d, e, p, p + 1, r);
      assert GotPage(k, n, e, r, Bytes(k, Entry(k, d, r).frame), Entry(k, d, r).flags);
    }
  }

  /**
   * copyuvm gives a new space that maps the parent's pages with the same flags to copies of their own, or gives
   * back all of it; only when a page table could not be had does one frame stay in hand, the one meant for the page.
   */
  lemma {:induction false} CopyUvmIs(m: Mem, d: nat, sz: nat, data: nat, all: set<nat>)
    requires Good(m, all) && d in m.dirs && 0x100 < data < 0xE000 && sz <= KERNBASE && AllPresent(m, d, 0, Up(sz))
    ensures var r := CopyUvm(m, d, sz, data); Good(r.0, all) && HeldAfter(m, r.0, r.2)
    ensures CopyUvm(m, d, sz, data).1 == None ==> var n := CopyUvm(m, d, sz, data).0; n.dirs == m.dirs && SameMaps(m, n)
    ensures var r := CopyUvm(m, d, sz, data); r.1.Some? ==>
      var e := r.1.value;
      && e in m.free && e !in m.dirs && r.0.dirs == m.dirs[e := r.0.dirs[e]] && OthersSame(m, r.0, e) && r.2 == Done
      && KernelHalf(r.0, e, data) && AllCopied(m, r.0, d, e, 0, Up(sz)) && AllAbsent(r.0, e, Up(sz), USERPAGES)
  {
    hide Good, Around, SameMaps, OthersSame, KernelHalf, AllAbsent, AllPresent, AllCopied, SetupKvm, CopyPages, FreeVm;
    GoodIs(m, all);
    SetupKvmIs(m, data, all);
    var s := SetupKvm(m, data);
    if s.1.Some? {
      var e, q := s.1.value, Up(sz);
      PresentStill(m, s.0, d, e, q);
      FewerAbsent(s.0, e, 0, q, USERPAGES);
      CopyPagesKeeps(s.0, d, e, 0, q, all);
      var c := CopyPages(s.0, d, e, 0, q);
      CopyEffect(m, s.0, c.0, e, q);
      if c.1 == Done {
        CopiedFrom(m, s.0, c.0, d, e, q);
        HalvesKept(s.0, c.0, e, q, data);
      } else {
        FreeVmIs(c.0, e, all);
        SetupUndone(m, c.0, FreeVm(c.0, e), e);
      }
    }
  }

  lemma PresentStill(m: Mem, k: Mem, d: nat, e: nat, q: nat)
    requires OthersSame(m, k, e) && d != e && AllPresent(m, d, 0, q)
    ensures AllPresent(k, d, 0, q)
  {
    forall r | 0 <= r < q <= USERPAGES ensures Entry(k, d, r).Pte? {
      assert Entry(m, d, r).Pte? && SameAt(m, k, d, Pdx(r), Ptx(r));
    }
  }

  lemma CopyEffect(m: Mem, k: Mem, n: Mem, e: nat, q: nat)
    requires OthersSame(m, k, e) && Around(k, n, e, 0, q)
    ensures OthersSame(m, n, e)
  {
    forall g, x, y | g != e ensures SameAt(m, n, g, x, y) {
      assert SameAt(m, k, g, x, y) && SameAt(k, n, g, x, y);
    }
  }

  lemma CopiedFrom(m: Mem, k: Mem, n: Mem, d: nat, e: nat, q: nat)
    requires OthersSame(m, k, e) && d != e && AllCopied(k, n, d, e, 0, q) && forall f | f in k.free :: f in m.free
    ensures AllCopied(m, n, d, e, 0, q)
  {
    forall r | 0 <= r < q <= USERPAGES
      ensures Entry(m, d, r).Pte? && GotPage(m, n, e, r, Bytes(m, Entry(m, d, r).frame), Entry(m, d, r).flags)
    {
      assert SameAt(m, k, d, Pdx(r), Ptx(r));
      assert GotPage(k, n, e, r, Bytes(k, Entry(k, d, r).frame), Entry(k, d, r).flags);
    }
  }

  lemma HalvesKept(k: Mem, n: Mem, e: nat, q: nat, data: nat)
    requires Around(k, n, e, 0, q) && q <= USERPAGES && KernelHalf(k, e, data) && AllAbsent(k, e, 0, USERPAGES)
    ensures KernelHalf(n, e, data) && AllAbsent(n, e, q, USERPAGES)
  {
    forall r | q <= r < PAGES ensures Entry(n, e, r) == Entry(k, e, r) {
      AroundPage(k, n, e, 0, q, r);
    }
  }
}
