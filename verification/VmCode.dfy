/**
 * vm.c as code over physical memory: the free list, the directories and page tables that lie in frames,
 * and the contents of the other frames.
 *
 * Each method is the function of VmOps, VmSpaces, VmFork or VmBytes it is named for. The methods step
 * through addresses, the functions through pages; held names the frames that kernel code has taken and
 * not yet put anywhere, which the code knows only by its local variables.
 */
module VmCode {
  import opened Vm
  import opened VmOps
  import opened VmSpaces
  import opened VmFork
  import opened VmBytes
  import VmRuns

  function RoundUp(a: nat): nat { (a + PGSIZE - 1) / PGSIZE * PGSIZE }
  function RoundDown(a: nat): nat { a / PGSIZE * PGSIZE }

  /** No page table is free, or serves two directory entries. */
  ghost predicate TabsOnce(m: Mem) {
    && NoDup(m.free)
    && (forall d, x, f :: Owns(m, Tab(d, x), f) ==> f !in m.free)
    && (forall d, x, e, y, f :: Owns(m, Tab(d, x), f) && Owns(m, Tab(e, y), f) ==> d == e && x == y)
  }

  lemma GoodTabs(m: Mem, all: set<nat>)
    requires Good(m, all)
    ensures TabsOnce(m)
  {
    forall d, x, f | Owns(m, Tab(d, x), f) ensures f !in m.free {
      assert !Owns(m, Free, f);
    }
  }

  lemma WalkTabs(m: Mem, d: nat, p: nat)
    requires TabsOnce(m) && Closed(m) && d in m.dirs && p < PAGES
    ensures var n := Walk(m, d, p).0; TabsOnce(n) && forall r: nat | r < PAGES :: Entry(n, d, r) == Entry(m, d, r)
  {
    if m.dirs[d][Pdx(p)] == Absent && m.free != [] {
      TableTabs(m, d, Pdx(p));
    }
  }

  lemma TableTabs(m: Mem, d: nat, x: Idx)
    requires TabsOnce(m) && Closed(m) && d in m.dirs && m.dirs[d][x] == Absent && m.free != []
    ensures var n := AddTable(Take(m), d, x, m.free[0]);
      TabsOnce(n) && forall r: nat | r < PAGES :: Entry(n, d, r) == Entry(m, d, r)
  {
    var n := AddTable(Take(m), d, x, m.free[0]);
    var t := m.free[0];
    assert t in m.free && t !in n.free && forall g | g in n.free :: g in m.free;
    forall e, y, f ensures Owns(n, Tab(e, y), f) <==> if e == d && y == x then f == t else Owns(m, Tab(e, y), f) {
    }
    forall e, y, g, z, f | Owns(n, Tab(e, y), f) && Owns(n, Tab(g, z), f) ensures e == g && y == z {
      assert Owns(m, Tab(e, y), f) ==> f != t;
      assert Owns(m, Tab(g, z), f) ==> f != t;
    }
    forall r: nat | r < PAGES ensures Entry(n, d, r) == Entry(m, d, r) {
      if m.dirs[d][Pdx(r)].Pte? {
        assert Owns(m, Tab(d, Pdx(r)), m.dirs[d][Pdx(r)].frame);
      }
    }
  }

  lemma SetTabs(m: Mem, d: nat, p: nat, e: Pte)
    requires TabsOnce(m) && p < PAGES && HasTable(m, d, Pdx(p))
    ensures var n := SetPte(m, d, Pdx(p), Ptx(p), e);
      TabsOnce(n) && forall r: nat | r < PAGES && r != p :: Entry(n, d, r) == Entry(m, d, r)
  {
    var n := SetPte(m, d, Pdx(p), Ptx(p), e);
    forall g, x, f ensures Owns(n, Tab(g, x), f) <==> Owns(m, Tab(g, x), f) {
    }
    forall r: nat | r < PAGES && r != p ensures Entry(n, d, r) == Entry(m, d, r) {
      if HasTable(m, d, Pdx(r)) {
        assert Owns(m, Tab(d, Pdx(r)), m.dirs[d][Pdx(r)].frame) && Owns(m, Tab(d, Pdx(p)), m.dirs[d][Pdx(p)].frame);
        assert Pdx(r) == Pdx(p) ==> Ptx(r) != Ptx(p);
      }
    }
  }

  /** One turn of mappages, with what the next turn needs. */
  lemma MapStep(m: Mem, d: nat, p: nat, n: nat, f: nat, flags: nat)
    requires TabsOnce(m) && Closed(m) && d in m.dirs && n > 0 && p + n <= PAGES
    requires forall q | p <= q < p + n :: Entry(m, d, q) == Absent
    ensures var w := Walk(m, d, p);
      if w.1 then
        var k := SetPte(w.0, d, Pdx(p), Ptx(p), Pte(f, flags));
        && Closed(k) && TabsOnce(k) && d in k.dirs && (forall q | p < q < p + n :: Entry(k, d, q) == Absent)
        && MapPages(m, d, p, n, f, flags) == (if n == 1 then (k, true) else MapPages(k, d, p + 1, n - 1, f + 1, flags))
      else MapPages(m, d, p, n, f, flags) == w
  {
    hide TabsOnce, Entry, SetPte;
    WalkTabs(m, d, p);
    var w := Walk(m, d, p);
    if w.1 {
      SetTabs(w.0, d, p, Pte(f, flags));
      var k := SetPte(w.0, d, Pdx(p), Ptx(p), Pte(f, flags));
      assert k.dirs == w.0.dirs by {
        SetIs(w.0, d, p, Pte(f, flags));
      }
    }
  }

  lemma SetTables(w: Mem, n: Mem, d: nat, p: nat, e: Pte)
    requires p < PAGES && HasTable(w, d, Pdx(p))
    requires var t := w.dirs[d][Pdx(p)].frame; n == w.(tables := w.tables[t := w.tables[t][Ptx(p) := e]])
    ensures n == SetPte(w, d, Pdx(p), Ptx(p), e)
  {
  }

  /** One turn of allocuvm or copyuvm: kalloc, fill, mappages of one page. */
  lemma PageTurn(m: Mem, d: nat, p: nat, page: Page, flags: nat)
    requires d in m.dirs && p < PAGES && Closed(m) && m.free != []
    ensures Closed(Fill(Take(m), m.free[0], page))
    ensures var f := m.free[0]; var k := Fill(Take(m), f, page); var w := MapPages(k, d, p, 1, f, flags);
      GetPage(m, d, p, page, flags) == if w.1 then (w.0.(held := w.0.held - {f}), Done) else (k, NoTable(f))
  {
    var f := m.free[0];
    var k := Fill(Take(m), f, page);
    var w := Walk(k, d, p);
    if w.1 {
      var n := SetPte(w.0, d, Pdx(p), Ptx(p), Pte(f, flags));
      assert MapPages(k, d, p, 1, f, flags) == MapPages(n, d, p + 1, 0, f + 1, flags);
      assert AddPage(w.0, d, Pdx(p), Ptx(p), Pte(f, flags)) == n.(held := n.held - {f});
    }
  }

  lemma NoPage(m: Mem, d: nat, p: nat, page: Page, flags: nat)
    requires d in m.dirs && p < PAGES && Closed(m) && m.free == []
    ensures GetPage(m, d, p, page, flags) == (m, NoFrame)
  {
  }

  /** A failed turn leaves memory as kalloc and the copy made it. */
  lemma FailedTurn(k: Mem, d: nat, p: nat, f: nat, flags: nat)
    requires d in k.dirs && p < PAGES && Closed(k)
    ensures !MapPages(k, d, p, 1, f, flags).1 ==> MapPages(k, d, p, 1, f, flags).0 == k
  {
    if Walk(k, d, p).1 {
      assert MapPages(SetPte(Walk(k, d, p).0, d, Pdx(p), Ptx(p), Pte(f, flags)), d, p + 1, 0, f + 1, flags).1;
    }
  }

  /** Between kalloc and mappages: page p of space d is still unmapped, and no frame is shared. */
  lemma ReadyToMap(m: Mem, d: nat, p: nat, page: Page, all: set<nat>)
    requires Good(m, all) && m.free != [] && p < PAGES
    ensures var k := Fill(Take(m), m.free[0], page);
      Good(k, all) && TabsOnce(k) && Closed(k) && Entry(k, d, p) == Entry(m, d, p)
  {
    hide SameMaps;
    TakeKeeps(m, all);
    FillKeeps(Take(m), m.free[0], page, all);
    var k := Fill(Take(m), m.free[0], page);
    SameTrans(m, Take(m), k);
    SameEntry(m, k, d, p);
    GoodTabs(k, all);
  }

  /** One turn of deallocuvm: the frame is freed and the entry cleared. */
  lemma DropTurn(m: Mem, n: Mem, d: nat, p: nat, all: set<nat>)
    requires Good(m, all) && p < USERPAGES && HasTable(m, d, Pdx(p)) && Entry(m, d, p).Pte?
    requires var f := Entry(m, d, p).frame; var r := Release(m, f); var t := m.dirs[d][Pdx(p)].frame;
      n == r.(tables := m.tables[t := m.tables[t][Ptx(p) := Absent]])
    ensures n == DropPage(m, d, p) && Entry(m, d, p).frame in all
  {
    hide Good;
    RemovePageKeeps(m, d, Pdx(p), Ptx(p), all);
    var f := Entry(m, d, p).frame;
    assert m.held + {f} - {f} == m.held - {f};
  }

  lemma DeallocStep(m: Mem, d: nat, p: nat, q: nat)
    requires Closed(m) && p < q <= USERPAGES && d in m.dirs
    ensures DeallocPages(m, d, p, q) == DeallocPages(DropPage(m, d, p), d, p + 1, q)
    ensures m.dirs[d][Pdx(p)] == Absent ==> DeallocPages(m, d, p, q) == DeallocPages(m, d, (Pdx(p) + 1) * ENTRIES, q)
  {
    if m.dirs[d][Pdx(p)] == Absent {
      JumpIsSame(m, d, p, q);
    }
  }

  lemma JumpPast(p: nat)
    requires p < USERPAGES
    ensures p * PGSIZE / PGSIZE == p && p < (Pdx(p) + 1) * ENTRIES <= USERPAGES
  {
  }

  lemma DeallocEnd(m: Mem, d: nat, p: nat, q: nat)
    requires Closed(m) && p >= q && q <= USERPAGES
    ensures DeallocPages(m, d, p, q) == m
  {
  }

  lemma AllocStep(m: Mem, d: nat, p: nat, q: nat, all: set<nat>)
    requires Good(m, all) && d in m.dirs && p < q <= USERPAGES && AllAbsent(m, d, p, USERPAGES)
    ensures Closed(m) && Entry(m, d, p) == Absent
    ensures var g := GetPage(m, d, p, ZeroPage(), WUP);
      && Good(g.0, all) && AllocPages(m, d, p, q) == (if g.1 == Done then AllocPages(g.0, d, p + 1, q) else g)
      && AllAbsent(g.0, d, p + 1, USERPAGES) && (m.free == [] ==> g == (m, NoFrame))
      && (g.1.NoTable? ==> g.1.frame in all)
  {
    hide Around;
    GetPageKeeps(m, d, p, ZeroPage(), WUP, all);
    var g := GetPage(m, d, p, ZeroPage(), WUP);
    RestAbsent(m, g.0, d, p, USERPAGES);
    assert m.free != [] ==> Owns(m, Free, m.free[0]);
  }

  /** allocuvm from what its loop came to. */
  lemma AllocOutcome(m: Mem, d: nat, oldsz: nat, newsz: nat, all: set<nat>)
    requires Good(m, all) && d in m.dirs && AllAbsent(m, d, Up(oldsz), USERPAGES) && oldsz <= newsz < KERNBASE
    ensures Closed(m) && Good(AllocUvm(m, d, oldsz, newsz).0, all)
    ensures var r := AllocPages(m, d, Up(oldsz), Up(newsz));
      && (r.1 == Done ==> AllocUvm(m, d, oldsz, newsz) == (r.0, newsz))
      && (r.1 == NoFrame ==> AllocUvm(m, d, oldsz, newsz) == (DeallocUvm(r.0, d, newsz, oldsz).0, 0))
      && (r.1.NoTable? ==> AllocUvm(m, d, oldsz, newsz) == (Release(DeallocUvm(r.0, d, newsz, oldsz).0, r.1.frame), 0))
  {
    hide Good, AllAbsent, AllocPages, DeallocUvm;
    AllocUvmIs(m, d, oldsz, newsz, all);
    GoodIs(m, all);
  }

  lemma AllocEnd(m: Mem, d: nat, p: nat, q: nat)
    requires Closed(m) && p >= q && q <= PAGES && d in m.dirs
    ensures AllocPages(m, d, p, q) == (m, Done)
  {
  }

  lemma FreeReady(m: Mem, k: Mem, d: nat, all: set<nat>)
    requires Good(k, all) && Closed(m) && d in m.dirs && k == DeallocPages(m, d, 0, USERPAGES) && Good(m, all)
    ensures d in k.dirs && Good(DropDir(k, d), all) && k.dirs == m.dirs
    ensures NoDup(TabList(k.dirs[d], 0) + [d]) && forall f | f in TabList(k.dirs[d], 0) + [d] :: f in DropDir(k, d).held
  {
    hide Good, NoDup, TabList, DeallocPages;
    DeallocPagesKeeps(m, d, 0, USERPAGES, all);
    UserAbsent(k, d);
    DropDirKeeps(k, d, all);
    TablesDiffer(k, d, all);
    assert forall f | f in TabList(k.dirs[d], 0) + [d] :: f in Elems(TabList(k.dirs[d], 0) + [d]);
  }

  /** One turn of freevm's loop over the directory. */
  lemma FreeStep(m: Mem, t: Table, i: nat, d: nat, all: set<nat>)
    requires Good(m, all) && i < ENTRIES && NoDup(TabList(t, i) + [d])
    requires forall f | f in TabList(t, i) + [d] :: f in m.held
    ensures NoDup(TabList(t, i + 1) + [d])
    ensures var n := if t[i].Pte? then Release(m, t[i].frame) else m;
      && Good(n, all) && (forall f | f in TabList(t, i + 1) + [d] :: f in n.held)
      && ReleaseAll(n, TabList(t, i + 1) + [d]) == ReleaseAll(m, TabList(t, i) + [d])
    ensures t[i].Pte? ==> t[i].frame in all
  {
    hide Good;
    var s, r := TabList(t, i) + [d], TabList(t, i + 1) + [d];
    if t[i].Pte? {
      assert s[0] == t[i].frame && s[1..] == r;
      assert s[0] in s;
      ReleaseKeeps(m, t[i].frame, all);
      forall j, l | 0 <= j < l < |r| ensures r[j] != r[l] {
        assert s[j + 1] != s[l + 1];
      }
      forall f | f in r ensures f in Release(m, t[i].frame).held {
        assert f in s;
        var j :| 0 <= j < |r| && r[j] == f;
        assert s[0] != s[j + 1];
      }
    } else {
      assert s == r;
    }
  }

  lemma FreeEnd(m: Mem, t: Table, d: nat, all: set<nat>)
    requires Good(m, all) && d in m.held
    ensures ReleaseAll(m, TabList(t, ENTRIES) + [d]) == Release(m, d) && d in all
  {
    hide Good;
    ReleaseKeeps(m, d, all);
    assert TabList(t, ENTRIES) + [d] == [d];
    assert ReleaseAll(Release(m, d), [d][1..]) == Release(m, d);
  }

  lemma KMapLen(dataPage: nat)
    requires 0x100 < dataPage < 0xE000
    ensures |KMap(dataPage)| == 4
  {
  }

  /** One turn of setupkvm's loop over kmap. */
  lemma RangeStep(m: Mem, d: nat, dataPage: nat, i: nat, all: set<nat>)
    requires Good(m, all) && d in m.dirs && 0x100 < dataPage < 0xE000 && i < 4 && Upto(m, d, KMap(dataPage), i)
    ensures |KMap(dataPage)| == 4 && Closed(m) && TabsOnce(m)
    ensures var k := KMap(dataPage)[i];
      && USERPAGES <= k.p && k.p + k.n <= PAGES && k.n > 0
      && k.p * PGSIZE / PGSIZE == k.p && k.f * PGSIZE / PGSIZE == k.f
      && (k.p * PGSIZE + k.n * PGSIZE - 1) / PGSIZE == k.p + k.n - 1
      && (forall q | k.p <= q < k.p + k.n :: Entry(m, d, q) == Absent)
      && var r := MapPages(m, d, k.p, k.n, k.f, k.flags);
      && Good(r.0, all) && d in r.0.dirs
      && (r.1 ==> Upto(r.0, d, KMap(dataPage), i + 1))
      && (r.1 ==> MapRanges(m, d, KMap(dataPage), i) == MapRanges(r.0, d, KMap(dataPage), i + 1))
      && (!r.1 ==> MapRanges(m, d, KMap(dataPage), i) == r)
  {
    hide Good, TabsOnce, MapPages, Around, Mapped, Entry;
    GoodTabs(m, all);
    GoodIs(m, all);
    var k := KMap(dataPage)[i];
    assert k in KMap(dataPage);
    MapPagesKeeps(m, d, k.p, k.n, k.f, k.flags, all);
    forall q | k.p <= q < k.p + k.n ensures Entry(m, d, q) == Absent {
      KMapApart(dataPage, i, q);
    }
    var r := MapPages(m, d, k.p, k.n, k.f, k.flags);
    if r.1 {
      UptoNext(m, r.0, d, KMap(dataPage), i);
    }
  }

  lemma RangeEnd(m: Mem, d: nat, dataPage: nat)
    requires Closed(m) && d in m.dirs && 0x100 < dataPage < 0xE000
    ensures MapRanges(m, d, KMap(dataPage), 4) == (m, true)
  {
  }

  lemma CopyReady(m: Mem, k: Mem, d: nat, e: nat, q: nat, all: set<nat>)
    requires OthersSame(m, k, e) && d in m.dirs && e !in m.dirs
    requires AllPresent(m, d, 0, q) && AllAbsent(k, e, 0, USERPAGES) && q <= USERPAGES
    ensures d != e && AllPresent(k, d, 0, q) && AllAbsent(k, e, 0, q)
  {
    PresentStill(m, k, d, e, q);
  }

  /** One turn of copyuvm's loop. */
  lemma CopyStep(m: Mem, d: nat, e: nat, p: nat, q: nat, all: set<nat>)
    requires Good(m, all) && d in m.dirs && e in m.dirs && d != e
    requires p < q <= USERPAGES && AllPresent(m, d, p, q) && AllAbsent(m, e, p, q)
    ensures Closed(m) && HasTable(m, d, Pdx(p)) && p * PGSIZE / PGSIZE == p
    ensures Entry(m, d, p).Pte? && Entry(m, e, p) == Absent
    ensures m.tables[m.dirs[d][Pdx(p)].frame][Ptx(p)] == Entry(m, d, p)
    ensures var src := Entry(m, d, p); var g := GetPage(m, e, p, Bytes(m, src.frame), src.flags);
      && Good(g.0, all) && d in g.0.dirs && e in g.0.dirs && AllPresent(g.0, d, p + 1, q) && AllAbsent(g.0, e, p + 1, q)
      && CopyPages(m, d, e, p, q) == (if g.1 == Done then CopyPages(g.0, d, e, p + 1, q) else g)
  {
    hide Good, Around, GetPage, GotPage, AllAbsent;
    GoodIs(m, all);
    FirstAbsent(m, e, p, q);
    var src := Entry(m, d, p);
    GetPageKeeps(m, e, p, Bytes(m, src.frame), src.flags, all);
    var g := GetPage(m, e, p, Bytes(m, src.frame), src.flags);
    RestAbsent(m, g.0, e, p, q);
    RestPresent(m, g.0, d, e, p, q);
  }

  lemma CopyEnd(m: Mem, d: nat, e: nat, p: nat, q: nat)
    requires Closed(m) && e in m.dirs && p >= q && q <= USERPAGES
    ensures CopyPages(m, d, e, p, q) == (m, Done)
  {
  }

  /** copyout comes to a page whose page table is missing. */
  predicate Faults(m: Mem, d: nat, va: nat, s: seq<byte>)
    requires va + |s| <= KERNBASE
  {
    var c := CopyOut(m, d, va, s).1;
    c < |s| && va + c < KERNBASE && !HasTable(m, d, Pdx((va + c) / PGSIZE))
  }

  lemma NoTableFaults(m: Mem, d: nat, va: nat, s: seq<byte>)
    requires va + |s| <= KERNBASE && |s| > 0 && !HasTable(m, d, Pdx(va / PGSIZE))
    ensures CopyOut(m, d, va, s) == (m, 0)
  {
  }

  lemma RoundsTo(va: nat)
    ensures RoundDown(va) <= va && RoundDown(va) / PGSIZE == va / PGSIZE && va - RoundDown(va) == va % PGSIZE
  {
  }

  /** One turn of copyout's loop. */
  lemma CopyTurn(m: Mem, d: nat, va: nat, s: seq<byte>)
    requires va + |s| <= KERNBASE && |s| > 0 && HasTable(m, d, Pdx(va / PGSIZE))
    ensures RoundDown(va) <= va && RoundDown(va) / PGSIZE == va / PGSIZE && va - RoundDown(va) == va % PGSIZE
    ensures var e := m.tables[m.dirs[d][Pdx(va / PGSIZE)].frame][Ptx(va / PGSIZE)];
      var n := if PGSIZE - (va - RoundDown(va)) > |s| then |s| else PGSIZE - (va - RoundDown(va));
      && 0 < n <= |s| && va % PGSIZE + n <= PGSIZE
      && (!UserPte(e) ==> CopyOut(m, d, va, s) == (m, 0))
      && (UserPte(e) ==> var k := Fill(m, e.frame, Splice(Bytes(m, e.frame), va % PGSIZE, s[..n]));
                         var r := CopyOut(k, d, va + n, s[n..]);
                         CopyOut(m, d, va, s) == (r.0, n + r.1))
  {
    hide Splice, UserPte;
  }

  lemma NothingCopied(m: Mem, d: nat, va: nat, s: seq<byte>)
    requires va <= KERNBASE && s == []
    ensures CopyOut(m, d, va, s) == (m, 0)
  {
  }

  class Machine {
    const lo: nat
    const hi: nat
    var free: seq<nat>
    var dirs: map<nat, Table>
    var tables: map<nat, Table>
    var data: map<nat, Page>
    ghost var held: set<nat>

    /** The frames kinit freed, from the end of the kernel to PHYSTOP. */
    ghost const all: set<nat>

    ghost function State(): Mem
      reads this
    {
      Mem(free, held, dirs, tables, data)
    }

    ghost predicate Valid()
      reads this
    {
      Good(State(), all) && forall f | f in all :: lo <= f < hi
    }

    function Contents(f: nat): (p: Page)
      reads this
      ensures p == Bytes(State(), f)
    {
      if f in data then data[f] else ZeroPage()
    }

    method Kalloc() returns (ok: bool, f: nat)
      modifies this
      ensures ok <==> old(free) != []
      ensures State() == if ok then Take(old(State())) else old(State())
      ensures ok ==> f == old(free)[0]
    {
      ok, f := free != [], 0;
      if ok {
        f := free[0];
        free := free[1..];
        held := held + {f};
      }
    }

    /** The frame must be one kalloc may give, or kfree panics. */
    method Kfree(f: nat)
      requires lo <= f < hi
      modifies this
      ensures State() == Release(old(State()), f)
    {
      data := data[f := JunkPage()];
      free := [f] + free;
      held := held - {f};
    }

    /** The page table that has the entry of page p. */
    method Walkpgdir(d: nat, p: nat, alloc: bool) returns (ok: bool, t: nat)
      requires d in dirs && p < PAGES && Closed(State())
      modifies this
      ensures alloc ==> (State(), ok) == Walk(old(State()), d, p)
      ensures !alloc ==> State() == old(State()) && ok == dirs[d][Pdx(p)].Pte?
      ensures ok ==> HasTable(State(), d, Pdx(p)) && t == dirs[d][Pdx(p)].frame
    {
      var pde := dirs[d][Pdx(p)];
      ok, t := true, 0;
      if pde.Pte? {
        t := pde.frame;
      } else {
        if !alloc {
          return false, 0;
        }
        ok, t := Kalloc();
        if ok {
          tables := tables[t := ZeroTable()];
          dirs := dirs[d := dirs[d][Pdx(p) := Pte(t, WUP)]];
          held := held - {t};
        }
      }
    }

    /** The addresses from va on, size bytes of them, are mapped to pa; a page mapped already would panic. */
    method Mappages(d: nat, va: nat, size: nat, pa: nat, perm: nat) returns (r: int)
      requires d in dirs && Closed(State()) && TabsOnce(State())
      requires 0 < size && va + size <= 0x1_0000_0000 && pa % PGSIZE == 0
      requires forall q | va / PGSIZE <= q <= (va + size - 1) / PGSIZE :: q < PAGES && Entry(State(), d, q) == Absent
      modifies this
      ensures var n := (va + size - 1) / PGSIZE - va / PGSIZE + 1;
        (State(), r == 0) == MapPages(old(State()), d, va / PGSIZE, n, pa / PGSIZE, perm)
      ensures r == 0 || r == -1
    {
      hide TabsOnce, Walk, SetPte, MapPages, Entry, Closed;
      var a, last := RoundDown(va), RoundDown(va + size - 1);
      var pa' := pa;
      ghost var p: nat, n: nat, f: nat := va / PGSIZE, (va + size - 1) / PGSIZE - va / PGSIZE + 1, pa / PGSIZE;
      ghost var goal := MapPages(State(), d, p, n, f, perm);
      while true
        invariant a == p * PGSIZE && pa' == f * PGSIZE && n > 0 && last == (p + n - 1) * PGSIZE && p + n <= PAGES
        invariant d in dirs && Closed(State()) && TabsOnce(State())
        invariant forall q | p <= q < p + n :: Entry(State(), d, q) == Absent
        invariant MapPages(State(), d, p, n, f, perm) == goal
        decreases n
      {
        MapStep(State(), d, p, n, f, perm);
        var ok, t := Walkpgdir(d, a / PGSIZE, true);
        if !ok {
          return -1;
        }
        ghost var w := State();
        tables := tables[t := tables[t][Ptx(a / PGSIZE) := Pte(pa' / PGSIZE, perm)]];
        SetTables(w, State(), d, p, Pte(f, perm));
        if a == last {
          return 0;
        }
        a, pa' := a + PGSIZE, pa' + PGSIZE;
        p, n, f := p + 1, n - 1, f + 1;
      }
    }

    /** deallocuvm on a page whose page table is there: kfree, then clear the entry. */
    method ClearPage(d: nat, p: nat, t: nat)
      requires Valid() && p < USERPAGES && HasTable(State(), d, Pdx(p)) && t == dirs[d][Pdx(p)].frame
      modifies this
      ensures Closed(old(State())) && State() == DropPage(old(State()), d, p)
    {
      hide Good;
      ghost var m := State();
      GoodIs(m, all);
      var e := tables[t][Ptx(p)];
      if e.Pte? {
        RemovePageKeeps(m, d, Pdx(p), Ptx(p), all);
        Kfree(e.frame);
        tables := tables[t := tables[t][Ptx(p) := Absent]];
        DropTurn(m, State(), d, p, all);
      }
    }

    method Deallocuvm(d: nat, oldsz: nat, newsz: nat) returns (r: nat)
      requires Valid() && d in dirs && oldsz <= KERNBASE
      modifies this
      ensures Valid() && (State(), r) == DeallocUvm(old(State()), d, oldsz, newsz)
    {
      hide Good, Closed, DeallocPages, DropPage, Around, Entry, Pdx;
      GoodIs(State(), all);
      if newsz >= oldsz {
        return oldsz;
      }
      ghost var p, q := Up(newsz), Up(oldsz);
      ghost var goal := DeallocPages(State(), d, p, q);
      var a := RoundUp(newsz);
      while a < oldsz
        invariant a == p * PGSIZE && p <= USERPAGES && d in dirs && Closed(State()) && Valid()
        invariant DeallocPages(State(), d, p, q) == goal
        decreases q - p
      {
        DeallocStep(State(), d, p, q);
        DropPageKeeps(State(), d, p, all);
        JumpPast(p);
        var ok, t := Walkpgdir(d, a / PGSIZE, false);
        if !ok {
          a, p := (Pdx(a / PGSIZE) + 1) * ENTRIES * PGSIZE - PGSIZE, (Pdx(p) + 1) * ENTRIES - 1;
        } else {
          ClearPage(d, a / PGSIZE, t);
        }
        a, p := a + PGSIZE, p + 1;
      }
      DeallocEnd(State(), d, p, q);
      r := newsz;
    }

    /** What allocuvm and copyuvm do for one page: kalloc, fill, mappages. A frame left over stays in hand. */
    method PageFor(d: nat, a: nat, page: Page, flags: nat) returns (g: Got)
      requires Valid() && d in dirs && a % PGSIZE == 0 && a < KERNBASE && Entry(State(), d, a / PGSIZE) == Absent
      modifies this
      ensures Closed(old(State())) && (State(), g) == GetPage(old(State()), d, a / PGSIZE, page, flags)
    {
      hide Good, Closed, TabsOnce, GetPage, MapPages, Entry;
      ghost var m := State();
      GoodIs(m, all);
      var ok, mem := Kalloc();
      if !ok {
        NoPage(m, d, a / PGSIZE, page, flags);
        return NoFrame;
      }
      data := data[mem := page];
      PageTurn(m, d, a / PGSIZE, page, flags);
      ReadyToMap(m, d, a / PGSIZE, page, all);
      FailedTurn(State(), d, a / PGSIZE, mem, flags);
      var e := Mappages(d, a, PGSIZE, mem * PGSIZE, flags);
      if e < 0 {
        return NoTable(mem);
      }
      held := held - {mem};
      g := Done;
    }

    method Allocuvm(d: nat, oldsz: nat, newsz: nat) returns (r: nat)
      requires Valid() && d in dirs && AllAbsent(State(), d, Up(oldsz), USERPAGES)
      modifies this
      ensures Valid() && (State(), r) == AllocUvm(old(State()), d, oldsz, newsz)
    {
      hide Good, Closed, AllAbsent, AllocPages, GetPage, AllocUvm, DeallocUvm, Entry;
      GoodIs(State(), all);
      AllocUvmIs(State(), d, oldsz, newsz, all);
      if newsz >= KERNBASE {
        return 0;
      }
      if newsz < oldsz {
        return oldsz;
      }
      AllocOutcome(State(), d, oldsz, newsz, all);
      ghost var q := Up(newsz);
      ghost var goal := AllocPages(State(), d, Up(oldsz), q);
      var a := RoundUp(oldsz);
      while a < newsz
        invariant a % PGSIZE == 0 && a / PGSIZE <= q && d in dirs && Closed(State()) && Valid()
        invariant AllAbsent(State(), d, a / PGSIZE, USERPAGES)
        invariant AllocPages(State(), d, a / PGSIZE, q) == goal
      {
        AllocStep(State(), d, a / PGSIZE, q, all);
        var g := PageFor(d, a, ZeroPage(), WUP);
        if g == NoFrame {
          var _ := Deallocuvm(d, newsz, oldsz);
          return 0;
        }
        if g.NoTable? {
          var _ := Deallocuvm(d, newsz, oldsz);
          Kfree(g.frame);
          return 0;
        }
        a := a + PGSIZE;
      }
      AllocEnd(State(), d, a / PGSIZE, q);
      r := newsz;
    }

    /** The directory's page keeps what it held while the tables it names are freed. */
    method Freevm(d: nat)
      requires Valid() && d in dirs
      modifies this
      ensures Valid() && old(Closed(State())) && State() == FreeVm(old(State()), d)
    {
      hide Good, Closed, DeallocPages, TabList, TabFrames, ReleaseAll, NoDup;
      GoodIs(State(), all);
      FreeVmIs(State(), d, all);
      ghost var m := State();
      var _ := Deallocuvm(d, KERNBASE, 0);
      ghost var k := State();
      var pgdir := dirs[d];
      FreeReady(m, k, d, all);
      held := held + {d} + TabFrames(k, d);
      dirs := dirs - {d};
      ghost var goal := ReleaseAll(State(), TabList(pgdir, 0) + [d]);
      var i := 0;
      while i < ENTRIES
        invariant 0 <= i <= ENTRIES && Valid() && NoDup(TabList(pgdir, i) + [d])
        invariant forall f | f in TabList(pgdir, i) + [d] :: f in held
        invariant ReleaseAll(State(), TabList(pgdir, i) + [d]) == goal
      {
        FreeStep(State(), pgdir, i, d, all);
        if pgdir[i].Pte? {
          Kfree(pgdir[i].frame);
        }
        i := i + 1;
      }
      FreeEnd(State(), pgdir, d, all);
      Kfree(d);
    }

    /** dataPage is where the linker put the kernel's data. */
    method Setupkvm(dataPage: nat) returns (r: Option<nat>)
      requires Valid() && 0x100 < dataPage < 0xE000
      modifies this
      ensures Valid() && old(Closed(State())) && (State(), r) == SetupKvm(old(State()), dataPage)
    {
      hide Good, Closed, TabsOnce, MapRanges, MapPages, FreeVm, Upto, KMap, Around, Mapped, Entry, SameMaps;
      GoodIs(State(), all);
      ghost var m := State();
      SetupKvmIs(m, dataPage, all);
      var ok, d := Kalloc();
      if !ok {
        return None;
      }
      TakeKeeps(m, all);
      AddDirKeeps(State(), d, all);
      dirs := dirs[d := ZeroTable()];
      held := held - {d};
      FreshDir(Take(m), d, dataPage);
      var kmap := KMap(dataPage);
      KMapLen(dataPage);
      ghost var goal := MapRanges(State(), d, kmap, 0);
      var k := 0;
      while k < |kmap|
        invariant 0 <= k <= |kmap| && d in dirs && Closed(State()) && Valid()
        invariant Upto(State(), d, kmap, k) && MapRanges(State(), d, kmap, k) == goal
      {
        RangeStep(State(), d, dataPage, k, all);
        var e := Mappages(d, kmap[k].p * PGSIZE, kmap[k].n * PGSIZE, kmap[k].f * PGSIZE, kmap[k].flags);
        if e < 0 {
          Freevm(d);
          return None;
        }
        k := k + 1;
      }
      RangeEnd(State(), d, dataPage);
      r := Some(d);
    }

    /** An unmapped page below sz would panic. */
    method Copyuvm(d: nat, sz: nat, dataPage: nat) returns (r: Option<nat>)
      requires Valid() && d in dirs && 0x100 < dataPage < 0xE000 && sz <= KERNBASE && AllPresent(State(), d, 0, Up(sz))
      modifies this
      ensures Valid() && old(Closed(State()))
      ensures State() == CopyUvm(old(State()), d, sz, dataPage).0 && r == CopyUvm(old(State()), d, sz, dataPage).1
    {
      hide Good, Closed, SetupKvm, CopyPages, GetPage, FreeVm, AllPresent, AllAbsent;
      hide AllCopied, Entry, KernelHalf, OthersSame, SameMaps;
      GoodIs(State(), all);
      ghost var m := State();
      SetupKvmIs(m, dataPage, all);
      var e := Setupkvm(dataPage);
      if e == None {
        return None;
      }
      var c := e.value;
      ghost var p, q := 0, Up(sz);
      CopyReady(m, State(), d, c, q, all);
      ghost var goal := CopyPages(State(), d, c, p, q);
      var i := 0;
      while i < sz
        invariant i == p * PGSIZE && p <= q && d in dirs && c in dirs && Closed(State()) && Valid()
        invariant AllPresent(State(), d, p, q) && AllAbsent(State(), c, p, q)
        invariant CopyPages(State(), d, c, p, q) == goal
        decreases q - p
      {
        CopyStep(State(), d, c, p, q, all);
        var ok, t := Walkpgdir(d, i / PGSIZE, false);
        var pte := tables[t][Ptx(i / PGSIZE)];
        var g := PageFor(c, i, Contents(pte.frame), pte.flags);
        if g != Done {
          Freevm(c);
          return None;
        }
        i, p := i + PGSIZE, p + 1;
      }
      CopyEnd(State(), d, c, p, q);
      r := e;
    }

    /** uva2ka reads the entry without asking whether its page table is there: `fault` is the null it would read. */
    method Copyout(d: nat, va: nat, s: seq<byte>) returns (r: int, fault: bool)
      requires Valid() && d in dirs && va + |s| <= KERNBASE
      modifies this`data
      ensures Valid() && State() == CopyOut(old(State()), d, va, s).0
      ensures fault <==> Faults(old(State()), d, va, s)
      ensures fault <==>
        var m, c := old(State()), CopyOut(old(State()), d, va, s).1;
        c < |s| && m.dirs[d][Pdx((va + c) / PGSIZE)] == Absent
      ensures !fault ==> r == if CopyOut(old(State()), d, va, s).1 == |s| then 0 else -1
    {
      hide Good, Splice, UserPte, CopyOut, Entry, Pdx, Ptx;
      ghost var m := State();
      CopyOutIs(m, d, va, s, all);
      fault := false;
      var at, buf := va, s;
      while |buf| > 0
        invariant Valid() && SameTables(m, State()) && at + |buf| == va + |s| && at >= va && |buf| <= |s|
        invariant CopyOut(State(), d, at, buf).0 == CopyOut(m, d, va, s).0
        invariant CopyOut(State(), d, at, buf).1 + |s| - |buf| == CopyOut(m, d, va, s).1
      {
        var va0 := RoundDown(at);
        RoundsTo(at);
        if !dirs[d][Pdx(va0 / PGSIZE)].Pte? {
          NoTableFaults(State(), d, at, buf);
          return 0, true;
        }
        GoodIs(State(), all);
        CopyTurn(State(), d, at, buf);
        var t := dirs[d][Pdx(va0 / PGSIZE)].frame;
        var pte := tables[t][Ptx(va0 / PGSIZE)];
        if !UserPte(pte) {
          return -1, false;
        }
        var n := PGSIZE - (at - va0);
        if n > |buf| {
          n := |buf|;
        }
        ghost var k := State();
        data := data[pte.frame := Splice(Contents(pte.frame), at - va0, buf[..n])];
        TablesGood(k, State(), all);
        at, buf := at + n, buf[n..];
      }
      NothingCopied(State(), d, at, buf);
      r := 0;
    }

    /** sz is the process's size, which the caller stores back. */
    method Growproc(d: nat, sz: nat, n: int) returns (r: int, newsz: nat)
      requires Valid() && d in dirs && sz < KERNBASE && AllAbsent(State(), d, Up(sz), USERPAGES)
      modifies this
      ensures Valid() && old(Closed(State()))
      ensures VmRuns.Growth(State(), r, newsz) == VmRuns.GrowProc(old(State()), d, sz, n)
    {
      hide Good, Closed, AllocUvm, DeallocUvm;
      GoodIs(State(), all);
      newsz := sz;
      if n > 0 {
        newsz := Allocuvm(d, sz, VmRuns.Wrap(sz + n));
        if newsz == 0 {
          return -1, sz;
        }
      } else if n < 0 {
        newsz := Deallocuvm(d, sz, VmRuns.Wrap(sz + n));
        if newsz == 0 {
          return -1, sz;
        }
      }
      r := 0;
    }
  }
}
