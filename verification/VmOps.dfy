/**
 * The operations of vm.c on page numbers, and what each does to the flat map of every address space.
 *
 * A page is a number: its directory index is the number over 1024 and its table index the remainder.
 * The loops over addresses are recursions over pages here; the methods of VmCode, which step through
 * addresses as the code does, are proved to come to the same.
 */
module VmOps {
  import opened Vm

  datatype Got = Done | NoFrame | NoTable(frame: nat)

  /** Of all directories only d may have changed. */
  predicate OneDir(m: Mem, n: Mem, d: nat) {
    d in n.dirs && n.dirs == m.dirs[d := n.dirs[d]]
  }

  /** walkpgdir with alloc set: false when it needs a page table and no frame is free. */
  function Walk(m: Mem, d: nat, p: nat): (r: (Mem, bool))
    requires d in m.dirs && p < ENTRIES * ENTRIES && Closed(m)
    ensures Closed(r.0) && (if r.1 then HasTable(r.0, d, Pdx(p)) else r.0 == m) && OneDir(m, r.0, d)
  {
    if m.dirs[d][Pdx(p)].Pte? then (m, true)
    else if m.free == [] then (m, false)
    else (AddTable(Take(m), d, Pdx(p), m.free[0]), true)
  }

  /** mappages: n pages from page p on get the frames from f on. */
  function MapPages(m: Mem, d: nat, p: nat, n: nat, f: nat, flags: nat): (r: (Mem, bool))
    requires d in m.dirs && p + n <= ENTRIES * ENTRIES && Closed(m)
    ensures Closed(r.0) && OneDir(m, r.0, d)
    decreases n
  {
    if n == 0 then (m, true)
    else
      var w := Walk(m, d, p);
      if !w.1 then w else MapPages(SetPte(w.0, d, Pdx(p), Ptx(p), Pte(f, flags)), d, p + 1, n - 1, f + 1, flags)
  }

  /** One turn of the loop of allocuvm or copyuvm: a frame with the given contents for page p. */
  function GetPage(m: Mem, d: nat, p: nat, page: Page, flags: nat): (r: (Mem, Got))
    requires d in m.dirs && p < ENTRIES * ENTRIES && Closed(m)
    ensures Closed(r.0) && OneDir(m, r.0, d)
  {
    if m.free == [] then (m, NoFrame)
    else
      var f := m.free[0];
      var k := Fill(Take(m), f, page);
      var w := Walk(k, d, p);
      if w.1 then (AddPage(w.0, d, Pdx(p), Ptx(p), Pte(f, flags)), Done) else (k, NoTable(f))
  }

  function AllocPages(m: Mem, d: nat, p: nat, q: nat): (r: (Mem, Got))
    requires d in m.dirs && q <= ENTRIES * ENTRIES && Closed(m)
    ensures Closed(r.0) && OneDir(m, r.0, d)
    decreases q - p
  {
    if p >= q then (m, Done)
    else
      var g := GetPage(m, d, p, ZeroPage(), WUP);
      if g.1 == Done then AllocPages(g.0, d, p + 1, q) else g
  }

  /** One turn of the page-by-page loop: page p, if mapped, is unmapped and its frame freed. */
  function DropPage(m: Mem, d: nat, p: nat): (r: Mem)
    requires p < ENTRIES * ENTRIES && Closed(m)
    ensures Closed(r) && r.dirs == m.dirs
  {
    var e := Entry(m, d, p);
    if e.Pte? then Release(RemovePage(m, d, Pdx(p), Ptx(p)), e.frame) else m
  }

  function DeallocPages(m: Mem, d: nat, p: nat, q: nat): (r: Mem)
    requires q <= ENTRIES * ENTRIES && Closed(m)
    ensures Closed(r) && r.dirs == m.dirs
    decreases q - p
  {
    if p >= q then m else DeallocPages(DropPage(m, d, p), d, p + 1, q)
  }

  /** The page size bytes end in, rounded up. */
  function Up(size: nat): (p: nat)
    ensures (p - 1) * PGSIZE < size <= p * PGSIZE
  {
    (size + PGSIZE - 1) / PGSIZE
  }

  function DeallocUvm(m: Mem, d: nat, oldsz: nat, newsz: nat): (r: (Mem, nat))
    requires oldsz <= KERNBASE && Closed(m)
    ensures Closed(r.0) && r.0.dirs == m.dirs
  {
    if newsz >= oldsz then (m, oldsz) else (DeallocPages(m, d, Up(newsz), Up(oldsz)), newsz)
  }

  function AllocUvm(m: Mem, d: nat, oldsz: nat, newsz: nat): (r: (Mem, nat))
    requires d in m.dirs && Closed(m)
    ensures Closed(r.0) && OneDir(m, r.0, d)
  {
    if newsz >= KERNBASE then (m, 0)
    else if newsz < oldsz then (m, oldsz)
    else
      var r := AllocPages(m, d, Up(oldsz), Up(newsz));
      match r.1
      case Done => (r.0, newsz)
      case NoFrame => (DeallocUvm(r.0, d, newsz, oldsz).0, 0)
      case NoTable(f) => (Release(DeallocUvm(r.0, d, newsz, oldsz).0, f), 0)
  }

  // What the operations do to the flat maps -------------------------------------------------------

  /** Page x * ENTRIES + y lies from p to q - 1. */
  predicate In(x: Idx, y: Idx, p: nat, q: nat) { p <= x * ENTRIES + y < q }

  /** Every entry but those of pages p to q - 1 of space d is the same. */
  ghost predicate Around(m: Mem, n: Mem, d: nat, p: nat, q: nat) {
    && m.dirs.Keys == n.dirs.Keys
    && forall e, x, y :: !(e == d && In(x, y, p, q)) ==> SameAt(m, n, e, x, y)
  }

  /** Page r is mapped to a frame that was free and now holds page. */
  predicate GotPage(m: Mem, n: Mem, d: nat, r: nat, page: Page, flags: nat)
    requires r < ENTRIES * ENTRIES
  {
    var e := Entry(n, d, r);
    e.Pte? && e.frame in m.free && e.flags == flags && Bytes(n, e.frame) == page
  }

  predicate NewPage(m: Mem, n: Mem, d: nat, r: nat)
    requires r < ENTRIES * ENTRIES
  {
    GotPage(m, n, d, r, ZeroPage(), WUP)
  }

  ghost predicate AllNew(m: Mem, n: Mem, d: nat, p: nat, q: nat) {
    forall r | p <= r < q <= USERPAGES :: NewPage(m, n, d, r)
  }

  ghost predicate AllNewOrAbsent(m: Mem, n: Mem, d: nat, p: nat, q: nat) {
    forall r | p <= r < q <= USERPAGES :: Entry(n, d, r) == Absent || NewPage(m, n, d, r)
  }

  ghost predicate AllAbsent(m: Mem, d: nat, p: nat, q: nat) {
    forall r | p <= r < q <= USERPAGES :: Entry(m, d, r) == Absent
  }

  /** On NoTable the frame meant for the page is left in hand; otherwise nothing is. */
  predicate HeldAfter(m: Mem, n: Mem, got: Got) {
    n.held == m.held + (if got.NoTable? then {got.frame} else {}) && (got.NoTable? ==> got.frame !in m.held)
  }

  lemma FirstAbsent(m: Mem, d: nat, p: nat, q: nat)
    requires AllAbsent(m, d, p, q) && p < q <= USERPAGES
    ensures Entry(m, d, p) == Absent
  {
  }

  lemma RestAbsent(m: Mem, n: Mem, d: nat, p: nat, q: nat)
    requires AllAbsent(m, d, p, q) && Around(m, n, d, p, p + 1) && p < q <= USERPAGES
    ensures AllAbsent(n, d, p + 1, q)
  {
    forall r | p + 1 <= r < q ensures Entry(n, d, r) == Absent {
      AroundPage(m, n, d, p, p + 1, r);
    }
  }

  lemma NewBoth(m: Mem, k: Mem, n: Mem, d: nat, p: nat, q: nat)
    requires p < q <= USERPAGES && NewPage(m, k, d, p) && Around(k, n, d, p + 1, q) && AllNew(k, n, d, p + 1, q)
    requires forall f | f in k.free :: f in m.free
    ensures AllNew(m, n, d, p, q)
  {
    AroundPage(k, n, d, p + 1, q, p);
    forall r | p <= r < q ensures NewPage(m, n, d, r) {
      assert r > p ==> NewPage(k, n, d, r);
    }
  }

  lemma NewOrAbsentBoth(m: Mem, k: Mem, n: Mem, d: nat, p: nat, q: nat)
    requires p < q <= USERPAGES && NewPage(m, k, d, p) && Around(k, n, d, p + 1, q) && AllNewOrAbsent(k, n, d, p + 1, q)
    requires forall f | f in k.free :: f in m.free
    ensures AllNewOrAbsent(m, n, d, p, q)
  {
    AroundPage(k, n, d, p + 1, q, p);
    forall r | p <= r < q ensures Entry(n, d, r) == Absent || NewPage(m, n, d, r) {
      assert r > p ==> Entry(n, d, r) == Absent || NewPage(k, n, d, r);
    }
  }

  lemma NoneNew(m: Mem, n: Mem, d: nat, p: nat, q: nat)
    requires p < q <= USERPAGES && Entry(n, d, p) == Absent && AllAbsent(n, d, p + 1, q)
    ensures AllNewOrAbsent(m, n, d, p, q)
  {
  }

  lemma AroundMore(m: Mem, n: Mem, d: nat, p: nat, q: nat)
    requires p < q && Around(m, n, d, p, p + 1)
    ensures Around(m, n, d, p, q)
  {
  }

  lemma SameAround(m: Mem, n: Mem, d: nat, p: nat, q: nat)
    requires SameMaps(m, n) && m.dirs.Keys == n.dirs.Keys
    ensures Around(m, n, d, p, q)
  {
  }

  lemma AroundSelf(m: Mem, d: nat, p: nat, q: nat)
    ensures Around(m, m, d, p, q) && (p >= q ==> AllNew(m, m, d, p, q))
  {
  }

  lemma SameTrans(m: Mem, k: Mem, n: Mem)
    requires SameMaps(m, k) && SameMaps(k, n)
    ensures SameMaps(m, n)
  {
    forall e, x, y ensures SameAt(m, n, e, x, y) {
      assert SameAt(m, k, e, x, y) && SameAt(k, n, e, x, y);
    }
  }

  lemma AroundTrans(m: Mem, k: Mem, n: Mem, d: nat, p: nat, q: nat, p': nat, q': nat)
    requires Around(m, k, d, p, q) && Around(k, n, d, p', q')
    requires p <= q && p' <= q' && (q == p' || (p == p' && q == q'))
    ensures Around(m, n, d, p, q')
  {
    forall e, x, y | !(e == d && In(x, y, p, q')) ensures SameAt(m, n, e, x, y) {
      assert SameAt(m, k, e, x, y) && SameAt(k, n, e, x, y);
    }
  }

  lemma PageIs(p: nat, x: Idx, y: Idx)
    requires p < ENTRIES * ENTRIES
    ensures In(x, y, p, p + 1) <==> x == Pdx(p) && y == Ptx(p)
  {
  }

  lemma {:induction false} WalkKeeps(m: Mem, d: nat, p: nat, all: set<nat>)
    requires Good(m, all) && d in m.dirs && p < ENTRIES * ENTRIES
    ensures var n := Walk(m, d, p).0; Good(n, all) && SameMaps(m, n) && n.held == m.held && n.data == m.data
    ensures forall f | f in Walk(m, d, p).0.free :: f in m.free
  {
    hide Good, SameMaps;
    GoodIs(m, all);
    if m.dirs[d][Pdx(p)].Pte? {
      SameSelf(m);
    } else if m.free != [] {
      var k := Take(m);
      TakeKeeps(m, all);
      AddTableKeeps(k, d, Pdx(p), m.free[0], all);
      SameTrans(m, k, AddTable(k, d, Pdx(p), m.free[0]));
    } else {
      SameSelf(m);
    }
  }

  lemma GoodIs(m: Mem, all: set<nat>)
    requires Good(m, all)
    ensures Closed(m) && Unique(m)
  {
  }

  lemma SameSelf(m: Mem)
    ensures SameMaps(m, m)
  {
  }

  lemma {:induction false} GetPageKeeps(m: Mem, d: nat, p: nat, page: Page, flags: nat, all: set<nat>)
    requires Good(m, all) && d in m.dirs && p < USERPAGES && Entry(m, d, p) == Absent
    ensures var r := GetPage(m, d, p, page, flags);
      && Good(r.0, all)
      && (forall f | f in r.0.free :: f in m.free)
      && Around(m, r.0, d, p, p + 1) && HeldAfter(m, r.0, r.1)
      && (if r.1 == Done then GotPage(m, r.0, d, p, page, flags) else Entry(r.0, d, p) == Absent)
  {
    hide Good, SameMaps, Around;
    GoodIs(m, all);
    AroundSelf(m, d, p, p + 1);
    if m.free != [] {
      var f := m.free[0];
      var t := Take(m);
      var k := Fill(t, f, page);
      TakeKeeps(m, all);
      FillKeeps(t, f, page, all);
      SameTrans(m, t, k);
      WalkKeeps(k, d, p, all);
      var w := Walk(k, d, p);
      SameTrans(m, k, w.0);
      SameEntry(m, w.0, d, p);
      SameAround(m, w.0, d, p, p + 1);
      if w.1 {
        AddPageKeeps(w.0, d, Pdx(p), Ptx(p), Pte(f, flags), all);
        OneAround(m, w.0, AddPage(w.0, d, Pdx(p), Ptx(p), Pte(f, flags)), d, p);
      }
    }
  }

  lemma SameEntry(m: Mem, n: Mem, d: nat, p: nat)
    requires SameMaps(m, n) && p < ENTRIES * ENTRIES
    ensures Entry(n, d, p) == Entry(m, d, p)
  {
    assert SameAt(m, n, d, Pdx(p), Ptx(p));
  }

  lemma OneAround(m: Mem, k: Mem, n: Mem, d: nat, p: nat)
    requires p < ENTRIES * ENTRIES && SameMaps(m, k) && OnlyAt(k, n, d, Pdx(p), Ptx(p)) && m.dirs.Keys == n.dirs.Keys
    ensures Around(m, n, d, p, p + 1)
  {
    forall e, x, y | !(e == d && In(x, y, p, p + 1)) ensures SameAt(m, n, e, x, y) {
      PageIs(p, x, y);
      assert SameAt(m, k, e, x, y) && SameAt(k, n, e, x, y);
    }
  }

  /** What was so of page r stays so when only pages p to q - 1 change. */
  lemma AroundPage(m: Mem, n: Mem, d: nat, p: nat, q: nat, r: nat)
    requires Around(m, n, d, p, q) && r < ENTRIES * ENTRIES && !(p <= r < q)
    ensures Entry(n, d, r) == Entry(m, d, r)
    ensures r < USERPAGES && Entry(m, d, r).Pte? ==> Bytes(n, Entry(m, d, r).frame) == Bytes(m, Entry(m, d, r).frame)
  {
    assert !In(Pdx(r), Ptx(r), p, q);
    assert SameAt(m, n, d, Pdx(r), Ptx(r));
  }

  lemma {:induction false} AllocPagesKeeps(m: Mem, d: nat, p: nat, q: nat, all: set<nat>)
    requires Good(m, all) && d in m.dirs && p <= q <= USERPAGES && AllAbsent(m, d, p, q)
    ensures var r := AllocPages(m, d, p, q);
      && Good(r.0, all)
      && (forall f | f in r.0.free :: f in m.free)
      && Around(m, r.0, d, p, q) && HeldAfter(m, r.0, r.1)
      && (if r.1 == Done then AllNew(m, r.0, d, p, q) else AllNewOrAbsent(m, r.0, d, p, q))
    decreases q - p
  {
    hide Good, Around, NewPage, GetPage, AllNew, AllNewOrAbsent, AllAbsent;
    GoodIs(m, all);
    if p < q {
      FirstAbsent(m, d, p, q);
      GetPageKeeps(m, d, p, ZeroPage(), WUP, all);
      var g := GetPage(m, d, p, ZeroPage(), WUP);
      RestAbsent(m, g.0, d, p, q);
      if g.1 == Done {
        AllocPagesKeeps(g.0, d, p + 1, q, all);
        var r := AllocPages(g.0, d, p + 1, q);
        AroundTrans(m, g.0, r.0, d, p, p + 1, p + 1, q);
        if r.1 == Done { NewBoth(m, g.0, r.0, d, p, q); } else { NewOrAbsentBoth(m, g.0, r.0, d, p, q); }
      } else {
        AroundMore(m, g.0, d, p, q);
        NoneNew(m, g.0, d, p, q);
      }
    } else {
      AroundSelf(m, d, p, q);
    }
  }

  lemma {:induction false} DropPageKeeps(m: Mem, d: nat, p: nat, all: set<nat>)
    requires Good(m, all) && p < USERPAGES
    ensures var n := DropPage(m, d, p);
      Good(n, all) && Around(m, n, d, p, p + 1) && n.held == m.held && Entry(n, d, p) == Absent
  {
    hide Good, SameMaps, Around;
    GoodIs(m, all);
    AroundSelf(m, d, p, p + 1);
    var e := Entry(m, d, p);
    if e.Pte? {
      RemovePageKeeps(m, d, Pdx(p), Ptx(p), all);
      var k := RemovePage(m, d, Pdx(p), Ptx(p));
      ReleaseKeeps(k, e.frame, all);
      var n := Release(k, e.frame);
      SameEntry(k, n, d, p);
      SameSelf(m);
      OneAround(m, m, k, d, p);
      SameAround(k, n, d, p, p + 1);
      AroundTrans(m, k, n, d, p, p + 1, p, p + 1);
    }
  }

  /** The page-by-page loop unmaps its range and nothing else. */
  lemma {:induction false} DeallocPagesKeeps(m: Mem, d: nat, p: nat, q: nat, all: set<nat>)
    requires Good(m, all) && p <= q <= USERPAGES
    ensures var n := DeallocPages(m, d, p, q);
      Good(n, all) && Around(m, n, d, p, q) && n.held == m.held && AllAbsent(n, d, p, q)
    decreases q - p
  {
    hide Good, Around, AllAbsent, DropPage;
    GoodIs(m, all);
    if p < q {
      var k := DropPage(m, d, p);
      DropPageKeeps(m, d, p, all);
      DeallocPagesKeeps(k, d, p + 1, q, all);
      var n := DeallocPages(k, d, p + 1, q);
      AroundTrans(m, k, n, d, p, p + 1, p + 1, q);
      AbsentBoth(k, n, d, p, q);
    } else {
      AroundSelf(m, d, p, q);
      NoPages(m, d, p, q);
    }
  }

  lemma NoPages(m: Mem, d: nat, p: nat, q: nat)
    requires p >= q
    ensures AllAbsent(m, d, p, q)
  {
  }

  lemma AbsentBoth(k: Mem, n: Mem, d: nat, p: nat, q: nat)
    requires p < q <= USERPAGES && Entry(k, d, p) == Absent && Around(k, n, d, p + 1, q) && AllAbsent(n, d, p + 1, q)
    ensures AllAbsent(n, d, p, q)
  {
    AroundPage(k, n, d, p + 1, q, p);
  }

  /** Where a directory entry is absent, all its pages are, so jumping to the next entry unmaps the same pages. */
  lemma {:induction false} JumpIsSame(m: Mem, d: nat, p: nat, q: nat)
    requires Closed(m) && q <= USERPAGES && p < USERPAGES && d in m.dirs && m.dirs[d][Pdx(p)] == Absent
    ensures DeallocPages(m, d, p, q) == DeallocPages(m, d, (Pdx(p) + 1) * ENTRIES, q)
    decreases q - p
  {
    if p < q {
      assert Entry(m, d, p) == Absent;
      if p + 1 < (Pdx(p) + 1) * ENTRIES {
        assert Pdx(p + 1) == Pdx(p);
        JumpIsSame(m, d, p + 1, q);
      }
    }
  }

  /** In a good memory no two user pages share a frame, and none of the frames is free. */
  lemma NoSharing(m: Mem, d: nat, p: nat, e: nat, q: nat, all: set<nat>)
    requires Good(m, all) && p < USERPAGES && q < USERPAGES && Entry(m, d, p).Pte? && Entry(m, e, q).Pte?
    ensures Entry(m, d, p).frame == Entry(m, e, q).frame ==> d == e && p == q
    ensures Entry(m, d, p).frame !in m.free && Entry(m, d, p).frame !in m.held
  {
    assert Owns(m, User(d, Pdx(p), Ptx(p)), Entry(m, d, p).frame);
    assert Owns(m, User(e, Pdx(q), Ptx(q)), Entry(m, e, q).frame);
    assert !Owns(m, Free, Entry(m, d, p).frame) && !Owns(m, Held, Entry(m, d, p).frame);
  }

  lemma AroundTwice(m: Mem, k: Mem, n: Mem, d: nat, p: nat, q: nat)
    requires Around(m, k, d, p, q) && Around(k, n, d, p, q)
    requires q <= USERPAGES && AllAbsent(m, d, p, q) && AllAbsent(n, d, p, q)
    ensures SameMaps(m, n)
  {
    forall e, x: Idx, y: Idx ensures SameAt(m, n, e, x, y) {
      if e == d && In(x, y, p, q) {
        assert Entry(m, d, x * ENTRIES + y) == Absent && Entry(n, d, x * ENTRIES + y) == Absent;
      } else {
        assert SameAt(m, k, e, x, y) && SameAt(k, n, e, x, y);
      }
    }
  }

  /**
   * allocuvm maps exactly the pages from PGROUNDUP(oldsz) to PGROUNDUP(newsz) to zeroed frames that were free, or
   * leaves every mapping and every held frame as it was.
   */
  lemma {:induction false} AllocUvmIs(m: Mem, d: nat, oldsz: nat, newsz: nat, all: set<nat>)
    requires Good(m, all) && d in m.dirs && AllAbsent(m, d, Up(oldsz), USERPAGES)
    ensures var r := AllocUvm(m, d, oldsz, newsz); Good(r.0, all) && r.0.held == m.held
    ensures newsz >= KERNBASE ==> AllocUvm(m, d, oldsz, newsz) == (m, 0)
    ensures newsz < oldsz && newsz < KERNBASE ==> AllocUvm(m, d, oldsz, newsz) == (m, oldsz)
    ensures oldsz <= newsz < KERNBASE && AllocPages(m, d, Up(oldsz), Up(newsz)).1 == Done ==>
      var r := AllocUvm(m, d, oldsz, newsz);
      r.1 == newsz && Around(m, r.0, d, Up(oldsz), Up(newsz)) && AllNew(m, r.0, d, Up(oldsz), Up(newsz))
    ensures oldsz <= newsz < KERNBASE && AllocPages(m, d, Up(oldsz), Up(newsz)).1 != Done ==>
      var r := AllocUvm(m, d, oldsz, newsz); r.1 == 0 && SameMaps(m, r.0)
  {
    hide Good, Around, AllAbsent, SameMaps, AllNew, AllNewOrAbsent, DeallocPages;
    GoodIs(m, all);
    if oldsz <= newsz < KERNBASE {
      var p, q := Up(oldsz), Up(newsz);
      FewerAbsent(m, d, p, q, USERPAGES);
      AllocPagesKeeps(m, d, p, q, all);
      var r := AllocPages(m, d, p, q);
      if r.1 != Done {
        DeallocPagesKeeps(r.0, d, p, q, all);
        var n := DeallocPages(r.0, d, p, q);
        AroundTwice(m, r.0, n, d, p, q);
        if r.1.NoTable? {
          ReleaseKeeps(n, r.1.frame, all);
          SameTrans(m, n, Release(n, r.1.frame));
        }
        assert oldsz == newsz ==> p == q;
      }
    }
  }

  lemma FewerAbsent(m: Mem, d: nat, p: nat, q: nat, q': nat)
    requires AllAbsent(m, d, p, q') && q <= q' <= USERPAGES
    ensures AllAbsent(m, d, p, q)
  {
  }

  // When the frames suffice -----------------------------------------------------------------------

  /** The frames pages p to q - 1 need: one each, and one for every page table that is missing. */
  function Cost(t: Table, p: nat, q: nat): nat
    requires q <= ENTRIES * ENTRIES
    decreases q - p
  {
    if p >= q then 0
    else 1 + (if t[Pdx(p)].Absent? then 1 else 0) + Cost(t[Pdx(p) := Pte(0, WUP)], p + 1, q)
  }

  /** The directory entries of pages p to q - 1 that have no page table. */
  function NoTables(t: Table, p: nat, q: nat): set<Idx> {
    set x: Idx | p < q && p / ENTRIES <= x <= (q - 1) / ENTRIES && t[x].Absent?
  }

  lemma {:induction false} CostIs(t: Table, p: nat, q: nat)
    requires p <= q <= ENTRIES * ENTRIES
    ensures Cost(t, p, q) == q - p + |NoTables(t, p, q)|
    decreases q - p
  {
    if p < q {
      var x, u := Pdx(p), t[Pdx(p) := Pte(0, WUP)];
      CostIs(u, p + 1, q);
      assert NoTables(t, p, q) == if t[x].Absent? then NoTables(u, p + 1, q) + {x} else NoTables(u, p + 1, q);
    } else {
      assert NoTables(t, p, q) == {};
    }
  }

  lemma {:induction false} CostSame(t: Table, u: Table, p: nat, q: nat)
    requires q <= ENTRIES * ENTRIES && forall x: Idx :: t[x].Absent? <==> u[x].Absent?
    ensures Cost(t, p, q) == Cost(u, p, q)
    decreases q - p
  {
    if p < q {
      CostSame(t[Pdx(p) := Pte(0, WUP)], u[Pdx(p) := Pte(0, WUP)], p + 1, q);
    }
  }

  lemma GetPageCost(m: Mem, d: nat, p: nat, page: Page, flags: nat)
    requires d in m.dirs && p < ENTRIES * ENTRIES && Closed(m)
    ensures var g := GetPage(m, d, p, page, flags); var c := 1 + (if m.dirs[d][Pdx(p)].Absent? then 1 else 0);
      && (g.1 == Done <==> c <= |m.free|)
      && (g.1 == Done ==> |g.0.free| == |m.free| - c)
      && (g.1 == Done ==> forall x: Idx :: g.0.dirs[d][x].Absent? <==> m.dirs[d][x].Absent? && x != Pdx(p))
  {
  }

  /** allocuvm's loop succeeds exactly when that many frames are free. */
  lemma {:induction false} DoneIff(m: Mem, d: nat, p: nat, q: nat)
    requires d in m.dirs && q <= ENTRIES * ENTRIES && Closed(m)
    ensures AllocPages(m, d, p, q).1 == Done <==> Cost(m.dirs[d], p, q) <= |m.free|
    decreases q - p
  {
    hide GetPage;
    if p < q {
      GetPageCost(m, d, p, ZeroPage(), WUP);
      var g := GetPage(m, d, p, ZeroPage(), WUP);
      var t := m.dirs[d];
      if g.1 == Done {
        DoneIff(g.0, d, p + 1, q);
        CostSame(g.0.dirs[d], t[Pdx(p) := Pte(0, WUP)], p + 1, q);
      }
    }
  }
}
