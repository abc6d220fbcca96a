/**
 * Whole address spaces (vm.c): giving one back, and what stays of the others.
 */
module VmSpaces {
  import opened Vm
  import opened VmOps

  datatype Option<+T> = None | Some(value: T)

  // freevm ----------------------------------------------------------------------------------------

  /** The frames of the page tables from directory entry x on, in order. */
  function TabList(t: Table, x: nat): seq<nat>
    requires x <= ENTRIES
    decreases ENTRIES - x
  {
    if x == ENTRIES then [] else (if t[x].Pte? then [t[x].frame] else []) + TabList(t, x + 1)
  }

  function Elems(s: seq<nat>): set<nat> { set f | f in s }

  function ReleaseAll(m: Mem, fs: seq<nat>): (n: Mem)
    ensures n.dirs == m.dirs && n.tables == m.tables
    decreases |fs|
  {
    if fs == [] then m else ReleaseAll(Release(m, fs[0]), fs[1..])
  }

  function FreeVm(m: Mem, d: nat): (n: Mem)
    requires d in m.dirs && Closed(m)
    ensures n.dirs == m.dirs - {d} && Closed(n)
  {
    var k := DropDir(DeallocPages(m, d, 0, USERPAGES), d);
    ReleaseAll(k, TabList(m.dirs[d], 0) + [d])
  }

  lemma {:induction false} ReleaseAllKeeps(m: Mem, fs: seq<nat>, all: set<nat>)
    requires Good(m, all) && NoDup(fs) && forall f | f in fs :: f in m.held
    ensures var n := ReleaseAll(m, fs); Good(n, all) && SameMaps(m, n) && n.held == m.held - Elems(fs)
    decreases |fs|
  {
    hide Good, SameMaps;
    if fs == [] {
      SameSelf(m);
    } else {
      ReleaseKeeps(m, fs[0], all);
      var k := Release(m, fs[0]);
      assert forall f | f in fs[1..] :: f != fs[0];
      ReleaseAllKeeps(k, fs[1..], all);
      SameTrans(m, k, ReleaseAll(k, fs[1..]));
      assert Elems(fs) == Elems(fs[1..]) + {fs[0]};
    }
  }

  lemma {:induction false} TabListIs(t: Table, x: nat, f: nat)
    requires x <= ENTRIES
    ensures f in TabList(t, x) <==> exists y: Idx :: x <= y && t[y].Pte? && t[y].frame == f
    decreases ENTRIES - x
  {
    if x < ENTRIES {
      TabListIs(t, x + 1, f);
    }
  }

  lemma {:induction false} TabListNoDup(t: Table, x: nat)
    requires x <= ENTRIES && forall y: Idx, z: Idx | t[y].Pte? && t[z].Pte? && t[y].frame == t[z].frame :: y == z
    ensures NoDup(TabList(t, x))
    decreases ENTRIES - x
  {
    if x < ENTRIES {
      TabListNoDup(t, x + 1);
      if t[x].Pte? {
        TabListIs(t, x + 1, t[x].frame);
      }
    }
  }

  lemma TabsApart(m: Mem, d: nat, y: Idx, z: Idx)
    requires Unique(m) && d in m.dirs && m.dirs[d][y].Pte?
    ensures m.dirs[d][y].frame != d && (m.dirs[d][z].Pte? && m.dirs[d][y].frame == m.dirs[d][z].frame ==> y == z)
  {
    assert Owns(m, Dir, d) && Owns(m, Tab(d, y), m.dirs[d][y].frame);
    assert m.dirs[d][z].Pte? ==> Owns(m, Tab(d, z), m.dirs[d][z].frame);
  }

  /** In a good memory the directory and its tables are different frames. */
  lemma TablesDiffer(m: Mem, d: nat, all: set<nat>)
    requires Good(m, all) && d in m.dirs
    ensures NoDup(TabList(m.dirs[d], 0) + [d])
    ensures Elems(TabList(m.dirs[d], 0) + [d]) == TabFrames(m, d) + {d}
  {
    hide Good, Unique, NoDup, TabList;
    GoodIs(m, all);
    var t := m.dirs[d];
    forall y: Idx, z: Idx | t[y].Pte? ensures t[y].frame != d && (t[z].Pte? && t[y].frame == t[z].frame ==> y == z) {
      TabsApart(m, d, y, z);
    }
    TabListNoDup(t, 0);
    forall f ensures f in TabList(t, 0) <==> f in TabFrames(m, d) {
      TabListIs(t, 0, f);
    }
    NoDupEnd(TabList(t, 0), d);
  }

  lemma NoDupEnd(s: seq<nat>, d: nat)
    requires NoDup(s) && d !in s
    ensures NoDup(s + [d])
  {
  }

  /** Frame f is the directory, a page table or a user page of space d. */
  ghost predicate Of(m: Mem, d: nat, f: nat) {
    || (f == d && d in m.dirs)
    || (exists x: Idx :: Owns(m, Tab(d, x), f))
    || (exists x: Idx, y: Idx :: Owns(m, User(d, x, y), f))
  }

  /** Every space but d is the same. */
  ghost predicate OthersSame(m: Mem, n: Mem, d: nat) {
    forall e, x, y :: e != d ==> SameAt(m, n, e, x, y)
  }

  /**
   * freevm adds to the free list, once each, the frames of its space and no others, and no other space changes.
   */
  lemma {:induction false} FreeVmIs(m: Mem, d: nat, all: set<nat>)
    requires Good(m, all) && d in m.dirs
    ensures var n := FreeVm(m, d); Good(n, all) && n.held == m.held && OthersSame(m, n, d)
    ensures forall f :: f in FreeVm(m, d).free <==> f in m.free || Of(m, d, f)
  {
    hide Good, SameMaps, Around, AllAbsent, OthersSame, Of, TabList, TabFrames, NoDup;
    GoodIs(m, all);
    var k := DeallocPages(m, d, 0, USERPAGES);
    DeallocPagesKeeps(m, d, 0, USERPAGES, all);
    UserAbsent(k, d);
    DropDirKeeps(k, d, all);
    var h := DropDir(k, d);
    var fs := TabList(m.dirs[d], 0) + [d];
    TablesDiffer(k, d, all);
    assert forall f | f in fs :: f in Elems(fs);
    ReleaseAllKeeps(h, fs, all);
    var n := ReleaseAll(h, fs);
    OthersTrans(m, k, h, n, d);
    HeldBack(m.held, TabFrames(k, d), d);
    FreedAre(m, n, d, all);
  }

  lemma HeldBack(held: set<nat>, fs: set<nat>, d: nat)
    requires forall f | f in fs + {d} :: f !in held
    ensures held + {d} + fs - (fs + {d}) == held
  {
  }

  lemma UserAbsent(k: Mem, d: nat)
    requires AllAbsent(k, d, 0, USERPAGES)
    ensures forall x: Idx, y: Idx | x < USERDIR :: At(k, d, x, y) == Absent
  {
    forall x: Idx, y: Idx | x < USERDIR ensures At(k, d, x, y) == Absent {
      assert Entry(k, d, x * ENTRIES + y) == Absent;
    }
  }

  lemma OthersTrans(m: Mem, k: Mem, h: Mem, n: Mem, d: nat)
    requires Around(m, k, d, 0, USERPAGES) && SameMaps(h, n) && forall e, x, y | e != d :: SameAt(k, h, e, x, y)
    ensures OthersSame(m, n, d)
  {
    forall e, x, y | e != d ensures SameAt(m, n, e, x, y) {
      assert SameAt(m, k, e, x, y) && SameAt(k, h, e, x, y) && SameAt(h, n, e, x, y);
    }
  }

  /** Who owns a frame of no space but d, before and after. */
  lemma OwnerStays(m: Mem, n: Mem, d: nat, o: Owner, f: nat)
    requires n.held == m.held && n.dirs == m.dirs - {d} && OthersSame(m, n, d)
    ensures o == Held || (o == Dir && f != d) || ((o.Tab? || o.User?) && o.d != d) ==>
      (Owns(n, o, f) <==> Owns(m, o, f))
  {
    if o.User? && o.d != d {
      assert SameAt(m, n, o.d, o.x, o.y);
    }
  }

  lemma FreedAre(m: Mem, n: Mem, d: nat, all: set<nat>)
    requires Good(m, all) && Good(n, all) && d in m.dirs && n.held == m.held
    requires n.dirs == m.dirs - {d} && OthersSame(m, n, d)
    ensures forall f :: f in n.free <==> f in m.free || Of(m, d, f)
  {
    hide OthersSame;
    forall f ensures f in n.free <==> f in m.free || Of(m, d, f) {
      FreedIs(m, n, d, f, all);
    }
  }

  lemma FreedIs(m: Mem, n: Mem, d: nat, f: nat, all: set<nat>)
    requires Good(m, all) && Good(n, all) && d in m.dirs && n.held == m.held
    requires n.dirs == m.dirs - {d} && OthersSame(m, n, d)
    ensures f in n.free <==> f in m.free || Of(m, d, f)
  {
    hide OthersSame;
    if f in all {
      assert Owned(m, f) && Owned(n, f);
      var o :| Owns(m, o, f);
      var p :| Owns(n, p, f);
      OwnerStays(m, n, d, o, f);
      OwnerStays(m, n, d, p, f);
      assert Owns(m, p, f) ==> o == p;
      assert Owns(n, o, f) ==> o == p;
      DropGone(n, d, p, f);
      assert f in n.free <==> p == Free by {
        assert f in n.free ==> Owns(n, Free, f);
      }
      assert f in m.free <==> o == Free by {
        assert f in m.free ==> Owns(m, Free, f);
      }
      OfIs(m, d, o, f);
    } else {
      assert f in n.free ==> Owns(n, Free, f);
      assert f in m.free ==> Owns(m, Free, f);
      assert forall o :: Owns(m, o, f) ==> Owned(m, f);
      assert Owns(m, Dir, d);
    }
  }

  lemma DropGone(n: Mem, d: nat, p: Owner, f: nat)
    requires d !in n.dirs && Owns(n, p, f)
    ensures !((p.Tab? || p.User?) && p.d == d) && !(p == Dir && f == d)
  {
  }

  lemma OfIs(m: Mem, d: nat, o: Owner, f: nat)
    requires Unique(m) && Owns(m, o, f) && d in m.dirs
    ensures Of(m, d, f) <==> (o == Dir && f == d) || ((o.Tab? || o.User?) && o.d == d)
  {
    assert Owns(m, Dir, d);
  }
}
